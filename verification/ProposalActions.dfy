/**
 What the actions of a proposal do: each is looked up by name and applied to the tables the one before it left,
 and the first that is unknown or throws ends the request.
*/
module ProposalActions {
  import opened Outcomes

  /** How the actions of a proposal end: the policy tables they leave, no such action, or an exception. */
  datatype Outcome<+S> = Done(tables: S) | NotFound | Threw

  /** Validate and apply the actions in order; the first that fails ends the request. */
  function RunActions<A, S>(actions: map<string, (A, S) -> Option<S>>, todo: seq<(string, A)>, s: S): Outcome<S> {
    if todo == [] then Done(s)
    else if todo[0].0 !in actions then NotFound
    else
      match actions[todo[0].0](todo[0].1, s)
      case None => Threw
      case Some(next) => RunActions(actions, todo[1..], next)
  }

  /** The digest of an action's arguments, taken to be injective. */
  datatype ArgsDigest<+A> = DigestOf(args: A)

  /** What is answered for one action; its state is always accepted, without ballots. */
  datatype ProposalResult<+A> = ProposalResult(proposalId: ArgsDigest<A>, proposerId: string)

  function Results<A>(todo: seq<(string, A)>, proposerId: string): seq<ProposalResult<A>> {
    seq(|todo|, i requires 0 <= i < |todo| => ProposalResult(DigestOf(todo[i].1), proposerId))
  }

  /** The tables before and after every action: each name is known, and each action takes its tables to the next. */
  ghost predicate IsChain<A, S>(actions: map<string, (A, S) -> Option<S>>, todo: seq<(string, A)>, tables: seq<S>) {
    && |tables| == |todo| + 1
    && forall i | 0 <= i < |todo| ::
         todo[i].0 in actions && actions[todo[i].0](todo[i].1, tables[i]) == Some(tables[i + 1])
  }

  /** A chain from `s` to `t`. */
  ghost predicate Leads<A, S(!new)>(
      actions: map<string, (A, S) -> Option<S>>, todo: seq<(string, A)>, s: S, t: S)
  {
    exists tables: seq<S> :: IsChain(actions, todo, tables) && tables[0] == s && tables[|todo|] == t
  }

  lemma LeadsNowhere<A, S(!new)>(actions: map<string, (A, S) -> Option<S>>, s: S, t: S)
    ensures Leads(actions, [], s, t) <==> s == t
  {
    if s == t { assert IsChain(actions, [], [s]); }
  }

  /** A chain is its first action and a chain for the others. */
  lemma LeadsOn<A, S(!new)>(actions: map<string, (A, S) -> Option<S>>, todo: seq<(string, A)>, s: S, t: S)
    requires todo != []
    ensures Leads(actions, todo, s, t) <==>
            && todo[0].0 in actions && actions[todo[0].0](todo[0].1, s).Some?
            && Leads(actions, todo[1..], actions[todo[0].0](todo[0].1, s).value, t)
  {
    if Leads(actions, todo, s, t) {
      var tables :| IsChain(actions, todo, tables) && tables[0] == s && tables[|todo|] == t;
      assert actions[todo[0].0](todo[0].1, s) == Some(tables[1]);
      assert IsChain(actions, todo[1..], tables[1..]);
    }
    if todo[0].0 in actions && actions[todo[0].0](todo[0].1, s).Some? {
      var next := actions[todo[0].0](todo[0].1, s).value;
      if Leads(actions, todo[1..], next, t) {
        var rest :| IsChain(actions, todo[1..], rest) && rest[0] == next && rest[|todo[1..]|] == t;
        var tables := [s] + rest;
        forall i | 0 <= i < |todo|
          ensures todo[i].0 in actions && actions[todo[i].0](todo[i].1, tables[i]) == Some(tables[i + 1])
        {
          if i > 0 { assert todo[i] == todo[1..][i - 1]; }
        }
        assert IsChain(actions, todo, tables) && tables[|todo|] == t;
      }
    }
  }

  /** The actions leave tables `t` exactly when a chain of known actions leads there. */
  lemma {:induction false} DoneIff<A, S(!new)>(
      actions: map<string, (A, S) -> Option<S>>, todo: seq<(string, A)>, s: S, t: S)
    ensures RunActions(actions, todo, s) == Done(t) <==> Leads(actions, todo, s, t)
    decreases todo
  {
    if todo == [] {
      LeadsNowhere(actions, s, t);
    } else {
      LeadsOn(actions, todo, s, t);
      if todo[0].0 in actions && actions[todo[0].0](todo[0].1, s).Some? {
        DoneIff(actions, todo[1..], actions[todo[0].0](todo[0].1, s).value, t);
      }
    }
  }

  /** The first `k` actions lead to tables `t`, and action number `k` is next. */
  ghost predicate StopsAt<A, S(!new)>(
      actions: map<string, (A, S) -> Option<S>>, todo: seq<(string, A)>, s: S, k: int, t: S)
  {
    0 <= k < |todo| && Leads(actions, todo[..k], s, t)
  }

  lemma StopsAtOnce<A, S(!new)>(actions: map<string, (A, S) -> Option<S>>, todo: seq<(string, A)>, s: S)
    requires todo != []
    ensures StopsAt(actions, todo, s, 0, s)
  {
    assert todo[..0] == [];
    LeadsNowhere(actions, s, s);
  }

  lemma StopsLater<A, S(!new)>(
      actions: map<string, (A, S) -> Option<S>>, todo: seq<(string, A)>, s: S, k: nat, t: S)
    requires todo != [] && todo[0].0 in actions && actions[todo[0].0](todo[0].1, s).Some?
    ensures StopsAt(actions, todo, s, k + 1, t) <==>
            StopsAt(actions, todo[1..], actions[todo[0].0](todo[0].1, s).value, k, t)
  {
    if k + 1 < |todo| {
      assert todo[..k + 1][0] == todo[0] && todo[..k + 1][1..] == todo[1..][..k];
      LeadsOn(actions, todo[..k + 1], s, t);
    }
  }

  lemma StopsOnlyAtOnce<A, S(!new)>(
      actions: map<string, (A, S) -> Option<S>>, todo: seq<(string, A)>, s: S, k: int, t: S)
    requires todo != [] && !(todo[0].0 in actions && actions[todo[0].0](todo[0].1, s).Some?)
    ensures StopsAt(actions, todo, s, k, t) ==> k == 0 && t == s
  {
    if StopsAt(actions, todo, s, k, t) {
      if k == 0 {
        assert todo[..0] == [];
        LeadsNowhere(actions, s, t);
      } else {
        assert todo[..k][0] == todo[0];
        LeadsOn(actions, todo[..k], s, t);
      }
    }
  }

  /** The request ends with 404 exactly when a chain leads to an action that is unknown. */
  lemma {:induction false} NotFoundIff<A, S(!new)>(
      actions: map<string, (A, S) -> Option<S>>, todo: seq<(string, A)>, s: S)
    ensures RunActions(actions, todo, s) == NotFound <==>
            exists k, t :: StopsAt(actions, todo, s, k, t) && todo[k].0 !in actions
    decreases todo
  {
    if todo == [] {
    } else if todo[0].0 in actions && actions[todo[0].0](todo[0].1, s).Some? {
      var next := actions[todo[0].0](todo[0].1, s).value;
      NotFoundIff(actions, todo[1..], next);
      if k, t :| StopsAt(actions, todo[1..], next, k, t) && todo[1..][k].0 !in actions {
        StopsLater(actions, todo, s, k, t);
        assert StopsAt(actions, todo, s, k + 1, t) && todo[k + 1].0 !in actions;
      }
      if k, t :| StopsAt(actions, todo, s, k, t) && todo[k].0 !in actions {
        StopsLater(actions, todo, s, k - 1, t);
        assert StopsAt(actions, todo[1..], next, k - 1, t) && todo[1..][k - 1].0 !in actions;
      }
    } else {
      StopsAtOnce(actions, todo, s);
      forall k, t ensures StopsAt(actions, todo, s, k, t) ==> k == 0 && t == s {
        StopsOnlyAtOnce(actions, todo, s, k, t);
      }
    }
  }

  predicate Throws<A, S>(actions: map<string, (A, S) -> Option<S>>, action: (string, A), t: S) {
    action.0 in actions && actions[action.0](action.1, t).None?
  }

  lemma FirstIsNotLast<A, S(!new)>(
      actions: map<string, (A, S) -> Option<S>>, todo: seq<(string, A)>, s: S, k: int, t: S)
    requires StopsAt(actions, todo, s, k, t) && Throws(actions, todo[k], t) && !Throws(actions, todo[0], s)
    ensures k > 0
  {
    assert todo[..0] == [];
    LeadsNowhere(actions, s, t);
  }

  /** It ends with 500 exactly when a chain leads to a known action that throws. */
  lemma {:induction false} ThrewIff<A, S(!new)>(
      actions: map<string, (A, S) -> Option<S>>, todo: seq<(string, A)>, s: S)
    ensures RunActions(actions, todo, s) == Threw <==>
            exists k, t :: StopsAt(actions, todo, s, k, t) && Throws(actions, todo[k], t)
    decreases todo
  {
    if todo == [] {
    } else if todo[0].0 in actions && actions[todo[0].0](todo[0].1, s).Some? {
      var next := actions[todo[0].0](todo[0].1, s).value;
      ThrewIff(actions, todo[1..], next);
      if k, t :| StopsAt(actions, todo[1..], next, k, t) && Throws(actions, todo[1..][k], t) {
        StopsLater(actions, todo, s, k, t);
        assert StopsAt(actions, todo, s, k + 1, t) && Throws(actions, todo[k + 1], t);
      }
      if k, t :| StopsAt(actions, todo, s, k, t) && Throws(actions, todo[k], t) {
        FirstIsNotLast(actions, todo, s, k, t);
        StopsLater(actions, todo, s, k - 1, t);
        assert StopsAt(actions, todo[1..], next, k - 1, t) && Throws(actions, todo[1..][k - 1], t);
      }
    } else {
      StopsAtOnce(actions, todo, s);
      forall k, t ensures StopsAt(actions, todo, s, k, t) ==> k == 0 && t == s {
        StopsOnlyAtOnce(actions, todo, s, k, t);
      }
    }
  }

  /** Every action is answered for, in order, by the digest of its arguments and the proposer. */
  lemma ResultsAt<A>(todo: seq<(string, A)>, proposerId: string, i: nat)
    requires i < |todo|
    ensures |Results(todo, proposerId)| == |todo|
    ensures var answer := Results(todo, proposerId)[i];
            answer.proposalId == DigestOf(todo[i].1) && answer.proposerId == proposerId
  {}

  /** Two answers are equal exactly when the arguments are, action by action, and the proposer, if any acted. */
  lemma ResultsDetermineArgs<A(!new)>(a: seq<(string, A)>, p: string, b: seq<(string, A)>, q: string)
    ensures Results(a, p) == Results(b, q) <==>
            && |a| == |b| && (forall i | 0 <= i < |a| :: a[i].1 == b[i].1)
            && (a != [] ==> p == q)
  {
    if Results(a, p) == Results(b, q) {
      assert |Results(a, p)| == |a| && |Results(b, q)| == |b|;
      forall i | 0 <= i < |a| ensures a[i].1 == b[i].1 && p == q {
        ResultsAt(a, p, i);
        ResultsAt(b, q, i);
      }
      if a != [] { ResultsAt(a, p, 0); }
    }
  }
}
