/**
 What a post deletes, exactly: one proposal of every creation time outside the newest five, and nothing
 else. From this, how many proposals of a time are left after any run, and for which runs the table is the
 last five accepted proposals all along.
*/
module ProposalWindow {
  import opened Proposals

  /** The retained proposals of creation time `t`. */
  ghost function Retained(table: Table, at: Bytes -> int, t: int): set<Digest> {
    set d | d in table && at(table[d]) == t
  }

  /** Everything accepted with creation time `t`. */
  ghost function AcceptedAt(at: Bytes -> int, log: seq<Bytes>, t: int): set<Digest> {
    set q | q in log && at(q) == t :: Sha256(q)
  }

  /** The retained creation times after `t`. */
  ghost function RetainedLater(table: Table, at: Bytes -> int, t: int): set<int> {
    set d | d in table && at(table[d]) > t :: at(table[d])
  }

  ghost predicate Keyed(table: Table) {
    forall d | d in table :: d == Sha256(table[d])
  }

  // ---------------------------------------------------------------- one post

  lemma NewerIsRetainedLater(table: Table, at: Bytes -> int, p: Bytes, index: map<int, Digest>, t: int)
    requires Keyed(table) && IsTimeIndex(table, at, index)
    ensures Newer(index[at(p) := Sha256(p)], t) == RetainedLater(table[Sha256(p) := p], at, t)
  {
    var named, stored := index[at(p) := Sha256(p)], table[Sha256(p) := p];
    forall u | u in Newer(named, t) ensures u in RetainedLater(stored, at, t) {
      assert u == at(p) || at(stored[index[u]]) == u;
      assert Sha256(p) in stored;
    }
  }

  lemma EvictedOfTime(table: Table, at: Bytes -> int, p: Bytes, index: map<int, Digest>, d: Digest)
    requires Keyed(table) && IsTimeIndex(table, at, index)
    requires d in table[Sha256(p) := p]
    ensures var named, t := index[at(p) := Sha256(p)], at(table[Sha256(p) := p][d]);
            d in Evicted(named) <==> t in named && named[t] == d && |Newer(named, t)| >= PROPOSALS_TO_KEEP
  {
    var named := index[at(p) := Sha256(p)];
    if d in Evicted(named) {
      var u :| u in named && |Newer(named, u)| >= PROPOSALS_TO_KEEP && named[u] == d;
      assert u == at(table[Sha256(p) := p][d]);
    }
  }

  /** One proposal of every creation time outside the newest five goes, whichever the index names, and nothing else. */
  lemma PostDropsOnePerOutdatedTime(table: Table, at: Bytes -> int, p: Bytes, after: Table, t: int)
    requires Keyed(table) && Posted(table, at, p, after)
    ensures var stored := table[Sha256(p) := p];
            if |RetainedLater(stored, at, t)| >= PROPOSALS_TO_KEEP && Retained(stored, at, t) != {}
            then exists d | d in Retained(stored, at, t) :: Retained(after, at, t) == Retained(stored, at, t) - {d}
            else Retained(after, at, t) == Retained(stored, at, t)
  {
    var index :| PostedBy(table, at, p, index, after);
    var named, stored := index[at(p) := Sha256(p)], table[Sha256(p) := p];
    NewerIsRetainedLater(table, at, p, index, t);
    forall d | d in Retained(stored, at, t)
      ensures d in after <==> !(named[t] == d && |Newer(named, t)| >= PROPOSALS_TO_KEEP)
    {
      EvictedOfTime(table, at, p, index, d);
      assert t in named;
    }
    if |RetainedLater(stored, at, t)| >= PROPOSALS_TO_KEEP && Retained(stored, at, t) != {} {
      var some :| some in Retained(stored, at, t);
      assert t in named && named[t] in Retained(stored, at, t);
      assert Retained(after, at, t) == Retained(stored, at, t) - {named[t]};
    }
  }

  // ---------------------------------------------------------------- runs

  /** How many of the first `i` posts left creation time `t` outside the newest five. */
  ghost function OutdatedPosts(at: Bytes -> int, log: seq<Bytes>, t: int, i: nat): nat
    requires i <= |log|
  {
    if i == 0 then 0
    else OutdatedPosts(at, log, t, i - 1) + if |LaterTimes(at, log[..i], t)| >= PROPOSALS_TO_KEEP then 1 else 0
  }

  lemma LaterTimesGrow(at: Bytes -> int, log: seq<Bytes>, t: int, i: nat, j: nat)
    requires i <= j <= |log|
    ensures LaterTimes(at, log[..i], t) <= LaterTimes(at, log[..j], t)
    ensures |LaterTimes(at, log[..i], t)| <= |LaterTimes(at, log[..j], t)|
  {
    assert log[..i] == log[..j][..i];
    SubsetSize(LaterTimes(at, log[..i], t), LaterTimes(at, log[..j], t));
  }

  lemma {:induction false} NoOutdatedPosts(at: Bytes -> int, log: seq<Bytes>, t: int, i: nat)
    requires i <= |log| && |LaterTimes(at, log[..i], t)| < PROPOSALS_TO_KEEP
    ensures OutdatedPosts(at, log, t, i) == 0
  {
    if i == 0 {
    } else {
      LaterTimesGrow(at, log, t, i - 1, i);
      NoOutdatedPosts(at, log, t, i - 1);
    }
  }

  /** Dropped proposals have five later times in the log. */
  ghost predicate RemembersFive(table: Table, at: Bytes -> int, log: seq<Bytes>) {
    forall q | q in log && Sha256(q) !in table :: |LaterTimes(at, log, at(q))| >= PROPOSALS_TO_KEEP
  }

  lemma LaterShrinks(at: Bytes -> int, log: seq<Bytes>, t: int, u: int)
    requires u in LaterTimes(at, log, t)
    ensures |LaterTimes(at, log, u)| < |LaterTimes(at, log, t)|
  {
    SubsetSize(LaterTimes(at, log, u), LaterTimes(at, log, t) - {u});
  }

  /** If five times after `t` were ever accepted, then five are still retained. */
  lemma {:induction false} FiveLaterRetained(table: Table, at: Bytes -> int, log: seq<Bytes>, t: int)
    requires Keyed(table) && RemembersFive(table, at, log)
    requires |LaterTimes(at, log, t)| >= PROPOSALS_TO_KEEP
    ensures |RetainedLater(table, at, t)| >= PROPOSALS_TO_KEEP
    decreases |LaterTimes(at, log, t)|
  {
    if LaterTimes(at, log, t) <= RetainedLater(table, at, t) {
      SubsetSize(LaterTimes(at, log, t), RetainedLater(table, at, t));
    } else {
      var u :| u in LaterTimes(at, log, t) && u !in RetainedLater(table, at, t);
      var q :| q in log && at(q) == u;
      assert Sha256(q) !in table;
      LaterShrinks(at, log, t, u);
      FiveLaterRetained(table, at, log, u);
      SubsetSize(RetainedLater(table, at, u), RetainedLater(table, at, t));
    }
  }

  /** A time among the newest five loses nothing. */
  lemma NewestLoseNothing(at: Bytes -> int, log: seq<Bytes>, table: Table, t: int)
    requires Inv(at, log, table) && |LaterTimes(at, log, t)| < PROPOSALS_TO_KEEP
    ensures Retained(table, at, t) == AcceptedAt(at, log, t)
  {
    forall d | d in AcceptedAt(at, log, t) ensures d in Retained(table, at, t) {
      var q :| q in log && at(q) == t && Sha256(q) == d;
      assert Sha256(q) in table && table[d] == q;
    }
  }

  /** The newest accepted time is after `t` if any is. */
  lemma LastIsLater(at: Bytes -> int, grown: seq<Bytes>, t: int)
    requires forall i, j | 0 <= i <= j < |grown| :: at(grown[i]) <= at(grown[j])
    requires LaterTimes(at, grown, t) != {}
    ensures at(grown[|grown| - 1]) > t
  {
    var u :| u in LaterTimes(at, grown, t);
  }

  lemma AcceptedAtOlder(at: Bytes -> int, log: seq<Bytes>, p: Bytes, t: int)
    requires at(p) != t
    ensures AcceptedAt(at, log + [p], t) == AcceptedAt(at, log, t)
  {}

  lemma StoredRemembersFive(at: Bytes -> int, log: seq<Bytes>, table: Table, p: Bytes)
    requires Inv(at, log, table)
    ensures Keyed(table[Sha256(p) := p]) && RemembersFive(table[Sha256(p) := p], at, log + [p])
  {
    var stored, grown := table[Sha256(p) := p], log + [p];
    forall q | q in grown && Sha256(q) !in stored ensures |LaterTimes(at, grown, at(q))| >= PROPOSALS_TO_KEEP {
      assert q in log;
      SubsetSize(LaterTimes(at, log, at(q)), LaterTimes(at, grown, at(q)));
    }
  }

  lemma StoredFiveLater(at: Bytes -> int, log: seq<Bytes>, table: Table, p: Bytes, t: int)
    requires Inv(at, log, table) && |LaterTimes(at, log + [p], t)| >= PROPOSALS_TO_KEEP
    ensures |RetainedLater(table[Sha256(p) := p], at, t)| >= PROPOSALS_TO_KEEP
  {
    StoredRemembersFive(at, log, table, p);
    FiveLaterRetained(table[Sha256(p) := p], at, log + [p], t);
  }

  lemma RetainedOlder(table: Table, at: Bytes -> int, p: Bytes, t: int)
    requires Keyed(table) && at(p) != t
    ensures Retained(table[Sha256(p) := p], at, t) == Retained(table, at, t)
  {}

  lemma OutdatedIsOlder(at: Bytes -> int, log: seq<Bytes>, table: Table, p: Bytes, t: int)
    requires Inv(at, log, table) && Accepts(table, at, p) && LaterTimes(at, log + [p], t) != {}
    ensures at(p) > t && Keyed(table)
  {
    PostKeepsOrder(table, at, log, p);
    LastIsLater(at, log + [p], t);
  }

  lemma DropsOneOlder(table: Table, at: Bytes -> int, p: Bytes, after: Table, t: int)
    requires Keyed(table) && at(p) > t && Posted(table, at, p, after)
    requires |RetainedLater(table[Sha256(p) := p], at, t)| >= PROPOSALS_TO_KEEP
    ensures |Retained(after, at, t)| == if Retained(table, at, t) == {} then 0 else |Retained(table, at, t)| - 1
  {
    RetainedOlder(table, at, p, t);
    PostDropsOnePerOutdatedTime(table, at, p, after, t);
  }

  lemma OutdatedPostDropsOne(at: Bytes -> int, log: seq<Bytes>, table: Table, p: Bytes, after: Table, t: int)
    requires Inv(at, log, table) && Accepts(table, at, p) && Posted(table, at, p, after)
    requires |LaterTimes(at, log + [p], t)| >= PROPOSALS_TO_KEEP
    ensures AcceptedAt(at, log + [p], t) == AcceptedAt(at, log, t)
    ensures |Retained(after, at, t)| == if Retained(table, at, t) == {} then 0 else |Retained(table, at, t)| - 1
  {
    OutdatedIsOlder(at, log, table, p, t);
    AcceptedAtOlder(at, log, p, t);
    StoredFiveLater(at, log, table, p, t);
    DropsOneOlder(table, at, p, after, t);
  }

  lemma OutdatedStepDropsOne(at: Bytes -> int, log: seq<Bytes>, tables: seq<Table>, i: nat, t: int)
    requires IsRun(at, log, tables) && 0 < i <= |log|
    requires |LaterTimes(at, log[..i], t)| >= PROPOSALS_TO_KEEP
    ensures AcceptedAt(at, log[..i], t) == AcceptedAt(at, log[..i - 1], t)
    ensures |Retained(tables[i], at, t)|
            == if Retained(tables[i - 1], at, t) == {} then 0 else |Retained(tables[i - 1], at, t)| - 1
  {
    RunKeepsInv(at, log, tables, i - 1);
    RunStep(at, log, tables, i);
    OneMore(log, i);
    OutdatedPostDropsOne(at, log[..i - 1], tables[i - 1], log[i - 1], tables[i], t);
  }

  lemma NewestCount(at: Bytes -> int, log: seq<Bytes>, tables: seq<Table>, i: nat, t: int)
    requires IsRun(at, log, tables) && i <= |log| && |LaterTimes(at, log[..i], t)| < PROPOSALS_TO_KEEP
    ensures Retained(tables[i], at, t) == AcceptedAt(at, log[..i], t) && OutdatedPosts(at, log, t, i) == 0
  {
    RunKeepsInv(at, log, tables, i);
    NewestLoseNothing(at, log[..i], tables[i], t);
    NoOutdatedPosts(at, log, t, i);
  }

  lemma OnePostMore(at: Bytes -> int, log: seq<Bytes>, t: int, i: nat)
    requires i <= |log| && |LaterTimes(at, log[..i], t)| >= PROPOSALS_TO_KEEP
    ensures i > 0 && OutdatedPosts(at, log, t, i) == OutdatedPosts(at, log, t, i - 1) + 1
  {}

  /** What is left of an amount. */
  function Left(accepted: nat, gone: nat): nat {
    if accepted <= gone then 0 else accepted - gone
  }

  lemma OneLessLeft(at: Bytes -> int, log: seq<Bytes>, tables: seq<Table>, i: nat, t: int)
    requires IsRun(at, log, tables) && 0 < i <= |log|
    requires |LaterTimes(at, log[..i], t)| >= PROPOSALS_TO_KEEP
    requires |Retained(tables[i - 1], at, t)|
             == Left(|AcceptedAt(at, log[..i - 1], t)|, OutdatedPosts(at, log, t, i - 1))
    ensures |Retained(tables[i], at, t)| == Left(|AcceptedAt(at, log[..i], t)|, OutdatedPosts(at, log, t, i))
  {
    OnePostMore(at, log, t, i);
    OutdatedStepDropsOne(at, log, tables, i, t);
  }

  /**
   For every run and every creation time, ties included: what is left of a time is everything accepted with
   it, less one for every post made since five later times were accepted.
  */
  lemma {:induction false} RetainedCountIs(at: Bytes -> int, log: seq<Bytes>, tables: seq<Table>, i: nat, t: int)
    requires IsRun(at, log, tables) && i <= |log|
    ensures |Retained(tables[i], at, t)| == Left(|AcceptedAt(at, log[..i], t)|, OutdatedPosts(at, log, t, i))
    decreases i
  {
    if |LaterTimes(at, log[..i], t)| < PROPOSALS_TO_KEEP {
      NewestCount(at, log, tables, i, t);
    } else {
      OnePostMore(at, log, t, i);
      RetainedCountIs(at, log, tables, i - 1, t);
      OneLessLeft(at, log, tables, i, t);
    }
  }

  // ---------------------------------------------------------------- the last five proposals

  ghost function TimesOf(at: Bytes -> int, s: seq<Bytes>): set<int> {
    set q | q in s :: at(q)
  }

  lemma {:induction false} TimesAtMost(at: Bytes -> int, s: seq<Bytes>)
    ensures |TimesOf(at, s)| <= |s|
  {
    if s == [] {
    } else {
      var front, last := s[..|s| - 1], s[|s| - 1];
      TimesAtMost(at, front);
      assert s == front + [last];
      assert TimesOf(at, s) == TimesOf(at, front) + {at(last)};
    }
  }

  /** Two neighbours of one time leave fewer times than proposals. */
  lemma TieLosesTime(at: Bytes -> int, s: seq<Bytes>, k: nat)
    requires k + 1 < |s| && at(s[k]) == at(s[k + 1])
    ensures |TimesOf(at, s)| < |s|
  {
    var rest := s[..k + 1] + s[k + 2..];
    TimesAtMost(at, rest);
    assert s[k] == rest[k] && s == s[..k + 1] + [s[k + 1]] + s[k + 2..];
    assert TimesOf(at, s) == TimesOf(at, rest);
  }

  lemma FewTimesEvictNothing(index: map<int, Digest>)
    requires |index.Keys| <= PROPOSALS_TO_KEEP
    ensures Evicted(index) == {}
  {
    forall t | t in index ensures |Newer(index, t)| < PROPOSALS_TO_KEEP {
      SubsetSize(Newer(index, t), index.Keys - {t});
    }
  }

  lemma FewTimesDropNothing(table: Table, at: Bytes -> int, w: seq<Bytes>, p: Bytes, after: Table)
    requires Holds(table, w) && Posted(table, at, p, after)
    requires |TimesOf(at, w + [p])| <= PROPOSALS_TO_KEEP
    ensures Holds(after, w + [p])
  {
    var index :| PostedBy(table, at, p, index, after);
    var named := index[at(p) := Sha256(p)];
    forall u | u in named ensures u in TimesOf(at, w + [p]) {
      NamedTimes(table, at, w, p, index, u);
    }
    SubsetSize(named.Keys, TimesOf(at, w + [p]));
    FewTimesEvictNothing(named);
    HoldsOneMore(table, w, p);
  }

  lemma {:induction false} FewAreAllKept(at: Bytes -> int, log: seq<Bytes>, tables: seq<Table>, i: nat)
    requires IsRun(at, log, tables) && i <= |log| && i <= PROPOSALS_TO_KEEP
    ensures Holds(tables[i], log[..i])
  {
    if i == 0 {
    } else {
      FewAreAllKept(at, log, tables, i - 1);
      RunStep(at, log, tables, i);
      OneMore(log, i);
      TimesAtMost(at, log[..i]);
      FewTimesDropNothing(tables[i - 1], at, log[..i - 1], log[i - 1], tables[i]);
    }
  }

  lemma SixNeighbours(log: seq<Bytes>, i: nat)
    requires PROPOSALS_TO_KEEP < i <= |log|
    ensures Window(log[..i - 1]) + [log[i - 1]] == log[i - PROPOSALS_TO_KEEP - 1..i]
  {}

  lemma FirstIsNotInWindow(log: seq<Bytes>, i: nat)
    requires PROPOSALS_TO_KEEP < i <= |log| && forall a, b | 0 <= a < b < |log| :: log[a] != log[b]
    ensures log[i - PROPOSALS_TO_KEEP - 1] !in Window(log[..i])
  {
    assert Window(log[..i]) == log[i - PROPOSALS_TO_KEEP..i];
  }

  lemma TiePostKeepsSix(at: Bytes -> int, table: Table, w: seq<Bytes>, p: Bytes, after: Table, k: nat)
    requires Holds(table, w) && Posted(table, at, p, after) && |w| == PROPOSALS_TO_KEEP
    requires k < |w| && at((w + [p])[k]) == at((w + [p])[k + 1])
    ensures Holds(after, w + [p])
  {
    TieLosesTime(at, w + [p], k);
    FewTimesDropNothing(table, at, w, p, after);
  }

  lemma HoldsOneTooMany(table: Table, six: seq<Bytes>, w: seq<Bytes>, q: Bytes)
    requires Holds(table, six) && six != [] && six[0] == q && q !in w
    ensures !Holds(table, w)
  {
    assert q in six && Sha256(q) in table && Sha256(table[Sha256(q)]) == Sha256(q);
  }

  lemma TieIsAmongSix(at: Bytes -> int, log: seq<Bytes>, i: nat, k: nat)
    requires PROPOSALS_TO_KEEP < i <= |log|
    requires i - PROPOSALS_TO_KEEP - 1 <= k < i - 1 && at(log[k]) == at(log[k + 1])
    ensures var six, j := log[i - PROPOSALS_TO_KEEP - 1..i], k - (i - PROPOSALS_TO_KEEP - 1);
            0 <= j < PROPOSALS_TO_KEEP && |six| == PROPOSALS_TO_KEEP + 1 && at(six[j]) == at(six[j + 1])
  {}

  lemma TiePostBreaksWindow(at: Bytes -> int, log: seq<Bytes>, i: nat, k: nat, table: Table, after: Table)
    requires PROPOSALS_TO_KEEP < i <= |log|
    requires i - PROPOSALS_TO_KEEP - 1 <= k < i - 1 && at(log[k]) == at(log[k + 1])
    requires forall a, b | 0 <= a < b < |log| :: log[a] != log[b]
    requires Holds(table, Window(log[..i - 1])) && Posted(table, at, log[i - 1], after)
    ensures !Holds(after, Window(log[..i]))
  {
    var first := i - PROPOSALS_TO_KEEP - 1;
    var w, p, six := Window(log[..i - 1]), log[i - 1], log[first..i];
    assert log[first] !in Window(log[..i]) by { FirstIsNotInWindow(log, i); }
    assert w + [p] == six && |w| == PROPOSALS_TO_KEEP by { SixNeighbours(log, i); }
    TieIsAmongSix(at, log, i, k);
    TiePostKeepsSix(at, table, w, p, after, k - first);
    HoldsOneTooMany(after, six, Window(log[..i]), log[first]);
  }

  /** A tie among six neighbours: no post of the last of them can leave exactly the last five. */
  lemma TieBreaksWindow(at: Bytes -> int, log: seq<Bytes>, tables: seq<Table>, i: nat, k: nat)
    requires IsRun(at, log, tables) && PROPOSALS_TO_KEEP < i <= |log|
    requires i - PROPOSALS_TO_KEEP - 1 <= k < i - 1 && at(log[k]) == at(log[k + 1])
    requires forall a, b | 0 <= a < b < |log| :: log[a] != log[b]
    ensures Holds(tables[i - 1], Window(log[..i - 1])) ==> !Holds(tables[i], Window(log[..i]))
  {
    RunStep(at, log, tables, i);
    if Holds(tables[i - 1], Window(log[..i - 1])) {
      TiePostBreaksWindow(at, log, i, k, tables[i - 1], tables[i]);
    }
  }

  lemma SortedTie(at: Bytes -> int, log: seq<Bytes>) returns (k: nat)
    requires forall i, j | 0 <= i <= j < |log| :: at(log[i]) <= at(log[j])
    requires !StrictlyIncreasing(at, log)
    ensures k + 1 < |log| && at(log[k]) == at(log[k + 1])
  {
    var i, j :| 0 <= i < j < |log| && at(log[i]) >= at(log[j]);
    assert at(log[i]) <= at(log[i + 1]) <= at(log[j]);
    k := i;
  }

  /** The table is the last five accepted proposals, or all while there are fewer, in every state of the run. */
  ghost predicate AlwaysWindow(log: seq<Bytes>, tables: seq<Table>)
    requires |tables| == |log| + 1
  {
    forall i | 0 <= i <= |log| :: Holds(tables[i], Window(log[..i]))
  }

  lemma RunTie(at: Bytes -> int, log: seq<Bytes>, tables: seq<Table>) returns (k: nat)
    requires IsRun(at, log, tables) && !StrictlyIncreasing(at, log)
    ensures k + 1 < |log| && at(log[k]) == at(log[k + 1])
  {
    RunKeepsInv(at, log, tables, |log|);
    assert log[..|log|] == log;
    k := SortedTie(at, log);
  }

  /**
   For every run of pairwise different proposals: the table is the window of the last five all along, if and
   only if no more than five were accepted or their times strictly increase.
  */
  lemma AlwaysWindowIff(at: Bytes -> int, log: seq<Bytes>, tables: seq<Table>)
    requires IsRun(at, log, tables) && forall a, b | 0 <= a < b < |log| :: log[a] != log[b]
    ensures AlwaysWindow(log, tables) <==> |log| <= 5 || StrictlyIncreasing(at, log)
  {
    if |log| <= PROPOSALS_TO_KEEP {
      forall i | 0 <= i <= |log| ensures Holds(tables[i], Window(log[..i])) {
        FewAreAllKept(at, log, tables, i);
      }
    } else if StrictlyIncreasing(at, log) {
      forall i | 0 <= i <= |log| ensures Holds(tables[i], Window(log[..i])) {
        RunPrefix(at, log, tables, i);
        TableIsWindow(at, log[..i], tables[..i + 1]);
      }
    } else {
      var k := RunTie(at, log, tables);
      var i := if k + 2 <= PROPOSALS_TO_KEEP then PROPOSALS_TO_KEEP + 1 else k + 2;
      if AlwaysWindow(log, tables) {
        assert Holds(tables[i - 1], Window(log[..i - 1])) && Holds(tables[i], Window(log[..i]));
        TieBreaksWindow(at, log, tables, i, k);
      }
    }
  }
}
