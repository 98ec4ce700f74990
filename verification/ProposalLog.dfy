/** The proposal endpoints over their table. The governance actions they call are given by name. */
module ProposalLog {
  import opened Outcomes
  import opened Hex
  import opened ProposalActions
  import opened Proposals

  predicate IsLeast(s: set<int>, m: int) {
    m in s && forall x | x in s :: m <= x
  }

  lemma Inhabitant<T>(s: set<T>) returns (x: T)
    requires s != {}
    ensures x in s
  {
    x :| x in s;
  }

  lemma {:induction false} LeastExists(s: set<int>)
    requires s != {}
    ensures exists m :: IsLeast(s, m)
    decreases |s|
  {
    var x := Inhabitant(s);
    var rest := s - {x};
    if rest == {} {
      assert s == {x};
      assert IsLeast(s, x);
    } else {
      LeastExists(rest);
      var m :| IsLeast(rest, m);
      assert s == rest + {x};
      assert IsLeast(s, if m <= x then m else x);
    }
  }

  /** The keys of a map, sorted by number. */
  function Sorted(s: set<int>): (r: seq<int>)
    decreases |s|
  {
    if s == {} then []
    else
      LeastExists(s);
      var m :| IsLeast(s, m);
      [m] + Sorted(s - {m})
  }

  ghost predicate Increasing(r: seq<int>) {
    forall i, j | 0 <= i < j < |r| :: r[i] < r[j]
  }

  lemma {:induction false} SortedSorts(s: set<int>)
    ensures Increasing(Sorted(s)) && forall x :: x in Sorted(s) <==> x in s
    decreases |s|
  {
    if s == {} {
    } else {
      LeastExists(s);
      var m :| IsLeast(s, m);
      var rest := Sorted(s - {m});
      SortedSorts(s - {m});
      assert Sorted(s) == [m] + rest;
      forall k | 0 <= k < |rest| ensures m < rest[k] { assert rest[k] in s - {m}; }
    }
  }

  lemma {:induction false} SortedSetSize(r: seq<int>)
    requires Increasing(r)
    ensures |set x | x in r| == |r|
  {
    if r == [] {
    } else {
      SortedSetSize(r[1..]);
      assert (set x | x in r) == {r[0]} + set x | x in r[1..];
    }
  }

  /** How many times are newer than the one at a place in the sorted list. */
  lemma NewerByPlace(index: map<int, Digest>, times: seq<int>, i: nat)
    requires Increasing(times) && forall t :: t in times <==> t in index
    requires i < |times|
    ensures |Newer(index, times[i])| == |times| - 1 - i
  {
    var rest := times[i + 1..];
    assert Newer(index, times[i]) == set x | x in rest by {
      forall u | u in Newer(index, times[i]) ensures u in rest {
        var k :| 0 <= k < |times| && times[k] == u;
        assert rest[k - i - 1] == u;
      }
    }
    SortedSetSize(rest);
  }

  function Named(index: map<int, Digest>, times: seq<int>): set<Digest> {
    set t | t in times && t in index :: index[t]
  }

  lemma NamedOneMore(index: map<int, Digest>, times: seq<int>, i: nat)
    requires i < |times| && times[i] in index
    ensures Named(index, times[..i + 1]) == Named(index, times[..i]) + {index[times[i]]}
  {
    var shorter, longer := times[..i], times[..i + 1];
    assert longer == shorter + [times[i]];
    forall d | d in Named(index, longer) ensures d in Named(index, shorter) + {index[times[i]]} {
      var t :| t in longer && t in index && d == index[t];
      assert t == times[i] || t in shorter;
    }
    assert longer[i] == times[i];
    forall d | d in Named(index, shorter) ensures d in Named(index, longer) {
      var t :| t in shorter && t in index && d == index[t];
      assert t in longer;
    }
    assert index[times[i]] in Named(index, longer);
  }

  function InsertByTime(at: Bytes -> int, p: Bytes, s: seq<Bytes>): seq<Bytes> {
    if s == [] then [p]
    else if at(p) < at(s[0]) then [p] + s
    else [s[0]] + InsertByTime(at, p, s[1..])
  }

  /** A stable sort by creation time. */
  function SortByTime(at: Bytes -> int, s: seq<Bytes>): seq<Bytes> {
    if s == [] then [] else InsertByTime(at, s[|s| - 1], SortByTime(at, s[..|s| - 1]))
  }

  ghost predicate IsSorted(at: Bytes -> int, s: seq<Bytes>) {
    forall i, j | 0 <= i < j < |s| :: at(s[i]) <= at(s[j])
  }

  lemma {:induction false} InsertKeeps(at: Bytes -> int, p: Bytes, s: seq<Bytes>)
    ensures multiset(InsertByTime(at, p, s)) == multiset(s) + multiset{p}
  {
    if s == [] {
    } else {
      assert s == [s[0]] + s[1..];
      if at(p) >= at(s[0]) { InsertKeeps(at, p, s[1..]); }
    }
  }

  lemma {:induction false} InsertSorts(at: Bytes -> int, p: Bytes, s: seq<Bytes>)
    requires IsSorted(at, s)
    ensures IsSorted(at, InsertByTime(at, p, s))
  {
    if s == [] || at(p) < at(s[0]) {
    } else {
      var rest := s[1..];
      InsertSorts(at, p, rest);
      var r := InsertByTime(at, p, rest);
      forall k | 0 <= k < |r| ensures at(s[0]) <= at(r[k]) {
        InsertKeeps(at, p, rest);
        assert r[k] in multiset(r);
        if r[k] != p { assert r[k] in rest; }
      }
    }
  }

  /** Sorting orders by time and keeps every entry. */
  lemma {:induction false} SortByTimeSorts(at: Bytes -> int, s: seq<Bytes>)
    ensures IsSorted(at, SortByTime(at, s)) && multiset(SortByTime(at, s)) == multiset(s)
  {
    if s == [] {
    } else {
      SortByTimeSorts(at, s[..|s| - 1]);
      InsertSorts(at, s[|s| - 1], SortByTime(at, s[..|s| - 1]));
      InsertKeeps(at, s[|s| - 1], SortByTime(at, s[..|s| - 1]));
      assert s == s[..|s| - 1] + [s[|s| - 1]];
    }
  }

  lemma {:induction false} MultiplicityMeansTwo<T>(s: seq<T>, x: T)
    ensures multiset(s)[x] >= 2 <==> exists i, j :: 0 <= i < j < |s| && s[i] == x && s[j] == x
  {
    if s == [] {
    } else {
      var front, last := s[..|s| - 1], |s| - 1;
      assert s == front + [s[last]];
      MultiplicityMeansTwo(front, x);
      if multiset(s)[x] >= 2 {
        if s[last] == x {
          assert x in front;
          var i :| 0 <= i < |front| && front[i] == x;
          assert s[i] == x && s[last] == x;
        } else {
          var i, j :| 0 <= i < j < |front| && front[i] == x && front[j] == x;
          assert s[i] == x && s[j] == x;
        }
      }
      if i, j :| 0 <= i < j < |s| && s[i] == x && s[j] == x {
        if j < last { assert front[i] == x && front[j] == x; } else { assert front[i] == x && x in front; }
      }
    }
  }

  /** Sorting the entries of a table, in whatever order they were read, lists the table. */
  lemma SortedEntriesList(table: Table, at: Bytes -> int, entries: seq<Bytes>)
    requires forall p | p in entries :: Sha256(p) in table && table[Sha256(p)] == p
    requires forall d | d in table :: table[d] in entries
    requires forall i, j | 0 <= i < j < |entries| :: entries[i] != entries[j]
    ensures IsListing(table, at, SortByTime(at, entries))
  {
    var order := SortByTime(at, entries);
    SortByTimeSorts(at, entries);
    forall p ensures p in order <==> p in entries {
      assert p in multiset(order) <==> p in multiset(entries);
    }
    forall i, j | 0 <= i < j < |order| ensures order[i] != order[j] {
      if order[i] == order[j] {
        MultiplicityMeansTwo(order, order[i]);
        MultiplicityMeansTwo(entries, order[i]);
      }
    }
  }

  predicate Prints(order: seq<Bytes>, printed: seq<string>) {
    |printed| == |order| && forall i | 0 <= i < |order| :: printed[i] == ToHex(order[i])
  }

  method PrintAll(order: seq<Bytes>) returns (printed: seq<string>)
    ensures Prints(order, printed)
  {
    printed := [];
    for i := 0 to |order|
      invariant Prints(order[..i], printed)
    {
      printed := printed + [ToHex(order[i])];
    }
    assert order[..|order|] == order;
  }

  /** With strictly increasing times, what is listed is the retained window, in the order of acceptance. */
  lemma ListedInAcceptanceOrder(at: Bytes -> int, log: seq<Bytes>, tables: seq<Table>, printed: seq<string>)
    requires IsRun(at, log, tables) && StrictlyIncreasing(at, log)
    requires exists order :: IsListing(tables[|log|], at, order) && Prints(order, printed)
    ensures Prints(Window(log), printed)
  {
    var order :| IsListing(tables[|log|], at, order) && Prints(order, printed);
    ListingIsAcceptanceOrder(at, log, tables, order);
  }

  lemma EvictedByPlace(index: map<int, Digest>, times: seq<int>, i: nat)
    requires Increasing(times) && forall t :: t in times <==> t in index
    requires i == if |times| <= PROPOSALS_TO_KEEP then 0 else |times| - PROPOSALS_TO_KEEP
    ensures Evicted(index) == Named(index, times[..i])
  {
    forall j | 0 <= j < |times| ensures |Newer(index, times[j])| >= PROPOSALS_TO_KEEP <==> j < i {
      NewerByPlace(index, times, j);
    }
    forall t ensures t in times[..i] <==> t in index && |Newer(index, t)| >= PROPOSALS_TO_KEEP {
      if t in index {
        assert t in times;
        var j :| 0 <= j < |times| && times[j] == t;
        if j < i { assert times[..i][j] == t; }
      }
    }
  }

  class Service<A, S> {
    var proposalsPolicyMap: Table
    /** The tables the governance actions write. */
    var policies: S
    const actions: map<string, (A, S) -> Option<S>>
    const createdAt: Bytes -> int

    /** Every proposal is filed under its own digest. */
    ghost predicate Valid()
      reads this
    {
      forall d | d in proposalsPolicyMap :: d == Sha256(proposalsPolicyMap[d])
    }

    constructor (policies: S, actions: map<string, (A, S) -> Option<S>>, createdAt: Bytes -> int)
      ensures Valid() && proposalsPolicyMap == map[] && this.policies == policies
      ensures this.actions == actions && this.createdAt == createdAt
    {
      this.proposalsPolicyMap, this.policies := map[], policies;
      this.actions, this.createdAt := actions, createdAt;
    }

    /** One retained proposal for every creation time; entries are read in an order of the platform's own. */
    method IndexByTime() returns (index: map<int, Digest>)
      ensures IsTimeIndex(proposalsPolicyMap, createdAt, index)
    {
      index := map[];
      var todo := proposalsPolicyMap.Keys;
      while todo != {}
        invariant todo <= proposalsPolicyMap.Keys
        invariant forall t | t in index ::
                    index[t] in proposalsPolicyMap && createdAt(proposalsPolicyMap[index[t]]) == t
        invariant forall d | d in proposalsPolicyMap && d !in todo :: createdAt(proposalsPolicyMap[d]) in index
        decreases todo
      {
        var id :| id in todo;
        index := index[createdAt(proposalsPolicyMap[id]) := id];
        todo := todo - {id};
      }
    }

    /**
     `denied` is the status of a caller without permission. A refused or failing request commits nothing;
     an accepted one commits what its actions wrote and one step of the log.
    */
    method PostProposals(denied: Option<int>, callerId: string, body: Bytes, proposalActions: seq<(string, A)>)
      returns (r: Response<seq<ProposalResult<A>>>)
      requires Valid()
      modifies this
      ensures Valid()
      ensures r == if denied.Some? then Failed(denied.value)
                   else if !Accepts(old(proposalsPolicyMap), createdAt, body) then Failed(400)
                   else match RunActions(actions, proposalActions, old(policies))
                        case NotFound => Failed(404)
                        case Threw => Failed(500)
                        case Done(_) => Succeeded(Results(proposalActions, callerId))
      ensures !r.Succeeded? ==> proposalsPolicyMap == old(proposalsPolicyMap) && policies == old(policies)
      ensures r.Succeeded? ==> Done(policies) == RunActions(actions, proposalActions, old(policies))
      ensures r.Succeeded? ==> Posted(old(proposalsPolicyMap), createdAt, body, proposalsPolicyMap)
    {
      if denied.Some? { return Failed(denied.value); }
      var index := IndexByTime();
      // below the maximum of the retained times; with nothing retained there is no maximum to be below
      if exists t | t in index.Keys :: createdAt(body) < t {
        assert !Accepts(proposalsPolicyMap, createdAt, body);
        return Failed(400);
      }
      assert Accepts(proposalsPolicyMap, createdAt, body);

      var written := policies;
      var results: seq<ProposalResult<A>> := [];
      for i := 0 to |proposalActions|
        invariant RunActions(actions, proposalActions[i..], written) == RunActions(actions, proposalActions, policies)
        invariant results == Results(proposalActions[..i], callerId)
        invariant unchanged(this)
      {
        var (name, args) := proposalActions[i];
        assert proposalActions[i..][0] == (name, args) && proposalActions[i..][1..] == proposalActions[i + 1..];
        if name !in actions { return Failed(404); }
        var next := actions[name](args, written);
        if next.None? { return Failed(500); }
        written := next.value;
        results := results + [ProposalResult(DigestOf(args), callerId)];
      }
      assert proposalActions[..|proposalActions|] == proposalActions;

      ghost var before, read := proposalsPolicyMap, index;
      var stored := proposalsPolicyMap[Sha256(body) := body];
      index := index[createdAt(body) := Sha256(body)];
      var table := Evict(stored, index);
      assert PostedBy(before, createdAt, body, read, table);
      proposalsPolicyMap, policies := table, written;
      r := Succeeded(results);
    }

    /** Delete what the index names for every time but the newest five. */
    method Evict(stored: Table, index: map<int, Digest>) returns (table: Table)
      ensures table == stored - Evicted(index)
    {
      var times := Sorted(index.Keys);
      SortedSorts(index.Keys);
      table := stored;
      var i := 0;
      while i < |times| - PROPOSALS_TO_KEEP
        invariant 0 <= i <= |times|
        invariant i > 0 ==> i <= |times| - PROPOSALS_TO_KEEP
        invariant table == stored - Named(index, times[..i])
      {
        NamedOneMore(index, times, i);
        table := table - {index[times[i]]};
        i := i + 1;
      }
      EvictedByPlace(index, times, i);
    }

    /** The retained proposals, each once, in the platform's own order. */
    method ReadAll() returns (entries: seq<Bytes>)
      requires Valid()
      ensures forall p | p in entries :: Sha256(p) in proposalsPolicyMap && proposalsPolicyMap[Sha256(p)] == p
      ensures forall d | d in proposalsPolicyMap :: proposalsPolicyMap[d] in entries
      ensures forall i, j | 0 <= i < j < |entries| :: entries[i] != entries[j]
    {
      entries := [];
      var todo := proposalsPolicyMap.Keys;
      while todo != {}
        invariant todo <= proposalsPolicyMap.Keys
        invariant forall p | p in entries :: Sha256(p) in proposalsPolicyMap && Sha256(p) !in todo
        invariant forall p | p in entries :: proposalsPolicyMap[Sha256(p)] == p
        invariant forall d | d in proposalsPolicyMap && d !in todo :: proposalsPolicyMap[d] in entries
        invariant forall i, j | 0 <= i < j < |entries| :: entries[i] != entries[j]
        decreases todo
      {
        var id :| id in todo;
        entries := entries + [proposalsPolicyMap[id]];
        todo := todo - {id};
      }
    }

    /** Every retained proposal once, oldest first, in hex. */
    method GetProposals() returns (proposals: seq<string>)
      requires Valid()
      ensures exists order :: IsListing(proposalsPolicyMap, createdAt, order) && Prints(order, proposals)
    {
      var entries := ReadAll();
      SortedEntriesList(proposalsPolicyMap, createdAt, entries);
      var sorted := SortByTime(createdAt, entries);
      proposals := PrintAll(sorted);
    }
  }
}
