/**
 The proposal log: a post is accepted by comparison with what is retained only, and deletes one proposal
 of every creation time outside the newest five. What still holds of everything ever accepted.
*/
module Proposals {
  import opened Hex

  /** A signed proposal as it arrives; its `created_at` header is read by a function `at`. */
  type Bytes = seq<byte>

  /** SHA-256, taken to be injective. */
  datatype Digest = Sha256(of: Bytes)

  type Table = map<Digest, Bytes>

  const PROPOSALS_TO_KEEP := 5

  /** Not created before anything retained. Equal times are accepted. */
  predicate Accepts(table: Table, at: Bytes -> int, p: Bytes) {
    forall d | d in table :: at(table[d]) <= at(p)
  }

  /** `index` names, for every creation time in the table, one proposal of that time. */
  ghost predicate IsTimeIndex(table: Table, at: Bytes -> int, index: map<int, Digest>) {
    && (forall t | t in index :: index[t] in table && at(table[index[t]]) == t)
    && (forall d | d in table :: at(table[d]) in index)
  }

  function Newer(index: map<int, Digest>, t: int): set<int> {
    set u | u in index && u > t
  }

  /** Named for a time that is not among the newest five. */
  function Evicted(index: map<int, Digest>): set<Digest> {
    set t | t in index && |Newer(index, t)| >= PROPOSALS_TO_KEEP :: index[t]
  }

  /** The table an accepted post leaves, for the time index the request has built. */
  ghost predicate PostedBy(table: Table, at: Bytes -> int, p: Bytes, index: map<int, Digest>, after: Table) {
    && IsTimeIndex(table, at, index)
    && after == table[Sha256(p) := p] - Evicted(index[at(p) := Sha256(p)])
  }

  /** A table an accepted post may leave: which of several proposals of one time is named is not determined. */
  ghost predicate Posted(table: Table, at: Bytes -> int, p: Bytes, after: Table) {
    exists index :: PostedBy(table, at, p, index, after)
  }

  /** `tables[i]` is the table after the first `i` accepted posts; refused and failed posts change nothing. */
  ghost predicate IsRun(at: Bytes -> int, log: seq<Bytes>, tables: seq<Table>) {
    && |tables| == |log| + 1
    && tables[0] == map[]
    && forall i | 0 <= i < |log| :: Accepts(tables[i], at, log[i]) && Posted(tables[i], at, log[i], tables[i + 1])
  }

  /** The distinct creation times after `t` among everything accepted. */
  ghost function LaterTimes(at: Bytes -> int, log: seq<Bytes>, t: int): set<int> {
    set q | q in log && at(q) > t :: at(q)
  }

  /** What every run keeps, ties included. */
  ghost predicate Inv(at: Bytes -> int, log: seq<Bytes>, table: Table) {
    && (forall d | d in table :: d == Sha256(table[d]) && table[d] in log)
    && (forall i, j | 0 <= i <= j < |log| :: at(log[i]) <= at(log[j]))
    && (log != [] ==> Sha256(log[|log| - 1]) in table)
    && (forall q | q in log && Sha256(q) !in table :: |LaterTimes(at, log, at(q))| >= PROPOSALS_TO_KEEP)
  }

  lemma SubsetSize<T>(a: set<T>, b: set<T>)
    requires a <= b
    ensures |a| <= |b|
  {
    assert b == a + (b - a);
  }

  lemma LaterThanEvicted(at: Bytes -> int, log: seq<Bytes>, q: Bytes)
    requires q in log && LaterTimes(at, log, at(q)) != {}
    requires forall i, j | 0 <= i <= j < |log| :: at(log[i]) <= at(log[j])
    ensures at(q) < at(log[|log| - 1])
  {
    var u :| u in LaterTimes(at, log, at(q));
  }

  lemma NothingNewer(index: map<int, Digest>, t: int)
    requires forall u | u in index :: u <= t
    ensures Newer(index, t) == {}
  {}

  lemma PostKeepsLatest(table: Table, at: Bytes -> int, log: seq<Bytes>, p: Bytes, index: map<int, Digest>)
    requires Inv(at, log, table) && Accepts(table, at, p) && IsTimeIndex(table, at, index)
    ensures Sha256(p) !in Evicted(index[at(p) := Sha256(p)])
  {
    var named := index[at(p) := Sha256(p)];
    forall t | t in named && named[t] == Sha256(p) ensures |Newer(named, t)| == 0 {
      assert t == at(p);
      NothingNewer(named, t);
    }
  }

  lemma PostEvictsOnlyOld(table: Table, at: Bytes -> int, log: seq<Bytes>, p: Bytes, index: map<int, Digest>, q: Bytes)
    requires Inv(at, log, table) && Accepts(table, at, p) && IsTimeIndex(table, at, index)
    requires Sha256(q) in Evicted(index[at(p) := Sha256(p)]) && q != p
    ensures |LaterTimes(at, log + [p], at(q))| >= PROPOSALS_TO_KEEP
  {
    var named := index[at(p) := Sha256(p)];
    var t :| t in named && |Newer(named, t)| >= PROPOSALS_TO_KEEP && named[t] == Sha256(q);
    assert table[Sha256(q)] == q && t == at(q);
    forall u | u in Newer(named, t) ensures u in LaterTimes(at, log + [p], t) {
      if u == at(p) {
        assert p in log + [p];
      } else {
        var r := table[index[u]];
        assert r in log && r in log + [p] && at(r) == u;
      }
    }
    SubsetSize(Newer(named, t), LaterTimes(at, log + [p], t));
  }

  lemma PostKeepsOrder(table: Table, at: Bytes -> int, log: seq<Bytes>, p: Bytes)
    requires Inv(at, log, table) && Accepts(table, at, p)
    ensures forall i, j | 0 <= i <= j < |log + [p]| :: at((log + [p])[i]) <= at((log + [p])[j])
  {
    var grown := log + [p];
    forall i, j | 0 <= i <= j < |grown| ensures at(grown[i]) <= at(grown[j]) {
      if j == |log| && i < j {
        assert at(log[i]) <= at(log[|log| - 1]);
        assert Sha256(log[|log| - 1]) in table;
      }
    }
  }

  lemma PostKeepsFive(
      table: Table, at: Bytes -> int, log: seq<Bytes>, p: Bytes, index: map<int, Digest>, after: Table, q: Bytes)
    requires Inv(at, log, table) && Accepts(table, at, p) && IsTimeIndex(table, at, index)
    requires after == table[Sha256(p) := p] - Evicted(index[at(p) := Sha256(p)])
    requires q in log && q != p && Sha256(q) !in after
    ensures |LaterTimes(at, log + [p], at(q))| >= PROPOSALS_TO_KEEP
  {
    if Sha256(q) in table {
      PostEvictsOnlyOld(table, at, log, p, index, q);
    } else {
      SubsetSize(LaterTimes(at, log, at(q)), LaterTimes(at, log + [p], at(q)));
    }
  }

  lemma PostKeepsKeyed(table: Table, at: Bytes -> int, log: seq<Bytes>, p: Bytes, gone: set<Digest>)
    requires Inv(at, log, table)
    ensures var after := table[Sha256(p) := p] - gone;
            forall d | d in after :: d == Sha256(after[d]) && after[d] in log + [p]
  {
    var grown := log + [p];
    assert grown[|log|] == p && forall q | q in log :: q in grown;
  }

  lemma PostKeepsInv(table: Table, at: Bytes -> int, log: seq<Bytes>, p: Bytes, after: Table)
    requires Inv(at, log, table) && Accepts(table, at, p) && Posted(table, at, p, after)
    ensures Inv(at, log + [p], after)
  {
    var index :| PostedBy(table, at, p, index, after);
    var grown := log + [p];
    PostKeepsKeyed(table, at, log, p, Evicted(index[at(p) := Sha256(p)]));
    PostKeepsOrder(table, at, log, p);
    assert Sha256(grown[|grown| - 1]) in after by { PostKeepsLatest(table, at, log, p, index); }
    forall q | q in grown && Sha256(q) !in after ensures |LaterTimes(at, grown, at(q))| >= PROPOSALS_TO_KEEP {
      assert grown[|log|] == p && q != p && q in log;
      PostKeepsFive(table, at, log, p, index, after, q);
    }
  }

  lemma RunStep(at: Bytes -> int, log: seq<Bytes>, tables: seq<Table>, i: nat)
    requires IsRun(at, log, tables) && 0 < i <= |log|
    ensures Accepts(tables[i - 1], at, log[i - 1]) && Posted(tables[i - 1], at, log[i - 1], tables[i])
  {}

  lemma RunPrefix(at: Bytes -> int, log: seq<Bytes>, tables: seq<Table>, i: nat)
    requires IsRun(at, log, tables) && i <= |log|
    ensures IsRun(at, log[..i], tables[..i + 1]) && tables[..i + 1][i] == tables[i]
  {
    forall k | 0 <= k < i ensures Accepts(tables[k], at, log[k]) && Posted(tables[k], at, log[k], tables[k + 1]) {
      RunStep(at, log, tables, k + 1);
    }
  }

  /** One more accepted post makes a run one step longer. */
  lemma RunGrows(at: Bytes -> int, log: seq<Bytes>, tables: seq<Table>, p: Bytes, after: Table)
    requires IsRun(at, log, tables) && Accepts(tables[|log|], at, p) && Posted(tables[|log|], at, p, after)
    ensures IsRun(at, log + [p], tables + [after])
  {
    forall i | 0 <= i < |log + [p]|
      ensures Accepts((tables + [after])[i], at, (log + [p])[i])
      ensures Posted((tables + [after])[i], at, (log + [p])[i], (tables + [after])[i + 1])
    {
      if i < |log| { RunStep(at, log, tables, i + 1); }
    }
  }

  lemma OneMore<T>(s: seq<T>, i: nat)
    requires 0 < i <= |s|
    ensures s[..i] == s[..i - 1] + [s[i - 1]]
  {}

  lemma {:induction false} RunKeepsInv(at: Bytes -> int, log: seq<Bytes>, tables: seq<Table>, i: nat)
    requires IsRun(at, log, tables) && i <= |log|
    ensures Inv(at, log[..i], tables[i])
  {
    if i == 0 {
    } else {
      RunKeepsInv(at, log, tables, i - 1);
      RunStep(at, log, tables, i);
      OneMore(log, i);
      PostKeepsInv(tables[i - 1], at, log[..i - 1], log[i - 1], tables[i]);
    }
  }

  lemma InvRemembersNewest(at: Bytes -> int, log: seq<Bytes>, table: Table)
    requires Inv(at, log, table) && log != []
    ensures var newest := log[|log| - 1];
            && Sha256(newest) in table && table[Sha256(newest)] == newest
            && (forall q | q in log :: at(q) <= at(newest))
            && (forall q | q in log && Sha256(q) !in table :: at(q) < at(newest))
  {
    forall q | q in log && Sha256(q) !in table ensures at(q) < at(log[|log| - 1]) {
      LaterThanEvicted(at, log, q);
    }
  }

  /**
   Ties included: the newest accepted proposal is retained, nothing accepted is newer, and a proposal is
   dropped only when at least five later creation times were accepted, so it is strictly older.
  */
  lemma WindowRemembersNewest(at: Bytes -> int, log: seq<Bytes>, tables: seq<Table>)
    requires IsRun(at, log, tables) && log != []
    ensures var table, newest := tables[|log|], log[|log| - 1];
            && Sha256(newest) in table && table[Sha256(newest)] == newest
            && (forall q | q in log :: at(q) <= at(newest))
            && (forall q | q in log && Sha256(q) !in table ::
                  at(q) < at(newest) && |LaterTimes(at, log, at(q))| >= PROPOSALS_TO_KEEP)
  {
    RunKeepsInv(at, log, tables, |log|);
    assert log[..|log|] == log;
    InvRemembersNewest(at, log, tables[|log|]);
  }

  /**
   Replay: an already accepted proposal is accepted again exactly when no newer one has been accepted.
   The design asks new proposals to be more recent than the last accepted one; the comparison lets
   the last one itself, and anything of its creation time, through.
  */
  lemma ReplayAcceptedIff(at: Bytes -> int, log: seq<Bytes>, tables: seq<Table>, q: Bytes)
    requires IsRun(at, log, tables) && q in log
    ensures Accepts(tables[|log|], at, q) <==> at(q) == at(log[|log| - 1])
  {
    WindowRemembersNewest(at, log, tables);
    RunKeepsInv(at, log, tables, |log|);
    assert log[..|log|] == log;
  }

  lemma RefusedIsNotAdded(table: Table, at: Bytes -> int, p: Bytes, after: Table, q: Bytes)
    requires Accepts(table, at, p) && Posted(table, at, p, after)
    requires Sha256(q) !in table && !Accepts(table, at, q)
    ensures Sha256(q) !in after
  {}

  lemma DroppedIsRejected(at: Bytes -> int, log: seq<Bytes>, tables: seq<Table>, j: nat, q: Bytes)
    requires IsRun(at, log, tables) && j <= |log| && q in log[..j] && Sha256(q) !in tables[j]
    ensures !Accepts(tables[j], at, q)
  {
    RunPrefix(at, log, tables, j);
    WindowRemembersNewest(at, log[..j], tables[..j + 1]);
  }

  /** Once dropped, a proposal is refused in every later state, and never comes back. */
  lemma {:induction false} DroppedStaysRejected(
      at: Bytes -> int, log: seq<Bytes>, tables: seq<Table>, i: nat, j: nat, q: Bytes)
    requires IsRun(at, log, tables) && i <= j <= |log|
    requires q in log[..i] && Sha256(q) !in tables[i]
    ensures Sha256(q) !in tables[j] && !Accepts(tables[j], at, q)
    decreases j
  {
    if i == j {
    } else {
      DroppedStaysRejected(at, log, tables, i, j - 1, q);
      RunStep(at, log, tables, j);
      RefusedIsNotAdded(tables[j - 1], at, log[j - 1], tables[j], q);
    }
    assert q in log[..j] by {
      var k :| 0 <= k < i && log[k] == q;
      assert log[..j][k] == q;
    }
    DroppedIsRejected(at, log, tables, j, q);
  }

  // ---------------------------------------------------------------- strictly increasing times

  ghost predicate StrictlyIncreasing(at: Bytes -> int, log: seq<Bytes>) {
    forall i, j | 0 <= i < j < |log| :: at(log[i]) < at(log[j])
  }

  /** The last five, or all while there are fewer. */
  function Window(log: seq<Bytes>): seq<Bytes> {
    log[if |log| <= PROPOSALS_TO_KEEP then 0 else |log| - PROPOSALS_TO_KEEP..]
  }

  /** The table holds the proposals of `w`, each under its digest. */
  ghost predicate Holds(table: Table, w: seq<Bytes>) {
    && (forall d | d in table :: table[d] in w && d == Sha256(table[d]))
    && (forall q | q in w :: Sha256(q) in table)
  }

  lemma {:induction false} TimesDistinct(at: Bytes -> int, w: seq<Bytes>)
    requires StrictlyIncreasing(at, w)
    ensures |set q | q in w :: at(q)| == |w|
  {
    if w == [] {
    } else {
      var front := w[..|w| - 1];
      var last := w[|w| - 1];
      TimesDistinct(at, front);
      assert w == front + [last];
      assert (set q | q in w :: at(q)) == (set q | q in front :: at(q)) + {at(last)};
    }
  }

  lemma LaterIsInRest(at: Bytes -> int, w: seq<Bytes>, k: nat, u: int)
    requires StrictlyIncreasing(at, w) && k < |w|
    ensures (exists q :: q in w && at(q) == u) && u > at(w[k]) <==> exists q :: q in w[k + 1..] && at(q) == u
  {
    var rest := w[k + 1..];
    if (exists q :: q in w && at(q) == u) && u > at(w[k]) {
      var m :| 0 <= m < |w| && at(w[m]) == u;
      assert rest[m - k - 1] == w[m];
    }
    if q :| q in rest && at(q) == u {
      var m :| 0 <= m < |rest| && rest[m] == q;
      assert w[m + k + 1] == q;
    }
  }

  lemma NewerIsRest(at: Bytes -> int, w: seq<Bytes>, k: nat, index: map<int, Digest>)
    requires StrictlyIncreasing(at, w) && k < |w|
    requires forall t :: t in index <==> exists q :: q in w && at(q) == t
    ensures |Newer(index, at(w[k]))| == |w| - 1 - k
  {
    var rest := w[k + 1..];
    forall u ensures u in Newer(index, at(w[k])) <==> u in set q | q in rest :: at(q) {
      LaterIsInRest(at, w, k, u);
    }
    assert Newer(index, at(w[k])) == set q | q in rest :: at(q);
    TimesDistinct(at, rest);
  }

  /** The times of the window and the new proposal are the times named in the request. */
  lemma NamedTimes(table: Table, at: Bytes -> int, w: seq<Bytes>, p: Bytes, index: map<int, Digest>, t: int)
    requires Holds(table, w) && IsTimeIndex(table, at, index)
    ensures t in index[at(p) := Sha256(p)] <==> exists q :: q in w + [p] && at(q) == t
  {
    if t == at(p) {
      assert p in w + [p];
    } else if t in index {
      assert table[index[t]] in w + [p];
    }
    if q :| q in w + [p] && at(q) == t {
      if q != p { assert q in w && table[Sha256(q)] == q; }
    }
  }

  lemma SameTimeSame(at: Bytes -> int, w: seq<Bytes>, a: Bytes, b: Bytes)
    requires StrictlyIncreasing(at, w) && a in w && b in w && at(a) == at(b)
    ensures a == b
  {
    var i :| 0 <= i < |w| && w[i] == a;
    var j :| 0 <= j < |w| && w[j] == b;
  }

  lemma NamedByTime(table: Table, at: Bytes -> int, w: seq<Bytes>, p: Bytes, index: map<int, Digest>, k: nat)
    requires StrictlyIncreasing(at, w + [p]) && k <= |w| && Holds(table, w) && IsTimeIndex(table, at, index)
    ensures var named, q := index[at(p) := Sha256(p)], (w + [p])[k];
            at(q) in named && named[at(q)] == Sha256(q)
            && (Sha256(q) in Evicted(named) <==> |Newer(named, at(q))| >= PROPOSALS_TO_KEEP)
  {
    var named, q := index[at(p) := Sha256(p)], (w + [p])[k];
    if k < |w| {
      assert q in w && table[Sha256(q)] == q;
      assert at(q) < at(p) by { assert (w + [p])[|w|] == p; }
      SameTimeSame(at, w + [p], table[index[at(q)]], q);
    }
    if Sha256(q) in Evicted(named) {
      var t :| t in named && |Newer(named, t)| >= PROPOSALS_TO_KEEP && named[t] == Sha256(q);
      assert t == at(q);
    }
  }

  lemma EvictedIffSixth(table: Table, at: Bytes -> int, w: seq<Bytes>, p: Bytes, index: map<int, Digest>, k: nat)
    requires StrictlyIncreasing(at, w + [p]) && k <= |w| && Holds(table, w) && IsTimeIndex(table, at, index)
    ensures Sha256((w + [p])[k]) in Evicted(index[at(p) := Sha256(p)]) <==> k < |w| + 1 - PROPOSALS_TO_KEEP
  {
    var named := index[at(p) := Sha256(p)];
    forall t ensures t in named <==> exists q :: q in w + [p] && at(q) == t {
      NamedTimes(table, at, w, p, index, t);
    }
    NewerIsRest(at, w + [p], k, named);
    NamedByTime(table, at, w, p, index, k);
  }

  lemma HoldsOneMore(table: Table, w: seq<Bytes>, p: Bytes)
    requires Holds(table, w)
    ensures Holds(table[Sha256(p) := p], w + [p])
  {
    var grown := w + [p];
    assert grown[|w|] == p && forall q | q in w :: q in grown;
  }

  lemma WindowGrows(log: seq<Bytes>, p: Bytes)
    ensures var w := Window(log) + [p];
            |w| <= PROPOSALS_TO_KEEP + 1 && Window(log + [p]) == w[if |w| <= PROPOSALS_TO_KEEP then 0 else 1..]
  {}

  lemma DropFirst(table: Table, w: seq<Bytes>, gone: set<Digest>, n: nat)
    requires Holds(table, w) && n <= |w|
    requires forall k | 0 <= k < |w| :: Sha256(w[k]) in gone <==> k < n
    ensures Holds(table - gone, w[n..])
  {
    var after := table - gone;
    forall d | d in after ensures after[d] in w[n..] && d == Sha256(after[d]) {
      var k :| 0 <= k < |w| && w[k] == table[d];
      assert w[n..][k - n] == table[d];
    }
    forall q | q in w[n..] ensures Sha256(q) in after {
      var m :| 0 <= m < |w[n..]| && w[n..][m] == q;
      assert w[m + n] == q;
    }
  }

  lemma PostMovesFive(table: Table, at: Bytes -> int, w: seq<Bytes>, p: Bytes, after: Table)
    requires StrictlyIncreasing(at, w + [p]) && |w| <= PROPOSALS_TO_KEEP
    requires Holds(table, w) && Posted(table, at, p, after)
    ensures Holds(after, (w + [p])[if |w| < PROPOSALS_TO_KEEP then 0 else 1..])
  {
    var index :| PostedBy(table, at, p, index, after);
    var gone := Evicted(index[at(p) := Sha256(p)]);
    forall k | 0 <= k < |w + [p]| ensures Sha256((w + [p])[k]) in gone <==> k < |w| + 1 - PROPOSALS_TO_KEEP {
      EvictedIffSixth(table, at, w, p, index, k);
    }
    HoldsOneMore(table, w, p);
    DropFirst(table[Sha256(p) := p], w + [p], gone, if |w| < PROPOSALS_TO_KEEP then 0 else 1);
  }

  lemma PostMovesWindow(table: Table, at: Bytes -> int, log: seq<Bytes>, p: Bytes, after: Table)
    requires StrictlyIncreasing(at, Window(log) + [p]) && Holds(table, Window(log)) && Posted(table, at, p, after)
    ensures Holds(after, Window(log + [p]))
  {
    WindowGrows(log, p);
    PostMovesFive(table, at, Window(log), p, after);
  }

  lemma WindowIncreases(at: Bytes -> int, log: seq<Bytes>, p: Bytes)
    requires StrictlyIncreasing(at, log + [p])
    ensures StrictlyIncreasing(at, Window(log) + [p])
  {
    var grown, w := log + [p], Window(log) + [p];
    var shift := |log| - |Window(log)|;
    assert forall i | 0 <= i < |w| :: w[i] == grown[i + shift];
  }

  /** With strictly increasing times the table is the last five accepted proposals, or all while there are fewer. */
  lemma {:induction false} TableIsWindow(at: Bytes -> int, log: seq<Bytes>, tables: seq<Table>)
    requires IsRun(at, log, tables) && StrictlyIncreasing(at, log)
    ensures Holds(tables[|log|], Window(log))
    decreases |log|
  {
    if log == [] {
    } else {
      var n := |log| - 1;
      var front, p := log[..n], log[n];
      assert log == front + [p];
      RunPrefix(at, log, tables, n);
      TableIsWindow(at, front, tables[..n + 1]);
      RunStep(at, log, tables, n + 1);
      WindowIncreases(at, front, p);
      PostMovesWindow(tables[n], at, front, p, tables[n + 1]);
    }
  }

  // ---------------------------------------------------------------- listing

  /** Every retained proposal once, oldest first. */
  ghost predicate IsListing(table: Table, at: Bytes -> int, order: seq<Bytes>) {
    && (forall p | p in order :: Sha256(p) in table && table[Sha256(p)] == p)
    && (forall d | d in table :: table[d] in order)
    && (forall i, j | 0 <= i < j < |order| :: order[i] != order[j])
    && (forall i, j | 0 <= i < j < |order| :: at(order[i]) <= at(order[j]))
  }

  lemma FrontIsOthers(at: Bytes -> int, w: seq<Bytes>, q: Bytes)
    requires StrictlyIncreasing(at, w) && w != []
    ensures q in w[..|w| - 1] <==> q in w && q != w[|w| - 1]
  {
    assert w == w[..|w| - 1] + [w[|w| - 1]];
    if q in w[..|w| - 1] {
      var k :| 0 <= k < |w| - 1 && w[k] == q;
    }
  }

  lemma LastIsNewest(at: Bytes -> int, w: seq<Bytes>, q: Bytes)
    requires StrictlyIncreasing(at, w) && q in w
    ensures at(q) <= at(w[|w| - 1])
  {}

  lemma {:induction false} IncreasingUnique(at: Bytes -> int, a: seq<Bytes>, b: seq<Bytes>)
    requires StrictlyIncreasing(at, a) && StrictlyIncreasing(at, b)
    requires forall q :: q in a <==> q in b
    ensures a == b
  {
    if b != [] { assert b[0] in a; }
    if a == [] {
    } else {
      assert a[0] in b;
      var x, y := a[|a| - 1], b[|b| - 1];
      LastIsNewest(at, a, y);
      LastIsNewest(at, b, x);
      SameTimeSame(at, a, x, y);
      var front, other := a[..|a| - 1], b[..|b| - 1];
      forall q ensures q in front <==> q in other {
        FrontIsOthers(at, a, q);
        FrontIsOthers(at, b, q);
      }
      IncreasingUnique(at, front, other);
      assert a == front + [x] && b == other + [y];
    }
  }

  lemma ListingIncreases(at: Bytes -> int, w: seq<Bytes>, order: seq<Bytes>)
    requires StrictlyIncreasing(at, w) && forall q | q in order :: q in w
    requires forall i, j | 0 <= i < j < |order| :: order[i] != order[j] && at(order[i]) <= at(order[j])
    ensures StrictlyIncreasing(at, order)
  {
    forall i, j | 0 <= i < j < |order| ensures at(order[i]) < at(order[j]) {
      if at(order[i]) == at(order[j]) { SameTimeSame(at, w, order[i], order[j]); }
    }
  }

  lemma WindowOfIncreasing(at: Bytes -> int, log: seq<Bytes>)
    requires StrictlyIncreasing(at, log)
    ensures StrictlyIncreasing(at, Window(log))
  {
    var w, shift := Window(log), |log| - |Window(log)|;
    forall i, j | 0 <= i < j < |w| ensures at(w[i]) < at(w[j]) {
      assert w[i] == log[i + shift] && w[j] == log[j + shift];
    }
  }

  lemma ListedIffHeld(table: Table, at: Bytes -> int, order: seq<Bytes>, w: seq<Bytes>, q: Bytes)
    requires Holds(table, w) && IsListing(table, at, order)
    ensures q in order <==> q in w
  {
    if q in w { assert Sha256(q) in table && table[Sha256(q)] in order; }
  }

  /** With strictly increasing times, a listing is the retained window in the order of acceptance. */
  lemma ListingIsAcceptanceOrder(at: Bytes -> int, log: seq<Bytes>, tables: seq<Table>, order: seq<Bytes>)
    requires IsRun(at, log, tables) && StrictlyIncreasing(at, log) && IsListing(tables[|log|], at, order)
    ensures order == Window(log)
  {
    var w, table := Window(log), tables[|log|];
    TableIsWindow(at, log, tables);
    WindowOfIncreasing(at, log);
    forall q ensures q in order <==> q in w {
      ListedIffHeld(table, at, order, w, q);
    }
    ListingIncreases(at, w, order);
    IncreasingUnique(at, order, w);
  }

  // ---------------------------------------------------------------- equal times

  /** A table an accepted post leaves when every retained proposal has one and the same creation time. */
  lemma TiePostKeepsAll(table: Table, at: Bytes -> int, p: Bytes, after: Table, time: int)
    requires forall d :: d in table ==> at(table[d]) == time
    requires at(p) == time && Posted(table, at, p, after)
    ensures after == table[Sha256(p) := p]
  {
    var index :| PostedBy(table, at, p, index, after);
    var named := index[at(p) := Sha256(p)];
    forall t | t in named ensures Newer(named, t) == {} {}
    assert Evicted(named) == {};
  }

  /**
   Nothing bounds the table by the documented five: proposals that share one creation time are all kept,
   however many there are, until five later times are accepted.
  */
  lemma {:induction false} TiesOverflowWindow(at: Bytes -> int, log: seq<Bytes>, tables: seq<Table>, time: int, i: nat)
    requires IsRun(at, log, tables) && i <= |log|
    requires forall k | 0 <= k < |log| :: at(log[k]) == time
    requires forall j, k | 0 <= j < k < |log| :: log[j] != log[k]
    ensures |tables[i]| == i
    ensures forall d | d in tables[i] :: exists k :: 0 <= k < i && d == Sha256(log[k]) && tables[i][d] == log[k]
  {
    if i == 0 {
    } else {
      TiesOverflowWindow(at, log, tables, time, i - 1);
      var p := log[i - 1];
      TiePostKeepsAll(tables[i - 1], at, p, tables[i], time);
      assert Sha256(p) !in tables[i - 1];
      forall d | d in tables[i] ensures exists k :: 0 <= k < i && d == Sha256(log[k]) && tables[i][d] == log[k] {
        if d == Sha256(p) {
          assert tables[i][d] == log[i - 1];
        } else {
          assert d in tables[i - 1];
          var k :| 0 <= k < i - 1 && d == Sha256(log[k]) && tables[i - 1][d] == log[k];
          assert tables[i][d] == log[k];
        }
      }
    }
  }
}
