/**
 Which key public-key clients are given: the newest one that has reached the grace age, else the
 newest one. The countdown over the stores is shown to count old-enough keys on a bare timeline.
*/
module Exposure {
  import opened Outcomes
  import opened KeyRotation
  import opened KeyLifecycle

  ghost predicate Reachable(s: State) {
    exists start, run :: s == Exec(Init(start), run)
  }

  lemma ReachableInv(s: State)
    requires Reachable(s)
    ensures Inv(s)
  {
    var start, run :| s == Exec(Init(start), run);
    InitInv(start);
    RunKeepsInv(Init(start), run);
  }

  /** The countdown of the exposure rule, from `id` on, with its branches for missing records. */
  function Scan(s: State, id: int): Option<(int, string)>
    decreases id
  {
    if id < 1 then None
    else if id !in s.ids then Scan(s, id - 1)
    else
      var kid := s.ids[id];
      if kid !in s.keys || s.keys[kid].timestamp.None? then Some((id, kid))
      else if DelayMs(s.policy) <= 0 || s.now - s.keys[kid].timestamp.value >= DelayMs(s.policy) then Some((id, kid))
      else Scan(s, id - 1)
  }

  function LatestExposableKey(s: State): Option<(int, string)> {
    Scan(s, |s.ids|)
  }

  /** The size of the store doubles as the newest id. */
  function LatestItem(s: State): Option<(int, string)> {
    var id := |s.ids|;
    if id <= 0 || id !in s.ids then None else Some((id, s.ids[id]))
  }

  /** What a public-key client is given when it names no kid. */
  function PublicPick(s: State): Option<(int, string)> {
    match LatestExposableKey(s)
    case Some(pick) => Some(pick)
    case None => LatestItem(s)
  }

  // ---------------------------------------------------------------- timelines

  /** The clock and when each key was made, key 1 first. */
  datatype Timeline = Timeline(now: int, births: seq<int>)

  function TimelineOf(s: State): Timeline {
    Timeline(s.now, seq(|s.ids|, i requires 0 <= i < |s.ids| => Born(s, i + 1)))
  }

  ghost predicate Ordered(t: Timeline) {
    && (forall i, j | 0 <= i <= j < |t.births| :: t.births[i] <= t.births[j])
    && (forall i | 0 <= i < |t.births| :: t.births[i] <= t.now)
  }

  function Advance(t: Timeline, step: Step): Timeline {
    match step
    case Tick(elapsed) => t.(now := t.now + elapsed)
    case SetPolicy(_) => t
    case Refresh(_, elapsed) => Timeline(t.now + elapsed, t.births + [t.now + elapsed])
  }

  function AdvanceAll(t: Timeline, run: seq<Step>): Timeline
    decreases run
  {
    if run == [] then t else AdvanceAll(Advance(t, run[0]), run[1..])
  }

  lemma InvOrders(s: State)
    requires Inv(s)
    ensures Ordered(TimelineOf(s))
  {}

  lemma TimelineGrows(s: State, t: State)
    requires |t.ids| == |s.ids| + 1 && Born(t, |t.ids|) == t.now
    requires forall i | 1 <= i <= |s.ids| :: Born(t, i) == Born(s, i)
    ensures TimelineOf(t) == Timeline(t.now, TimelineOf(s).births + [t.now])
  {}

  lemma RefreshTimeline(s: State, pair: KeyPair, elapsed: nat)
    requires Inv(s)
    ensures TimelineOf(Next(s, Refresh(pair, elapsed))) == Advance(TimelineOf(s), Refresh(pair, elapsed))
  {
    var t := Next(s, Refresh(pair, elapsed));
    assert Extends(s, t) && |t.ids| == |s.ids| + 1 by { RefreshExtends(s, pair, elapsed); }
    assert Born(t, |s.ids| + 1) == t.now by { RefreshMints(s, pair, elapsed); }
    BirthsFixed(s, t);
    TimelineGrows(s, t);
  }

  lemma TimelineStep(s: State, step: Step)
    requires Inv(s)
    ensures TimelineOf(Next(s, step)) == Advance(TimelineOf(s), step)
  {
    var t := Next(s, step);
    match step
    case Refresh(pair, elapsed) =>
      RefreshTimeline(s, pair, elapsed);
    case _ =>
      assert forall i :: Born(t, i) == Born(s, i);
  }

  lemma {:induction false} TimelineRun(s: State, run: seq<Step>)
    requires Inv(s)
    ensures TimelineOf(Exec(s, run)) == AdvanceAll(TimelineOf(s), run)
    ensures Ordered(TimelineOf(Exec(s, run)))
    decreases run
  {
    if run == [] {
      InvOrders(s);
    } else {
      StepKeepsInv(s, run[0]);
      TimelineStep(s, run[0]);
      TimelineRun(Next(s, run[0]), run[1..]);
    }
  }

  lemma {:induction false} AdvanceExtends(t: Timeline, run: seq<Step>)
    ensures t.births <= AdvanceAll(t, run).births && t.now <= AdvanceAll(t, run).now
    decreases run
  {
    if run == [] {
    } else {
      AdvanceExtends(Advance(t, run[0]), run[1..]);
    }
  }

  lemma {:induction false} AdvanceConcat(t: Timeline, a: seq<Step>, b: seq<Step>)
    ensures AdvanceAll(t, a + b) == AdvanceAll(AdvanceAll(t, a), b)
    decreases a
  {
    if a == [] {
      assert a + b == b;
    } else {
      assert (a + b)[0] == a[0] && (a + b)[1..] == a[1..] + b;
      AdvanceConcat(Advance(t, a[0]), a[1..], b);
    }
  }

  /** The number of keys of at least the given age. */
  function OldEnough(births: seq<int>, now: int, delay: int): nat {
    if births == [] then 0
    else
      var last := |births| - 1;
      OldEnough(births[..last], now, delay) + if now - births[last] >= delay then 1 else 0
  }

  /** In order of making, the old-enough keys come first. */
  lemma {:induction false} OldEnoughIsPrefix(t: Timeline, delay: int)
    requires Ordered(t)
    ensures OldEnough(t.births, t.now, delay) <= |t.births|
    ensures forall i | 0 <= i < |t.births| :: t.now - t.births[i] >= delay <==> i < OldEnough(t.births, t.now, delay)
    decreases |t.births|
  {
    if t.births == [] {
    } else {
      var last := |t.births| - 1;
      var front := Timeline(t.now, t.births[..last]);
      OldEnoughIsPrefix(front, delay);
      assert forall i | 0 <= i < last :: front.births[i] == t.births[i];
      if t.now - t.births[last] >= delay {
        var m := OldEnough(front.births, t.now, delay);
        assert m == last;
      }
    }
  }

  /** The number of the picked key on a timeline; zero when there is no key. */
  function PickNumber(t: Timeline, delay: int): nat {
    var m := OldEnough(t.births, t.now, delay);
    if m == 0 then |t.births| else m
  }

  /** `r` is the largest old-enough id up to `bound`, with its kid. */
  ghost predicate IsLargestOldEnough(s: State, bound: int, r: Option<(int, string)>) {
    match r
    case None => forall i | 1 <= i <= bound :: s.now - Born(s, i) < DelayMs(s.policy)
    case Some(p) =>
      && 1 <= p.0 <= bound && p.0 in s.ids && p.1 == s.ids[p.0] && s.now - Born(s, p.0) >= DelayMs(s.policy)
      && forall i | p.0 < i <= bound :: s.now - Born(s, i) < DelayMs(s.policy)
  }

  /** What the countdown stops at: a kid without an item or a timestamp, or one of the grace age. */
  predicate StopsScan(s: State, id: int) {
    && id in s.ids
    && (s.ids[id] in s.keys && s.keys[s.ids[id]].timestamp.Some? ==>
          DelayMs(s.policy) <= 0 || s.now - s.keys[s.ids[id]].timestamp.value >= DelayMs(s.policy))
  }

  /** In any state at all, reachable or not: the answer is the largest id that stops the countdown, with its kid. */
  lemma {:induction false} ScanStopsAtLargest(s: State, bound: int)
    ensures match Scan(s, bound)
            case None => forall id | 1 <= id <= bound :: !StopsScan(s, id)
            case Some((id, kid)) =>
              && 1 <= id <= bound && StopsScan(s, id) && kid == s.ids[id]
              && forall later | id < later <= bound :: !StopsScan(s, later)
    decreases bound
  {
    if bound < 1 {
    } else {
      ScanStopsAtLargest(s, bound - 1);
    }
  }

  /** No id in use lacks a kid, an item or a timestamp, and no key is from the future. */
  ghost predicate Complete(s: State) {
    forall i | 1 <= i <= |s.ids| ::
      i in s.ids && s.ids[i] in s.keys && s.keys[s.ids[i]].timestamp.Some? && Born(s, i) <= s.now
  }

  lemma {:induction false} ScanFindsLargest(s: State, id: int)
    requires Complete(s) && 0 <= id <= |s.ids|
    ensures IsLargestOldEnough(s, id, Scan(s, id))
    decreases id
  {
    if id < 1 {
    } else {
      if DelayMs(s.policy) > 0 && s.now - Born(s, id) < DelayMs(s.policy) {
        ScanFindsLargest(s, id - 1);
      }
    }
  }

  /** The branches for missing records are never taken. */
  lemma EveryIdHasItem(s: State)
    requires Inv(s)
    ensures Complete(s)
  {
    forall i | 1 <= i <= |s.ids|
      ensures i in s.ids && s.ids[i] in s.keys && s.keys[s.ids[i]].timestamp.Some? && Born(s, i) <= s.now
    {
      assert i in s.ids && Minted(s.keys[s.ids[i]], i, s.ids[i]);
    }
  }

  lemma OldEnoughIdsArePrefix(s: State)
    requires Chronological(s)
    ensures var m := OldEnough(TimelineOf(s).births, s.now, DelayMs(s.policy));
            m <= |s.ids| && forall i | 1 <= i <= |s.ids| :: s.now - Born(s, i) >= DelayMs(s.policy) <==> i <= m
  {
    var t := TimelineOf(s);
    assert Ordered(t);
    OldEnoughIsPrefix(t, DelayMs(s.policy));
    forall i | 1 <= i <= |s.ids|
      ensures s.now - Born(s, i) >= DelayMs(s.policy) <==> i <= OldEnough(t.births, s.now, DelayMs(s.policy))
    {
      assert t.births[i - 1] == Born(s, i);
    }
  }

  lemma PrefixEndsAtLargest(s: State, m: nat, r: Option<(int, string)>)
    requires m <= |s.ids| && IsLargestOldEnough(s, |s.ids|, r)
    requires forall i | 1 <= i <= |s.ids| :: s.now - Born(s, i) >= DelayMs(s.policy) <==> i <= m
    ensures m > 0 ==> m in s.ids
    ensures r == if m > 0 then Some((m, s.ids[m])) else None
  {
    if m > 0 {
      assert s.now - Born(s, m) >= DelayMs(s.policy);
      assert r.Some? && r.value.0 == m;
    }
  }

  /**
   The ids of at least the grace age are a prefix 1..m, m being their number, and the countdown
   answers m with its own kid, or nothing when m is zero.
  */
  lemma ScanCountsOldEnough(s: State)
    requires Inv(s)
    ensures var m := OldEnough(TimelineOf(s).births, s.now, DelayMs(s.policy));
            && m <= |s.ids|
            && (forall i | 1 <= i <= |s.ids| :: s.now - Born(s, i) >= DelayMs(s.policy) <==> i <= m)
            && (m == 0 ==> LatestExposableKey(s) == None)
            && (m > 0 ==> m in s.ids && LatestExposableKey(s) == Some((m, s.ids[m])))
  {
    EveryIdHasItem(s);
    OldEnoughIdsArePrefix(s);
    ScanFindsLargest(s, |s.ids|);
    PrefixEndsAtLargest(s, OldEnough(TimelineOf(s).births, s.now, DelayMs(s.policy)), Scan(s, |s.ids|));
  }

  /**
   In every reachable state the countdown refines its specification: no id lacks a kid, an item or a
   timestamp, the ids of at least the grace age are 1..m with m their number, and the answer is m with
   its own kid, or nothing when m is zero.
  */
  lemma ScanRefinesCount(s: State)
    requires Reachable(s)
    ensures Complete(s)
    ensures var m := OldEnough(TimelineOf(s).births, s.now, DelayMs(s.policy));
            && (forall i | 1 <= i <= |s.ids| :: s.now - Born(s, i) >= DelayMs(s.policy) <==> i <= m)
            && (m == 0 ==> LatestExposableKey(s) == None)
            && (m > 0 ==> m in s.ids && LatestExposableKey(s) == Some((m, s.ids[m])))
  {
    ReachableInv(s);
    EveryIdHasItem(s);
    ScanCountsOldEnough(s);
  }

  lemma PickIsPickNumber(s: State)
    requires Inv(s) && |s.ids| > 0
    ensures var m := PickNumber(TimelineOf(s), DelayMs(s.policy));
            && 1 <= m <= |s.ids| && m in s.ids && PublicPick(s) == Some((m, s.ids[m]))
            && s.ids[m] in s.keys && s.keys[s.ids[m]].timestamp == Some(TimelineOf(s).births[m - 1])
  {
    EveryIdHasItem(s);
    ScanCountsOldEnough(s);
  }

  // ---------------------------------------------------------------- exposure over runs

  /** A run in which governance leaves the rotation policy alone. */
  predicate KeepsPolicy(run: seq<Step>) {
    forall i | 0 <= i < |run| :: !run[i].SetPolicy?
  }

  lemma {:induction false} PolicyFixed(s: State, run: seq<Step>)
    requires KeepsPolicy(run)
    ensures Exec(s, run).policy == s.policy
    decreases run
  {
    if run == [] {
    } else {
      assert !run[0].SetPolicy?;
      PolicyFixed(Next(s, run[0]), run[1..]);
    }
  }

  /** Key `k` or a later one is exposed once its age has reached the grace period, whatever happens in between. */
  lemma ExposedFromGraceAgeOn(s: State, run: seq<Step>, k: int)
    requires Reachable(s) && KeepsPolicy(run) && 1 <= k <= |s.ids|
    requires Exec(s, run).now >= Born(s, k) + DelayMs(s.policy)
    ensures LatestExposableKey(Exec(s, run)).Some? && LatestExposableKey(Exec(s, run)).value.0 >= k
  {
    ReachableInv(s);
    RunKeepsInv(s, run);
    PolicyFixed(s, run);
    TimelineRun(s, run);
    AdvanceExtends(TimelineOf(s), run);
    var later := Exec(s, run);
    assert TimelineOf(later).births[k - 1] == TimelineOf(s).births[k - 1] == Born(s, k);
    assert Born(later, k) == Born(s, k);
    ScanCountsOldEnough(later);
  }

  /** The id given to a public-key client is at least `k`. */
  predicate PicksAtLeast(s: State, k: int) {
    PublicPick(s).Some? && PublicPick(s).value.0 >= k
  }

  /** Over no run with this policy is an older key picked than the one picked now. */
  ghost predicate NeverStepsBack(s: State) {
    PublicPick(s).Some? && forall run | KeepsPolicy(run) :: PicksAtLeast(Exec(s, run), PublicPick(s).value.0)
  }

  lemma TimelineStepsForward(t: Timeline, run: seq<Step>, delay: int)
    requires Ordered(t) && Ordered(AdvanceAll(t, run)) && t.births != []
    requires OldEnough(t.births, t.now, delay) > 0 || t.births[0] == t.births[|t.births| - 1]
    ensures PickNumber(AdvanceAll(t, run), delay) >= PickNumber(t, delay)
  {
    var later := AdvanceAll(t, run);
    AdvanceExtends(t, run);
    OldEnoughIsPrefix(t, delay);
    OldEnoughIsPrefix(later, delay);
    assert forall i | 0 <= i < |t.births| :: later.births[i] == t.births[i];
    var m := OldEnough(t.births, t.now, delay);
    if m > 0 {
      assert later.now - later.births[m - 1] >= delay;
    } else if OldEnough(later.births, later.now, delay) > 0 {
      assert later.now - later.births[0] >= delay;
      assert later.births[|t.births| - 1] == later.births[0];
    }
  }

  lemma TimelineStepsBack(t: Timeline, delay: int)
    requires Ordered(t) && t.births != [] && OldEnough(t.births, t.now, delay) == 0
    requires t.births[0] < t.births[|t.births| - 1]
    ensures var wait := t.births[0] + delay - t.now;
            wait >= 0 && PickNumber(t.(now := t.now + wait), delay) < PickNumber(t, delay)
  {
    OldEnoughIsPrefix(t, delay);
    assert t.now - t.births[0] < delay;
    OldEnoughIsPrefix(t.(now := t.births[0] + delay), delay);
  }

  lemma RunPicks(s: State, run: seq<Step>)
    requires Inv(s) && |s.ids| > 0 && KeepsPolicy(run)
    ensures var t := AdvanceAll(TimelineOf(s), run);
            && Ordered(t) && PublicPick(Exec(s, run)).Some?
            && PublicPick(Exec(s, run)).value.0 == PickNumber(t, DelayMs(s.policy))
  {
    RunKeepsInv(s, run);
    PolicyFixed(s, run);
    TimelineRun(s, run);
    AdvanceExtends(TimelineOf(s), run);
    assert |TimelineOf(Exec(s, run)).births| == |Exec(s, run).ids|;
    PickIsPickNumber(Exec(s, run));
  }

  /**
   Under a fixed policy no key older than the one picked now is ever picked exactly when the first key has
   already reached the grace age, or all keys were made at the same instant. Otherwise the fallback to the
   newest key is given up for an older one when that one comes of age first.
  */
  lemma NeverStepsBackIff(s: State)
    requires Reachable(s) && |s.ids| > 0
    ensures NeverStepsBack(s) <==> s.now - Born(s, 1) >= DelayMs(s.policy) || Born(s, 1) == Born(s, |s.ids|)
  {
    ReachableInv(s);
    InvOrders(s);
    PickIsPickNumber(s);
    ScanCountsOldEnough(s);
    var t, delay := TimelineOf(s), DelayMs(s.policy);
    assert t.births[0] == Born(s, 1) && t.births[|s.ids| - 1] == Born(s, |s.ids|);
    if s.now - Born(s, 1) >= delay || Born(s, 1) == Born(s, |s.ids|) {
      forall run | KeepsPolicy(run) ensures PicksAtLeast(Exec(s, run), PublicPick(s).value.0) {
        RunPicks(s, run);
        TimelineStepsForward(t, run, delay);
      }
    } else {
      TimelineStepsBack(t, delay);
      var run := [Tick(t.births[0] + delay - t.now)];
      RunPicks(s, run);
      assert AdvanceAll(t, run) == AdvanceAll(Advance(t, run[0]), []) == t.(now := t.births[0] + delay);
      assert KeepsPolicy(run) && !PicksAtLeast(Exec(s, run), PublicPick(s).value.0);
    }
  }

  lemma PolicyKeepsBirths(s: State, p: Policy)
    requires Inv(s)
    ensures var t := Next(s, SetPolicy(p)); Inv(t) && TimelineOf(t) == TimelineOf(s)
  {
    StepKeepsInv(s, SetPolicy(p));
    TimelineStep(s, SetPolicy(p));
  }

  /**
   When governance replaces the policy, the pick steps back at once exactly when the new grace period is more
   than the age of the key picked so far and no more than the age of the first key.
  */
  lemma PolicyStepsBackIff(s: State, p: Policy)
    requires Reachable(s) && |s.ids| > 0
    ensures PublicPick(s).Some? && PublicPick(Next(s, SetPolicy(p))).Some?
    ensures var picked, repicked := PublicPick(s).value.0, PublicPick(Next(s, SetPolicy(p))).value.0;
            repicked < picked <==> s.now - Born(s, picked) < p.gracePeriodSeconds * 1000 <= s.now - Born(s, 1)
  {
    ReachableInv(s);
    PolicyKeepsBirths(s, p);
    PickIsPickNumber(s);
    PickIsPickNumber(Next(s, SetPolicy(p)));
    InvOrders(s);
    OldEnoughIsPrefix(TimelineOf(s), p.gracePeriodSeconds * 1000);
    var births, picked := TimelineOf(s).births, PublicPick(s).value.0;
    assert births[0] == Born(s, 1) && births[picked - 1] == Born(s, picked);
  }
}
