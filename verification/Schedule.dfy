/** On which refresh schedules the key given to public-key clients is never past its rotation interval. */
module Schedule {
  import opened Outcomes
  import opened KeyRotation
  import opened KeyLifecycle
  import opened Exposure

  /** Neighbouring keys, and the newest key and the present, are at most `gapMs` apart. */
  ghost predicate OnSchedule(t: Timeline, gapMs: nat) {
    && t.births != []
    && (forall i | 0 <= i < |t.births| - 1 :: t.births[i + 1] - t.births[i] <= gapMs)
    && t.now - t.births[|t.births| - 1] <= gapMs
  }

  /** The key a public-key client is given is one that `IsExpired` refuses. */
  predicate PicksExpired(s: State) {
    match PublicPick(s)
    case None => false
    case Some(pick) => pick.1 in s.keys && IsExpired(s.policy, s.keys[pick.1].timestamp, s.now).0
  }

  /** In no reachable state on this schedule, under this policy, is an expired key picked. */
  ghost predicate ScheduleIsSafe(gapMs: nat, p: Policy) {
    forall s | Reachable(s) && s.policy == Some(p) && OnSchedule(TimelineOf(s), gapMs) :: !PicksExpired(s)
  }

  function PickAge(t: Timeline, delay: int): int
    requires t.births != [] && PickNumber(t, delay) <= |t.births|
  {
    t.now - t.births[PickNumber(t, delay) - 1]
  }

  /** The largest age a picked key can have on a schedule. */
  function WorstAgeMs(gapMs: nat, p: Policy): int {
    if gapMs == 0 then 0
    else if p.gracePeriodSeconds <= 0 then gapMs
    else gapMs + p.gracePeriodSeconds * 1000 - 1
  }

  lemma PickExpiredIffTooOld(s: State, p: Policy)
    requires Inv(s) && s.policy == Some(p) && |s.ids| > 0
    ensures var t, delay := TimelineOf(s), p.gracePeriodSeconds * 1000;
            && PickNumber(t, delay) <= |t.births|
            && (PicksExpired(s) <==> PickAge(t, delay) > p.rotationIntervalSeconds * 1000)
  {
    PickIsPickNumber(s);
  }

  lemma PickAgeBound(t: Timeline, gapMs: nat, p: Policy)
    requires Ordered(t) && OnSchedule(t, gapMs)
    ensures var delay := p.gracePeriodSeconds * 1000;
            PickNumber(t, delay) <= |t.births| && PickAge(t, delay) <= WorstAgeMs(gapMs, p)
  {
    var delay := p.gracePeriodSeconds * 1000;
    OldEnoughIsPrefix(t, delay);
    var m, n := PickNumber(t, delay), |t.births|;
    if m < n {
      assert t.now - t.births[m] < delay;
      assert t.births[(m - 1) + 1] - t.births[m - 1] <= gapMs;
      assert t.births[m] <= t.births[n - 1] <= t.now;
    }
  }

  // ---------------------------------------------------------------- the bound is met

  /** Let `ms` pass, refreshing every `gapMs`. */
  function Coast(pair: KeyPair, ms: nat, gapMs: nat): seq<Step>
    requires gapMs > 0
    decreases ms
  {
    if ms <= gapMs then [Tick(ms)] else [Tick(gapMs), Refresh(pair, 0)] + Coast(pair, ms - gapMs, gapMs)
  }

  function WorstRest(pair: KeyPair, gapMs: nat, p: Policy): seq<Step> {
    if gapMs == 0 then []
    else if p.gracePeriodSeconds <= 0 then [Tick(gapMs)]
    else [Tick(gapMs), Refresh(pair, 0)] + Coast(pair, p.gracePeriodSeconds * 1000 - 1, gapMs)
  }

  /** A run on schedule at whose end the picked key has the worst age. */
  function WorstRun(pair: KeyPair, gapMs: nat, p: Policy): seq<Step> {
    [SetPolicy(p), Refresh(pair, 0)] + WorstRest(pair, gapMs, p)
  }

  lemma FirstKey(pair: KeyPair, t: Timeline, p: Policy)
    requires t.now == 0 && |t.births| == 0
    ensures var one := Advance(Advance(t, SetPolicy(p)), Refresh(pair, 0));
            one.now == 0 && one.births == [0]
  {
    assert t.births + [0] == [0];
  }

  lemma AdvanceTwo(t: Timeline, first: Step, second: Step, rest: seq<Step>)
    ensures AdvanceAll(t, [first, second] + rest) == AdvanceAll(Advance(Advance(t, first), second), rest)
  {
    var run := [first, second] + rest;
    assert run[0] == first && run[1..] == [second] + rest;
    assert run[1..][0] == second && run[1..][1..] == rest;
  }

  lemma WorstRunStarts(pair: KeyPair, t: Timeline, gapMs: nat, p: Policy)
    ensures var one := Advance(Advance(t, SetPolicy(p)), Refresh(pair, 0));
            AdvanceAll(t, WorstRun(pair, gapMs, p)) == AdvanceAll(one, WorstRest(pair, gapMs, p))
  {
    AdvanceTwo(t, SetPolicy(p), Refresh(pair, 0), WorstRest(pair, gapMs, p));
  }

  ghost predicate IsWorst(t: Timeline, gapMs: nat, p: Policy) {
    && OnSchedule(t, gapMs)
    && t.now == WorstAgeMs(gapMs, p)
    && if gapMs > 0 && p.gracePeriodSeconds > 0 then [0, gapMs] <= t.births else t.births == [0]
  }

  lemma AdvanceOne(t: Timeline, step: Step)
    ensures AdvanceAll(t, [step]) == Advance(t, step)
  {
    assert AdvanceAll(t, [step]) == AdvanceAll(Advance(t, step), []);
  }

  lemma {:induction false} CoastStaysOnSchedule(pair: KeyPair, t: Timeline, ms: nat, gapMs: nat)
    requires gapMs > 0 && OnSchedule(t, gapMs) && t.births[|t.births| - 1] == t.now
    ensures var u := AdvanceAll(t, Coast(pair, ms, gapMs));
            OnSchedule(u, gapMs) && u.now == t.now + ms && t.births <= u.births
    decreases ms
  {
    if ms <= gapMs {
      assert AdvanceAll(t, [Tick(ms)]) == AdvanceAll(Advance(t, Tick(ms)), []);
    } else {
      var u := Advance(Advance(t, Tick(gapMs)), Refresh(pair, 0));
      AdvanceTwo(t, Tick(gapMs), Refresh(pair, 0), Coast(pair, ms - gapMs, gapMs));
      forall i | 0 <= i < |u.births| - 1 ensures u.births[i + 1] - u.births[i] <= gapMs {
        if i + 1 < |t.births| { assert u.births[i] == t.births[i] && u.births[i + 1] == t.births[i + 1]; }
      }
      CoastStaysOnSchedule(pair, u, ms - gapMs, gapMs);
    }
  }

  /** The worst run with a grace period: key 1 just old enough to be left behind, key 2 not yet. */
  lemma WorstCoast(pair: KeyPair, one: Timeline, gapMs: nat, p: Policy)
    requires one.now == 0 && one.births == [0] && gapMs > 0 && p.gracePeriodSeconds > 0
    ensures var coast := Coast(pair, p.gracePeriodSeconds * 1000 - 1, gapMs);
            var t := AdvanceAll(one, [Tick(gapMs), Refresh(pair, 0)] + coast);
            OnSchedule(t, gapMs) && [0, gapMs] <= t.births && t.now == WorstAgeMs(gapMs, p)
  {
    var two := Advance(Advance(one, Tick(gapMs)), Refresh(pair, 0));
    assert two.births == [0, gapMs];
    AdvanceTwo(one, Tick(gapMs), Refresh(pair, 0), Coast(pair, p.gracePeriodSeconds * 1000 - 1, gapMs));
    CoastStaysOnSchedule(pair, two, p.gracePeriodSeconds * 1000 - 1, gapMs);
  }

  lemma WorstRestIsWorst(pair: KeyPair, one: Timeline, gapMs: nat, p: Policy)
    requires one.now == 0 && one.births == [0]
    ensures IsWorst(AdvanceAll(one, WorstRest(pair, gapMs, p)), gapMs, p)
  {
    if gapMs > 0 {
      if p.gracePeriodSeconds <= 0 {
        AdvanceOne(one, Tick(gapMs));
      } else {
        WorstCoast(pair, one, gapMs, p);
      }
    }
  }

  lemma WorstTimeline(pair: KeyPair, t: Timeline, one: Timeline, gapMs: nat, p: Policy)
    requires one == Advance(Advance(t, SetPolicy(p)), Refresh(pair, 0))
    requires one.now == 0 && one.births == [0]
    ensures IsWorst(AdvanceAll(t, WorstRun(pair, gapMs, p)), gapMs, p)
  {
    WorstRunStarts(pair, t, gapMs, p);
    WorstRestIsWorst(pair, one, gapMs, p);
  }

  lemma {:induction false} CoastKeepsPolicy(pair: KeyPair, ms: nat, gapMs: nat)
    requires gapMs > 0
    ensures KeepsPolicy(Coast(pair, ms, gapMs))
    decreases ms
  {
    if ms <= gapMs {
    } else {
      CoastKeepsPolicy(pair, ms - gapMs, gapMs);
    }
  }

  lemma WorstRunPolicy(pair: KeyPair, gapMs: nat, p: Policy)
    ensures Exec(Init(0), WorstRun(pair, gapMs, p)).policy == Some(p)
  {
    var run := WorstRun(pair, gapMs, p);
    assert run[0] == SetPolicy(p);
    if gapMs > 0 && p.gracePeriodSeconds > 0 { CoastKeepsPolicy(pair, p.gracePeriodSeconds * 1000 - 1, gapMs); }
    assert KeepsPolicy(run[1..]);
    PolicyFixed(Next(Init(0), run[0]), run[1..]);
  }

  /** The exact bound is met: the worst run is on schedule, and its pick has the worst age. */
  lemma WorstRunPicksExpired(pair: KeyPair, gapMs: nat, p: Policy)
    requires WorstAgeMs(gapMs, p) > p.rotationIntervalSeconds * 1000
    ensures var s := Exec(Init(0), WorstRun(pair, gapMs, p));
            Reachable(s) && s.policy == Some(p) && OnSchedule(TimelineOf(s), gapMs) && PicksExpired(s)
  {
    var s := Exec(Init(0), WorstRun(pair, gapMs, p));
    InitInv(0);
    RunKeepsInv(Init(0), WorstRun(pair, gapMs, p));
    TimelineRun(Init(0), WorstRun(pair, gapMs, p));
    WorstRunPolicy(pair, gapMs, p);
    var start := TimelineOf(Init(0));
    FirstKey(pair, start, p);
    WorstTimeline(pair, start, Advance(Advance(start, SetPolicy(p)), Refresh(pair, 0)), gapMs, p);
    var t, delay := TimelineOf(s), p.gracePeriodSeconds * 1000;
    OldEnoughIsPrefix(t, delay);
    assert t.births[0] == 0;
    if gapMs > 0 && p.gracePeriodSeconds > 0 { assert t.births[1] == [0, gapMs][1]; }
    assert PickNumber(t, delay) == 1;
    PickExpiredIffTooOld(s, p);
  }

  // ---------------------------------------------------------------- safe schedules

  /** For every gap and policy: the schedule is safe exactly when the worst age fits in the rotation interval. */
  lemma ScheduleIsSafeIff(gapMs: nat, p: Policy)
    ensures ScheduleIsSafe(gapMs, p) <==> WorstAgeMs(gapMs, p) <= p.rotationIntervalSeconds * 1000
  {
    if WorstAgeMs(gapMs, p) <= p.rotationIntervalSeconds * 1000 {
      forall s | Reachable(s) && s.policy == Some(p) && OnSchedule(TimelineOf(s), gapMs) ensures !PicksExpired(s) {
        ReachableInv(s);
        InvOrders(s);
        PickAgeBound(TimelineOf(s), gapMs, p);
        PickExpiredIffTooOld(s, p);
      }
    } else {
      var pair := KeyPair("hash", "public", "private");
      WorstRunPicksExpired(pair, gapMs, p);
    }
  }

  /**
   The rule of thumb: refreshing at least every `gapMs`, with the gap and a grace period of zero
   or more together no longer than the rotation interval, never exposes an expired key.
  */
  lemma GapAndGraceWithinIntervalIsSafe(gapMs: nat, p: Policy)
    requires 0 <= p.gracePeriodSeconds && gapMs + p.gracePeriodSeconds * 1000 <= p.rotationIntervalSeconds * 1000
    ensures ScheduleIsSafe(gapMs, p)
  {
    ScheduleIsSafeIff(gapMs, p);
  }
}
