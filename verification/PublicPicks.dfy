/**
 What the exposure rule promises and the fallback takes back: that public-key clients see a key only after
 private-key clients had the grace period to fetch it, and that they never go back to an older key.
*/
module PublicPicks {
  import opened Outcomes
  import opened KeyRotation
  import opened KeyLifecycle
  import opened Exposure

  lemma ReachableRun(s: State, run: seq<Step>)
    requires Reachable(s)
    ensures Reachable(Exec(s, run))
  {
    var start, before :| s == Exec(Init(start), before);
    ExecConcat(Init(start), before, run);
    assert Exec(s, run) == Exec(Init(start), before + run);
  }

  lemma ReachableStep(s: State, step: Step)
    requires Reachable(s)
    ensures Reachable(Next(s, step))
  {
    ReachableRun(s, [step]);
    assert Exec(s, [step]) == Exec(Next(s, step), []);
  }

  lemma FirstIsOldEnoughIff(s: State)
    requires Inv(s) && |s.ids| > 0
    ensures var births := TimelineOf(s).births;
            s.now - Born(s, 1) >= DelayMs(s.policy) <==> OldEnough(births, s.now, DelayMs(s.policy)) > 0
  {
    InvOrders(s);
    OldEnoughIsPrefix(TimelineOf(s), DelayMs(s.policy));
    assert TimelineOf(s).births[0] == Born(s, 1);
  }

  /**
   In every reachable state the key given to public-key clients is younger than the grace period exactly when
   the first key is: then no key has come of age, and the newest is given out instead.
  */
  lemma PickIsYoungIff(s: State)
    requires Reachable(s) && |s.ids| > 0
    ensures PublicPick(s).Some?
    ensures s.now - Born(s, PublicPick(s).value.0) < DelayMs(s.policy) <==> s.now - Born(s, 1) < DelayMs(s.policy)
  {
    ReachableInv(s);
    InvOrders(s);
    PickIsPickNumber(s);
    FirstIsOldEnoughIff(s);
    var t, picked := TimelineOf(s), PublicPick(s).value.0;
    OldEnoughIsPrefix(t, DelayMs(s.policy));
    assert t.births[picked - 1] == Born(s, picked) && t.births[0] == Born(s, 1);
  }

  lemma RefreshedState(s: State, pair: KeyPair, elapsed: nat)
    requires Inv(s)
    ensures var t := Next(s, Refresh(pair, elapsed));
            && Inv(t) && t.now == s.now + elapsed && t.policy == s.policy
            && |t.ids| == |s.ids| + 1 && |t.ids| in t.ids && Born(t, |t.ids|) == t.now
            && LatestItem(t) == Some((|t.ids|, t.ids[|t.ids|]))
            && (|s.ids| > 0 ==> Born(t, 1) == Born(s, 1))
  {
    var t := Next(s, Refresh(pair, elapsed));
    assert Inv(t) && Extends(s, t) by { StepKeepsInv(s, Refresh(pair, elapsed)); }
    assert |t.ids| == |s.ids| + 1 by { RefreshExtends(s, pair, elapsed); }
    assert |t.ids| in t.ids && Born(t, |t.ids|) == t.now by { RefreshMints(s, pair, elapsed); }
    BirthsFixed(s, t);
  }

  /**
   Right after a refresh public-key clients are given the new key exactly when there is no grace period, or
   even the first key is younger than it.
  */
  lemma NewKeyIsPublicIff(s: State, pair: KeyPair, elapsed: nat)
    requires Reachable(s)
    ensures var t := Next(s, Refresh(pair, elapsed));
            PublicPick(t) == LatestItem(t) <==> DelayMs(s.policy) <= 0 || t.now - Born(t, 1) < DelayMs(s.policy)
  {
    ReachableInv(s);
    RefreshedState(s, pair, elapsed);
    var t := Next(s, Refresh(pair, elapsed));
    PickIsPickNumber(t);
    FirstIsOldEnoughIff(t);
    InvOrders(t);
    OldEnoughIsPrefix(TimelineOf(t), DelayMs(t.policy));
    assert TimelineOf(t).births[|t.ids| - 1] == t.now;
  }

  lemma RunOfTwo(s: State, first: Step, second: Step)
    ensures Exec(s, [first, second]) == Next(Next(s, first), second)
  {
    var run := [first, second];
    assert run[1..] == [second];
    assert Exec(Next(s, first), [second]) == Exec(Next(Next(s, first), second), []);
  }

  /** The first key of a service with a grace period of a minute is public the moment it is made. */
  lemma FirstKeyIsPublicAtOnce(pair: KeyPair)
    ensures var t := Exec(Init(0), [SetPolicy(Policy(3600, 60)), Refresh(pair, 0)]);
            && |t.ids| == 1 && t.now == Born(t, 1) && DelayMs(t.policy) == 60000
            && LatestItem(t).Some? && PublicPick(t) == LatestItem(t)
  {
    var start := Init(0);
    assert start == Exec(start, []);
    var s := Next(start, SetPolicy(Policy(3600, 60)));
    ReachableStep(start, SetPolicy(Policy(3600, 60)));
    RunOfTwo(start, SetPolicy(Policy(3600, 60)), Refresh(pair, 0));
    ReachableInv(s);
    RefreshedState(s, pair, 0);
    NewKeyIsPublicIff(s, pair, 0);
  }

  // ---------------------------------------------------------------- going back

  /** Along no run with this policy is an older key picked after a newer one. */
  ghost predicate PickNeverDecreases(s: State) {
    forall a, b | KeepsPolicy(a) && KeepsPolicy(b) && PublicPick(Exec(s, a)).Some? ::
      PicksAtLeast(Exec(Exec(s, a), b), PublicPick(Exec(s, a)).value.0)
  }

  lemma FirstStaysOldEnough(s: State, run: seq<Step>)
    requires Reachable(s) && |s.ids| > 0 && KeepsPolicy(run)
    requires s.now - Born(s, 1) >= DelayMs(s.policy)
    ensures var t := Exec(s, run);
            Reachable(t) && |t.ids| > 0 && t.now - Born(t, 1) >= DelayMs(t.policy)
  {
    ReachableInv(s);
    RunKeepsInv(s, run);
    ReachableRun(s, run);
    PolicyFixed(s, run);
    BirthsFixed(s, Exec(s, run));
    assert 1 in Exec(s, run).ids;
  }

  /** How long to wait for the refresh that is given up for an older key. */
  function SpoilerWait(s: State): nat {
    if Born(s, 1) < s.now then 0 else 1
  }

  lemma SpoilerEffect(s: State, t: State)
    requires Inv(s) && |s.ids| > 0 && s.now - Born(s, 1) < DelayMs(s.policy)
    requires Born(t, 1) == Born(s, 1) && t.now == s.now + SpoilerWait(s) && t.policy == s.policy
    ensures Born(t, 1) < t.now < Born(t, 1) + DelayMs(t.policy)
  {
    EveryIdHasItem(s);
  }

  lemma SpoilerStepsBack(s: State, pair: KeyPair)
    requires Reachable(s) && |s.ids| > 0 && s.now - Born(s, 1) < DelayMs(s.policy)
    ensures var t := Next(s, Refresh(pair, SpoilerWait(s)));
            PublicPick(t).Some? && exists b | KeepsPolicy(b) :: !PicksAtLeast(Exec(t, b), PublicPick(t).value.0)
  {
    assert Inv(s) by { ReachableInv(s); }
    RefreshedState(s, pair, SpoilerWait(s));
    SpoilerEffect(s, Next(s, Refresh(pair, SpoilerWait(s))));
    ReachableStep(s, Refresh(pair, SpoilerWait(s)));
    var t := Next(s, Refresh(pair, SpoilerWait(s)));
    assert PublicPick(t).Some? by { PickIsPickNumber(t); }
    NeverStepsBackIff(t);
  }

  /**
   Under a fixed policy the pick never decreases along a run exactly when the first key has reached the grace
   age. Before that, one refresh is enough: the new key is given out, then given up for an older one.
  */
  lemma PickNeverDecreasesIff(s: State)
    requires Reachable(s) && |s.ids| > 0
    ensures PickNeverDecreases(s) <==> s.now - Born(s, 1) >= DelayMs(s.policy)
  {
    if s.now - Born(s, 1) >= DelayMs(s.policy) {
      forall a, b | KeepsPolicy(a) && KeepsPolicy(b) && PublicPick(Exec(s, a)).Some?
        ensures PicksAtLeast(Exec(Exec(s, a), b), PublicPick(Exec(s, a)).value.0)
      {
        FirstStaysOldEnough(s, a);
        NeverStepsBackIff(Exec(s, a));
        assert NeverStepsBack(Exec(s, a));
      }
    } else {
      var pair := KeyPair("hash", "public", "private");
      SpoilerStepsBack(s, pair);
      var a := [Refresh(pair, SpoilerWait(s))];
      assert Exec(s, a) == Exec(Next(s, a[0]), []);
      var b :| KeepsPolicy(b) && !PicksAtLeast(Exec(Exec(s, a), b), PublicPick(Exec(s, a)).value.0);
      assert KeepsPolicy(a);
    }
  }
}
