/**
 The two unwrap endpoints and expired keys: one refuses them, the other serves whatever key is newest.
*/
module ExpiryGate {
  import opened Outcomes
  import opened Escapes
  import opened Hex
  import opened Kids
  import opened KeyRotation
  import opened KeyLifecycle
  import opened Exposure
  import opened Schedule
  import opened KeyEndpoints

  /** Exactly when `unwrapKeyGcp` hands out a key, in any reachable state, and which. Age plays no part. */
  lemma GcpSucceedsIff(s: State, gcp: GcpRequest, receipts: Receipts, platform: Platform)
    requires Reachable(s)
    ensures UnwrapKeyGcp(s, gcp, receipts, platform).Succeeded? <==>
            && GcpRequestError(gcp, platform) == 0
            && |s.ids| > 0
            && platform.canWrap(Unescape(gcp.wrappingKey.value))
    ensures var r := UnwrapKeyGcp(s, gcp, receipts, platform);
            r.Succeeded? ==> |s.ids| in s.ids && r.body.wrappedKid == s.ids[|s.ids|]
  {
    ReachableInv(s);
    EveryIdHasItem(s);
  }

  /** What `unwrapKeyGcp` hands out is a key that `unwrapKey` refuses as expired. */
  predicate SealsExpired(s: State, gcp: GcpRequest, receipts: Receipts, platform: Platform) {
    var r := UnwrapKeyGcp(s, gcp, receipts, platform);
    r.Succeeded? && r.body.wrappedKid in s.keys
    && IsExpired(s.policy, s.keys[r.body.wrappedKid].timestamp, s.now).0
  }

  /** The newest key is past its rotation interval. */
  predicate NewestIsExpired(s: State) {
    |s.ids| > 0 && s.policy.Some? && s.now - Born(s, |s.ids|) > s.policy.value.rotationIntervalSeconds * 1000
  }

  /** An expired key is sealed exactly when `unwrapKeyGcp` succeeds after the newest key's interval. */
  lemma SealsExpiredIff(s: State, gcp: GcpRequest, receipts: Receipts, platform: Platform)
    requires Reachable(s)
    ensures SealsExpired(s, gcp, receipts, platform) <==>
            && GcpRequestError(gcp, platform) == 0
            && platform.canWrap(Unescape(gcp.wrappingKey.value))
            && NewestIsExpired(s)
  {
    GcpSucceedsIff(s, gcp, receipts, platform);
    ReachableInv(s);
    EveryIdHasItem(s);
  }

  /**
   Only `unwrapKey` has an expiry gate: for the newest key, and requests that are in order otherwise,
   `unwrapKeyGcp` always serves it, and `unwrapKey` answers 410 exactly once the key is past its interval.
  */
  lemma ExpiryGateIsUnwrapKeyOnly(
      s: State, req: UnwrapRequest, attested: Attested, gcp: GcpRequest, receipts: Receipts, platform: Platform)
    requires Reachable(s) && |s.ids| > 0
    requires UnwrapRequestError(req, platform) == 0 && platform.canWrap(req.wrappingKey.value)
    requires GcpRequestError(gcp, platform) == 0 && platform.canWrap(Unescape(gcp.wrappingKey.value))
    requires attested.Report? && attested.reportData.Some?
    requires platform.digest(req.wrappingKey.value) <= attested.reportData.value
    ensures var served := UnwrapKeyGcp(s, gcp, receipts, platform);
            var gated := UnwrapKey(s, req, attested, receipts, platform);
            && served.Succeeded?
            && (req.wrappedKid == Some(served.body.wrappedKid) ==>
                  && (gated == Failed(410) <==> NewestIsExpired(s))
                  && (gated.Succeeded? <==> !NewestIsExpired(s)))
  {
    GcpSucceedsIff(s, gcp, receipts, platform);
    UnwrapSucceedsIff(s, req, attested, receipts, platform);
    ReachableInv(s);
    EveryIdHasItem(s);
    PrefixIffPrintedPrefix(platform.digest(req.wrappingKey.value), attested.reportData.value);
    NamesCurrentKeyIff(s, req.wrappedKid.value);
  }

  /** In no reachable state on this schedule, under this policy, is the newest key an expired one. */
  ghost predicate GcpScheduleIsSafe(gapMs: nat, p: Policy) {
    forall s | Reachable(s) && s.policy == Some(p) && OnSchedule(TimelineOf(s), gapMs) :: !NewestIsExpired(s)
  }

  lemma NewestAge(s: State, gapMs: nat)
    requires OnSchedule(TimelineOf(s), gapMs)
    ensures |s.ids| > 0 && s.now - Born(s, |s.ids|) <= gapMs
  {
    assert TimelineOf(s).births[|s.ids| - 1] == Born(s, |s.ids|);
  }

  /** One key, and a gap after it. */
  function LateRun(pair: KeyPair, gapMs: nat, p: Policy): seq<Step> {
    [SetPolicy(p), Refresh(pair, 0)] + [Tick(gapMs)]
  }

  lemma LateTimeline(pair: KeyPair, t: Timeline, gapMs: nat, p: Policy)
    requires t.now == 0 && |t.births| == 0
    ensures AdvanceAll(t, LateRun(pair, gapMs, p)) == Timeline(gapMs, [0])
  {
    AdvanceTwo(t, SetPolicy(p), Refresh(pair, 0), [Tick(gapMs)]);
    FirstKey(pair, t, p);
    AdvanceOne(Advance(Advance(t, SetPolicy(p)), Refresh(pair, 0)), Tick(gapMs));
  }

  lemma LateRunPolicy(pair: KeyPair, gapMs: nat, p: Policy)
    ensures Exec(Init(0), LateRun(pair, gapMs, p)).policy == Some(p)
  {
    var run := LateRun(pair, gapMs, p);
    assert run[0] == SetPolicy(p) && KeepsPolicy(run[1..]);
    PolicyFixed(Next(Init(0), run[0]), run[1..]);
  }

  lemma LateRunExpiresNewest(pair: KeyPair, gapMs: nat, p: Policy)
    requires gapMs > p.rotationIntervalSeconds * 1000
    ensures var s := Exec(Init(0), LateRun(pair, gapMs, p));
            Reachable(s) && s.policy == Some(p) && OnSchedule(TimelineOf(s), gapMs) && NewestIsExpired(s)
  {
    var s := Exec(Init(0), LateRun(pair, gapMs, p));
    LateRunPolicy(pair, gapMs, p);
    InitInv(0);
    TimelineRun(Init(0), LateRun(pair, gapMs, p));
    LateTimeline(pair, TimelineOf(Init(0)), gapMs, p);
    assert TimelineOf(s).births[|s.ids| - 1] == Born(s, |s.ids|);
  }

  /** For every gap and policy: refreshing in time is enough exactly when the gap fits in the rotation interval. */
  lemma GcpScheduleIsSafeIff(gapMs: nat, p: Policy)
    ensures GcpScheduleIsSafe(gapMs, p) <==> gapMs <= p.rotationIntervalSeconds * 1000
  {
    if gapMs <= p.rotationIntervalSeconds * 1000 {
      forall s | Reachable(s) && s.policy == Some(p) && OnSchedule(TimelineOf(s), gapMs) ensures !NewestIsExpired(s) {
        NewestAge(s, gapMs);
      }
    } else {
      var pair := KeyPair("hash", "public", "private");
      LateRunExpiresNewest(pair, gapMs, p);
    }
  }

  // ---------------------------------------------------------------- the published expiry

  lemma MintedKey(s: State, pair: KeyPair, elapsed: nat)
    ensures var made, kid := Next(s, Refresh(pair, elapsed)), Kid(pair.publicHash, |s.ids| + 1);
            kid in made.keys && made.keys[kid] == NewItem(s.policy, pair, |s.ids| + 1, s.now, s.now + elapsed)
  {
    NewItemIsMinted(s.policy, pair, |s.ids| + 1, s.now, s.now + elapsed);
  }

  lemma LaterInv(s: State, step: Step, more: seq<Step>)
    requires Reachable(s)
    ensures Inv(Exec(Next(s, step), more)) && Extends(Next(s, step), Exec(Next(s, step), more))
  {
    ReachableInv(s);
    StepKeepsInv(s, step);
    RunKeepsInv(Next(s, step), more);
  }

  lemma ExtendsKeeps(s: State, t: State, kid: string)
    requires Extends(s, t) && kid in s.keys
    ensures kid in t.keys && t.keys[kid] == s.keys[kid]
  {}

  lemma MintedKeyStays(s: State, pair: KeyPair, elapsed: nat, more: seq<Step>)
    requires Reachable(s)
    ensures var t := Exec(Next(s, Refresh(pair, elapsed)), more);
            var kid := Kid(pair.publicHash, |s.ids| + 1);
            kid in t.keys && t.keys[kid] == NewItem(s.policy, pair, |s.ids| + 1, s.now, s.now + elapsed)
  {
    var made := Next(s, Refresh(pair, elapsed));
    assert Extends(made, Exec(made, more)) by { LaterInv(s, Refresh(pair, elapsed), more); }
    MintedKey(s, pair, elapsed);
    ExtendsKeeps(made, Exec(made, more), Kid(pair.publicHash, |s.ids| + 1));
  }

  lemma PubKeyPublishes(t: State, kid: string, receipts: Receipts)
    requires kid != "" && kid in t.keys && kid in receipts
    ensures PubKey(t, Some(kid), None, receipts)
            == Succeeded(JwkKey(t.keys[kid].(receipt := Some(receipts[kid]), d := None)))
  {}

  lemma KidIsNotEmpty(hash: string, id: nat)
    ensures Kid(hash, id) != ""
  {}

  /** The expiry a key is made with: none without a policy, and none at time zero. */
  function MadeExpiry(policy: Option<Policy>, creationTime: int): Option<int> {
    if policy.None? || creationTime + policy.value.rotationIntervalSeconds * 1000 == 0 then None
    else Some(creationTime + policy.value.rotationIntervalSeconds * 1000)
  }

  lemma NewItemExpiry(policy: Option<Policy>, pair: KeyPair, id: nat, creationTime: int, timestamp: int)
    ensures NewItem(policy, pair, id, creationTime, timestamp).expiry == MadeExpiry(policy, creationTime)
  {}

  /**
   What `pubkey` publishes as expiry of a key, ever after: its first clock reading plus the interval then in force,
   and nothing if there was no policy.
  */
  lemma PublishedExpiryIs(s: State, pair: KeyPair, elapsed: nat, more: seq<Step>, receipts: Receipts)
    requires Reachable(s) && Kid(pair.publicHash, |s.ids| + 1) in receipts
    ensures var answer := PubKey(
              Exec(Next(s, Refresh(pair, elapsed)), more), Some(Kid(pair.publicHash, |s.ids| + 1)), None, receipts);
            answer.Succeeded? && answer.body.JwkKey? && answer.body.jwk.expiry == MadeExpiry(s.policy, s.now)
  {
    var t, kid := Exec(Next(s, Refresh(pair, elapsed)), more), Kid(pair.publicHash, |s.ids| + 1);
    MintedKeyStays(s, pair, elapsed, more);
    KidIsNotEmpty(pair.publicHash, |s.ids| + 1);
    PubKeyPublishes(t, kid, receipts);
    NewItemExpiry(s.policy, pair, |s.ids| + 1, s.now, s.now + elapsed);
  }

  /**
   The published expiry against the gate, for a key made under one policy and asked for after any further run:
   the gate counts from the second clock reading of the refresh, with the interval of the policy in force.
  */
  lemma GateAgainstPublishedExpiry(s: State, pair: KeyPair, elapsed: nat, more: seq<Step>)
    requires Reachable(s) && s.policy.Some?
    ensures var t := Exec(Next(s, Refresh(pair, elapsed)), more);
            var published := s.now + s.policy.value.rotationIntervalSeconds * 1000;
            NamesCurrentKey(t, Kid(pair.publicHash, |s.ids| + 1)) <==> (t.policy.Some? ==>
              t.now - published <= elapsed
                + (t.policy.value.rotationIntervalSeconds - s.policy.value.rotationIntervalSeconds) * 1000)
  {
    var t := Exec(Next(s, Refresh(pair, elapsed)), more);
    MintedKeyStays(s, pair, elapsed, more);
    LaterInv(s, Refresh(pair, elapsed), more);
    NamesCurrentKeyIff(t, Kid(pair.publicHash, |s.ids| + 1));
  }

  /**
   At the very moment it publishes as its expiry, a key is still served exactly when there is no policy any
   more, or the interval was shortened by no more than the refresh took; so always under an unchanged policy.
  */
  lemma ServedAtPublishedExpiryIff(s: State, pair: KeyPair, elapsed: nat, more: seq<Step>)
    requires Reachable(s) && s.policy.Some?
    requires Exec(Next(s, Refresh(pair, elapsed)), more).now
             == s.now + s.policy.value.rotationIntervalSeconds * 1000
    ensures var t := Exec(Next(s, Refresh(pair, elapsed)), more);
            NamesCurrentKey(t, Kid(pair.publicHash, |s.ids| + 1)) <==> (t.policy.Some? ==>
              (s.policy.value.rotationIntervalSeconds - t.policy.value.rotationIntervalSeconds) * 1000 <= elapsed)
  {
    GateAgainstPublishedExpiry(s, pair, elapsed, more);
  }
}
