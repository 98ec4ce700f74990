/** The key rotation policy and the two ages it gives a key: expired, and old enough to expose. */
module KeyRotation {
  import opened Outcomes

  /** Both fields are checked to be integers, of either sign, when governance stores them. */
  datatype Policy = Policy(rotationIntervalSeconds: int, gracePeriodSeconds: int)

  datatype ExpiryTimes = ExpiryTimes(expiryTimeMs: int, expiryTimeAndGraceMs: int)

  function GetKeyItemExpiryTime(policy: Option<Policy>, creationTimeMs: int): Option<ExpiryTimes> {
    match policy
    case None => None
    case Some(p) =>
      var expiryTimeMs := creationTimeMs + p.rotationIntervalSeconds * 1000;
      Some(ExpiryTimes(expiryTimeMs, expiryTimeMs + p.gracePeriodSeconds * 1000))
  }

  /**
   The pair (expired, deprecated). Arithmetic on an absent timestamp gives a value that compares
   false with everything, so such a key is neither.
  */
  function IsExpired(policy: Option<Policy>, timestamp: Option<int>, now: int): (bool, bool) {
    if timestamp.None? then (false, false)
    else
      match GetKeyItemExpiryTime(policy, timestamp.value)
      case None => (false, false)
      case Some(times) =>
        if now > times.expiryTimeMs then (true, true)
        else if now > times.expiryTimeAndGraceMs then (false, true)
        else (false, false)
  }

  /** How long a new key is kept from public-key clients. */
  function DelayMs(policy: Option<Policy>): int {
    match policy case None => 0 case Some(p) => p.gracePeriodSeconds * 1000
  }

  /**
   The expiry check names a deprecated key that is yet to expire. The grace period is added
   after the expiry time, so some key is ever in that state exactly when the grace period is negative.
  */
  lemma DeprecatedAloneIffNegativeGrace(p: Policy)
    ensures (exists t, now :: IsExpired(Some(p), Some(t), now) == (false, true)) <==> p.gracePeriodSeconds < 0
  {
    if p.gracePeriodSeconds < 0 {
      assert IsExpired(Some(p), Some(0), p.rotationIntervalSeconds * 1000) == (false, true);
    }
  }
}
