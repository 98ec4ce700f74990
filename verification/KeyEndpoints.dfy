/** What the key endpoints answer in a given state, and what may be said of all their answers together. */
module KeyEndpoints {
  import opened Outcomes
  import opened Escapes
  import opened Hex
  import opened KeyRotation
  import opened KeyLifecycle
  import opened Exposure
  import opened PublicPicks
  import opened Schedule

  /** What the platform supplies: a digest, the PEM check, and whether a text can serve as wrapping key. */
  datatype Platform = Platform(digest: string -> seq<byte>, isPem: string -> bool, canWrap: string -> bool)

  /** Receipts the platform has ready, by kid. */
  type Receipts = map<string, string>

  /** The outcome of attestation: an error, or a report with or without report data. */
  datatype Attested = Rejected(status: int) | Report(reportData: Option<seq<byte>>)

  datatype Payload = JwkPayload(jwk: Jwk) | TinkPayload(d: string)

  /** RSA-OAEP as a sealed box, a payload and the key that opens it; or what stands there without a wrapping key. */
  datatype Cipher = Wrapped(wrappingKey: string, payload: Payload) | Placeholder

  datatype UnwrapBody = UnwrapBody(wrapped: Cipher, receipt: string)
  datatype KeyBody = KeyBody(wrappedKid: string, wrapped: Cipher, receipt: string)
  datatype GcpBody = GcpBody(wrappedKid: string, wrapped: Cipher, receipt: string)
  datatype PublicKey = JwkKey(jwk: Jwk) | TinkKey(primaryKeyId: int, value: string, receipt: string)
  datatype TinkPublicKey = TinkPublicKey(id: Option<int>, key: string)

  const UNAUTHORIZED := 401

  /** `value || fallback`. */
  function OrElse(value: Option<string>, fallback: string): string {
    if value.None? || value.value == "" then fallback else value.value
  }

  function Lookup(m: Receipts, kid: string): Option<string> {
    if kid in m then Some(m[kid]) else None
  }

  function ListPubKeys(s: State): Response<TinkPublicKey> {
    match PublicPick(s)
    case None => Failed(400)
    case Some(pick) =>
      if pick.1 !in s.keys then Failed(404) else Succeeded(TinkPublicKey(s.keys[pick.1].id, s.keys[pick.1].x))
  }

  function PubKeyOf(s: State, kid: string, fmt: string, receipts: Receipts): Response<PublicKey> {
    if fmt != "jwk" && fmt != "tink" then Failed(400)
    else if kid !in s.keys then Failed(404)
    else if kid !in receipts then Accepted
    else
      var item := s.keys[kid];
      if fmt == "tink" then
        if item.id.None? then Failed(500) else Succeeded(TinkKey(item.id.value, item.x, receipts[kid]))
      else Succeeded(JwkKey(item.(receipt := Some(receipts[kid]), d := None)))
  }

  /** An absent or empty `kid` parameter asks for the current public key. */
  function PubKey(s: State, kid: Option<string>, fmt: Option<string>, receipts: Receipts): Response<PublicKey> {
    if OrElse(kid, "") != "" then PubKeyOf(s, kid.value, OrElse(fmt, "jwk"), receipts)
    else
      match PublicPick(s)
      case None => Failed(400)
      case Some(pick) => PubKeyOf(s, pick.1, OrElse(fmt, "jwk"), receipts)
  }

  datatype UnwrapRequest = UnwrapRequest(
    hasAttestation: bool,
    authenticated: bool,
    attestationType: Option<string>,
    wrappedKid: Option<string>,
    wrappingKey: Option<string>,
    fmt: Option<string>)

  /** The key as both unwrap endpoints serialise it. */
  function PrivatePayload(item: Jwk): Jwk {
    item.(receipt := None)
  }

  /** Nothing is sealed without a wrapping key; a wrapping key that cannot be used throws. */
  function WrapItem(item: Jwk, tink: bool, wrappingKey: Option<string>, platform: Platform): Option<Cipher> {
    if tink && item.d.None? then None
    else if wrappingKey.None? then Some(Placeholder)
    else if !platform.canWrap(wrappingKey.value) then None
    else
      var payload := if tink then TinkPayload(item.d.value) else JwkPayload(PrivatePayload(item));
      Some(Wrapped(wrappingKey.value, payload))
  }

  /** The request checks of `unwrapKey` up to attestation, in order; zero when all pass. */
  function UnwrapRequestError(req: UnwrapRequest, platform: Platform): int {
    if !req.hasAttestation then 400
    else if !req.authenticated then UNAUTHORIZED
    else if req.wrappedKid.None? then 400
    else if OrElse(req.wrappingKey, "") == "" then 400
    else if !platform.isPem(req.wrappingKey.value) then 400
    else if OrElse(req.fmt, "jwk") != "jwk" && OrElse(req.fmt, "jwk") != "tink" then 400
    else 0
  }

  /** Report data that is missing makes the prefix test throw. */
  function UnwrapKey(s: State, req: UnwrapRequest, attested: Attested, receipts: Receipts, platform: Platform)
    : Response<UnwrapBody>
  {
    var bad := UnwrapRequestError(req, platform);
    if bad != 0 then Failed(bad)
    else if attested.Rejected? then Failed(attested.status)
    else if attested.reportData.None? then Failed(500)
    else if !(ToHex(platform.digest(req.wrappingKey.value)) <= ToHex(attested.reportData.value)) then Failed(400)
    else
      var kid := req.wrappedKid.value;
      if kid !in s.keys then Failed(404)
      else if IsExpired(s.policy, s.keys[kid].timestamp, s.now).0 then Failed(410)
      else
        match WrapItem(s.keys[kid], OrElse(req.fmt, "jwk") == "tink", req.wrappingKey, platform)
        case None => Failed(500)
        case Some(wrapped) => Succeeded(UnwrapBody(wrapped, OrElse(Lookup(receipts, kid), "")))
  }

  datatype Nonce = Missing | One(text: string) | Many(texts: seq<string>)

  datatype GcpRequest = GcpRequest(authenticated: bool, wrappingKey: Option<string>, nonce: Nonce)

  function GcpRequestError(req: GcpRequest, platform: Platform): int {
    if !req.authenticated then UNAUTHORIZED
    else if OrElse(req.wrappingKey, "") == "" then 400
    else if !platform.isPem(req.wrappingKey.value) then 400
    else if req.nonce == Missing || req.nonce == One("") then 400
    else if req.nonce == Many([]) then 500
    else
      var expected := if req.nonce.One? then req.nonce.text else req.nonce.texts[0];
      if ToHex(platform.digest(Unescape(req.wrappingKey.value))) != expected then 400 else 0
  }

  function UnwrapKeyGcp(s: State, req: GcpRequest, receipts: Receipts, platform: Platform): Response<GcpBody> {
    var bad := GcpRequestError(req, platform);
    if bad != 0 then Failed(bad)
    else
      match LatestItem(s)
      case None => Failed(400)
      case Some(latest) =>
        if latest.1 !in s.keys then Failed(404)
        else
          match WrapItem(s.keys[latest.1], false, Some(Unescape(req.wrappingKey.value)), platform)
          case None => Failed(500)
          case Some(wrapped) => Succeeded(GcpBody(latest.1, wrapped, OrElse(Lookup(receipts, latest.1), "")))
  }

  /** The kid `key` answers about: the one asked for, else the newest. */
  function PrivatePick(s: State, kid: Option<string>): Option<string> {
    match kid
    case Some(k) => Some(k)
    case None => match LatestItem(s) { case None => None case Some(latest) => Some(latest.1) }
  }

  /** What `key` answers once the request passed: it wraps without a wrapping key. */
  function KeyOf(
      s: State, kid: Option<string>, fmt: Option<string>, attested: Attested, receipts: Receipts, platform: Platform)
    : Response<KeyBody>
  {
    match PrivatePick(s, kid)
    case None => Failed(400)
    case Some(k) =>
      if OrElse(fmt, "jwk") != "jwk" && OrElse(fmt, "jwk") != "tink" then Failed(400)
      else if attested.Rejected? then Failed(attested.status)
      else if k !in s.keys then Failed(404)
      else
        match WrapItem(s.keys[k], OrElse(fmt, "jwk") == "tink", None, platform)
        case None => Failed(500)
        case Some(wrapped) => Succeeded(KeyBody(k, wrapped, OrElse(Lookup(receipts, k), "")))
  }

  // ---------------------------------------------------------------- the private part stays private

  /** The state without any private part. */
  function Redact(s: State): State {
    s.(keys := map k | k in s.keys :: s.keys[k].(d := None))
  }

  lemma {:induction false} ScanIgnoresPrivateParts(s: State, id: int)
    ensures Scan(Redact(s), id) == Scan(s, id)
    decreases id
  {
    if id < 1 {
    } else {
      ScanIgnoresPrivateParts(s, id - 1);
    }
  }

  lemma RedactedAnswers(s: State, kid: Option<string>, fmt: Option<string>, receipts: Receipts)
    ensures ListPubKeys(Redact(s)) == ListPubKeys(s)
    ensures PubKey(Redact(s), kid, fmt, receipts) == PubKey(s, kid, fmt, receipts)
  {
    ScanIgnoresPrivateParts(s, |s.ids|);
    assert Redact(s).keys.Keys == s.keys.Keys;
    forall k, f: string ensures PubKeyOf(Redact(s), k, f, receipts) == PubKeyOf(s, k, f, receipts) {
      if k in s.keys { assert Redact(s).keys[k] == s.keys[k].(d := None); }
    }
  }

  /**
   The answers of the public-key endpoints do not depend on private parts: two states that differ in
   nothing else give equal answers, whatever is asked.
  */
  lemma PublicAnswersIgnorePrivateParts(
      a: State, b: State, kid: Option<string>, fmt: Option<string>, receipts: Receipts)
    requires Redact(a) == Redact(b)
    ensures ListPubKeys(a) == ListPubKeys(b)
    ensures PubKey(a, kid, fmt, receipts) == PubKey(b, kid, fmt, receipts)
    ensures var r := PubKey(a, kid, fmt, receipts);
            r.Succeeded? && r.body.JwkKey? ==> r.body.jwk.d == None && r.body.jwk.receipt.Some?
  {
    RedactedAnswers(a, kid, fmt, receipts);
    RedactedAnswers(b, kid, fmt, receipts);
  }

  // ---------------------------------------------------------------- who gets a private key

  /** `kid` is the kid of some key number whose age is within the rotation interval, if there is one. */
  ghost predicate NamesCurrentKey(s: State, kid: string) {
    exists i | i in s.ids :: s.ids[i] == kid
      && (s.policy.Some? ==> s.now - Born(s, i) <= s.policy.value.rotationIntervalSeconds * 1000)
  }

  lemma NamesCurrentKeyIff(s: State, kid: string)
    requires Inv(s)
    ensures NamesCurrentKey(s, kid) <==> kid in s.keys && !IsExpired(s.policy, s.keys[kid].timestamp, s.now).0
  {
    if kid in s.keys {
      assert IsNumbered(s, kid);
      var i :| i in s.ids && s.ids[i] == kid;
      assert Minted(s.keys[kid], i, kid) && Born(s, i) == s.keys[kid].timestamp.value;
      if NamesCurrentKey(s, kid) {
        var j :| j in s.ids && s.ids[j] == kid
          && (s.policy.Some? ==> s.now - Born(s, j) <= s.policy.value.rotationIntervalSeconds * 1000);
        KidsDiffer(s, i, j);
      }
    }
  }

  lemma StoredKeysArePrivate(s: State, kid: string)
    requires Inv(s)
    ensures kid in s.keys ==> s.keys[kid].kid == kid && s.keys[kid].d.Some? && s.keys[kid].receipt.None?
  {
    if kid in s.keys {
      assert IsNumbered(s, kid);
      var i :| i in s.ids && s.ids[i] == kid;
      assert Minted(s.keys[kid], i, kid);
    }
  }

  /**
   Exactly when `unwrapKey` hands out a key, in any reachable state: the request is in order, the
   attestation holds, its report data begins with the digest of the wrapping key as bytes, the kid
   names a key within its rotation interval, and the wrapping key can be used.
  */
  lemma UnwrapSucceedsIff(s: State, req: UnwrapRequest, attested: Attested, receipts: Receipts, platform: Platform)
    requires Reachable(s)
    ensures UnwrapKey(s, req, attested, receipts, platform).Succeeded? <==>
            && UnwrapRequestError(req, platform) == 0
            && attested.Report? && attested.reportData.Some?
            && platform.digest(req.wrappingKey.value) <= attested.reportData.value
            && NamesCurrentKey(s, req.wrappedKid.value)
            && platform.canWrap(req.wrappingKey.value)
  {
    ReachableInv(s);
    if UnwrapRequestError(req, platform) == 0 && attested.Report? && attested.reportData.Some? {
      PrefixIffPrintedPrefix(platform.digest(req.wrappingKey.value), attested.reportData.value);
      NamesCurrentKeyIff(s, req.wrappedKid.value);
      StoredKeysArePrivate(s, req.wrappedKid.value);
    }
  }

  lemma PrivatePickIs(s: State, kid: Option<string>)
    requires Inv(s)
    ensures PrivatePick(s, kid)
            == if kid.Some? then kid else if |s.ids| > 0 && |s.ids| in s.ids then Some(s.ids[|s.ids|]) else None
    ensures |s.ids| > 0 ==> |s.ids| in s.ids && IsNumbered(s, s.ids[|s.ids|])
  {}

  lemma StoredIffNumbered(s: State, k: string)
    requires Inv(s)
    ensures k in s.keys <==> IsNumbered(s, k)
  {}

  /**
   In every reachable state `key` knows exactly the numbered kids, and the newest when none is named, expired
   or not, and whatever it answers holds no key material.
  */
  lemma KeySucceedsIff(
      s: State, kid: Option<string>, fmt: Option<string>, attested: Attested, receipts: Receipts, platform: Platform)
    requires Reachable(s)
    ensures KeyOf(s, kid, fmt, attested, receipts, platform).Succeeded? <==>
            && attested.Report?
            && (OrElse(fmt, "jwk") == "jwk" || OrElse(fmt, "jwk") == "tink")
            && (match kid case None => |s.ids| > 0 case Some(k) => IsNumbered(s, k))
    ensures var r := KeyOf(s, kid, fmt, attested, receipts, platform);
            r.Succeeded? ==>
              && r.body.wrapped == Placeholder
              && (kid.None? ==> |s.ids| in s.ids && r.body.wrappedKid == s.ids[|s.ids|])
              && (kid.Some? ==> r.body.wrappedKid == kid.value)
  {
    ReachableInv(s);
    PrivatePickIs(s, kid);
    match PrivatePick(s, kid)
    case None =>
    case Some(k) =>
      StoredIffNumbered(s, k);
      StoredKeysArePrivate(s, k);
  }

  /**
   What else `key` answers: the receipt or nothing, 400 when there is no key to fall back on or the format is not
   known, the status of a failed attestation, and 404 for a kid that no number has.
  */
  lemma KeyAnswers(
      s: State, kid: Option<string>, fmt: Option<string>, attested: Attested, receipts: Receipts, platform: Platform)
    requires Reachable(s)
    ensures var r := KeyOf(s, kid, fmt, attested, receipts, platform);
            && (r.Succeeded? ==>
                  r.body.receipt == if r.body.wrappedKid in receipts then receipts[r.body.wrappedKid] else "")
            && (kid.None? && |s.ids| == 0 ==> r == Failed(400))
    ensures kid.Some? || |s.ids| > 0 ==>
              var r := KeyOf(s, kid, fmt, attested, receipts, platform);
              var known := OrElse(fmt, "jwk") == "jwk" || OrElse(fmt, "jwk") == "tink";
              && (!known ==> r == Failed(400))
              && (known && attested.Rejected? ==> r == Failed(attested.status))
              && (known && attested.Report? && kid.Some? && !IsNumbered(s, kid.value) ==> r == Failed(404))
  {
    assert Inv(s) by { ReachableInv(s); }
    PrivatePickIs(s, kid);
    if kid.Some? { StoredIffNumbered(s, kid.value); }
  }

  /**
   For the same kid the two unwrap endpoints seal the same payload: the stored key itself, with its
   private part, which carries no receipt in any reachable state.
  */
  lemma SamePayload(
      s: State, req: UnwrapRequest, attested: Attested, gcp: GcpRequest, receipts: Receipts, platform: Platform)
    requires Reachable(s)
    requires OrElse(req.fmt, "jwk") == "jwk"
    requires UnwrapKey(s, req, attested, receipts, platform).Succeeded?
    requires UnwrapKeyGcp(s, gcp, receipts, platform).Succeeded?
    requires req.wrappedKid == Some(UnwrapKeyGcp(s, gcp, receipts, platform).body.wrappedKid)
    ensures var kid := req.wrappedKid.value;
            && kid in s.keys && s.keys[kid].kid == kid && s.keys[kid].d.Some?
            && UnwrapKey(s, req, attested, receipts, platform).body.wrapped.payload == JwkPayload(s.keys[kid])
            && UnwrapKeyGcp(s, gcp, receipts, platform).body.wrapped.payload == JwkPayload(s.keys[kid])
  {
    ReachableInv(s);
    StoredKeysArePrivate(s, req.wrappedKid.value);
  }

  // ---------------------------------------------------------------- the two halves belong together

  predicate IsPairOf(step: Step, x: string, d: Option<string>) {
    step.Refresh? && step.pair.x == x && Some(step.pair.d) == d
  }

  /** The item holds both halves of one pair that the platform generated for a refresh of the run. */
  ghost predicate FromRefresh(run: seq<Step>, x: string, d: Option<string>) {
    exists i | 0 <= i < |run| :: IsPairOf(run[i], x, d)
  }

  lemma {:induction false} KeysComeFromRefreshes(s: State, run: seq<Step>, k: string)
    requires k in Exec(s, run).keys
    ensures var item := Exec(s, run).keys[k];
            (k in s.keys && s.keys[k] == item) || FromRefresh(run, item.x, item.d)
    decreases run
  {
    if run == [] {
    } else {
      var item := Exec(s, run).keys[k];
      KeysComeFromRefreshes(Next(s, run[0]), run[1..], k);
      if FromRefresh(run[1..], item.x, item.d) {
        var i :| 0 <= i < |run[1..]| && IsPairOf(run[1..][i], item.x, item.d);
        assert IsPairOf(run[i + 1], item.x, item.d);
      }
    }
  }

  /** The kid `pubkey` answers for. */
  function ServedKid(s: State, kid: Option<string>): Option<string> {
    if OrElse(kid, "") != "" then kid
    else match PublicPick(s) case None => None case Some(pick) => Some(pick.1)
  }

  function PublicHalf(key: PublicKey): string {
    match key case JwkKey(jwk) => jwk.x case TinkKey(_, value, _) => value
  }

  function PrivateHalf(payload: Payload): Option<string> {
    match payload case JwkPayload(jwk) => jwk.d case TinkPayload(d) => Some(d)
  }

  lemma PublicHalfIsStored(s: State, kid: Option<string>, fmt: Option<string>, receipts: Receipts)
    requires PubKey(s, kid, fmt, receipts).Succeeded?
    ensures var k, public := ServedKid(s, kid), PubKey(s, kid, fmt, receipts).body;
            && k.Some? && k.value in s.keys && PublicHalf(public) == s.keys[k.value].x
            && (public.JwkKey? ==> public.jwk.kid == s.keys[k.value].kid)
  {}

  lemma PrivateHalfIsStored(s: State, req: UnwrapRequest, attested: Attested, receipts: Receipts, platform: Platform)
    requires UnwrapKey(s, req, attested, receipts, platform).Succeeded?
    ensures req.wrappedKid.Some? && req.wrappingKey.Some? && req.wrappedKid.value in s.keys
    ensures var sealed := UnwrapKey(s, req, attested, receipts, platform).body.wrapped;
            sealed.wrappingKey == req.wrappingKey.value && PrivateHalf(sealed.payload) == s.keys[req.wrappedKid.value].d
  {}

  lemma StoredForever(start: int, run: seq<Step>, more: seq<Step>, k: string)
    requires k in Exec(Init(start), run).keys
    ensures var item := Exec(Init(start), run).keys[k];
            && item.kid == k && FromRefresh(run, item.x, item.d)
            && k in Exec(Init(start), run + more).keys && Exec(Init(start), run + more).keys[k] == item
  {
    KidResolvesForever(start, run, more, k);
    KeysComeFromRefreshes(Init(start), run, k);
    assert Inv(Exec(Init(start), run)) by {
      InitInv(start);
      RunKeepsInv(Init(start), run);
    }
    StoredKeysArePrivate(Exec(Init(start), run), k);
  }

  /**
   Whatever `pubkey` hands out, in either format, opens with what `unwrapKey` seals for its kid at any later
   time, in either format: the two are the halves of one pair that some refresh stored.
  */
  lemma HalvesBelongTogether(
      start: int, run: seq<Step>, more: seq<Step>, kid: Option<string>, fmt: Option<string>, req: UnwrapRequest,
      attested: Attested, receipts: Receipts, laterReceipts: Receipts, platform: Platform)
    requires PubKey(Exec(Init(start), run), kid, fmt, receipts).Succeeded?
    requires UnwrapKey(Exec(Init(start), run + more), req, attested, laterReceipts, platform).Succeeded?
    requires req.wrappedKid == ServedKid(Exec(Init(start), run), kid)
    ensures var public := PubKey(Exec(Init(start), run), kid, fmt, receipts).body;
            var sealed := UnwrapKey(Exec(Init(start), run + more), req, attested, laterReceipts, platform).body.wrapped;
            && sealed.wrappingKey == req.wrappingKey.value
            && FromRefresh(run, PublicHalf(public), PrivateHalf(sealed.payload))
            && (public.JwkKey? ==> req.wrappedKid == Some(public.jwk.kid))
  {
    PublicHalfIsStored(Exec(Init(start), run), kid, fmt, receipts);
    PrivateHalfIsStored(Exec(Init(start), run + more), req, attested, laterReceipts, platform);
    StoredForever(start, run, more, req.wrappedKid.value);
  }

  /**
   Private-key clients see a new key at once. Public-key clients see it at once too, by the fallback, exactly
   when there is no grace period or even the first key is younger than it; else they keep to an older key.
  */
  lemma NewKeyIsPrivateFirst(s: State, pair: KeyPair, elapsed: nat)
    requires Reachable(s)
    ensures var t := Next(s, Refresh(pair, elapsed));
            && LatestItem(t).Some? && PrivatePick(t, None) == Some(LatestItem(t).value.1)
            && LatestItem(t).value.0 == |s.ids| + 1 && LatestItem(t).value.1 !in s.keys
            && (PublicPick(t) == LatestItem(t) <==>
                  DelayMs(s.policy) <= 0 || t.now - Born(t, 1) < DelayMs(s.policy))
            && (PublicPick(t) != LatestItem(t) ==> PublicPick(t).Some? && PublicPick(t).value.0 <= |s.ids|)
  {
    ReachableInv(s);
    var t := Next(s, Refresh(pair, elapsed));
    NewKidIsFresh(s, pair.publicHash);
    RefreshedState(s, pair, elapsed);
    NewKeyIsPublicIff(s, pair, elapsed);
    PickIsPickNumber(t);
  }

  /**
   End to end: on a safe schedule, whatever key a public-key client is given at some moment, a well-formed
   and attested `unwrapKey` request for it is served at that moment.
  */
  lemma ExposedKeyCanBeUnwrapped(
      s: State, gapMs: nat, p: Policy, req: UnwrapRequest, attested: Attested, receipts: Receipts, platform: Platform)
    requires Reachable(s) && s.policy == Some(p) && OnSchedule(TimelineOf(s), gapMs)
    requires WorstAgeMs(gapMs, p) <= p.rotationIntervalSeconds * 1000
    requires UnwrapRequestError(req, platform) == 0 && platform.canWrap(req.wrappingKey.value)
    requires attested.Report? && attested.reportData.Some?
    requires platform.digest(req.wrappingKey.value) <= attested.reportData.value
    ensures PublicPick(s).Some?
    ensures req.wrappedKid == Some(PublicPick(s).value.1) ==> UnwrapKey(s, req, attested, receipts, platform).Succeeded?
  {
    ReachableInv(s);
    PickIsPickNumber(s);
    ScheduleIsSafeIff(gapMs, p);
    assert !PicksExpired(s);
    PrefixIffPrintedPrefix(platform.digest(req.wrappingKey.value), attested.reportData.value);
    var m := PublicPick(s).value.0;
    assert Minted(s.keys[s.ids[m]], m, s.ids[m]);
  }
}
