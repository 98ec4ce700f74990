/** When the two unwrap endpoints serve a key, what they then seal, and how they refuse, with nothing left unsaid. */
module UnwrapAnswers {
  import opened Outcomes
  import opened Escapes
  import opened Hex
  import opened KeyRotation
  import opened KeyLifecycle
  import opened Exposure
  import opened KeyEndpoints
  import opened PublicAnswers
  import opened ExpiryGate

  // ---------------------------------------------------------------- unwrapKey

  /** What `unwrapKey` asks of a request before it looks at the attestation. */
  predicate IsComplete(req: UnwrapRequest, platform: Platform) {
    && req.hasAttestation && req.authenticated
    && req.wrappedKid.Some?
    && req.wrappingKey.Some? && req.wrappingKey.value != "" && platform.isPem(req.wrappingKey.value)
    && (IsJwk(req.fmt) || IsTink(req.fmt))
  }

  /** The wrapping key is the one the report was made for. */
  predicate IsBoundTo(attested: Attested, wrappingKey: string, platform: Platform) {
    && attested.Report? && attested.reportData.Some?
    && platform.digest(wrappingKey) <= attested.reportData.value
  }

  /**
   In every reachable state `unwrapKey` succeeds exactly when the caller is authenticated and sent an attestation,
   a kid, a PEM wrapping key and a known format, the report is bound to the wrapping key, the kid is that of a
   key within its interval, and the wrapping key can be used.
  */
  lemma UnwrapServedIff(s: State, req: UnwrapRequest, attested: Attested, receipts: Receipts, platform: Platform)
    requires Reachable(s)
    ensures UnwrapKey(s, req, attested, receipts, platform).Succeeded? <==>
            && IsComplete(req, platform)
            && IsBoundTo(attested, req.wrappingKey.value, platform)
            && NamesCurrentKey(s, req.wrappedKid.value)
            && platform.canWrap(req.wrappingKey.value)
  {
    UnwrapSucceedsIff(s, req, attested, receipts, platform);
  }

  /** What it answers then: the stored key without receipt, or its private part alone, and the receipt or nothing. */
  lemma UnwrapSeals(s: State, req: UnwrapRequest, attested: Attested, receipts: Receipts, platform: Platform)
    requires Reachable(s) && UnwrapKey(s, req, attested, receipts, platform).Succeeded?
    ensures req.wrappedKid.Some? && req.wrappingKey.Some? && req.wrappedKid.value in s.keys
    ensures var body, kid := UnwrapKey(s, req, attested, receipts, platform).body, req.wrappedKid.value;
            && s.keys[kid].d.Some?
            && body.receipt == (if kid in receipts then receipts[kid] else "")
            && (IsJwk(req.fmt) ==> body.wrapped == Wrapped(req.wrappingKey.value, JwkPayload(s.keys[kid])))
            && (IsTink(req.fmt) ==> body.wrapped == Wrapped(req.wrappingKey.value, TinkPayload(s.keys[kid].d.value)))
  {
    ReachableInv(s);
    StoredKeysArePrivate(s, req.wrappedKid.value);
  }

  /**
   How a refusal is answered: 401 for a caller who sent an attestation and is not authenticated, 404 and 410 for
   a complete and bound request whose kid is not known, or is that of a key past its interval.
  */
  lemma UnwrapRefuses(s: State, req: UnwrapRequest, attested: Attested, receipts: Receipts, platform: Platform)
    requires Reachable(s)
    ensures var r := UnwrapKey(s, req, attested, receipts, platform);
            && (!req.hasAttestation ==> r == Failed(400))
            && (req.hasAttestation && !req.authenticated ==> r == Failed(401))
            && (req.hasAttestation && req.authenticated && !IsComplete(req, platform) ==> r == Failed(400))
            && (IsComplete(req, platform) && attested.Rejected? ==> r == Failed(attested.status))
            && (IsComplete(req, platform) && attested == Report(None) ==> r == Failed(500))
            && (IsComplete(req, platform) && attested.Report? && attested.reportData.Some? ==>
                  (!IsBoundTo(attested, req.wrappingKey.value, platform) ==> r == Failed(400)))
    ensures IsComplete(req, platform) && IsBoundTo(attested, req.wrappingKey.value, platform) ==>
              var r, kid := UnwrapKey(s, req, attested, receipts, platform), req.wrappedKid.value;
              && (r == Failed(404) <==> !IsNumbered(s, kid))
              && (r == Failed(410) <==> IsNumbered(s, kid) && !NamesCurrentKey(s, kid))
              && (NamesCurrentKey(s, kid) && !platform.canWrap(req.wrappingKey.value) ==> r == Failed(500))
  {
    assert Inv(s) by { ReachableInv(s); }
    if IsComplete(req, platform) {
      if attested.Report? && attested.reportData.Some? {
        PrefixIffPrintedPrefix(platform.digest(req.wrappingKey.value), attested.reportData.value);
      }
      StoredIffNumbered(s, req.wrappedKid.value);
      NamesCurrentKeyIff(s, req.wrappedKid.value);
      StoredKeysArePrivate(s, req.wrappedKid.value);
    }
  }

  // ---------------------------------------------------------------- unwrapKeyGcp

  /** A text is the hex of some bytes exactly when it is in lower case and reads as those bytes. */
  lemma PrintsIff(bytes: seq<byte>, text: string)
    ensures ToHex(bytes) == text <==> IsLowerHex(text) && FromHex(text) == Some(bytes)
  {
    ReadingUndoesPrinting(bytes);
    PrintingUndoesReadingIff(text);
  }

  /** The nonce that counts, the only one or the first, if there is one. */
  function FirstNonce(nonce: Nonce): Option<string> {
    match nonce
    case Missing => None
    case One(text) => if text == "" then None else Some(text)
    case Many(texts) => if texts == [] then None else Some(texts[0])
  }

  /** The caller's token was issued for this wrapping key: its nonce reads as the digest of the unescaped key. */
  predicate IsNonceFor(gcp: GcpRequest, platform: Platform)
    requires gcp.wrappingKey.Some?
  {
    match FirstNonce(gcp.nonce)
    case None => false
    case Some(text) => IsLowerHex(text) && FromHex(text) == Some(platform.digest(Unescape(gcp.wrappingKey.value)))
  }

  /** What `unwrapKeyGcp` asks of a request. */
  predicate IsCompleteGcp(gcp: GcpRequest, platform: Platform) {
    && gcp.authenticated
    && gcp.wrappingKey.Some? && gcp.wrappingKey.value != "" && platform.isPem(gcp.wrappingKey.value)
    && IsNonceFor(gcp, platform)
  }

  lemma GcpRequestIsCompleteIff(gcp: GcpRequest, platform: Platform)
    ensures GcpRequestError(gcp, platform) == 0 <==> IsCompleteGcp(gcp, platform)
  {
    if gcp.wrappingKey.Some? {
      match FirstNonce(gcp.nonce)
      case None =>
      case Some(text) => PrintsIff(platform.digest(Unescape(gcp.wrappingKey.value)), text);
    }
  }

  /**
   In every reachable state `unwrapKeyGcp` succeeds exactly when the caller is authenticated and sent a PEM
   wrapping key, the nonce of the caller's token is the digest of that key, there is a key, and the wrapping key
   can be used. It then seals the newest key for the unescaped wrapping key.
  */
  lemma GcpServedIff(s: State, gcp: GcpRequest, receipts: Receipts, platform: Platform)
    requires Reachable(s)
    ensures UnwrapKeyGcp(s, gcp, receipts, platform).Succeeded? <==>
            && IsCompleteGcp(gcp, platform)
            && |s.ids| > 0
            && platform.canWrap(Unescape(gcp.wrappingKey.value))
  {
    GcpRequestIsCompleteIff(gcp, platform);
    GcpSucceedsIff(s, gcp, receipts, platform);
  }

  lemma GcpSeals(s: State, gcp: GcpRequest, receipts: Receipts, platform: Platform)
    requires Reachable(s) && UnwrapKeyGcp(s, gcp, receipts, platform).Succeeded?
    ensures gcp.wrappingKey.Some? && |s.ids| in s.ids && s.ids[|s.ids|] in s.keys
    ensures var kid, body := s.ids[|s.ids|], UnwrapKeyGcp(s, gcp, receipts, platform).body;
            && body.wrappedKid == kid && s.keys[kid].d.Some?
            && body.wrapped == Wrapped(Unescape(gcp.wrappingKey.value), JwkPayload(s.keys[kid]))
            && body.receipt == if kid in receipts then receipts[kid] else ""
  {
    GcpServedIff(s, gcp, receipts, platform);
    GcpSucceedsIff(s, gcp, receipts, platform);
    ReachableInv(s);
    ItemOfNumber(s, |s.ids|);
  }

  /** The status of every refusal, in the order of the checks. */
  lemma GcpRefuses(s: State, gcp: GcpRequest, receipts: Receipts, platform: Platform)
    requires Reachable(s)
    ensures var r := UnwrapKeyGcp(s, gcp, receipts, platform);
            && (!gcp.authenticated ==> r == Failed(401))
            && (gcp.authenticated && (gcp.wrappingKey.None? || gcp.wrappingKey.value == "") ==> r == Failed(400))
    ensures gcp.authenticated && gcp.wrappingKey.Some? && gcp.wrappingKey.value != "" ==>
              var r, isPem := UnwrapKeyGcp(s, gcp, receipts, platform), platform.isPem(gcp.wrappingKey.value);
              && (!isPem || (gcp.nonce != Many([]) && !IsNonceFor(gcp, platform)) ==> r == Failed(400))
              && (isPem && gcp.nonce == Many([]) ==> r == Failed(500))
    ensures IsCompleteGcp(gcp, platform) ==>
              var r := UnwrapKeyGcp(s, gcp, receipts, platform);
              && (|s.ids| == 0 ==> r == Failed(400))
              && (|s.ids| > 0 && !platform.canWrap(Unescape(gcp.wrappingKey.value)) ==> r == Failed(500))
  {
    GcpRequestIsCompleteIff(gcp, platform);
    ReachableInv(s);
    EveryIdHasItem(s);
  }
}
