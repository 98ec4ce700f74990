/** Which key the public-key endpoints answer with, and in which words, told by ages and numbers alone. */
module PublicAnswers {
  import opened Outcomes
  import opened KeyRotation
  import opened KeyLifecycle
  import opened Exposure
  import opened PublicPicks
  import opened KeyEndpoints

  /** The newest key of at least the grace age, or the newest of all while none has it. */
  ghost predicate IsPublicNumber(s: State, m: int) {
    && 1 <= m <= |s.ids|
    && (forall i | m < i <= |s.ids| :: s.now - Born(s, i) < DelayMs(s.policy))
    && (s.now - Born(s, m) >= DelayMs(s.policy)
        || (m == |s.ids| && forall i | 1 <= i <= |s.ids| :: s.now - Born(s, i) < DelayMs(s.policy)))
  }

  /** There is one such number exactly when there is a key, and it is the one picked. */
  lemma PublicNumberIsPicked(s: State)
    requires Reachable(s) && |s.ids| > 0
    ensures PublicPick(s).Some? && IsPublicNumber(s, PublicPick(s).value.0)
    ensures forall m | IsPublicNumber(s, m) ::
              m in s.ids && s.ids[m] in s.keys && PublicPick(s) == Some((m, s.ids[m]))
  {
    ReachableInv(s);
    EveryIdHasItem(s);
    ScanFindsLargest(s, |s.ids|);
  }

  lemma ItemOfNumber(s: State, m: int)
    requires Inv(s) && 1 <= m <= |s.ids|
    ensures m in s.ids && s.ids[m] in s.keys
    ensures var item := s.keys[s.ids[m]];
            && item.kid == s.ids[m] && item.id == Some(m % 90 + 10) && item.d.Some? && item.receipt.None?
            && item.timestamp == Some(Born(s, m))
  {
    assert m in s.ids && Minted(s.keys[s.ids[m]], m, s.ids[m]);
  }

  lemma NoKeyNoPick(s: State)
    requires |s.ids| == 0
    ensures PublicPick(s) == None && LatestItem(s) == None
  {}

  /**
   In every reachable state `listpubkeys` answers 400 exactly when there is no key, and else with the number
   and the public part of the newest key of the grace age, or of the newest while no key has it.
  */
  lemma ListPubKeysAnswers(s: State)
    requires Reachable(s)
    ensures |s.ids| == 0 <==> ListPubKeys(s) == Failed(400)
    ensures |s.ids| > 0 ==> exists m :: IsPublicNumber(s, m)
    ensures forall m | IsPublicNumber(s, m) ::
              && m in s.ids && s.ids[m] in s.keys
              && ListPubKeys(s) == Succeeded(TinkPublicKey(Some(m % 90 + 10), s.keys[s.ids[m]].x))
  {
    if |s.ids| == 0 {
      NoKeyNoPick(s);
    } else {
      PublicNumberIsPicked(s);
      ReachableInv(s);
      ItemOfNumber(s, PublicPick(s).value.0);
    }
  }

  /** The kid a request asks for: the one it names, or the one of the public number if it names none. */
  ghost predicate AsksFor(s: State, kid: Option<string>, k: string) {
    if kid.None? || kid.value == "" then exists m | IsPublicNumber(s, m) :: m in s.ids && s.ids[m] == k
    else kid.value == k
  }

  /** A format that is not given, or empty, is jwk. */
  predicate IsJwk(fmt: Option<string>) {
    fmt.None? || fmt.value == "" || fmt.value == "jwk"
  }

  predicate IsTink(fmt: Option<string>) {
    fmt == Some("tink")
  }

  lemma AskedKid(s: State, kid: Option<string>, k: string)
    requires Reachable(s) && AsksFor(s, kid, k)
    ensures ServedKid(s, kid) == Some(k)
  {
    if kid.None? || kid.value == "" {
      var m :| IsPublicNumber(s, m) && m in s.ids && s.ids[m] == k;
      PublicNumberIsPicked(s);
    }
  }

  /**
   In every reachable state, what `pubkey` answers for a kid: 400 for an unknown format, 404 for a kid no number
   has, 202 while the receipt is not there, and else the key of that number, without private part.
  */
  lemma PubKeyAnswers(s: State, kid: Option<string>, fmt: Option<string>, receipts: Receipts, k: string)
    requires Reachable(s) && AsksFor(s, kid, k)
    ensures var r := PubKey(s, kid, fmt, receipts);
            && (r == Failed(400) <==> !IsJwk(fmt) && !IsTink(fmt))
            && (r == Failed(404) <==> (IsJwk(fmt) || IsTink(fmt)) && !IsNumbered(s, k))
            && (r == Accepted <==> (IsJwk(fmt) || IsTink(fmt)) && IsNumbered(s, k) && k !in receipts)
    ensures forall i | i in s.ids && s.ids[i] == k && k in receipts ::
              && k in s.keys
              && (IsTink(fmt) ==>
                    PubKey(s, kid, fmt, receipts) == Succeeded(TinkKey(i % 90 + 10, s.keys[k].x, receipts[k])))
              && (IsJwk(fmt) ==>
                    PubKey(s, kid, fmt, receipts) == Succeeded(JwkKey(Jwk(
                      k, s.keys[k].x, None, Some(Born(s, i)), s.keys[k].expiry, Some(i % 90 + 10), Some(receipts[k])))))
  {
    AskedKid(s, kid, k);
    assert PubKey(s, kid, fmt, receipts) == PubKeyOf(s, k, OrElse(fmt, "jwk"), receipts);
    assert Inv(s) by { ReachableInv(s); }
    StoredIffNumbered(s, k);
    forall i | i in s.ids && s.ids[i] == k
      ensures k in s.keys && s.keys[k].kid == k && s.keys[k].id == Some(i % 90 + 10)
      ensures s.keys[k].timestamp == Some(Born(s, i))
    {
      ItemOfNumber(s, i);
    }
  }

  /** Without a kid and without a key, `pubkey` answers 400, whatever the format. */
  lemma PubKeyWithoutKeys(s: State, kid: Option<string>, fmt: Option<string>, receipts: Receipts)
    requires |s.ids| == 0 && (kid.None? || kid.value == "")
    ensures PubKey(s, kid, fmt, receipts) == Failed(400)
  {
    NoKeyNoPick(s);
  }
}
