/**
 The stores and endpoints as objects. Reading a store parses serialised JSON, so every item a handler
 holds is a copy of its own: what the handlers set or delete on it never reaches the store.
*/
module KeyService {
  import opened Outcomes
  import opened Escapes
  import opened Hex
  import Kids
  import opened KeyRotation
  import opened KeyLifecycle
  import opened Exposure
  import E = KeyEndpoints

  /** A key item in memory. */
  class KeyItem {
    var kid: string
    var x: string
    var d: Option<string>
    var timestamp: Option<int>
    var expiry: Option<int>
    var id: Option<int>
    var receipt: Option<string>

    constructor Parse(json: Jwk)
      ensures Json() == json
    {
      kid, x, d := json.kid, json.x, json.d;
      timestamp, expiry, id, receipt := json.timestamp, json.expiry, json.id, json.receipt;
    }

    /** `JSON.stringify`: a field that is deleted or never set is left out. */
    function Json(): Jwk
      reads this
    {
      Jwk(kid, x, d, timestamp, expiry, id, receipt)
    }
  }

  class LastestItemStore {
    var store: map<int, string>

    constructor ()
      ensures store == map[]
    {
      store := map[];
    }

    function Size(): nat
      reads this
    {
      |store|
    }

    method StoreItem(id: int, item: string)
      modifies this
      ensures store == old(store)[id := item]
    {
      store := store[id := item];
    }

    method LatestItem() returns (id: int, item: Option<string>)
      ensures id == |store|
      ensures item == if id > 0 && id in store then Some(store[id]) else None
    {
      id := |store|;
      if id <= 0 { return id, None; }
      item := if id in store then Some(store[id]) else None;
    }
  }

  class KeyStore {
    var store: map<string, Jwk>

    constructor ()
      ensures store == map[]
    {
      store := map[];
    }

    method StoreItem(id: string, item: KeyItem)
      modifies this
      ensures store == old(store)[id := item.Json()]
    {
      store := store[id := item.Json()];
    }

    method Get(id: string) returns (item: KeyItem?)
      ensures item == null <==> id !in store
      ensures item != null ==> fresh(item) && item.Json() == store[id]
    {
      if id !in store { return null; }
      item := new KeyItem.Parse(store[id]);
    }
  }

  method GenerateKeyItem(id: int, expiry: Option<int>, pair: KeyPair, now: int) returns (jwk: KeyItem)
    ensures fresh(jwk)
    ensures var kept := if expiry == Some(0) then None else expiry;
            jwk.Json() == Jwk(pair.publicHash, pair.x, Some(pair.d), Some(now), kept, Some(id), None)
  {
    jwk := new KeyItem.Parse(Jwk(pair.publicHash, pair.x, Some(pair.d), None, None, None, None));
    jwk.timestamp := Some(now);
    if expiry.Some? && expiry.value != 0 {
      jwk.expiry := expiry;
    }
    jwk.id := Some(id);
  }

  /**
   The item without its receipt, sealed for the wrapping key if there is one; a wrapping key that cannot be
   used throws.
  */
  method WrapKeyJwt(wrappingKey: Option<string>, payload: KeyItem, platform: E.Platform) returns (r: Option<E.Cipher>)
    modifies payload
    ensures payload.Json() == old(payload.Json()).(receipt := None)
    ensures r == E.WrapItem(old(payload.Json()), false, wrappingKey, platform)
  {
    payload.receipt := None;
    if wrappingKey.None? { return Some(E.Placeholder); }
    if !platform.canWrap(wrappingKey.value) { return None; }
    r := Some(E.Wrapped(wrappingKey.value, E.JwkPayload(payload.Json())));
  }

  /** The private part alone, sealed the same way; without a private part this throws first. */
  method CreateWrappedPrivateTinkKey(wrappingKey: Option<string>, payload: KeyItem, platform: E.Platform)
    returns (r: Option<E.Cipher>)
    ensures r == E.WrapItem(payload.Json(), true, wrappingKey, platform)
  {
    if payload.d.None? { return None; }
    if wrappingKey.None? { return Some(E.Placeholder); }
    if !platform.canWrap(wrappingKey.value) { return None; }
    r := Some(E.Wrapped(wrappingKey.value, E.TinkPayload(payload.d.value)));
  }

  /** The handlers over their two stores and the rotation policy. A request that fails commits nothing. */
  class Service {
    const hpkeKeyIdMap: LastestItemStore
    const hpkeKeysMap: KeyStore
    var keyRotationPolicy: Option<Policy>

    constructor ()
      ensures fresh(hpkeKeyIdMap) && fresh(hpkeKeysMap)
      ensures forall now :: View(now) == Init(now)
    {
      hpkeKeyIdMap := new LastestItemStore();
      hpkeKeysMap := new KeyStore();
      keyRotationPolicy := None;
    }

    ghost function View(now: int): State
      reads this, hpkeKeyIdMap, hpkeKeysMap
    {
      State(now, hpkeKeyIdMap.store, hpkeKeysMap.store, keyRotationPolicy)
    }

    method SetKeyRotationPolicy(policy: Policy)
      modifies this
      ensures forall now :: View(now) == Next(old(View(now)), SetPolicy(policy))
    {
      keyRotationPolicy := Some(policy);
    }

    method Refresh(authenticated: bool, creationTime: int, generationTime: int, pair: KeyPair)
      returns (r: Response<KeyItem>)
      requires creationTime <= generationTime
      modifies hpkeKeyIdMap, hpkeKeysMap
      ensures !authenticated ==> r == Failed(E.UNAUTHORIZED) && View(generationTime) == old(View(generationTime))
      ensures authenticated ==>
                View(generationTime)
                == Next(old(View(creationTime)), KeyLifecycle.Refresh(pair, generationTime - creationTime))
      ensures authenticated ==>
                var id := old(hpkeKeyIdMap.Size()) + 1;
                var item := NewItem(keyRotationPolicy, pair, id, creationTime, generationTime);
                r.Succeeded? && fresh(r.body) && r.body.Json() == item.(d := None)
    {
      if !authenticated { return Failed(E.UNAUTHORIZED); }
      var times := GetKeyItemExpiryTime(keyRotationPolicy, creationTime);
      var expiry := if times.Some? then Some(times.value.expiryTimeMs) else None;
      var id := hpkeKeyIdMap.Size() + 1;
      var keyItem := GenerateKeyItem(id % 90 + 10, expiry, pair, generationTime);
      keyItem.kid := keyItem.kid + "_" + Kids.Decimal(id);
      ghost var item := NewItem(keyRotationPolicy, pair, id, creationTime, generationTime);
      assert keyItem.Json() == item;
      hpkeKeyIdMap.StoreItem(id, keyItem.kid);
      hpkeKeysMap.StoreItem(keyItem.kid, keyItem);
      keyItem.d := None;
      r := Succeeded(keyItem);
    }

    method GetLatestExposableKey(now: int) returns (r: Option<(int, string)>)
      ensures r == LatestExposableKey(View(now))
    {
      var delayMs := DelayMs(keyRotationPolicy);
      var id := hpkeKeyIdMap.Size();
      while id >= 1
        invariant 0 <= id <= hpkeKeyIdMap.Size()
        invariant Scan(View(now), id) == LatestExposableKey(View(now))
      {
        if id in hpkeKeyIdMap.store {
          var kid := hpkeKeyIdMap.store[id];
          var keyItem := hpkeKeysMap.Get(kid);
          if keyItem == null || keyItem.timestamp.None? {
            return Some((id, kid));
          }
          if delayMs <= 0 || now - keyItem.timestamp.value >= delayMs {
            return Some((id, kid));
          }
        }
        id := id - 1;
      }
      return None;
    }

    /** The exposable key, else the newest. */
    method CurrentPublicKid(now: int) returns (kid: Option<string>)
      ensures kid == match PublicPick(View(now)) { case None => None case Some(pick) => Some(pick.1) }
    {
      var latestExposable := GetLatestExposableKey(now);
      if latestExposable.Some? {
        return Some(latestExposable.value.1);
      }
      var id;
      id, kid := hpkeKeyIdMap.LatestItem();
    }

    method ListPubKeys(authenticated: bool, now: int) returns (r: Response<E.TinkPublicKey>)
      ensures r == if authenticated then E.ListPubKeys(View(now)) else Failed(E.UNAUTHORIZED)
    {
      if !authenticated { return Failed(E.UNAUTHORIZED); }
      var kid := CurrentPublicKid(now);
      if kid.None? { return Failed(400); }
      var keyItem := hpkeKeysMap.Get(kid.value);
      if keyItem == null { return Failed(404); }
      keyItem.d := None;
      r := Succeeded(E.TinkPublicKey(keyItem.id, keyItem.x));
    }

    method PubKey(authenticated: bool, kidParam: Option<string>, fmtParam: Option<string>,
                  now: int, receipts: E.Receipts)
      returns (r: Response<E.PublicKey>)
      ensures r == if authenticated then E.PubKey(View(now), kidParam, fmtParam, receipts) else Failed(E.UNAUTHORIZED)
    {
      if !authenticated { return Failed(E.UNAUTHORIZED); }
      var kid := kidParam;
      if E.OrElse(kidParam, "") == "" {
        kid := CurrentPublicKid(now);
        if kid.None? { return Failed(400); }
      }
      var fmt := E.OrElse(fmtParam, "jwk");
      if fmt != "jwk" && fmt != "tink" { return Failed(400); }
      var keyItem := hpkeKeysMap.Get(kid.value);
      if keyItem == null { return Failed(404); }
      if kid.value !in receipts { return Accepted; }
      keyItem.receipt := Some(receipts[kid.value]);
      keyItem.d := None;
      if fmt == "tink" {
        if keyItem.id.None? { return Failed(500); }
        return Succeeded(E.TinkKey(keyItem.id.value, keyItem.x, receipts[kid.value]));
      }
      r := Succeeded(E.JwkKey(keyItem.Json()));
    }

    method Key(hasAttestation: bool, authenticated: bool, kidParam: Option<string>, fmtParam: Option<string>,
               attested: E.Attested, now: int, receipts: E.Receipts, platform: E.Platform)
      returns (r: Response<E.KeyBody>)
      ensures r == if !hasAttestation then Failed(400) else if !authenticated then Failed(E.UNAUTHORIZED)
                   else E.KeyOf(View(now), kidParam, fmtParam, attested, receipts, platform)
      ensures View(now) == old(View(now))
    {
      if !hasAttestation { return Failed(400); }
      if !authenticated { return Failed(E.UNAUTHORIZED); }
      var kid := kidParam;
      if kid.None? {
        var id;
        id, kid := hpkeKeyIdMap.LatestItem();
        if kid.None? { return Failed(400); }
      }
      var fmt := E.OrElse(fmtParam, "jwk");
      if fmt != "jwk" && fmt != "tink" { return Failed(400); }
      if attested.Rejected? { return Failed(attested.status); }
      var keyItem := hpkeKeysMap.Get(kid.value);
      if keyItem == null { return Failed(404); }
      var wrapped;
      if fmt == "tink" {
        wrapped := CreateWrappedPrivateTinkKey(None, keyItem, platform);
      } else {
        wrapped := WrapKeyJwt(None, keyItem, platform);
      }
      if wrapped.None? { return Failed(500); }
      r := Succeeded(E.KeyBody(kid.value, wrapped.value, E.OrElse(E.Lookup(receipts, kid.value), "")));
    }

    method UnwrapKey(req: E.UnwrapRequest, attested: E.Attested, now: int, receipts: E.Receipts, platform: E.Platform)
      returns (r: Response<E.UnwrapBody>)
      ensures r == E.UnwrapKey(View(now), req, attested, receipts, platform)
      ensures View(now) == old(View(now))
    {
      if !req.hasAttestation { return Failed(400); }
      if !req.authenticated { return Failed(E.UNAUTHORIZED); }
      if req.wrappedKid.None? { return Failed(400); }
      if E.OrElse(req.wrappingKey, "") == "" { return Failed(400); }
      if !platform.isPem(req.wrappingKey.value) { return Failed(400); }
      var fmt := E.OrElse(req.fmt, "jwk");
      if fmt != "jwk" && fmt != "tink" { return Failed(400); }
      if attested.Rejected? { return Failed(attested.status); }
      if attested.reportData.None? { return Failed(500); }
      var wrappingKeyHash := ToHex(platform.digest(req.wrappingKey.value));
      if !(wrappingKeyHash <= ToHex(attested.reportData.value)) { return Failed(400); }
      var kid := req.wrappedKid.value;
      var keyItem := hpkeKeysMap.Get(kid);
      if keyItem == null { return Failed(404); }
      var (expired, _) := IsExpired(keyRotationPolicy, keyItem.timestamp, now);
      if expired { return Failed(410); }
      var receipt := E.OrElse(E.Lookup(receipts, kid), "");
      keyItem.receipt := Some(receipt);
      var wrapped;
      if fmt == "tink" {
        wrapped := CreateWrappedPrivateTinkKey(req.wrappingKey, keyItem, platform);
      } else {
        wrapped := WrapKeyJwt(req.wrappingKey, keyItem, platform);
      }
      if wrapped.None? { return Failed(500); }
      r := Succeeded(E.UnwrapBody(wrapped.value, receipt));
    }

    method UnwrapKeyGcp(req: E.GcpRequest, now: int, receipts: E.Receipts, platform: E.Platform)
      returns (r: Response<E.GcpBody>)
      ensures r == E.UnwrapKeyGcp(View(now), req, receipts, platform)
      ensures View(now) == old(View(now))
    {
      if !req.authenticated { return Failed(E.UNAUTHORIZED); }
      if E.OrElse(req.wrappingKey, "") == "" { return Failed(400); }
      if !platform.isPem(req.wrappingKey.value) { return Failed(400); }
      if req.nonce == E.Missing || req.nonce == E.One("") { return Failed(400); }
      if req.nonce == E.Many([]) { return Failed(500); }
      var expectedNonce := if req.nonce.One? then req.nonce.text else req.nonce.texts[0];
      var wrappingKey := Unescape(req.wrappingKey.value);
      if ToHex(platform.digest(wrappingKey)) != expectedNonce { return Failed(400); }
      var id, kid := hpkeKeyIdMap.LatestItem();
      if kid.None? { return Failed(400); }
      var keyItem := hpkeKeysMap.Get(kid.value);
      if keyItem == null { return Failed(404); }
      var receipt := E.OrElse(E.Lookup(receipts, kid.value), "");
      var payloadCopy := new KeyItem.Parse(keyItem.Json());
      payloadCopy.receipt := None;
      if !platform.canWrap(wrappingKey) { return Failed(500); }
      r := Succeeded(E.GcpBody(kid.value, E.Wrapped(wrappingKey, E.JwkPayload(payloadCopy.Json())), receipt));
    }
  }
}
