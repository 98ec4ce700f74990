/**
 The life of the keys as a state machine over a clock that never goes back: `refresh` appends a key,
 governance replaces the rotation policy, and every run keeps the two stores in step.
*/
module KeyLifecycle {
  import opened Outcomes
  import opened Kids
  import opened KeyRotation

  /** A stored key, as its serialised JSON: an absent field is `None`. `d` is the private part. */
  datatype Jwk = Jwk(
    kid: string,
    x: string,
    d: Option<string>,
    timestamp: Option<int>,
    expiry: Option<int>,
    id: Option<int>,
    receipt: Option<string>)

  /** What the platform generates: the digest text of the public key, and the two parts. */
  datatype KeyPair = KeyPair(publicHash: string, x: string, d: string)

  /** The clock, the id-to-kid store, the kid-to-key store and the rotation policy. */
  datatype State = State(now: int, ids: map<int, string>, keys: map<string, Jwk>, policy: Option<Policy>)

  /** A refresh reads the clock twice; `elapsed` is what passes in between. */
  datatype Step = Tick(elapsed: nat) | Refresh(pair: KeyPair, elapsed: nat) | SetPolicy(policy: Policy)

  function Init(now: int): State {
    State(now, map[], map[], None)
  }

  /** The key a refresh stores under number `id`; an expiry of zero is falsy and left out. */
  function NewItem(policy: Option<Policy>, pair: KeyPair, id: nat, creationTime: int, timestamp: int): Jwk {
    var expiry := match GetKeyItemExpiryTime(policy, creationTime)
                  case None => None
                  case Some(times) => if times.expiryTimeMs == 0 then None else Some(times.expiryTimeMs);
    Jwk(Kid(pair.publicHash, id), pair.x, Some(pair.d), Some(timestamp), expiry, Some(id % 90 + 10), None)
  }

  /** The stores with one item more, filed under its number and its kid. */
  function Append(s: State, elapsed: nat, id: int, item: Jwk): State {
    State(s.now + elapsed, s.ids[id := item.kid], s.keys[item.kid := item], s.policy)
  }

  function Next(s: State, step: Step): State {
    match step
    case Tick(elapsed) => s.(now := s.now + elapsed)
    case SetPolicy(p) => s.(policy := Some(p))
    case Refresh(pair, elapsed) =>
      var id := |s.ids| + 1;
      Append(s, elapsed, id, NewItem(s.policy, pair, id, s.now, s.now + elapsed))
  }

  function Exec(s: State, run: seq<Step>): State
    decreases run
  {
    if run == [] then s else Exec(Next(s, run[0]), run[1..])
  }

  lemma {:induction false} ExecConcat(s: State, a: seq<Step>, b: seq<Step>)
    ensures Exec(s, a + b) == Exec(Exec(s, a), b)
    decreases a
  {
    if a == [] {
      assert a + b == b;
    } else {
      assert (a + b)[0] == a[0] && (a + b)[1..] == a[1..] + b;
      ExecConcat(Next(s, a[0]), a[1..], b);
    }
  }

  /** When key `i` was made. */
  function Born(s: State, i: int): int {
    if i in s.ids && s.ids[i] in s.keys && s.keys[s.ids[i]].timestamp.Some?
    then s.keys[s.ids[i]].timestamp.value else 0
  }

  /** A key as `refresh` leaves it in the store under number `i`. */
  ghost predicate Minted(item: Jwk, i: int, kid: string) {
    && i >= 1
    && item.kid == kid
    && (exists hash :: kid == Kid(hash, i))
    && item.d.Some?
    && item.timestamp.Some?
    && item.id == Some(i % 90 + 10)
    && item.receipt.None?
  }

  /** Some id leads to `kid`. */
  ghost predicate IsNumbered(s: State, kid: string) {
    exists i :: i in s.ids && s.ids[i] == kid
  }

  /** Ids are exactly 1..n. */
  ghost predicate Dense(s: State) {
    forall i :: i in s.ids <==> 1 <= i <= |s.ids|
  }

  /** Every id leads to its own key, and every key is reached from an id. */
  ghost predicate Linked(s: State) {
    && |s.keys| == |s.ids|
    && (forall i | i in s.ids :: s.ids[i] in s.keys && Minted(s.keys[s.ids[i]], i, s.ids[i]))
    && (forall k | k in s.keys :: IsNumbered(s, k))
  }

  /** Later ids are not older, and no key is from the future. */
  ghost predicate Chronological(s: State) {
    && (forall i, j | 1 <= i <= j <= |s.ids| :: Born(s, i) <= Born(s, j))
    && (forall i | 1 <= i <= |s.ids| :: Born(s, i) <= s.now)
  }

  /** What every run keeps. */
  ghost predicate Inv(s: State) {
    Dense(s) && Linked(s) && Chronological(s)
  }

  /** Nothing stored is ever lost or replaced. */
  ghost predicate Extends(s: State, later: State) {
    && s.now <= later.now
    && (forall i | i in s.ids :: i in later.ids && later.ids[i] == s.ids[i])
    && (forall k | k in s.keys :: k in later.keys && later.keys[k] == s.keys[k])
  }

  /** The kid a refresh is about to use is new: its number is larger than any number in use. */
  lemma NewKidIsFresh(s: State, hash: string)
    requires Inv(s)
    ensures Kid(hash, |s.ids| + 1) !in s.keys
  {
    var kid := Kid(hash, |s.ids| + 1);
    if kid in s.keys {
      assert IsNumbered(s, kid);
      var i :| i in s.ids && s.ids[i] == kid;
      assert Minted(s.keys[kid], i, kid);
      var h :| kid == Kid(h, i);
      KidDeterminesParts(hash, |s.ids| + 1, h, i);
    }
  }

  lemma OneKeyMore<K, V>(m: map<K, V>, k: K, v: V)
    requires k !in m
    ensures var t := m[k := v];
            t.Keys == m.Keys + {k} && |t| == |m| + 1 && forall j | j in m :: t[j] == m[j]
  {
    assert m[k := v].Keys == m.Keys + {k};
  }

  lemma AppendExtends(s: State, elapsed: nat, id: int, item: Jwk)
    requires id !in s.ids && item.kid !in s.keys && |s.keys| == |s.ids|
    ensures var t := Append(s, elapsed, id, item);
            Extends(s, t) && t.ids.Keys == s.ids.Keys + {id} && |t.ids| == |t.keys| == |s.ids| + 1
  {
    OneKeyMore(s.ids, id, item.kid);
    OneKeyMore(s.keys, item.kid, item);
  }

  lemma NextIdIsFree(s: State)
    requires Inv(s)
    ensures |s.ids| + 1 !in s.ids && |s.keys| == |s.ids|
  {}

  lemma FreshRefreshExtends(s: State, pair: KeyPair, elapsed: nat)
    requires |s.ids| + 1 !in s.ids && |s.keys| == |s.ids| && Kid(pair.publicHash, |s.ids| + 1) !in s.keys
    ensures var t := Next(s, Refresh(pair, elapsed));
            && Extends(s, t)
            && t.ids.Keys == s.ids.Keys + {|s.ids| + 1} && |t.ids| == |t.keys| == |s.ids| + 1
  {
    var id := |s.ids| + 1;
    AppendExtends(s, elapsed, id, NewItem(s.policy, pair, id, s.now, s.now + elapsed));
  }

  lemma RefreshExtends(s: State, pair: KeyPair, elapsed: nat)
    requires Inv(s)
    ensures var t := Next(s, Refresh(pair, elapsed));
            && Extends(s, t)
            && t.ids.Keys == s.ids.Keys + {|s.ids| + 1} && |t.ids| == |t.keys| == |s.ids| + 1
  {
    NextIdIsFree(s);
    NewKidIsFresh(s, pair.publicHash);
    FreshRefreshExtends(s, pair, elapsed);
  }

  /** What a refresh makes is minted, at the moment of its second clock reading. */
  lemma NewItemIsMinted(policy: Option<Policy>, pair: KeyPair, id: nat, creationTime: int, timestamp: int)
    requires id >= 1
    ensures var item := NewItem(policy, pair, id, creationTime, timestamp);
            item.kid == Kid(pair.publicHash, id) && item.timestamp == Some(timestamp) && Minted(item, id, item.kid)
  {
    var kid := NewItem(policy, pair, id, creationTime, timestamp).kid;
    assert kid == Kid(pair.publicHash, id);
  }

  lemma RefreshMints(s: State, pair: KeyPair, elapsed: nat)
    ensures var t := Next(s, Refresh(pair, elapsed));
            var id := |s.ids| + 1;
            && id in t.ids && t.keys.Keys == s.keys.Keys + {t.ids[id]}
            && Minted(t.keys[t.ids[id]], id, t.ids[id])
            && Born(t, id) == t.now
  {
    NewItemIsMinted(s.policy, pair, |s.ids| + 1, s.now, s.now + elapsed);
  }

  lemma BirthsFixed(s: State, t: State)
    requires Dense(s) && Linked(s) && Extends(s, t)
    ensures forall i | 1 <= i <= |s.ids| :: Born(t, i) == Born(s, i)
  {
    forall i | 1 <= i <= |s.ids| ensures Born(t, i) == Born(s, i) {
      assert i in s.ids;
    }
  }

  lemma GrowsLinked(s: State, t: State, id: int)
    requires Linked(s) && Extends(s, t) && |t.ids| == |t.keys|
    requires id in t.ids && t.ids.Keys == s.ids.Keys + {id} && t.keys.Keys == s.keys.Keys + {t.ids[id]}
    requires Minted(t.keys[t.ids[id]], id, t.ids[id])
    ensures Linked(t)
  {
    forall i | i in t.ids ensures t.ids[i] in t.keys && Minted(t.keys[t.ids[i]], i, t.ids[i]) {
      if i != id { assert i in s.ids; }
    }
    forall k | k in t.keys ensures IsNumbered(t, k) {
      if k in s.keys {
        assert IsNumbered(s, k);
        var i :| i in s.ids && s.ids[i] == k;
        assert i in t.ids && t.ids[i] == k;
      } else {
        assert id in t.ids && t.ids[id] == k;
      }
    }
  }

  lemma GrowsChronological(s: State, t: State)
    requires Chronological(s) && s.now <= t.now && |t.ids| == |s.ids| + 1 && Born(t, |t.ids|) == t.now
    requires forall i | 1 <= i <= |s.ids| :: Born(t, i) == Born(s, i)
    ensures Chronological(t)
  {}

  lemma GrowsDense(s: State, kid: string)
    requires Dense(s)
    ensures var ids := s.ids[|s.ids| + 1 := kid];
            |ids| == |s.ids| + 1 && forall i :: i in ids <==> 1 <= i <= |ids|
  {
    var ids := s.ids[|s.ids| + 1 := kid];
    assert |s.ids| + 1 !in s.ids;
    forall i ensures i in ids <==> 1 <= i <= |s.ids| + 1 {
      assert i in s.ids <==> 1 <= i <= |s.ids|;
    }
  }

  lemma RefreshKeepsLinked(s: State, pair: KeyPair, elapsed: nat)
    requires Inv(s)
    ensures Linked(Next(s, Refresh(pair, elapsed)))
  {
    RefreshExtends(s, pair, elapsed);
    RefreshMints(s, pair, elapsed);
    GrowsLinked(s, Next(s, Refresh(pair, elapsed)), |s.ids| + 1);
  }

  lemma RefreshKeepsChronological(s: State, pair: KeyPair, elapsed: nat)
    requires Inv(s)
    ensures Chronological(Next(s, Refresh(pair, elapsed)))
  {
    var t := Next(s, Refresh(pair, elapsed));
    assert Extends(s, t) && |t.ids| == |s.ids| + 1 by { RefreshExtends(s, pair, elapsed); }
    assert Born(t, |t.ids|) == t.now by { RefreshMints(s, pair, elapsed); }
    BirthsFixed(s, t);
    GrowsChronological(s, t);
  }

  lemma RefreshKeepsDense(s: State, pair: KeyPair, elapsed: nat)
    requires Dense(s)
    ensures Dense(Next(s, Refresh(pair, elapsed)))
  {
    GrowsDense(s, Kid(pair.publicHash, |s.ids| + 1));
  }

  lemma RefreshKeepsInv(s: State, pair: KeyPair, elapsed: nat)
    requires Inv(s)
    ensures Inv(Next(s, Refresh(pair, elapsed)))
  {
    assert Dense(Next(s, Refresh(pair, elapsed))) by { RefreshKeepsDense(s, pair, elapsed); }
    assert Linked(Next(s, Refresh(pair, elapsed))) by { RefreshKeepsLinked(s, pair, elapsed); }
    assert Chronological(Next(s, Refresh(pair, elapsed))) by { RefreshKeepsChronological(s, pair, elapsed); }
  }

  lemma QuietStepKeepsInv(s: State, t: State)
    requires Inv(s) && t.ids == s.ids && t.keys == s.keys && s.now <= t.now
    ensures Inv(t) && Extends(s, t)
  {
    assert forall i :: Born(t, i) == Born(s, i);
    forall k | k in t.keys ensures IsNumbered(t, k) {
      assert IsNumbered(s, k);
    }
  }

  lemma StepKeepsInv(s: State, step: Step)
    requires Inv(s)
    ensures Inv(Next(s, step)) && Extends(s, Next(s, step))
  {
    match step
    case Refresh(pair, elapsed) =>
      RefreshExtends(s, pair, elapsed);
      RefreshKeepsInv(s, pair, elapsed);
    case _ =>
      QuietStepKeepsInv(s, Next(s, step));
  }

  /** Every run keeps the invariant, and keeps every id, kid and key it ever stored. */
  lemma {:induction false} RunKeepsInv(s: State, run: seq<Step>)
    requires Inv(s)
    ensures Inv(Exec(s, run)) && Extends(s, Exec(s, run))
    decreases run
  {
    if run == [] {
    } else {
      StepKeepsInv(s, run[0]);
      RunKeepsInv(Next(s, run[0]), run[1..]);
    }
  }

  lemma InitInv(now: int)
    ensures Inv(Init(now))
  {}

  lemma KidsDiffer(s: State, i: int, j: int)
    requires Linked(s) && i in s.ids && j in s.ids && s.ids[i] == s.ids[j]
    ensures i == j
  {
    var h :| s.ids[i] == Kid(h, i);
    var g :| s.ids[j] == Kid(g, j);
    KidDeterminesParts(h, i, g, j);
  }

  /** From the empty service on: ids are 1..n, no two ids share a kid, and each kid has its own key. */
  lemma StoresStayInStep(now: int, run: seq<Step>)
    ensures var s := Exec(Init(now), run);
            && (forall i :: i in s.ids <==> 1 <= i <= |s.ids|)
            && |s.keys| == |s.ids|
            && (forall i, j | i in s.ids && j in s.ids && s.ids[i] == s.ids[j] :: i == j)
            && (forall i | i in s.ids :: s.ids[i] in s.keys && s.keys[s.ids[i]].kid == s.ids[i])
            && (forall k | k in s.keys :: s.keys[k].d.Some?)
  {
    InitInv(now);
    RunKeepsInv(Init(now), run);
    var s := Exec(Init(now), run);
    forall i, j | i in s.ids && j in s.ids && s.ids[i] == s.ids[j] ensures i == j {
      KidsDiffer(s, i, j);
    }
  }

  /** A kid once handed out names the same key after any further run. */
  lemma KidResolvesForever(now: int, run: seq<Step>, more: seq<Step>, kid: string)
    requires kid in Exec(Init(now), run).keys
    ensures kid in Exec(Init(now), run + more).keys
    ensures Exec(Init(now), run + more).keys[kid] == Exec(Init(now), run).keys[kid]
  {
    InitInv(now);
    RunKeepsInv(Init(now), run);
    RunKeepsInv(Exec(Init(now), run), more);
    ExecConcat(Init(now), run, more);
  }

  /** A refresh really adds: the new number and kid were free, and the stores grow by one each. */
  lemma RefreshAppends(now: int, run: seq<Step>, pair: KeyPair, elapsed: nat)
    ensures var s := Exec(Init(now), run);
            var t := Next(s, Refresh(pair, elapsed));
            && |t.ids| == |s.ids| + 1 && |t.keys| == |s.keys| + 1
            && |t.ids| !in s.ids && t.ids[|t.ids|] !in s.keys
  {
    InitInv(now);
    RunKeepsInv(Init(now), run);
    NewKidIsFresh(Exec(Init(now), run), pair.publicHash);
  }
}
