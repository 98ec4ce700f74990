/** The meaning the validator gives to the stored policy, and how it follows the edits. */
module Validator {
  import opened Outcomes
  import opened ReleasePolicy
  import opened PolicyAlgebra

  /**
   The attested values, by name. Names that are not in it are missing; looking up an inherited name gives the
   source a function instead, which reads as no number, so a bound under it refuses just the same.
  */
  type Attestation = map<string, Scalar>

  /** How numbers are printed, and which texts `parseFloat` reads as a number. */
  datatype Js = Js(show: real -> string, parse: string -> Option<real>)

  /** `toString`. */
  function Print(js: Js, v: Scalar): string {
    match v case Num(n) => js.show(n) case Str(s) => s case Bool(b) => if b then "true" else "false"
  }

  /** Some policy value prints as the attested one: comparison is by text, whatever the types. */
  predicate Matches(js: Js, list: seq<Scalar>, v: Scalar) {
    exists i | 0 <= i < |list| :: Print(js, list[i]) == Print(js, v)
  }

  /** An attested text matches a text that is the same, a number that is shown so, and the word for a truth value. */
  lemma MatchesAsText(js: Js, text: string, other: string, n: real)
    ensures Matches(js, [Str(other)], Str(text)) <==> text == other
    ensures Matches(js, [Num(n)], Str(text)) <==> text == js.show(n)
    ensures Matches(js, [Bool(true)], Str(text)) <==> text == "true"
    ensures Matches(js, [Bool(false)], Str(text)) <==> text == "false"
  {
    assert forall v: Scalar :: Matches(js, [v], Str(text)) <==> Print(js, [v][0]) == text;
  }

  predicate ClaimHolds(js: Js, claims: Claims, att: Attestation, k: string)
    requires k in claims
  {
    k in att && Matches(js, claims[k], att[k])
  }

  predicate ClaimsHold(js: Js, claims: Claims, att: Attestation) {
    forall k | k in claims :: ClaimHolds(js, claims, att, k)
  }

  /** The bound a policy value stands for: a number, or a text that reads as one. */
  function BoundOf(js: Js, v: Scalar): Option<real> {
    match v case Num(n) => Some(n) case Str(s) => js.parse(s) case Bool(_) => None
  }

  /** The number compared with it; what does not read as a number compares false. */
  function Attested(js: Js, v: Scalar): Option<real> {
    match v case Num(n) => Some(n) case _ => js.parse(Print(js, v))
  }

  /** A single attested value against a single bound. */
  predicate MeetsBound(js: Js, gte: bool, bound: Scalar, v: Scalar) {
    && BoundOf(js, bound).Some? && Attested(js, v).Some?
    && if gte then Attested(js, v).value >= BoundOf(js, bound).value
       else Attested(js, v).value > BoundOf(js, bound).value
  }

  predicate BoundHolds(js: Js, gte: bool, bounds: Bounds, att: Attestation, k: string)
    requires k in bounds
  {
    k in att && MeetsBound(js, gte, bounds[k], att[k])
  }

  predicate BoundsHold(js: Js, gte: bool, bounds: Bounds, att: Attestation) {
    forall k | k in bounds :: BoundHolds(js, gte, bounds, att, k)
  }

  /** The verdict on a policy whose claims are recorded. A recorded `gt` decides alone, whatever `gte` says. */
  predicate Accepts(js: Js, p: Policy, att: Attestation) {
    && p.claims.Some? && p.claims.value != map[] && ClaimsHold(js, p.claims.value, att)
    && match (p.gte, p.gt)
       case (_, Some(gt)) => BoundsHold(js, false, gt, att)
       case (Some(gte), None) => BoundsHold(js, true, gte, att)
       case (None, None) => true
  }

  method ValidateKeyReleasePolicyClaims(js: Js, claims: Claims, att: Attestation) returns (r: Response<Attestation>)
    ensures r == if ClaimsHold(js, claims, att) then Succeeded(att) else Failed(400)
  {
    var todo := claims.Keys;
    while todo != {}
      invariant todo <= claims.Keys
      invariant forall k | k in claims && k !in todo :: ClaimHolds(js, claims, att, k)
      decreases todo
    {
      var key :| key in todo;
      if key !in att {
        assert !ClaimHolds(js, claims, att, key);
        return Failed(400);
      }
      var inx, found := 0, false;
      while inx < |claims[key]|
        invariant 0 <= inx <= |claims[key]|
        invariant found <==> exists i | 0 <= i < inx :: Print(js, claims[key][i]) == Print(js, att[key])
      {
        if Print(js, claims[key][inx]) == Print(js, att[key]) { found := true; }
        inx := inx + 1;
      }
      if !found {
        assert !ClaimHolds(js, claims, att, key);
        return Failed(400);
      }
      todo := todo - {key};
    }
    r := Succeeded(att);
  }

  method ValidateKeyReleasePolicyOperators(js: Js, kind: string, bounds: Bounds, att: Attestation)
    returns (r: Response<Attestation>)
    ensures r == if BoundsHold(js, kind == "gte", bounds, att) then Succeeded(att) else Failed(400)
  {
    var gte := kind == "gte";
    var todo := bounds.Keys;
    while todo != {}
      invariant todo <= bounds.Keys
      invariant forall k | k in bounds && k !in todo :: BoundHolds(js, gte, bounds, att, k)
      decreases todo
    {
      var key :| key in todo;
      ghost var holds := BoundHolds(js, gte, bounds, att, key);
      if key !in att { assert !holds; return Failed(400); }
      var policyValue := BoundOf(js, bounds[key]);
      if policyValue.None? { assert !holds; return Failed(400); }
      var attestationValue := Attested(js, att[key]);
      if gte {
        if attestationValue.None? || !(attestationValue.value >= policyValue.value) {
          assert !holds;
          return Failed(400);
        }
      } else {
        if attestationValue.None? || !(attestationValue.value > policyValue.value) {
          assert !holds;
          return Failed(400);
        }
      }
      todo := todo - {key};
    }
    r := Succeeded(att);
  }

  /**
   Reading the policy fails with 500 when no claims entry exists; after that every refusal is a 400. The
   result variable is assigned again for each recorded operator.
  */
  method ValidateKeyReleasePolicy(js: Js, p: Policy, att: Attestation) returns (r: Response<Attestation>)
    ensures p.claims.None? ==> r == Failed(500)
    ensures p.claims.Some? ==> r == if Accepts(js, p, att) then Succeeded(att) else Failed(400)
  {
    if p.claims.None? { return Failed(500); }
    if |p.claims.value| == 0 { return Failed(400); }
    r := ValidateKeyReleasePolicyClaims(js, p.claims.value, att);
    if !r.Succeeded? { return; }
    if p.gte.Some? {
      r := ValidateKeyReleasePolicyOperators(js, "gte", p.gte.value, att);
    }
    if p.gt.Some? {
      r := ValidateKeyReleasePolicyOperators(js, "gt", p.gt.value, att);
    }
  }

  /** The verdict a reader of the policy expects: claims and every recorded operator. */
  predicate AcceptsAll(js: Js, p: Policy, att: Attestation) {
    && p.claims.Some? && p.claims.value != map[] && ClaimsHold(js, p.claims.value, att)
    && (p.gte.Some? ==> BoundsHold(js, true, p.gte.value, att))
    && (p.gt.Some? ==> BoundsHold(js, false, p.gt.value, att))
  }

  /** Machines that cannot be debugged, at privilege level 1 or above, with a guest version above 0. */
  function BothOperators(): Policy {
    Policy(
      Some(map["x-ms-sevsnpvm-is-debuggable" := [Bool(false)]]),
      Some(map["x-ms-sevsnpvm-vmpl" := Num(1.0)]),
      Some(map["x-ms-sevsnpvm-guestsvn" := Num(0.0)]))
  }

  /** A machine at level 0 is accepted although the recorded `gte` bound refuses it: the `gt` verdict replaced it. */
  lemma GtReplacesGte(js: Js, att: Attestation)
    requires "x-ms-sevsnpvm-is-debuggable" in att && att["x-ms-sevsnpvm-is-debuggable"] == Bool(false)
    requires "x-ms-sevsnpvm-vmpl" in att && att["x-ms-sevsnpvm-vmpl"] == Num(0.0)
    requires "x-ms-sevsnpvm-guestsvn" in att && att["x-ms-sevsnpvm-guestsvn"] == Num(1.0)
    ensures Accepts(js, BothOperators(), att) && !BoundsHold(js, true, BothOperators().gte.value, att)
  {
    var claims := BothOperators().claims.value;
    assert Print(js, claims["x-ms-sevsnpvm-is-debuggable"][0]) == Print(js, att["x-ms-sevsnpvm-is-debuggable"]);
    assert ClaimHolds(js, claims, att, "x-ms-sevsnpvm-is-debuggable");
    assert "x-ms-sevsnpvm-is-debuggable" in claims;
    assert !BoundHolds(js, true, BothOperators().gte.value, att, "x-ms-sevsnpvm-vmpl");
  }

  /**
   The validator is the conjunction, for all contents of the policy, exactly when at most one operator is
   recorded.
  */
  lemma ConjunctionIffOneOperator(js: Js, hasGte: bool, hasGt: bool)
    ensures !(hasGte && hasGt) <==>
            forall p: Policy, att | p.gte.Some? == hasGte && p.gt.Some? == hasGt ::
              Accepts(js, p, att) == AcceptsAll(js, p, att)
  {
    if hasGte && hasGt {
      var att: Attestation := map[
        "x-ms-sevsnpvm-is-debuggable" := Bool(false),
        "x-ms-sevsnpvm-vmpl" := Num(0.0),
        "x-ms-sevsnpvm-guestsvn" := Num(1.0)];
      GtReplacesGte(js, att);
      assert Accepts(js, BothOperators(), att) != AcceptsAll(js, BothOperators(), att);
    }
  }

  /** Stored values of different types that print alike are kept apart by the store but accept the same attestations. */
  lemma TypesDifferInStoreOnly(js: Js, list: seq<Scalar>, n: real, v: Scalar)
    requires Num(n) in list && Str(js.show(n)) !in list
    ensures Merge(list, [Str(js.show(n))]) == list + [Str(js.show(n))]
    ensures Matches(js, list + [Str(js.show(n))], v) <==> Matches(js, list, v)
  {
    var twin := Str(js.show(n));
    var longer := list + [twin];
    assert Merge(list, [twin][..0]) == list;
    var k :| 0 <= k < |list| && list[k] == Num(n);
    if Matches(js, longer, v) {
      var i :| 0 <= i < |longer| && Print(js, longer[i]) == Print(js, v);
      if i == |list| { assert Print(js, list[k]) == Print(js, v); } else { assert list[i] == longer[i]; }
    }
    if Matches(js, list, v) {
      var i :| 0 <= i < |list| && Print(js, list[i]) == Print(js, v);
      assert longer[i] == list[i];
    }
  }

  /** A name recorded with an empty list refuses every attestation. */
  lemma EmptyListRefusesAll(js: Js, p: Policy, att: Attestation, k: string)
    requires k in OrEmpty(p.claims) && p.claims.value[k] == []
    ensures !Accepts(js, p, att)
  {
    assert !ClaimHolds(js, p.claims.value, att, k);
  }

  // ---------------------------------------------------------------- verdicts follow edits

  lemma MatchesMore(js: Js, list: seq<Scalar>, longer: seq<Scalar>, v: Scalar)
    requires Matches(js, list, v) && forall x | x in list :: x in longer
    ensures Matches(js, longer, v)
  {
    var i :| 0 <= i < |list| && Print(js, list[i]) == Print(js, v);
    assert list[i] in longer;
    var j :| 0 <= j < |longer| && longer[j] == list[i];
    assert Print(js, longer[j]) == Print(js, v);
  }

  function ClaimsOnly(kind: string, args: ClaimArgs): Edit {
    Edit(kind, args, None, None)
  }

  lemma SomeNameKept(claims: Claims, after: Claims)
    requires claims != map[] && claims.Keys <= after.Keys
    ensures after != map[]
  {
    assert claims.Keys != {};
    var k :| k in claims.Keys;
    assert k in after;
  }

  /** More values under names already recorded: what was accepted stays accepted. */
  lemma AddingValuesKeepsAccepting(js: Js, p: Policy, args: ClaimArgs, att: Attestation)
    requires Accepts(js, p, att) && forall k | k in args :: k in OrEmpty(p.claims)
    ensures Accepts(js, Commit(p, ClaimsOnly("add", args)), att)
  {
    var q := Commit(p, ClaimsOnly("add", args));
    if Apply(p, ClaimsOnly("add", args)).Some? {
      forall k | k in q.claims.value ensures ClaimHolds(js, q.claims.value, att, k) {
        assert k in p.claims.value && ClaimHolds(js, p.claims.value, att, k);
        if k in args {
          forall x | x in p.claims.value[k] ensures x in q.claims.value[k] {
            InMerge(p.claims.value[k], Items(args[k]), x);
          }
          MatchesMore(js, p.claims.value[k], q.claims.value[k], att[k]);
        }
      }
      SomeNameKept(p.claims.value, q.claims.value);
    }
  }

  /** Only new names: what was refused stays refused, provided some claim was recorded before. */
  lemma AddingNamesKeepsRefusing(js: Js, p: Policy, args: ClaimArgs, att: Attestation)
    requires !Accepts(js, p, att) && OrEmpty(p.claims) != map[]
    requires forall k | k in args :: k !in OrEmpty(p.claims)
    ensures !Accepts(js, Commit(p, ClaimsOnly("add", args)), att)
  {
    var q := Commit(p, ClaimsOnly("add", args));
    if Apply(p, ClaimsOnly("add", args)).Some? && Accepts(js, q, att) {
      forall k | k in p.claims.value ensures ClaimHolds(js, p.claims.value, att, k) {
        assert k in q.claims.value && q.claims.value[k] == p.claims.value[k];
        assert ClaimHolds(js, q.claims.value, att, k);
      }
    }
  }

  lemma RemovalShrinks(claims: Claims, args: ClaimArgs, k: string)
    requires RemoveClaims(claims, args).Some?
    ensures RemoveClaims(claims, args).value.Keys <= claims.Keys
    ensures var after := RemoveClaims(claims, args).value;
            k in after ==> forall x | x in after[k] :: x in claims[k]
  {
    RemoveMeaning(claims, args);
    var after := RemoveClaims(claims, args).value;
    if k in after && k in args {
      forall x | x in after[k] ensures x in claims[k] { InWithout(claims[k], Items(args[k]), x); }
    }
  }

  /** Removing values without emptying a list: what was refused stays refused. */
  lemma RemovingValuesKeepsRefusing(js: Js, p: Policy, args: ClaimArgs, att: Attestation)
    requires !Accepts(js, p, att)
    requires OrEmpty(p.claims).Keys <= OrEmpty(Commit(p, ClaimsOnly("remove", args)).claims).Keys
    ensures !Accepts(js, Commit(p, ClaimsOnly("remove", args)), att)
  {
    var q := Commit(p, ClaimsOnly("remove", args));
    if Apply(p, ClaimsOnly("remove", args)).Some? && Accepts(js, q, att) {
      forall k | k in p.claims.value ensures ClaimHolds(js, p.claims.value, att, k) {
        assert k in OrEmpty(p.claims) && k in OrEmpty(q.claims);
        assert ClaimHolds(js, q.claims.value, att, k);
        RemovalShrinks(p.claims.value, args, k);
        MatchesMore(js, q.claims.value[k], p.claims.value[k], att[k]);
      }
      RemovalShrinks(p.claims.value, args, "");
      SomeNameKept(q.claims.value, p.claims.value);
    }
  }
}
