/**
 When one policy lets in nothing that another refuses. The verdict falls apart into names, so the question is
 decided name by name, for any two policies; for edits of operators it comes down to comparing bounds.
*/
module PolicyOrder {
  import opened Outcomes
  import opened ReleasePolicy
  import opened Validator

  /** The operator that decides, and its bounds: a recorded `gt`, else a recorded `gte`, else nothing to meet. */
  datatype Decider = Decider(gte: bool, bounds: Bounds)

  function DeciderOf(p: Policy): Decider {
    match (p.gte, p.gt)
    case (_, Some(gt)) => Decider(false, gt)
    case (Some(gte), None) => Decider(true, gte)
    case (None, None) => Decider(true, map[])
  }

  function Names(p: Policy): set<string> {
    OrEmpty(p.claims).Keys + DeciderOf(p).bounds.Keys
  }

  predicate MeetsDecider(js: Js, d: Decider, k: string, v: Scalar) {
    k in d.bounds ==> MeetsBound(js, d.gte, d.bounds[k], v)
  }

  /** All that the policy asks of the value attested under one name. */
  predicate Meets(js: Js, p: Policy, k: string, v: Scalar) {
    && (k in OrEmpty(p.claims) ==> Matches(js, OrEmpty(p.claims)[k], v))
    && MeetsDecider(js, DeciderOf(p), k, v)
  }

  predicate HasClaims(p: Policy) {
    OrEmpty(p.claims) != map[]
  }

  /** The verdict falls apart into one condition for each name. */
  lemma AcceptsNameByName(js: Js, p: Policy, att: Attestation)
    ensures Accepts(js, p, att) <==> HasClaims(p) && forall k | k in Names(p) :: k in att && Meets(js, p, k, att[k])
  {
    var d := DeciderOf(p);
    if Accepts(js, p, att) {
      forall k | k in Names(p) ensures k in att && Meets(js, p, k, att[k]) {
        if k in p.claims.value { assert ClaimHolds(js, p.claims.value, att, k); }
        if k in d.bounds { assert BoundHolds(js, d.gte, d.bounds, att, k); }
      }
    }
    if HasClaims(p) && forall k | k in Names(p) :: k in att && Meets(js, p, k, att[k]) {
      forall k | k in p.claims.value ensures ClaimHolds(js, p.claims.value, att, k) {
        assert k in Names(p);
      }
      forall k | k in d.bounds ensures BoundHolds(js, d.gte, d.bounds, att, k) {
        assert k in Names(p);
      }
    }
  }

  /** Something can be attested under every name. */
  ghost predicate IsSatisfiable(js: Js, p: Policy) {
    HasClaims(p) && forall k | k in Names(p) :: exists v :: Meets(js, p, k, v)
  }

  /** An attestation that a satisfiable policy accepts, with no names but its own. */
  lemma Sample(js: Js, p: Policy) returns (att: Attestation)
    requires IsSatisfiable(js, p)
    ensures att.Keys == Names(p) && (forall k | k in att :: Meets(js, p, k, att[k])) && Accepts(js, p, att)
  {
    att := map[];
    var todo := Names(p);
    while todo != {}
      invariant todo <= Names(p) && att.Keys == Names(p) - todo
      invariant forall k | k in att :: Meets(js, p, k, att[k])
      decreases todo
    {
      var k :| k in todo;
      var v :| Meets(js, p, k, v);
      att, todo := att[k := v], todo - {k};
    }
    AcceptsNameByName(js, p, att);
  }

  /** Some attestation is accepted exactly when something can be attested under every name. */
  lemma SatisfiableIff(js: Js, p: Policy)
    ensures IsSatisfiable(js, p) <==> exists att :: Accepts(js, p, att)
  {
    if IsSatisfiable(js, p) { var att := Sample(js, p); }
    if att :| Accepts(js, p, att) { AcceptsNameByName(js, p, att); }
  }

  /** Every attestation that `p` refuses is refused by `q`. */
  ghost predicate KeepsRefusing(js: Js, p: Policy, q: Policy) {
    forall att | !Accepts(js, p, att) :: !Accepts(js, q, att)
  }

  /** Under this name `q` asks for at least as much as `p`. */
  ghost predicate AsksAsMuch(js: Js, p: Policy, q: Policy, k: string) {
    k in Names(q) && forall v | Meets(js, q, k, v) :: Meets(js, p, k, v)
  }

  lemma AskingLessIsSeen(js: Js, p: Policy, q: Policy)
    requires IsSatisfiable(js, q) && KeepsRefusing(js, p, q)
    ensures HasClaims(p) && forall k | k in Names(p) :: AsksAsMuch(js, p, q, k)
  {
    var att := Sample(js, q);
    assert Accepts(js, p, att);
    AcceptsNameByName(js, p, att);
    forall k, v | k in Names(p) && Meets(js, q, k, v) ensures Meets(js, p, k, v) {
      AcceptsNameByName(js, q, att[k := v]);
      AcceptsNameByName(js, p, att[k := v]);
      assert Accepts(js, p, att[k := v]);
    }
  }

  /**
   For any two policies: what one refuses the other refuses too, exactly when the other accepts nothing at all
   or the one has claims and the other asks for at least as much under each of its names.
  */
  lemma KeepsRefusingIff(js: Js, p: Policy, q: Policy)
    ensures KeepsRefusing(js, p, q) <==>
            !IsSatisfiable(js, q) || (HasClaims(p) && forall k | k in Names(p) :: AsksAsMuch(js, p, q, k))
  {
    if IsSatisfiable(js, q) {
      if KeepsRefusing(js, p, q) {
        AskingLessIsSeen(js, p, q);
      } else {
        var att :| !Accepts(js, p, att) && Accepts(js, q, att);
        AcceptsNameByName(js, p, att);
        AcceptsNameByName(js, q, att);
        if HasClaims(p) {
          var k :| k in Names(p) && !(k in att && Meets(js, p, k, att[k]));
          assert !AsksAsMuch(js, p, q, k);
        }
      }
    } else {
      SatisfiableIff(js, q);
    }
  }

  // ---------------------------------------------------------------- adding bounds

  /** An edit of bounds that touches no claim. */
  function BoundsEdit(kind: string, gte: Option<ClaimArgs>, gt: Option<ClaimArgs>): Edit {
    Edit(kind, map[], gte, gt)
  }

  lemma AddingBoundsKeepsClaims(p: Policy, gte: Option<ClaimArgs>, gt: Option<ClaimArgs>)
    ensures OrEmpty(Commit(p, BoundsEdit("add", gte, gt)).claims) == OrEmpty(p.claims)
  {
    var claims := OrEmpty(p.claims);
    assert claims.Keys + Recorded(claims, map[]) == claims.Keys;
    assert AddClaims(claims, map[]).value == claims;
  }

  /**
   Exactly when adding bounds keeps refusing what was refused: afterwards nothing is accepted, or under every
   name of the operator that decided before, what is let in meets the bound of before.
  */
  lemma AddingBoundsKeepsRefusingIff(js: Js, p: Policy, gte: Option<ClaimArgs>, gt: Option<ClaimArgs>)
    ensures var q := Commit(p, BoundsEdit("add", gte, gt));
            KeepsRefusing(js, p, q) <==>
            || !IsSatisfiable(js, q)
            || forall k | k in DeciderOf(p).bounds ::
                 k in Names(q) && forall v | Meets(js, q, k, v) :: MeetsDecider(js, DeciderOf(p), k, v)
  {
    var q := Commit(p, BoundsEdit("add", gte, gt));
    AddingBoundsKeepsClaims(p, gte, gt);
    KeepsRefusingIff(js, p, q);
    if IsSatisfiable(js, q) {
      if forall k | k in Names(p) :: AsksAsMuch(js, p, q, k) {
        forall k | k in DeciderOf(p).bounds
          ensures k in Names(q) && forall v | Meets(js, q, k, v) :: MeetsDecider(js, DeciderOf(p), k, v)
        {
          assert AsksAsMuch(js, p, q, k);
        }
      }
    }
  }

  /** The first bound is at least as tight as the second: no number meets it, or only numbers the second lets in. */
  predicate IsAsTight(js: Js, gte1: bool, bound1: Scalar, gte2: bool, bound2: Scalar) {
    match (BoundOf(js, bound1), BoundOf(js, bound2))
    case (None, _) => true
    case (Some(_), None) => false
    case (Some(b1), Some(b2)) => b1 > b2 || (b1 == b2 && (gte2 || !gte1))
  }

  /** Bounds compare as their numbers, and equal numbers by operator. */
  lemma IsAsTightIff(js: Js, gte1: bool, bound1: Scalar, gte2: bool, bound2: Scalar)
    ensures IsAsTight(js, gte1, bound1, gte2, bound2) <==>
            forall v | MeetsBound(js, gte1, bound1, v) :: MeetsBound(js, gte2, bound2, v)
  {
    if !IsAsTight(js, gte1, bound1, gte2, bound2) {
      var b1 := BoundOf(js, bound1).value;
      var v := if gte1 then Num(b1)
               else if BoundOf(js, bound2).None? || BoundOf(js, bound2).value <= b1 then Num(b1 + 1.0)
               else Num((b1 + BoundOf(js, bound2).value) / 2.0);
      assert MeetsBound(js, gte1, bound1, v) && !MeetsBound(js, gte2, bound2, v);
    }
  }

  /**
   Where no bound is on a name with a claim list, the condition is on the bounds alone: every bound that decided
   before is still decided on, by one at least as tight.
  */
  lemma AddingBoundsTightensIff(js: Js, p: Policy, gte: Option<ClaimArgs>, gt: Option<ClaimArgs>)
    requires DeciderOf(p).bounds.Keys !! OrEmpty(p.claims).Keys
    ensures var q := Commit(p, BoundsEdit("add", gte, gt));
            var before, after := DeciderOf(p), DeciderOf(q);
            KeepsRefusing(js, p, q) <==>
            || !IsSatisfiable(js, q)
            || forall k | k in before.bounds ::
                 k in after.bounds && IsAsTight(js, after.gte, after.bounds[k], before.gte, before.bounds[k])
  {
    var q := Commit(p, BoundsEdit("add", gte, gt));
    var before, after := DeciderOf(p), DeciderOf(q);
    AddingBoundsKeepsClaims(p, gte, gt);
    AddingBoundsKeepsRefusingIff(js, p, gte, gt);
    forall k | k in before.bounds
      ensures (k in Names(q) && forall v | Meets(js, q, k, v) :: MeetsDecider(js, before, k, v))
              <==> k in after.bounds && IsAsTight(js, after.gte, after.bounds[k], before.gte, before.bounds[k])
    {
      assert k in Names(q) <==> k in after.bounds;
      if k in after.bounds {
        IsAsTightIff(js, after.gte, after.bounds[k], before.gte, before.bounds[k]);
        forall v ensures Meets(js, q, k, v) <==> MeetsBound(js, after.gte, after.bounds[k], v) {}
        forall v ensures MeetsDecider(js, before, k, v) <==> MeetsBound(js, before.gte, before.bounds[k], v) {}
      }
    }
  }

  /** With `BothOperators` stored but for its `gt` bound, adding that bound lets in what was refused. */
  lemma AddingGtLetsIn(js: Js, att: Attestation)
    requires "x-ms-sevsnpvm-is-debuggable" in att && att["x-ms-sevsnpvm-is-debuggable"] == Bool(false)
    requires "x-ms-sevsnpvm-vmpl" in att && att["x-ms-sevsnpvm-vmpl"] == Num(0.0)
    requires "x-ms-sevsnpvm-guestsvn" in att && att["x-ms-sevsnpvm-guestsvn"] == Num(1.0)
    ensures var before := BothOperators().(gt := None);
            var gt := map["x-ms-sevsnpvm-guestsvn" := Single(Num(0.0))];
            && Commit(before, BoundsEdit("add", None, Some(gt))) == BothOperators()
            && !Accepts(js, before, att) && Accepts(js, BothOperators(), att)
  {
    GtReplacesGte(js, att);
    var before := BothOperators().(gt := None);
    var gt := map["x-ms-sevsnpvm-guestsvn" := Single(Num(0.0))];
    AddingBoundsKeepsClaims(before, None, Some(gt));
    assert AddBounds(map[], gt).value == BothOperators().gt.value;
  }

  lemma OneBoundAdded(bounds: Bounds, name: string, bound: Scalar)
    requires IsAllowed(name) && name != PROTO
    ensures var added := AddBounds(bounds, map[name := Single(bound)]); added.Some? && name in added.value
  {}

  lemma AddingGtCommits(p: Policy, name: string, bound: Scalar)
    requires AddBounds(OrEmpty(p.gt), map[name := Single(bound)]).Some?
    ensures var gt := map[name := Single(bound)];
            Commit(p, BoundsEdit("add", None, Some(gt))).gt == AddBounds(OrEmpty(p.gt), gt)
  {}

  lemma MissingNameRefuses(js: Js, q: Policy, name: string, att: Attestation)
    requires name !in att && name in Names(q)
    ensures !Accepts(js, q, att)
  {
    AcceptsNameByName(js, q, att);
  }

  /**
   A deciding bound under a name that is not attested refuses everything; attestations never have an inherited
   name, so a `gt` bound stored under one locks everybody out until it is removed.
  */
  lemma InheritedBoundRefusesAll(js: Js, p: Policy, name: string, bound: Scalar, att: Attestation)
    requires IsInherited(name) && name != PROTO && name !in att
    ensures !Accepts(js, Commit(p, BoundsEdit("add", None, Some(map[name := Single(bound)]))), att)
  {
    OneBoundAdded(OrEmpty(p.gt), name, bound);
    AddingGtCommits(p, name, bound);
    MissingNameRefuses(js, Commit(p, BoundsEdit("add", None, Some(map[name := Single(bound)]))), name, att);
  }
}
