/** The operators of the policy under governance edits: what an edit records, what it takes back, and the verdicts. */
module BoundsAlgebra {
  import opened Outcomes
  import opened ReleasePolicy
  import opened PolicyAlgebra
  import opened Validator
  import opened PolicyOrder

  // ---------------------------------------------------------------- one record

  /**
   An addition of claims goes through exactly when every name is a claim, or inherited and either recorded or
   without items. Afterwards each list has what it had and what it was given, and other lists are as they were.
  */
  lemma AddMeaning(claims: Claims, args: ClaimArgs)
    ensures AddClaims(claims, args).Some? <==>
            forall k | k in args :: IsClaim(k) || (IsInherited(k) && (k in claims || Items(args[k]) == []))
    ensures AddClaims(claims, args).Some? ==>
              var after := AddClaims(claims, args).value;
              && (forall k :: k in after <==> k in claims || (k in args && (IsClaim(k) || k in claims)))
              && (forall k, x | k in after && k in args :: x in after[k] <==>
                    (k in claims && x in claims[k]) || x in Items(args[k]))
              && (forall k | k in claims && k !in args :: after[k] == claims[k])
  {
    ClaimsAreNotInherited();
    forall k, x | k in args ensures x in Merge(ListOf(claims, k), Items(args[k])) <==>
                                    x in ListOf(claims, k) || x in Items(args[k]) {
      InMerge(ListOf(claims, k), Items(args[k]), x);
    }
  }

  lemma SameItemsSameAddition(claims: Claims, a: ClaimArgs, b: ClaimArgs)
    requires a.Keys == b.Keys && forall k | k in a :: Items(a[k]) == Items(b[k])
    ensures AddClaims(claims, a) == AddClaims(claims, b)
  {
    assert forall k | k in a :: Addable(claims, k, a[k]) == Addable(claims, k, b[k]);
    if AddClaims(claims, a).Some? {
      assert Recorded(claims, a) == Recorded(claims, b);
      SameMap(AddClaims(claims, a).value, AddClaims(claims, b).value);
    }
  }

  lemma SameItemsSameRemoval(claims: Claims, a: ClaimArgs, b: ClaimArgs)
    requires a.Keys == b.Keys && forall k | k in a :: Items(a[k]) == Items(b[k])
    ensures RemoveClaims(claims, a) == RemoveClaims(claims, b)
  {
    assert forall k | k in a :: Removable(claims, k, a[k]) == Removable(claims, k, b[k]);
    assert forall k | k in claims :: AfterRemoval(claims, a, k) == AfterRemoval(claims, b, k);
    if RemoveClaims(claims, a).Some? {
      SameMap(RemoveClaims(claims, a).value, RemoveClaims(claims, b).value);
    }
  }

  /** A value given alone counts as an array of that value: after an addition the list has it. */
  lemma SingleCountsAsArray(claims: Claims, args: ClaimArgs, name: string, v: Scalar)
    ensures AddClaims(claims, args[name := Single(v)]) == AddClaims(claims, args[name := Many([v])])
    ensures RemoveClaims(claims, args[name := Single(v)]) == RemoveClaims(claims, args[name := Many([v])])
    ensures AddClaims(claims, args[name := Single(v)]).Some? ==>
              var after := AddClaims(claims, args[name := Single(v)]).value;
              name in after && v in after[name]
  {
    var single, many := args[name := Single(v)], args[name := Many([v])];
    SameItemsSameAddition(claims, single, many);
    SameItemsSameRemoval(claims, single, many);
    AddMeaning(claims, single);
    assert v in Items(Single(v));
  }

  /**
   An addition of bounds goes through exactly when every name is a claim or inherited and carries no array.
   Afterwards a name is bound if it was or is named, to what was named for it, or else to what it was; only the
   prototype is not recorded anew.
  */
  lemma AddBoundsMeaning(bounds: Bounds, args: ClaimArgs)
    ensures AddBounds(bounds, args).Some? <==>
            forall k | k in args :: (IsClaim(k) || IsInherited(k)) && args[k].Single?
    ensures AddBounds(bounds, args).Some? ==>
              var after := AddBounds(bounds, args).value;
              && (forall k :: k in after <==> k in bounds || (k in args && k != "__proto__"))
              && (forall k | k in after :: Single(after[k]) == if k in args then args[k] else Single(bounds[k]))
  {}

  /**
   A removal of bounds goes through exactly when every name is a claim or inherited, carries no array, and is
   bound or inherited. Afterwards a name is bound exactly if it was and is not named, to what it was.
  */
  lemma RemoveBoundsMeaning(bounds: Bounds, args: ClaimArgs)
    ensures RemoveBounds(bounds, args).Some? <==>
            forall k | k in args ::
              (IsClaim(k) || IsInherited(k)) && args[k].Single? && (k in bounds || IsInherited(k))
    ensures RemoveBounds(bounds, args).Some? ==>
              var after := RemoveBounds(bounds, args).value;
              && (forall k :: k in after <==> k in bounds && k !in args)
              && (forall k | k in after :: after[k] == bounds[k])
  {}

  // ---------------------------------------------------------------- whole edits

  /** An operator that is named must be edited with success; to remove from, it must be recorded. */
  ghost predicate EditsOperator(bounds: Option<Bounds>, args: Option<ClaimArgs>, adding: bool) {
    args.Some? ==>
      if adding then AddBounds(OrEmpty(bounds), args.value).Some?
      else bounds.Some? && RemoveBounds(bounds.value, args.value).Some?
  }

  /** A whole edit goes through exactly when it adds or removes, and every part of it does; else nothing changes. */
  lemma EditSucceedsIff(p: Policy, e: Edit)
    ensures Apply(p, e).Some? <==>
            || (&& e.kind == "add" && AddClaims(OrEmpty(p.claims), e.claims).Some?
                && EditsOperator(p.gte, e.gte, true) && EditsOperator(p.gt, e.gt, true))
            || (&& e.kind == "remove" && p.claims.Some? && RemoveClaims(p.claims.value, e.claims).Some?
                && EditsOperator(p.gte, e.gte, false) && EditsOperator(p.gt, e.gt, false))
    ensures Apply(p, e).None? ==> Commit(p, e) == p
    ensures Apply(p, e).Some? ==> Commit(p, e).claims.Some?
  {}

  lemma NoClaimsEdited(claims: Claims)
    ensures AddClaims(claims, map[]) == Some(claims) && RemoveClaims(claims, map[]) == Some(claims)
  {
    assert AddClaims(claims, map[]).value == claims;
    assert RemoveClaims(claims, map[]).value == claims;
  }

  /** Adding and removing the same bounds leaves one operator as it was. */
  predicate IsUndone(bounds: Option<Bounds>, args: Option<ClaimArgs>) {
    args.Some? ==> bounds.Some? && forall k | k in args.value :: k !in bounds.value
  }

  lemma AddedIsRemovable(bounds: Bounds, args: ClaimArgs)
    requires AddBounds(bounds, args).Some?
    ensures RemoveBounds(AddBounds(bounds, args).value, args) == Some(bounds - args.Keys)
  {
    var added := AddBounds(bounds, args).value;
    AddBoundsMeaning(bounds, args);
    RemoveBoundsMeaning(added, args);
    var after := RemoveBounds(added, args).value;
    assert after.Keys == (bounds - args.Keys).Keys;
    assert after == bounds - args.Keys;
  }

  lemma OperatorUndoneIff(bounds: Option<Bounds>, args: Option<ClaimArgs>)
    requires EditBounds(bounds, args, true).Some?
    ensures var back := EditBounds(EditBounds(bounds, args, true).value, args, false);
            && back.Some?
            && (args.Some? ==> back.value == Some(OrEmpty(bounds) - args.value.Keys))
            && (back == Some(bounds) <==> IsUndone(bounds, args))
  {
    if args.Some? {
      AddedIsRemovable(OrEmpty(bounds), args.value);
      if bounds.Some? && !IsUndone(bounds, args) {
        var k :| k in args.value && k in bounds.value;
        assert k !in bounds.value - args.value.Keys;
      }
      if IsUndone(bounds, args) { assert bounds.value - args.value.Keys == bounds.value; }
    }
  }

  /**
   Removing the bounds just added restores the whole table, exactly when claims and every named operator were
   recorded before and no name was bound. An operator recorded for the first time stays recorded, empty.
  */
  lemma AddThenRemoveBoundsIff(p: Policy, gte: Option<ClaimArgs>, gt: Option<ClaimArgs>)
    requires Apply(p, BoundsEdit("add", gte, gt)).Some?
    ensures Commit(Commit(p, BoundsEdit("add", gte, gt)), BoundsEdit("remove", gte, gt)) == p <==>
            p.claims.Some? && IsUndone(p.gte, gte) && IsUndone(p.gt, gt)
  {
    NoClaimsEdited(OrEmpty(p.claims));
    OperatorUndoneIff(p.gte, gte);
    OperatorUndoneIff(p.gt, gt);
    var added := Commit(p, BoundsEdit("add", gte, gt));
    var back := Commit(added, BoundsEdit("remove", gte, gt));
    assert back == Policy(
      Some(OrEmpty(p.claims)),
      EditBounds(added.gte, gte, false).value,
      EditBounds(added.gt, gt, false).value);
  }

  // ---------------------------------------------------------------- verdicts

  lemma FewerBoundsKeepHolding(js: Js, gte: bool, before: Bounds, after: Bounds, att: Attestation)
    requires BoundsHold(js, gte, before, att)
    requires forall k | k in after :: k in before && after[k] == before[k]
    ensures BoundsHold(js, gte, after, att)
  {
    forall k | k in after ensures BoundHolds(js, gte, after, att, k) {
      assert BoundHolds(js, gte, before, att, k);
    }
  }

  lemma RemovalKeepsRecorded(bounds: Option<Bounds>, args: Option<ClaimArgs>)
    requires EditBounds(bounds, args, false).Some?
    ensures var after := EditBounds(bounds, args, false).value;
            && after.Some? == bounds.Some?
            && forall k | k in OrEmpty(after) :: k in OrEmpty(bounds) && OrEmpty(after)[k] == OrEmpty(bounds)[k]
  {}

  /** Removing bounds refuses no attestation that was accepted: an operator stays recorded, with fewer bounds. */
  lemma RemovingBoundsKeepsAccepting(
      js: Js, p: Policy, gte: Option<ClaimArgs>, gt: Option<ClaimArgs>, att: Attestation)
    requires Accepts(js, p, att)
    ensures Accepts(js, Commit(p, BoundsEdit("remove", gte, gt)), att)
  {
    var e := BoundsEdit("remove", gte, gt);
    if Apply(p, e).Some? {
      NoClaimsEdited(p.claims.value);
      RemovalKeepsRecorded(p.gte, gte);
      RemovalKeepsRecorded(p.gt, gt);
      var q := Commit(p, e);
      if p.gt.Some? {
        FewerBoundsKeepHolding(js, false, p.gt.value, q.gt.value, att);
      } else if p.gte.Some? {
        FewerBoundsKeepHolding(js, true, p.gte.value, q.gte.value, att);
      }
    }
  }

  /**
   The trace that is left: once a `gt` bound was added and taken back, on a policy that had no `gt`, the bounds
   of `gte` count no more, and the claims alone decide.
  */
  lemma TakenBackGtDisablesGte(js: Js, p: Policy, gt: ClaimArgs, att: Attestation)
    requires p.gt.None? && Apply(p, BoundsEdit("add", None, Some(gt))).Some?
    ensures var q := Commit(Commit(p, BoundsEdit("add", None, Some(gt))), BoundsEdit("remove", None, Some(gt)));
            && q.gte == p.gte && q.gt == Some(map[])
            && (Accepts(js, q, att) <==> HasClaims(p) && ClaimsHold(js, p.claims.value, att))
  {
    NoClaimsEdited(OrEmpty(p.claims));
    OperatorUndoneIff(p.gt, Some(gt));
    var q := Commit(Commit(p, BoundsEdit("add", None, Some(gt))), BoundsEdit("remove", None, Some(gt)));
    assert q.gt == Some(OrEmpty(p.gt) - gt.Keys);
    assert OrEmpty(p.gt) - gt.Keys == map[];
    assert q.claims == Some(OrEmpty(p.claims));
  }

  // ---------------------------------------------------------------- how bounds are read

  /** A bound or an attested value given as text counts as the number it reads as; a truth value is no bound. */
  lemma TextCountsAsNumber(js: Js, gte: bool, bound: Scalar, text: string)
    ensures MeetsBound(js, gte, bound, Str(text)) <==>
            js.parse(text).Some? && MeetsBound(js, gte, bound, Num(js.parse(text).value))
    ensures forall v :: MeetsBound(js, gte, Str(text), v) <==>
              js.parse(text).Some? && MeetsBound(js, gte, Num(js.parse(text).value), v)
    ensures forall b, v :: !MeetsBound(js, gte, Bool(b), v)
  {}
}
