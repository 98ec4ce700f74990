/** What sequences of policy edits keep, and when a removal undoes an addition. */
module PolicyAlgebra {
  import opened Outcomes
  import opened ReleasePolicy

  /** Lists are nonempty and duplicate-free, under the names of claims. */
  ghost predicate WellFormed(claims: Claims) {
    forall k | k in claims :: IsClaim(k) && claims[k] != [] && NoDuplicates(claims[k])
  }

  /** No claim is an inherited name. */
  lemma ClaimsAreNotInherited()
    ensures forall k :: !(IsClaim(k) && IsInherited(k))
  {}

  lemma MergeEmptyIff(list: seq<Scalar>, items: seq<Scalar>)
    ensures Merge(list, items) == [] <==> list == [] && items == []
  {
    if items != [] { InMerge(list, items, items[0]); }
    if list != [] { InMerge(list, items, list[0]); }
  }

  /** A well-formed record stays so under an addition exactly when no new name comes with an empty array. */
  lemma AddKeepsWellFormedIff(claims: Claims, args: ClaimArgs)
    requires WellFormed(claims) && AddClaims(claims, args).Some?
    ensures WellFormed(AddClaims(claims, args).value) <==>
            forall k | k in args && k !in claims && !IsInherited(k) :: Items(args[k]) != []
  {
    var after := AddClaims(claims, args).value;
    forall k | k in after
      ensures IsClaim(k) && NoDuplicates(after[k])
      ensures after[k] == [] <==> k in args && k !in claims && Items(args[k]) == []
    {
      if k in args {
        MergeNoDuplicates(ListOf(claims, k), Items(args[k]));
        MergeEmptyIff(ListOf(claims, k), Items(args[k]));
      }
    }
  }

  /** A removal keeps every well-formed record well formed. */
  lemma RemoveKeepsWellFormed(claims: Claims, args: ClaimArgs)
    requires WellFormed(claims) && RemoveClaims(claims, args).Some?
    ensures WellFormed(RemoveClaims(claims, args).value)
  {
    RemoveMeaning(claims, args);
    var after := RemoveClaims(claims, args).value;
    forall k | k in after ensures IsClaim(k) && after[k] != [] && NoDuplicates(after[k]) {
      if k in args {
        WithoutNoDuplicates(claims[k], Items(args[k]));
        if Items(args[k]) == [] { WithoutNothing(claims[k], []); }
      }
    }
  }

  /** Additions that give no name an empty array. */
  predicate AddsNonempty(e: Edit) {
    e.kind == "add" ==> forall k | k in e.claims :: Items(e.claims[k]) != []
  }

  lemma EditKeepsWellFormed(p: Policy, e: Edit)
    requires WellFormed(OrEmpty(p.claims)) && AddsNonempty(e)
    ensures WellFormed(OrEmpty(Commit(p, e).claims))
  {
    if Apply(p, e).Some? {
      if e.kind == "add" {
        AddKeepsWellFormedIff(OrEmpty(p.claims), e.claims);
      } else {
        RemoveKeepsWellFormed(p.claims.value, e.claims);
      }
    }
  }

  /** Over every run of edits, failing ones included, whose additions carry no empty array. */
  lemma {:induction false} RunKeepsWellFormed(p: Policy, edits: seq<Edit>)
    requires WellFormed(OrEmpty(p.claims)) && forall e | e in edits :: AddsNonempty(e)
    ensures WellFormed(OrEmpty(CommitAll(p, edits).claims))
    decreases edits
  {
    if edits == [] {
    } else {
      EditKeepsWellFormed(p, edits[0]);
      RunKeepsWellFormed(Commit(p, edits[0]), edits[1..]);
    }
  }

  // ---------------------------------------------------------------- names of bounds

  ghost predicate BoundsNamed(bounds: Option<Bounds>) {
    forall k | k in OrEmpty(bounds) :: IsClaim(k)
  }

  /** An operator addition that names something inherited, other than the prototype. */
  predicate NamesInherited(args: Option<ClaimArgs>) {
    args.Some? && exists k | k in args.value :: IsInherited(k) && k != PROTO
  }

  /** An operator edit keeps bounds to the names of claims exactly unless it adds one under an inherited name. */
  lemma EditKeepsBoundsNamedIff(bounds: Option<Bounds>, args: Option<ClaimArgs>, adding: bool)
    requires BoundsNamed(bounds) && EditBounds(bounds, args, adding).Some?
    ensures BoundsNamed(EditBounds(bounds, args, adding).value) <==> !(adding && NamesInherited(args))
  {
    ClaimsAreNotInherited();
    if args.Some? && adding {
      var after := AddBounds(OrEmpty(bounds), args.value).value;
      forall k | k in args.value && k != PROTO ensures k in after {}
    }
  }

  /** Both operators of an edit keep to the names of claims, when they are to add anything. */
  predicate AvoidsInherited(e: Edit) {
    e.kind == "add" ==> !NamesInherited(e.gte) && !NamesInherited(e.gt)
  }

  lemma CommitKeepsBoundsNamed(p: Policy, e: Edit)
    requires BoundsNamed(p.gte) && BoundsNamed(p.gt) && AvoidsInherited(e)
    ensures BoundsNamed(Commit(p, e).gte) && BoundsNamed(Commit(p, e).gt)
  {
    if Apply(p, e).Some? {
      EditKeepsBoundsNamedIff(p.gte, e.gte, e.kind == "add");
      EditKeepsBoundsNamedIff(p.gt, e.gt, e.kind == "add");
    }
  }

  /** Over every run of edits that add no bound under an inherited name, bounds keep to the names of claims. */
  lemma {:induction false} RunKeepsBoundsNamed(p: Policy, edits: seq<Edit>)
    requires BoundsNamed(p.gte) && BoundsNamed(p.gt) && forall e | e in edits :: AvoidsInherited(e)
    ensures BoundsNamed(CommitAll(p, edits).gte) && BoundsNamed(CommitAll(p, edits).gt)
    decreases edits
  {
    if edits == [] {
    } else {
      CommitKeepsBoundsNamed(p, edits[0]);
      RunKeepsBoundsNamed(Commit(p, edits[0]), edits[1..]);
    }
  }

  /** On any table: one edit without claims that records a bound under the name every object has for its maker. */
  lemma InheritedBoundIsStored(p: Policy)
    ensures var e := Edit("add", map[], Some(map["constructor" := Single(Num(1.0))]), None);
            && Apply(p, e).Some?
            && "constructor" in OrEmpty(Commit(p, e).gte) && !BoundsNamed(Commit(p, e).gte)
  {
    ClaimsAreNotInherited();
  }

  // ---------------------------------------------------------------- add, then remove

  /** The last item does not occur before. */
  predicate EndsWithNew(items: seq<Scalar>) {
    items != [] && items[|items| - 1] !in items[..|items| - 1]
  }

  /** What makes one name of an addition removable without trace. */
  predicate LeavesNoTrace(claims: Claims, k: string, arg: ClaimArg) {
    if k in claims then forall x | x in Items(arg) :: x !in claims[k]
    else IsInherited(k) || EndsWithNew(Items(arg))
  }

  lemma NothingLeftIff(list: seq<Scalar>, items: seq<Scalar>)
    ensures Without(list, items) == [] <==> forall x | x in list :: x in items
  {
    forall x ensures x in Without(list, items) <==> x in list && x !in items { InWithout(list, items, x); }
    if Without(list, items) != [] {
      assert Without(list, items)[0] in Without(list, items);
    }
  }

  /** A new name: its whole list is emptied by the last item, and by none before, exactly when that item is new. */
  lemma NewNameGoesIff(items: seq<Scalar>)
    ensures RemoveItems(Merge([], items), items) == Deleted <==> EndsWithNew(items)
  {
    var list := Merge([], items);
    RemoveItemsMeaning(list, items);
    forall x ensures x in list <==> x in items { InMerge([], items, x); }
    NothingLeftIff(list, items);
    forall j | 0 < j < |items| ensures Without(list, items[..j]) == [] <==> forall x | x in items :: x in items[..j] {
      NothingLeftIff(list, items[..j]);
    }
    if items != [] {
      var last := |items| - 1;
      if EndsWithNew(items) {
        forall j | 0 < j < |items| ensures Without(list, items[..j]) != [] {
          assert items[..last] == items[..j] + items[j..last];
          assert items[last] in items && items[last] !in items[..j];
        }
      } else {
        var k :| 0 <= k < last && items[k] == items[last];
        forall x | x in items ensures x in items[..last] {
          var i :| 0 <= i < |items| && items[i] == x;
          assert items[..last][if i == last then k else i] == x;
        }
      }
    }
  }

  /** A known name: removing what was merged in gives the old list back exactly when none of it was there. */
  lemma KnownNameReturnsIff(list: seq<Scalar>, items: seq<Scalar>)
    requires list != []
    ensures RemoveItems(Merge(list, items), items) == Kept(list) <==> forall x | x in items :: x !in list
  {
    var merged := Merge(list, items);
    RemoveItemsMeaning(merged, items);
    if forall x | x in items :: x !in list {
      MergeAppends(list, items);
      forall j | 0 <= j <= |items| ensures Without(merged, items[..j]) != [] {
        NothingLeftIff(merged, items[..j]);
        InMerge(list, items, list[0]);
        assert list[0] in merged && list[0] !in items[..j];
      }
      assert items[..|items|] == items;
      WithoutConcat(list, Merge([], items), items);
      WithoutNothing(list, items);
      forall x ensures x in Merge([], items) <==> x in items { InMerge([], items, x); }
      NothingLeftIff(Merge([], items), items);
      assert Without(merged, items) == list + [];
      if items == [] { assert merged == list; }
    } else {
      var x :| x in items && x in list;
      InWithout(merged, items, x);
    }
  }

  /** What removal makes of name `k` is what the record had before the addition. */
  predicate Restored(claims: Claims, added: Claims, args: ClaimArgs, k: string)
    requires k in args && k in added
  {
    RemoveItems(added[k], Items(args[k])) == if k in claims then Kept(claims[k]) else Deleted
  }

  lemma AllRestored(claims: Claims, added: Claims, args: ClaimArgs)
    requires added.Keys == claims.Keys + Recorded(claims, args)
    requires forall k | k in claims && k !in args :: added[k] == claims[k]
    requires forall k | k in args :: Addable(claims, k, args[k])
    requires forall k | k in Recorded(claims, args) :: Restored(claims, added, args, k)
    ensures RemoveClaims(added, args) == Some(claims)
  {
    forall k | k in args ensures Removable(added, k, args[k]) {
      if k in Recorded(claims, args) { assert Restored(claims, added, args, k); }
    }
    var after := RemoveClaims(added, args).value;
    forall k ensures k in after <==> k in claims {
      if k in Recorded(claims, args) { assert Restored(claims, added, args, k); }
    }
    forall k | k in claims ensures after[k] == claims[k] {
      if k in args { assert Restored(claims, added, args, k); }
    }
    assert after.Keys == claims.Keys;
    assert after == claims;
  }

  lemma OneNotRestored(claims: Claims, added: Claims, args: ClaimArgs, k: string)
    requires k in args && k in added && !Restored(claims, added, args, k)
    ensures RemoveClaims(added, args) != Some(claims)
  {
    if RemoveClaims(added, args).Some? {
      assert Removable(added, k, args[k]);
      var after := RemoveClaims(added, args).value;
      assert k in after <==> AfterRemoval(added, args, k).Kept?;
    }
  }

  lemma AddedRecord(claims: Claims, args: ClaimArgs)
    requires AddClaims(claims, args).Some?
    ensures var added := AddClaims(claims, args).value;
            && added.Keys == claims.Keys + Recorded(claims, args)
            && (forall k | k in claims && k !in args :: added[k] == claims[k])
            && (forall k | k in args :: Addable(claims, k, args[k]))
            && (forall k | k in Recorded(claims, args) :: added[k] == Merge(ListOf(claims, k), Items(args[k])))
  {}

  lemma RestoredIffNoTrace(claims: Claims, added: Claims, args: ClaimArgs, k: string)
    requires k in args && k in added && added[k] == Merge(ListOf(claims, k), Items(args[k]))
    requires !HasNoList(claims, k) && (k in claims ==> claims[k] != [])
    ensures Restored(claims, added, args, k) <==> LeavesNoTrace(claims, k, args[k])
  {
    if k in claims { KnownNameReturnsIff(claims[k], Items(args[k])); } else { NewNameGoesIff(Items(args[k])); }
  }

  /**
   On a well-formed record, removing what was just added restores the record, lists in order and new
   names gone, exactly when no item was in its list before and, for a new name, the last item given is
   not a repetition.
  */
  lemma AddThenRemoveIff(claims: Claims, args: ClaimArgs)
    requires WellFormed(claims) && AddClaims(claims, args).Some?
    ensures RemoveClaims(AddClaims(claims, args).value, args) == Some(claims)
            <==> forall k | k in args :: LeavesNoTrace(claims, k, args[k])
  {
    var added := AddClaims(claims, args).value;
    AddedRecord(claims, args);
    if forall k | k in args :: LeavesNoTrace(claims, k, args[k]) {
      forall k | k in Recorded(claims, args) ensures Restored(claims, added, args, k) {
        RestoredIffNoTrace(claims, added, args, k);
      }
      AllRestored(claims, added, args);
    } else {
      var k :| k in args && !LeavesNoTrace(claims, k, args[k]);
      RestoredIffNoTrace(claims, added, args, k);
      OneNotRestored(claims, added, args, k);
    }
  }

  /** The case of fresh, duplicate-free, nonempty lists, for a whole claims-only edit on a stored record. */
  lemma AddThenRemoveIsIdentity(p: Policy, args: ClaimArgs)
    requires p.claims.Some? && WellFormed(p.claims.value)
    requires forall k | k in args :: IsAllowed(k) && Items(args[k]) != [] && NoDuplicates(Items(args[k]))
    requires forall k, x | k in args && k in p.claims.value && x in Items(args[k]) :: x !in p.claims.value[k]
    ensures Commit(Commit(p, Edit("add", args, None, None)), Edit("remove", args, None, None)) == p
  {
    if k :| k in args && HasNoList(p.claims.value, k) {
      assert !Addable(p.claims.value, k, args[k]) && !Removable(p.claims.value, k, args[k]);
    } else {
      AddThenRemoveIff(p.claims.value, args);
      forall k | k in args ensures LeavesNoTrace(p.claims.value, k, args[k]) {
        if k !in p.claims.value {
          var items := Items(args[k]);
          assert forall i | 0 <= i < |items| - 1 :: items[i] != items[|items| - 1];
        }
      }
    }
  }
}
