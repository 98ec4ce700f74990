/** The release policy actions over their table, editing the parsed records in place, item by item. */
module ReleasePolicyStore {
  import opened Outcomes
  import opened ReleasePolicy

  /** `record` with the names of `done` merged in; in terms of `AddClaims`, but for some of the names only. */
  ghost predicate AddedSoFar(record: Claims, args: ClaimArgs, todo: set<string>, items: Claims) {
    && items.Keys == record.Keys + (Recorded(record, args) - todo)
    && forall k | k in items ::
         items[k] == if k in args && k !in todo then Merge(ListOf(record, k), Items(args[k])) else ListOf(record, k)
  }

  /** The same for a removal: a name dealt with is present exactly when its list is kept. */
  ghost predicate RemovedSoFar(record: Claims, args: ClaimArgs, todo: set<string>, items: Claims) {
    && items.Keys <= record.Keys
    && (forall k | k in args && k !in todo :: Removable(record, k, args[k]))
    && forall k | k in record ::
         (k in items <==> k in todo || k !in args || AfterRemoval(record, args, k).Kept?)
         && (k in items ==>
               items[k] == if k in args && k !in todo then AfterRemoval(record, args, k).list else record[k])
  }

  ghost predicate BoundsSoFar(record: Bounds, args: ClaimArgs, todo: set<string>, items: Bounds) {
    && (forall k | k in args && k !in todo :: IsAllowed(k) && args[k].Single?)
    && items.Keys == record.Keys + (RecordedBounds(record, args) - todo)
    && forall k | k in items :: (k in args && k !in todo ==> items[k] == args[k].item)
                                && (!(k in args && k !in todo) ==> k in record && items[k] == record[k])
  }

  lemma AddClaimsAt(record: Claims, args: ClaimArgs)
    requires forall k | k in args :: Addable(record, k, args[k])
    ensures AddClaims(record, args).Some?
    ensures var added := AddClaims(record, args).value;
            && added.Keys == record.Keys + Recorded(record, args)
            && forall k | k in added ::
                 added[k] == if k in args then Merge(ListOf(record, k), Items(args[k])) else ListOf(record, k)
  {}

  lemma AddedAll(record: Claims, args: ClaimArgs, items: Claims)
    requires AddedSoFar(record, args, {}, items) && forall k | k in args :: Addable(record, k, args[k])
    ensures AddClaims(record, args) == Some(items)
  {
    AddClaimsAt(record, args);
    SameMap(AddClaims(record, args).value, items);
  }

  lemma AddedOne(record: Claims, args: ClaimArgs, todo: set<string>, items: Claims, key: string)
    requires AddedSoFar(record, args, todo, items) && key in todo && todo <= args.Keys && !HasNoList(record, key)
    ensures AddedSoFar(record, args, todo - {key}, items[key := Merge(ListOf(items, key), Items(args[key]))])
  {
    assert ListOf(items, key) == ListOf(record, key);
  }

  lemma RemovedAll(record: Claims, args: ClaimArgs, items: Claims)
    requires RemovedSoFar(record, args, {}, items)
    ensures RemoveClaims(record, args) == Some(items)
  {
    var after := RemoveClaims(record, args).value;
    assert after.Keys == items.Keys;
    SameMap(after, items);
  }

  lemma BoundsAll(record: Bounds, args: ClaimArgs, items: Bounds)
    requires BoundsSoFar(record, args, {}, items)
    ensures AddBounds(record, args) == Some(items)
  {
    var added := AddBounds(record, args).value;
    assert added.Keys == items.Keys;
    SameMap(added, items);
  }

  /** The items of one name, pushed one by one unless already there. */
  method PushNew(before: Claims, key: string, item: seq<Scalar>) returns (items: Claims)
    requires key in before
    ensures items == before[key := Merge(before[key], item)]
  {
    items := before;
    var i := 0;
    while i < |item|
      invariant 0 <= i <= |item|
      invariant items == before[key := Merge(before[key], item[..i])]
    {
      assert item[..i + 1][..i] == item[..i];
      if item[i] !in items[key] {
        items := items[key := items[key] + [item[i]]];
      }
      i := i + 1;
    }
    assert item[..|item|] == item;
  }

  /** The record once one name went through a removal. */
  function WithRemoval(before: Claims, key: string, removal: Removal): Claims {
    match removal
    case Kept(list) => before[key := list]
    case _ => before - {key}
  }

  /** Once a proper prefix of the items has emptied the list, the whole removal throws. */
  lemma {:induction false} ThrowsOn(list: seq<Scalar>, items: seq<Scalar>, i: nat)
    requires i <= |items| && RemoveItems(list, items[..i]).Threw?
    ensures RemoveItems(list, items).Threw?
    decreases |items| - i
  {
    if i == |items| {
      assert items[..i] == items;
    } else {
      assert items[..i + 1][..i] == items[..i];
      ThrowsOn(list, items, i + 1);
    }
  }

  /** The items of one name, filtered out one by one; an emptied list is deleted, and is missed by the next item. */
  method FilterOut(before: Claims, key: string, item: seq<Scalar>) returns (ok: bool, items: Claims)
    requires key in before
    ensures ok == !RemoveItems(before[key], item).Threw?
    ensures ok ==> items == WithRemoval(before, key, RemoveItems(before[key], item))
  {
    items := before;
    var i := 0;
    while i < |item|
      invariant 0 <= i <= |item|
      invariant !RemoveItems(before[key], item[..i]).Threw?
      invariant items == WithRemoval(before, key, RemoveItems(before[key], item[..i]))
    {
      assert item[..i + 1][..i] == item[..i];
      if key !in items {
        ThrowsOn(before[key], item, i + 1);
        return false, items;
      }
      items := items[key := Without(items[key], [item[i]])];
      if |items[key]| == 0 {
        items := items - {key};
      }
      i := i + 1;
    }
    assert item[..|item|] == item;
    ok := true;
  }

  /** One of the two release policy tables. */
  class PolicyTable {
    var claims: Option<Claims>
    var bounds: map<string, Bounds>

    constructor ()
      ensures View() == Policy(None, None, None)
    {
      claims, bounds := None, map[];
    }

    function RecordOf(kind: string): Option<Bounds>
      reads this
    {
      if kind in bounds then Some(bounds[kind]) else None
    }

    function View(): Policy
      reads this
    {
      Policy(claims, RecordOf("gte"), RecordOf("gt"))
    }

    method Add(args: ClaimArgs) returns (ok: bool)
      modifies this`claims
      ensures ok == AddClaims(OrEmpty(old(claims)), args).Some?
      ensures ok ==> claims == AddClaims(OrEmpty(old(claims)), args)
      ensures !ok ==> claims == old(claims)
    {
      var items := OrEmpty(claims);
      ghost var record := items;
      var todo := args.Keys;
      while todo != {}
        invariant todo <= args.Keys
        invariant forall k | k in args && k !in todo :: Addable(record, k, args[k])
        invariant AddedSoFar(record, args, todo, items) && claims == old(claims)
        decreases todo
      {
        var key :| key in todo;
        if !IsAllowed(key) { return false; }
        if key in items {
          AddedOne(record, args, todo, items, key);
          items := PushNew(items, key, Items(args[key]));
        } else if IsInherited(key) {
          if |Items(args[key])| > 0 { return false; }
        } else {
          AddedOne(record, args, todo, items, key);
          items := items[key := Merge([], Items(args[key]))];
        }
        todo := todo - {key};
      }
      AddedAll(record, args, items);
      claims := Some(items);
      ok := true;
    }

    method Remove(args: ClaimArgs) returns (ok: bool)
      modifies this`claims
      ensures ok == (old(claims).Some? && RemoveClaims(old(claims).value, args).Some?)
      ensures ok ==> claims == RemoveClaims(old(claims).value, args)
      ensures !ok ==> claims == old(claims)
    {
      if claims.None? { return false; }
      var items := claims.value;
      ghost var record := items;
      var todo := args.Keys;
      while todo != {}
        invariant todo <= args.Keys
        invariant RemovedSoFar(record, args, todo, items) && claims == old(claims)
        decreases todo
      {
        var key :| key in todo;
        if !IsAllowed(key) || (key !in items && !IsInherited(key)) {
          assert !Removable(record, key, args[key]);
          return false;
        }
        if key in items {
          var found;
          found, items := FilterOut(items, key, Items(args[key]));
          if !found {
            assert !Removable(record, key, args[key]);
            return false;
          }
        } else if |Items(args[key])| > 0 {
          assert !Removable(record, key, args[key]);
          return false;
        }
        todo := todo - {key};
      }
      RemovedAll(record, args, items);
      claims := Some(items);
      ok := true;
    }

    method AddOperator(kind: string, args: ClaimArgs) returns (ok: bool)
      modifies this`bounds
      ensures ok == AddBounds(OrEmpty(old(RecordOf(kind))), args).Some?
      ensures ok ==> bounds == old(bounds)[kind := AddBounds(OrEmpty(old(RecordOf(kind))), args).value]
      ensures !ok ==> bounds == old(bounds)
    {
      var items := OrEmpty(RecordOf(kind));
      ghost var record := items;
      var todo := args.Keys;
      while todo != {}
        invariant todo <= args.Keys
        invariant BoundsSoFar(record, args, todo, items)
        decreases todo
      {
        var key :| key in todo;
        if !IsAllowed(key) { return false; }
        if args[key].Many? { return false; }
        if key != PROTO || key in items {
          items := items[key := args[key].item];
        }
        todo := todo - {key};
      }
      BoundsAll(record, args, items);
      bounds := bounds[kind := items];
      ok := true;
    }

    method RemoveOperator(kind: string, args: ClaimArgs) returns (ok: bool)
      modifies this`bounds
      ensures ok == (kind in old(bounds) && RemoveBounds(old(bounds)[kind], args).Some?)
      ensures ok ==> bounds == old(bounds)[kind := RemoveBounds(old(bounds)[kind], args).value]
      ensures !ok ==> bounds == old(bounds)
    {
      if kind !in bounds { return false; }
      var items := bounds[kind];
      ghost var record := items;
      var todo := args.Keys;
      while todo != {}
        invariant todo <= args.Keys
        invariant forall k | k in args && k !in todo :: RemovableBound(record, k, args[k])
        invariant items == record - (args.Keys - todo)
        decreases todo
      {
        var key :| key in todo;
        if !IsAllowed(key) { return false; }
        if args[key].Many? { return false; }
        if key !in items && !IsInherited(key) { return false; }
        items := items - {key};
        todo := todo - {key};
      }
      assert args.Keys - {} == args.Keys;
      bounds := bounds[kind := items];
      ok := true;
    }

    method EditOperator(kind: string, args: Option<ClaimArgs>, adding: bool) returns (ok: bool)
      modifies this`bounds
      ensures ok == EditBounds(old(RecordOf(kind)), args, adding).Some?
      ensures ok ==> Some(RecordOf(kind)) == EditBounds(old(RecordOf(kind)), args, adding)
      ensures !ok ==> bounds == old(bounds)
      ensures forall other | other != kind :: RecordOf(other) == old(RecordOf(other))
    {
      if args.None? { return true; }
      if adding {
        ok := AddOperator(kind, args.value);
      } else {
        ok := RemoveOperator(kind, args.value);
      }
    }

    /** The whole action. Where it throws, the platform discards what it wrote. */
    method ApplyEdit(e: Edit) returns (ok: bool)
      modifies this
      ensures ok == Apply(old(View()), e).Some?
      ensures View() == Commit(old(View()), e)
    {
      if e.kind != "add" && e.kind != "remove" { return false; }
      var savedClaims, savedBounds := claims, bounds;
      var adding := e.kind == "add";
      if adding { ok := Add(e.claims); } else { ok := Remove(e.claims); }
      if ok { ok := EditOperator("gte", e.gte, adding); }
      if ok { ok := EditOperator("gt", e.gt, adding); }
      if !ok {
        claims, bounds := savedClaims, savedBounds;
      }
    }
  }
}
