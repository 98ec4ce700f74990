/**
 The key release policy as governance stores it, and the algebra of its edits. One definition serves
 the Azure and the GCP action: they differ only in the table they write.
*/
module ReleasePolicy {
  import opened Outcomes

  /** A JSON scalar. Stored values are compared by type and value, so `2` and `"2"` differ. */
  datatype Scalar = Num(n: real) | Str(s: string) | Bool(b: bool)

  /** What a proposal gives for one claim name. */
  datatype ClaimArg = Single(item: Scalar) | Many(items: seq<Scalar>)

  type ClaimArgs = map<string, ClaimArg>

  /** Accepted values by claim name, and bounds by claim name. */
  type Claims = map<string, seq<Scalar>>
  type Bounds = map<string, Scalar>

  /** The table: its entries `claims`, `gte` and `gt`, each possibly absent. */
  datatype Policy = Policy(claims: Option<Claims>, gte: Option<Bounds>, gt: Option<Bounds>)

  datatype Edit = Edit(kind: string, claims: ClaimArgs, gte: Option<ClaimArgs>, gt: Option<ClaimArgs>)

  /** The names listed for claims. */
  predicate IsClaim(name: string) {
    name in {
      "x-ms-attestation-type", "x-ms-compliance-status", "x-ms-policy-hash",
      "vm-configuration-secure-boot", "vm-configuration-secure-boot-template-id",
      "vm-configuration-tpm-enabled", "vm-configuration-vmUniqueId",
      "x-ms-sevsnpvm-authorkeydigest", "x-ms-sevsnpvm-bootloader-svn", "x-ms-sevsnpvm-familyId",
      "x-ms-sevsnpvm-guestsvn", "x-ms-sevsnpvm-hostdata", "x-ms-sevsnpvm-idkeydigest",
      "x-ms-sevsnpvm-imageId", "x-ms-sevsnpvm-is-debuggable", "x-ms-sevsnpvm-launchmeasurement",
      "x-ms-sevsnpvm-microcode-svn", "x-ms-sevsnpvm-migration-allowed", "x-ms-sevsnpvm-reportdata",
      "x-ms-sevsnpvm-reportid", "x-ms-sevsnpvm-smt-allowed", "x-ms-sevsnpvm-snpfw-svn",
      "x-ms-sevsnpvm-tee-svn", "x-ms-sevsnpvm-vmpl", "x-ms-ver"
    }
  }

  const PROTO := "__proto__"

  /** The names every JavaScript object inherits: looking one up gives something that is not a list or a bound. */
  predicate IsInherited(name: string) {
    name in {
      PROTO, "constructor", "hasOwnProperty", "isPrototypeOf", "propertyIsEnumerable", "toLocaleString",
      "toString", "valueOf", "__defineGetter__", "__defineSetter__", "__lookupGetter__", "__lookupSetter__"
    }
  }

  /** The test that a name is allowed is a lookup in an object, so it passes inherited names too. */
  predicate IsAllowed(name: string) {
    IsClaim(name) || IsInherited(name)
  }

  function Items(arg: ClaimArg): seq<Scalar> {
    match arg case Single(item) => [item] case Many(items) => items
  }

  // ---------------------------------------------------------------- lists

  /** `list` with every item pushed that is not in it yet. */
  function Merge(list: seq<Scalar>, items: seq<Scalar>): seq<Scalar> {
    if items == [] then list
    else
      var last := |items| - 1;
      var merged := Merge(list, items[..last]);
      if items[last] in merged then merged else merged + [items[last]]
  }

  /** The values of `list` that are not among `items`, in order. */
  function Without(list: seq<Scalar>, items: seq<Scalar>): seq<Scalar> {
    if list == [] then []
    else if list[0] in items then Without(list[1..], items)
    else [list[0]] + Without(list[1..], items)
  }

  ghost predicate NoDuplicates(list: seq<Scalar>) {
    forall i, j | 0 <= i < j < |list| :: list[i] != list[j]
  }

  /** A list under removal: still there, deleted, or gone already when the next item asks for it. */
  datatype Removal = Kept(list: seq<Scalar>) | Deleted | Threw

  /** Filter out item after item; an emptied list is deleted, and filtering a deleted list throws. */
  function RemoveItems(list: seq<Scalar>, items: seq<Scalar>): Removal {
    if items == [] then Kept(list)
    else
      var last := |items| - 1;
      match RemoveItems(list, items[..last])
      case Kept(rest) =>
        var filtered := Without(rest, [items[last]]);
        if filtered == [] then Deleted else Kept(filtered)
      case _ => Threw
  }

  lemma {:induction false} InWithout(list: seq<Scalar>, items: seq<Scalar>, x: Scalar)
    ensures x in Without(list, items) <==> x in list && x !in items
  {
    if list == [] {
    } else {
      InWithout(list[1..], items, x);
      assert list == [list[0]] + list[1..];
    }
  }

  lemma {:induction false} WithoutTwice(list: seq<Scalar>, a: seq<Scalar>, b: seq<Scalar>)
    ensures Without(Without(list, a), b) == Without(list, a + b)
  {
    if list == [] {
    } else {
      WithoutTwice(list[1..], a, b);
      if list[0] !in a {
        var rest := Without(list[1..], a);
        assert ([list[0]] + rest)[1..] == rest;
      }
    }
  }

  lemma {:induction false} WithoutNothing(list: seq<Scalar>, items: seq<Scalar>)
    requires forall x | x in items :: x !in list
    ensures Without(list, items) == list
  {
    if list == [] {
    } else {
      assert list == [list[0]] + list[1..];
      WithoutNothing(list[1..], items);
    }
  }

  lemma {:induction false} WithoutConcat(a: seq<Scalar>, b: seq<Scalar>, items: seq<Scalar>)
    ensures Without(a + b, items) == Without(a, items) + Without(b, items)
  {
    if a == [] {
      assert a + b == b;
    } else {
      assert (a + b)[1..] == a[1..] + b;
      WithoutConcat(a[1..], b, items);
    }
  }

  lemma {:induction false} WithoutNoDuplicates(list: seq<Scalar>, items: seq<Scalar>)
    requires NoDuplicates(list)
    ensures NoDuplicates(Without(list, items))
  {
    if list == [] {
    } else {
      WithoutNoDuplicates(list[1..], items);
      InWithout(list[1..], items, list[0]);
      assert list[0] !in list[1..];
    }
  }

  lemma {:induction false} InMerge(list: seq<Scalar>, items: seq<Scalar>, x: Scalar)
    ensures x in Merge(list, items) <==> x in list || x in items
  {
    if items == [] {
    } else {
      var last := |items| - 1;
      InMerge(list, items[..last], x);
      assert items == items[..last] + [items[last]];
    }
  }

  lemma {:induction false} MergeNoDuplicates(list: seq<Scalar>, items: seq<Scalar>)
    requires NoDuplicates(list)
    ensures NoDuplicates(Merge(list, items))
  {
    if items == [] {
    } else {
      MergeNoDuplicates(list, items[..|items| - 1]);
    }
  }

  /** A merged list is the old list followed by the new items, each once. */
  lemma {:induction false} MergeAppends(list: seq<Scalar>, items: seq<Scalar>)
    requires forall x | x in items :: x !in list
    ensures Merge(list, items) == list + Merge([], items)
  {
    if items == [] {
      assert list + [] == list;
    } else {
      var last := |items| - 1;
      var front := items[..last];
      assert items == front + [items[last]];
      MergeAppends(list, front);
      InMerge([], front, items[last]);
      InMerge(list, front, items[last]);
      assert items[last] in items;
      assert list + (Merge([], front) + [items[last]]) == list + Merge([], front) + [items[last]];
    }
  }

  /**
   What a removal does to one list, in terms of the ordered difference: it throws exactly when some
   items but not all of them already leave nothing; otherwise nothing left means deleted.
  */
  lemma {:induction false} RemoveItemsMeaning(list: seq<Scalar>, items: seq<Scalar>)
    ensures RemoveItems(list, items).Threw? <==> exists j :: 0 < j < |items| && Without(list, items[..j]) == []
    ensures !RemoveItems(list, items).Threw? ==>
              RemoveItems(list, items)
              == if items == [] then Kept(list)
                 else if Without(list, items) == [] then Deleted else Kept(Without(list, items))
  {
    if items == [] {
    } else {
      var last := |items| - 1;
      var front := items[..last];
      RemoveItemsMeaning(list, front);
      assert forall j | 0 < j < last :: front[..j] == items[..j];
      if RemoveItems(list, front).Threw? {
        var j :| 0 < j < last && Without(list, front[..j]) == [];
        assert Without(list, items[..j]) == [];
      } else if last > 0 {
        assert Without(list, items[..last]) == [] <==> RemoveItems(list, front).Deleted?;
        WithoutTwice(list, front, [items[last]]);
        assert items == front + [items[last]];
      } else {
        assert items == [items[last]];
      }
    }
  }

  // ---------------------------------------------------------------- records

  lemma SameMap<K, V>(a: map<K, V>, b: map<K, V>)
    requires a.Keys == b.Keys && forall k | k in a :: a[k] == b[k]
    ensures a == b
  {}

  function ListOf(claims: Claims, name: string): seq<Scalar> {
    if name in claims then claims[name] else []
  }

  /** An inherited name that is not recorded counts as present, but has no list to push to or filter. */
  predicate HasNoList(claims: Claims, k: string) {
    IsInherited(k) && k !in claims
  }

  /** One name of an `add` goes through. */
  predicate Addable(claims: Claims, k: string, arg: ClaimArg) {
    IsAllowed(k) && (HasNoList(claims, k) ==> Items(arg) == [])
  }

  /** The names an `add` records. */
  function Recorded(claims: Claims, args: ClaimArgs): set<string> {
    set k | k in args && !HasNoList(claims, k)
  }

  /** `add`: the items of each name are merged into its list. */
  function AddClaims(claims: Claims, args: ClaimArgs): Option<Claims> {
    if exists k | k in args :: !Addable(claims, k, args[k]) then None
    else Some(map k | k in claims.Keys + Recorded(claims, args) ::
                if k in args then Merge(ListOf(claims, k), Items(args[k])) else claims[k])
  }

  /** One name of a `remove` goes through. */
  predicate Removable(claims: Claims, k: string, arg: ClaimArg) {
    && IsAllowed(k)
    && if k in claims then !RemoveItems(claims[k], Items(arg)).Threw? else IsInherited(k) && Items(arg) == []
  }

  function AfterRemoval(claims: Claims, args: ClaimArgs, k: string): Removal
    requires k in claims
  {
    if k in args then RemoveItems(claims[k], Items(args[k])) else Kept(claims[k])
  }

  function RemoveClaims(claims: Claims, args: ClaimArgs): Option<Claims> {
    if exists k | k in args :: !Removable(claims, k, args[k]) then None
    else Some(map k | k in claims && AfterRemoval(claims, args, k).Kept? :: AfterRemoval(claims, args, k).list)
  }

  /** The names an `addOperator` records: setting the prototype to a scalar has no effect. */
  function RecordedBounds(bounds: Bounds, args: ClaimArgs): set<string> {
    set k | k in args && (k != PROTO || k in bounds)
  }

  /** `addOperator`: every name allowed, no arrays; the bound of each name is replaced. */
  function AddBounds(bounds: Bounds, args: ClaimArgs): Option<Bounds> {
    if exists k | k in args :: !(IsAllowed(k) && args[k].Single?) then None
    else Some(map k | k in bounds.Keys + RecordedBounds(bounds, args) ::
                if k in args then args[k].item else bounds[k])
  }

  /** One name of a `removeOperator` goes through. */
  predicate RemovableBound(bounds: Bounds, k: string, arg: ClaimArg) {
    IsAllowed(k) && arg.Single? && (k in bounds || IsInherited(k))
  }

  function RemoveBounds(bounds: Bounds, args: ClaimArgs): Option<Bounds> {
    if exists k | k in args :: !RemovableBound(bounds, k, args[k]) then None
    else Some(bounds - args.Keys)
  }

  function OrEmpty<V>(record: Option<map<string, V>>): map<string, V> {
    match record case None => map[] case Some(r) => r
  }

  /** One operator of an edit, when the edit names it. */
  function EditBounds(bounds: Option<Bounds>, args: Option<ClaimArgs>, adding: bool): Option<Option<Bounds>> {
    match args
    case None => Some(bounds)
    case Some(a) =>
      if adding then (match AddBounds(OrEmpty(bounds), a) case None => None case Some(b) => Some(Some(b)))
      else if bounds.None? then None
      else (match RemoveBounds(bounds.value, a) case None => None case Some(b) => Some(Some(b)))
  }

  /** A whole edit: claims, then `gte`, then `gt`. `None` where the action throws. */
  function Apply(p: Policy, e: Edit): Option<Policy> {
    if e.kind != "add" && e.kind != "remove" then None
    else
      var adding := e.kind == "add";
      var claims := if adding then AddClaims(OrEmpty(p.claims), e.claims)
                    else if p.claims.None? then None
                    else RemoveClaims(p.claims.value, e.claims);
      var gte, gt := EditBounds(p.gte, e.gte, adding), EditBounds(p.gt, e.gt, adding);
      if claims.None? || gte.None? || gt.None? then None
      else Some(Policy(Some(claims.value), gte.value, gt.value))
  }

  /** An edit that throws commits nothing. */
  function Commit(p: Policy, e: Edit): Policy {
    match Apply(p, e) case None => p case Some(q) => q
  }

  function CommitAll(p: Policy, edits: seq<Edit>): Policy
    decreases edits
  {
    if edits == [] then p else CommitAll(Commit(p, edits[0]), edits[1..])
  }

  // ---------------------------------------------------------------- meaning of remove

  /**
   A `remove` goes through exactly when every name is allowed and present and no item follows the one
   that empties its list; an inherited name counts as present, if no item is to be removed from it. What it
   leaves is the ordered difference of every named list, without the emptied ones; lists it does not name are
   untouched.
  */
  lemma RemoveMeaning(claims: Claims, args: ClaimArgs)
    ensures RemoveClaims(claims, args).Some? <==>
            forall k | k in args ::
              && IsAllowed(k)
              && (k !in claims ==> IsInherited(k) && Items(args[k]) == [])
              && (k in claims ==> forall j | 0 < j < |Items(args[k])| :: Without(claims[k], Items(args[k])[..j]) != [])
    ensures RemoveClaims(claims, args).Some? ==>
            var after := RemoveClaims(claims, args).value;
            forall k ::
              && (k in after <==>
                    k in claims && (k in args && Items(args[k]) != [] ==> Without(claims[k], Items(args[k])) != []))
              && (k in after ==> after[k] == if k in args then Without(claims[k], Items(args[k])) else claims[k])
  {
    forall k | k in args && k in claims
      ensures Removable(claims, k, args[k]) <==>
              IsAllowed(k) && forall j | 0 < j < |Items(args[k])| :: Without(claims[k], Items(args[k])[..j]) != []
    {
      RemoveItemsMeaning(claims[k], Items(args[k]));
    }
    if RemoveClaims(claims, args).Some? {
      forall k | k in claims && k in args
        ensures Items(args[k]) == [] ==> Without(claims[k], Items(args[k])) == claims[k]
        ensures AfterRemoval(claims, args, k) ==
                if Items(args[k]) == [] then Kept(claims[k])
                else if Without(claims[k], Items(args[k])) == [] then Deleted
                else Kept(Without(claims[k], Items(args[k])))
      {
        assert Removable(claims, k, args[k]);
        RemoveItemsMeaning(claims[k], Items(args[k]));
        if Items(args[k]) == [] { WithoutNothing(claims[k], []); }
      }
    }
  }
}
