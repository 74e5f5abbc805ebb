/**
 * The agency catalogue: eCFR agency records (JSON objects) become a tree of
 * agencies that carry their parent's slug, reserved CFR references are
 * dropped, and the tree is flattened in pre-order.
 */
module Agencies {
  import opened Text

  /**
   * A JSON scalar as the scripts see it after `dict.get`: a missing key and
   * JSON `null` are both Python `None`.
   */
  datatype Value = Null | Int(i: int) | Str(s: string)

  /** Python's `str(v)` and `f"{v}"`. */
  function Render(v: Value): (s: string)
    ensures v.Null? ==> s == "None"
    ensures v.Str? ==> s == v.s
    ensures v.Int? ==> s == IntToString(v.i)
  {
    match v
    case Null => "None"
    case Int(i) => IntToString(i)
    case Str(s) => s
  }

  /** Python truthiness: `None`, `0` and `""` are false. */
  predicate Truthy(v: Value) {
    match v
    case Null => false
    case Int(i) => i != 0
    case Str(s) => s != ""
  }

  /** A JSON object's scalar members. */
  type Object = map<string, Value>

  /** `obj.get(key)`: `None` when the key is missing. */
  function Get(obj: Object, key: string): (v: Value)
    ensures key !in obj ==> v == Null
    ensures key in obj ==> v == obj[key]
  {
    if key in obj then obj[key] else Null
  }

  /**
   * One agency record of the eCFR agency list: its scalar members, its
   * `cfr_references` list and its `children` list (a missing list is empty).
   */
  datatype RawAgency = RawAgency(fields: Object, cfrReferences: seq<Object>, children: seq<RawAgency>)

  datatype CfrReference = CfrReference(title: Value, subtitle: Value, chapter: Value, subchapter: Value)

  datatype Agency = Agency(
    name: Value,
    shortName: Value,
    displayName: Value,
    sortableName: Value,
    slug: Value,
    cfrReferences: seq<CfrReference>,
    children: seq<Agency>,
    parentSlug: Value)

  /** The reserved (title, chapter) pairs, in the order the script lists them. */
  const ReservedCfrReferences: seq<(int, string)> := [
    (7, "XVI"), (7, "XX"), (14, "VI"), (38, "II"), (29, "IX"), (48, "57"),
    (40, "VII"), (32, "XXVII"), (32, "XVIII"), (10, "XVIII"), (32, "XXVIII")
  ]

  /**
   * A reference is reserved when its title is one of the listed integers and
   * its chapter, converted with `str`, is the paired chapter.  A reference
   * without a chapter is never reserved.
   */
  predicate IsReserved(r: CfrReference)
    ensures IsReserved(r) ==> !r.chapter.Null? && r.title.Int?
    ensures IsReserved(r) ==> r.title.i in {7, 10, 14, 29, 32, 38, 40, 48}
  {
    !r.chapter.Null? && r.title.Int? && (r.title.i, Render(r.chapter)) in ReservedCfrReferences
  }

  /** Both spellings of chapter 57 of title 48 are reserved; chapter XVI of title 7 given as text is not. */
  lemma ReservedExamples()
    ensures IsReserved(CfrReference(Int(48), Null, Int(57), Null))
    ensures IsReserved(CfrReference(Int(48), Null, Str("57"), Null))
    ensures !IsReserved(CfrReference(Str("7"), Null, Str("XVI"), Null))
    ensures !IsReserved(CfrReference(Int(7), Str("XVI"), Null, Null))
  {
    assert NatToString(57) == "57";
    assert ReservedCfrReferences[5] == (48, "57");
  }

  /** The comprehension `[cfr for cfr in refs if not is_reserved(cfr)]`. */
  function RemoveReserved(refs: seq<CfrReference>): (kept: seq<CfrReference>)
    ensures |kept| <= |refs|
    ensures forall k :: 0 <= k < |kept| ==> !IsReserved(kept[k]) && kept[k] in refs
    ensures forall r :: r in refs && !IsReserved(r) ==> r in kept
  {
    if refs == [] then []
    else (if IsReserved(refs[0]) then [] else [refs[0]]) + RemoveReserved(refs[1..])
  }

  /** Filtering distributes over concatenation, so relative order is kept. */
  lemma {:induction false} RemoveReservedAppend(a: seq<CfrReference>, b: seq<CfrReference>)
    ensures RemoveReserved(a + b) == RemoveReserved(a) + RemoveReserved(b)
    decreases |a|
  {
    if a == [] {
      assert a + b == b;
    } else {
      assert (a + b)[0] == a[0] && (a + b)[1..] == a[1..] + b;
      RemoveReservedAppend(a[1..], b);
    }
  }

  /** A list without reserved references passes through unchanged. */
  lemma {:induction false} RemoveReservedKeepsClean(refs: seq<CfrReference>)
    requires forall k :: 0 <= k < |refs| ==> !IsReserved(refs[k])
    ensures RemoveReserved(refs) == refs
    decreases |refs|
  {
    if refs != [] {
      RemoveReservedKeepsClean(refs[1..]);
      assert [refs[0]] + refs[1..] == refs;
    }
  }

  /** Removing reserved references twice is the same as once. */
  lemma RemoveReservedIdempotent(refs: seq<CfrReference>)
    ensures RemoveReserved(RemoveReserved(refs)) == RemoveReserved(refs)
  {
    RemoveReservedKeepsClean(RemoveReserved(refs));
  }

  /** One reference per input object, in order; a missing key becomes `None`. */
  function ProcessCfrReferences(objs: seq<Object>): (refs: seq<CfrReference>)
    ensures |refs| == |objs|
    ensures forall k :: 0 <= k < |objs| ==>
      refs[k] == CfrReference(Get(objs[k], "title"), Get(objs[k], "subtitle"),
                              Get(objs[k], "chapter"), Get(objs[k], "subchapter"))
  {
    seq(|objs|, k requires 0 <= k < |objs| =>
      CfrReference(Get(objs[k], "title"), Get(objs[k], "subtitle"),
                   Get(objs[k], "chapter"), Get(objs[k], "subchapter")))
  }

  /** No node of the tree holds a reserved reference. */
  ghost predicate Clean(a: Agency) {
    && (forall k :: 0 <= k < |a.cfrReferences| ==> !IsReserved(a.cfrReferences[k]))
    && (forall k :: 0 <= k < |a.children| ==> Clean(a.children[k]))
  }

  /** Every child, at any depth, names its parent's slug as `parentSlug`. */
  ghost predicate Linked(a: Agency) {
    forall k :: 0 <= k < |a.children| ==> a.children[k].parentSlug == a.slug && Linked(a.children[k])
  }

  /**
   * `process_agency(item, parent_slug)`: the record becomes an agency whose
   * references are the non-reserved ones and whose children are processed
   * with this agency's slug as their parent slug.
   */
  function ProcessAgency(item: RawAgency, parentSlug: Value): (a: Agency)
    ensures a.parentSlug == parentSlug
    ensures a.slug == Get(item.fields, "slug") && a.name == Get(item.fields, "name")
    ensures a.shortName == Get(item.fields, "short_name") && a.displayName == Get(item.fields, "display_name")
    ensures a.sortableName == Get(item.fields, "sortable_name")
    ensures a.cfrReferences == RemoveReserved(ProcessCfrReferences(item.cfrReferences))
    ensures |a.children| == |item.children|
    ensures forall k :: 0 <= k < |a.children| ==> a.children[k].parentSlug == a.slug
    ensures Clean(a) && Linked(a)
    ensures Size([a]) == RawSize([item])
    decreases item
  {
    var slug := Get(item.fields, "slug");
    var children := ProcessChildren(item, item.children, slug);
    Agency(
      Get(item.fields, "name"),
      Get(item.fields, "short_name"),
      Get(item.fields, "display_name"),
      Get(item.fields, "sortable_name"),
      slug,
      RemoveReserved(ProcessCfrReferences(item.cfrReferences)),
      children,
      parentSlug)
  }

  /** The children list comprehension of `process_agency`, one element at a time. */
  function ProcessChildren(ghost owner: RawAgency, items: seq<RawAgency>, slug: Value): (cs: seq<Agency>)
    requires forall k :: 0 <= k < |items| ==> items[k] < owner
    ensures |cs| == |items|
    ensures forall k :: 0 <= k < |cs| ==> cs[k].parentSlug == slug && Clean(cs[k]) && Linked(cs[k])
    ensures Size(cs) == RawSize(items)
    decreases owner, |items|
  {
    if items == [] then []
    else
      var first := ProcessAgency(items[0], slug);
      var rest := ProcessChildren(owner, items[1..], slug);
      assert items == [items[0]] + items[1..];
      ChildrenCons(first, rest, slug);
      SizeAppend([first], rest);
      RawSizeAppend([items[0]], items[1..]);
      [first] + rest
  }

  /** Prepending a clean, linked child with the right parent slug keeps the children list so. */
  lemma {:induction false} ChildrenCons(first: Agency, rest: seq<Agency>, slug: Value)
    requires first.parentSlug == slug && Clean(first) && Linked(first)
    requires forall k :: 0 <= k < |rest| ==> rest[k].parentSlug == slug && Clean(rest[k]) && Linked(rest[k])
    ensures forall k :: 0 <= k < |[first] + rest| ==>
              ([first] + rest)[k].parentSlug == slug && Clean(([first] + rest)[k]) && Linked(([first] + rest)[k])
  {
    var cs := [first] + rest;
    assert cs[0] == first && cs[1..] == rest;
  }

  /** The children of a processed agency are its child records, processed in order with its slug. */
  lemma ProcessAgencyChildren(item: RawAgency, parentSlug: Value)
    ensures var a := ProcessAgency(item, parentSlug);
            forall k :: 0 <= k < |a.children| ==> a.children[k] == ProcessAgency(item.children[k], a.slug)
  {
    ProcessChildrenInOrder(item, item.children, Get(item.fields, "slug"));
  }

  /** The comprehension keeps each child at its record's position. */
  lemma {:induction false} ProcessChildrenInOrder(owner: RawAgency, items: seq<RawAgency>, slug: Value)
    requires forall k :: 0 <= k < |items| ==> items[k] < owner
    ensures forall k :: 0 <= k < |items| ==> ProcessChildren(owner, items, slug)[k] == ProcessAgency(items[k], slug)
    decreases |items|
  {
    if items != [] {
      var rest := ProcessChildren(owner, items[1..], slug);
      ProcessChildrenInOrder(owner, items[1..], slug);
      assert ProcessChildren(owner, items, slug) == [ProcessAgency(items[0], slug)] + rest;
      forall k | 0 < k < |items|
        ensures ProcessChildren(owner, items, slug)[k] == ProcessAgency(items[k], slug)
      {
        assert items[1..][k - 1] == items[k];
      }
    }
  }

  /** Number of nodes in a list of trees. */
  function Size(agencies: seq<Agency>): nat
    decreases agencies
  {
    if agencies == [] then 0
    else 1 + Size(agencies[0].children) + Size(agencies[1..])
  }

  /** Number of records in a list of raw record trees. */
  function RawSize(items: seq<RawAgency>): nat
    decreases items
  {
    if items == [] then 0
    else 1 + RawSize(items[0].children) + RawSize(items[1..])
  }

  lemma {:induction false} SizeAppend(a: seq<Agency>, b: seq<Agency>)
    ensures Size(a + b) == Size(a) + Size(b)
    decreases |a|
  {
    if a == [] {
      assert a + b == b;
    } else {
      assert (a + b)[0] == a[0] && (a + b)[1..] == a[1..] + b;
      SizeAppend(a[1..], b);
    }
  }

  lemma {:induction false} RawSizeAppend(a: seq<RawAgency>, b: seq<RawAgency>)
    ensures RawSize(a + b) == RawSize(a) + RawSize(b)
    decreases |a|
  {
    if a == [] {
      assert a + b == b;
    } else {
      assert (a + b)[0] == a[0] && (a + b)[1..] == a[1..] + b;
      RawSizeAppend(a[1..], b);
    }
  }

  // ---------------------------------------------------------------------
  // Flattening
  // ---------------------------------------------------------------------

  /** Pre-order listing: each agency, then the listing of its children, then its siblings. */
  function Flatten(agencies: seq<Agency>): (flat: seq<Agency>)
    ensures |flat| >= |agencies|
    ensures agencies != [] ==> flat[0] == agencies[0]
    decreases agencies
  {
    if agencies == [] then []
    else [agencies[0]] + Flatten(agencies[0].children) + Flatten(agencies[1..])
  }

  lemma {:induction false} FlattenAppend(a: seq<Agency>, b: seq<Agency>)
    ensures Flatten(a + b) == Flatten(a) + Flatten(b)
    decreases |a|
  {
    if a == [] {
      assert a + b == b;
    } else {
      assert (a + b)[0] == a[0] && (a + b)[1..] == a[1..] + b;
      FlattenAppend(a[1..], b);
    }
  }

  /** A single tree flattens to its root followed by its children's flattening. */
  lemma FlattenOne(a: Agency)
    ensures Flatten([a]) == [a] + Flatten(a.children)
  {
    assert [a][1..] == [];
  }

  /** One more agency adds itself and its children's flattening. */
  lemma FlattenStep(agencies: seq<Agency>, i: nat)
    requires i < |agencies|
    ensures Flatten(agencies[..i + 1]) == Flatten(agencies[..i]) + [agencies[i]] + Flatten(agencies[i].children)
  {
    assert agencies[..i + 1] == agencies[..i] + [agencies[i]];
    FlattenAppend(agencies[..i], [agencies[i]]);
    FlattenOne(agencies[i]);
  }

  /** The flat list has one entry per node. */
  lemma {:induction false} FlattenLength(agencies: seq<Agency>)
    ensures |Flatten(agencies)| == Size(agencies)
    decreases agencies
  {
    if agencies != [] {
      FlattenLength(agencies[0].children);
      FlattenLength(agencies[1..]);
    }
  }

  /**
   * Pre-order: the `i`-th agency of the list sits right after the flattening of
   * its elder siblings, and is immediately followed by the flattening of its
   * own children.
   */
  lemma FlattenPreorder(agencies: seq<Agency>, i: nat)
    requires i < |agencies|
    ensures var at := |Flatten(agencies[..i])|;
      var sub := Flatten(agencies[i].children);
      at + 1 + |sub| <= |Flatten(agencies)|
      && Flatten(agencies)[at] == agencies[i]
      && Flatten(agencies)[at + 1..at + 1 + |sub|] == sub
  {
    FlattenSplit(agencies, i);
    Placed(Flatten(agencies[..i]), agencies[i], Flatten(agencies[i].children), Flatten(agencies[i + 1..]));
  }

  /** The flattening around the `i`-th agency. */
  lemma FlattenSplit(agencies: seq<Agency>, i: nat)
    requires i < |agencies|
    ensures Flatten(agencies)
            == Flatten(agencies[..i]) + ([agencies[i]] + Flatten(agencies[i].children) + Flatten(agencies[i + 1..]))
  {
    var before, rest := agencies[..i], agencies[i..];
    assert agencies == before + rest;
    FlattenAppend(before, rest);
    assert rest[0] == agencies[i] && rest[1..] == agencies[i + 1..];
  }

  /** Where the parts of `x + ([a] + s + y)` sit. */
  lemma Placed<T>(x: seq<T>, a: T, s: seq<T>, y: seq<T>)
    ensures |x| + 1 + |s| <= |x + ([a] + s + y)|
    ensures (x + ([a] + s + y))[|x|] == a
    ensures (x + ([a] + s + y))[|x| + 1..|x| + 1 + |s|] == s
  {
    var t := [a] + s + y;
    assert (x + t)[|x|..] == t;
    assert t[1..1 + |s|] == s;
  }

  /** Every agency of the flat list of clean trees is itself clean. */
  lemma {:induction false} FlattenClean(agencies: seq<Agency>)
    requires forall k :: 0 <= k < |agencies| ==> Clean(agencies[k])
    ensures forall k :: 0 <= k < |Flatten(agencies)| ==> Clean(Flatten(agencies)[k])
    decreases agencies
  {
    if agencies != [] {
      FlattenClean(agencies[0].children);
      FlattenClean(agencies[1..]);
    }
  }

  /** Every agency of the flat list of linked trees is itself linked. */
  lemma {:induction false} FlattenLinked(agencies: seq<Agency>)
    requires forall k :: 0 <= k < |agencies| ==> Linked(agencies[k])
    ensures forall k :: 0 <= k < |Flatten(agencies)| ==> Linked(Flatten(agencies)[k])
    decreases agencies
  {
    if agencies != [] {
      FlattenLinked(agencies[0].children);
      FlattenLinked(agencies[1..]);
    }
  }

  /** `flatten_agencies`: grow a list by appending each agency and extending with its children's flattening. */
  method FlattenAgencies(agencies: seq<Agency>) returns (flat: seq<Agency>)
    ensures flat == Flatten(agencies)
    ensures |flat| == Size(agencies)
    decreases agencies
  {
    flat := [];
    for i := 0 to |agencies|
      invariant flat == Flatten(agencies[..i])
    {
      var agency := agencies[i];
      FlattenStep(agencies, i);
      flat := flat + [agency];
      var sub := FlattenAgencies(agency.children);
      flat := flat + sub;
    }
    assert agencies[..|agencies|] == agencies;
    FlattenLength(agencies);
  }

  // ---------------------------------------------------------------------
  // The catalogue
  // ---------------------------------------------------------------------

  /** The top-level agencies that keep at least one reference, in order. */
  function KeepReferenced(agencies: seq<Agency>): (kept: seq<Agency>)
    ensures |kept| <= |agencies|
    ensures forall k :: 0 <= k < |kept| ==> kept[k].cfrReferences != []
  {
    if agencies == [] then []
    else (if agencies[0].cfrReferences != [] then [agencies[0]] else []) + KeepReferenced(agencies[1..])
  }

  /** `[process_agency(item) for item in raw]`: top-level agencies have no parent slug. */
  function ProcessAll(raw: seq<RawAgency>): (agencies: seq<Agency>)
    ensures |agencies| == |raw|
    ensures forall k :: 0 <= k < |raw| ==> agencies[k] == ProcessAgency(raw[k], Null)
  {
    seq(|raw|, k requires 0 <= k < |raw| => ProcessAgency(raw[k], Null))
  }

  /**
   * The loop of `get_agency_objects`: each top-level agency that kept a
   * reference contributes itself and its whole flattened subtree, whatever
   * the references of its descendants; the others contribute nothing.
   */
  method CollectReferenced(agencies: seq<Agency>) returns (flat: seq<Agency>)
    ensures flat == Flatten(KeepReferenced(agencies))
  {
    flat := [];
    for i := 0 to |agencies|
      invariant flat == Flatten(KeepReferenced(agencies[..i]))
    {
      var agency := agencies[i];
      CatalogueStep(agencies, i);
      if agency.cfrReferences != [] {
        flat := flat + [agency];
        var sub := FlattenAgencies(agency.children);
        flat := flat + sub;
      }
    }
    assert agencies[..|agencies|] == agencies;
  }

  /**
   * `get_agency_objects`: no agency data (`None` or an empty list) gives the
   * empty list; otherwise the records are processed as top-level agencies
   * and the referenced ones are collected.
   */
  method GetAgencyObjects(raw: Option<seq<RawAgency>>) returns (flat: seq<Agency>)
    ensures raw.None? || raw == Some([]) ==> flat == []
    ensures raw.Some? ==> flat == Flatten(KeepReferenced(ProcessAll(raw.value)))
  {
    if raw.None? || raw.value == [] {
      return [];
    }
    var agencies := ProcessAll(raw.value);
    flat := CollectReferenced(agencies);
  }

  /**
   * Every agency of the catalogue, at whatever depth it was found, holds no
   * reserved reference, and its children name it as their parent.
   */
  lemma CatalogueCleanAndLinked(raw: seq<RawAgency>)
    ensures forall a :: a in Flatten(KeepReferenced(ProcessAll(raw))) ==> Clean(a) && Linked(a)
  {
    var all := ProcessAll(raw);
    var kept := KeepReferenced(all);
    KeepReferencedMembers(all);
    assert forall k :: 0 <= k < |kept| ==> kept[k] in all;
    assert forall a :: a in all ==> Clean(a) && Linked(a);
    FlattenClean(kept);
    FlattenLinked(kept);
  }

  /** One more top-level agency adds itself and its subtree's flattening, or nothing. */
  lemma CatalogueStep(agencies: seq<Agency>, i: nat)
    requires i < |agencies|
    ensures Flatten(KeepReferenced(agencies[..i + 1])) ==
      Flatten(KeepReferenced(agencies[..i]))
        + (if agencies[i].cfrReferences != [] then [agencies[i]] + Flatten(agencies[i].children) else [])
  {
    var done, a := agencies[..i], agencies[i];
    assert agencies[..i + 1] == done + [a];
    KeepReferencedAppend(done, [a]);
    FlattenAppend(KeepReferenced(done), KeepReferenced([a]));
    assert KeepReferenced([a]) == if a.cfrReferences != [] then [a] else [] by {
      assert [a][1..] == [];
    }
  }

  /** The kept agencies are exactly the top-level agencies with at least one reference. */
  lemma {:induction false} KeepReferencedMembers(agencies: seq<Agency>)
    ensures forall a :: a in KeepReferenced(agencies) <==> a in agencies && a.cfrReferences != []
    decreases |agencies|
  {
    if agencies != [] {
      KeepReferencedMembers(agencies[1..]);
      assert forall a :: a in agencies <==> a == agencies[0] || a in agencies[1..];
    }
  }

  lemma {:induction false} KeepReferencedAppend(a: seq<Agency>, b: seq<Agency>)
    ensures KeepReferenced(a + b) == KeepReferenced(a) + KeepReferenced(b)
    decreases |a|
  {
    if a == [] {
      assert a + b == b;
    } else {
      var head := if a[0].cfrReferences != [] then [a[0]] else [];
      assert (a + b)[0] == a[0] && (a + b)[1..] == a[1..] + b;
      assert KeepReferenced(a + b) == head + KeepReferenced(a[1..] + b);
      KeepReferencedAppend(a[1..], b);
      assert KeepReferenced(a) == head + KeepReferenced(a[1..]);
      assert head + (KeepReferenced(a[1..]) + KeepReferenced(b)) == (head + KeepReferenced(a[1..])) + KeepReferenced(b);
    }
  }

  /**
   * The catalogue has one entry per node of every kept top-level tree: a kept
   * agency brings its whole subtree, a dropped one brings nothing.
   */
  lemma {:induction false} CatalogueSize(agencies: seq<Agency>)
    ensures |Flatten(KeepReferenced(agencies))| ==
      Size(KeepReferenced(agencies))
    ensures Size(KeepReferenced(agencies)) <= Size(agencies)
    decreases |agencies|
  {
    FlattenLength(KeepReferenced(agencies));
    if agencies != [] {
      CatalogueSize(agencies[1..]);
      var head := if agencies[0].cfrReferences != [] then [agencies[0]] else [];
      SizeAppend(head, KeepReferenced(agencies[1..]));
      assert Size(agencies) == 1 + Size(agencies[0].children) + Size(agencies[1..]);
      assert Size([agencies[0]]) == 1 + Size(agencies[0].children) + Size(agencies[0..0]) by {
        assert [agencies[0]][1..] == [];
      }
    }
  }
}
