/**
 * Resolution of the structured types that derive, directly or transitively, from one
 * of the two abstract roots, in one pass over the dictionary with a growing map of
 * known base types.
 */
module Hierarchy {

  import opened Wrappers
  import opened Schema
  import opened GenTypes
  import opened FieldTypes

  const ExtensionObjectKey := "ua:ExtensionObject"
  const DataTypeDefinitionKey := "tns:DataTypeDefinition"

  /** A root entry of the map: a type with only a name (its Kind is Go's zero value). */
  function RootType(name: string): Type {
    Type(name, "", KindEnum, None, [], [])
  }

  /** The map the resolution starts from: ExtensionObject and DataTypeDefinition. */
  function Roots(): map<string, Type> {
    map[ExtensionObjectKey := RootType("ExtensionObject"),
        DataTypeDefinitionKey := RootType("DataTypeDefinition")]
  }

  predicate IsRootKey(key: string) {
    key == ExtensionObjectKey || key == DataTypeDefinitionKey
  }

  /** The key under which an included definition is registered as a base type. */
  function RegisteredKey(t: StructDef): string {
    "tns:" + t.name
  }

  /** A generated field; a field whose Go name is AttributeID gets the AttributeID type. */
  function LowerField(t: StructDef, f: StructField, h: Helpers): Field {
    var name := h.format(f.name);
    Field(name, if name == "AttributeID" then "AttributeID" else GoFieldType(f, h))
  }

  /** The generated fields of `fs`, array-length companions left out, in order. */
  function LowerFields(t: StructDef, fs: seq<StructField>, h: Helpers): seq<Field> {
    if fs == [] then []
    else
      var last := fs[|fs| - 1];
      LowerFields(t, fs[..|fs| - 1], h) +
        (if h.isLengthField(t, last) then [] else [LowerField(t, last, h)])
  }

  /** The generated extension object for a definition whose base resolved to `base`. */
  function LowerStruct(t: StructDef, base: Type, h: Helpers): Type {
    Type(h.format(t.name), "", KindExtensionObject, Some(base), LowerFields(t, t.fields, h), [])
  }

  /**
   * A generated field has the formatted name; its type is AttributeID when that name is
   * AttributeID and otherwise the mapped type, with the shape of GoFieldTypeShape.
   */
  lemma LowerFieldShape(t: StructDef, f: StructField, h: Helpers)
    ensures LowerField(t, f, h).name == h.format(f.name)
    ensures h.format(f.name) == "AttributeID" ==> LowerField(t, f, h).goType == "AttributeID"
    ensures h.format(f.name) != "AttributeID" ==>
      LowerField(t, f, h).goType ==
        (if h.isSlice(f) then "[]" else "") + (if IsPointer(f) then "*" else "") + ElementName(f, h)
  {
    GoFieldTypeShape(f, h);
  }

  /** The number of fields of `fs` that are not array-length companions. */
  function KeptCount(t: StructDef, fs: seq<StructField>, h: Helpers): nat {
    if fs == [] then 0
    else KeptCount(t, fs[..|fs| - 1], h) + (if h.isLengthField(t, fs[|fs| - 1]) then 0 else 1)
  }

  /** One generated field per field that is not a length field. */
  lemma {:induction false} LowerFieldsCount(t: StructDef, fs: seq<StructField>, h: Helpers)
    ensures |LowerFields(t, fs, h)| == KeptCount(t, fs, h)
  {
    if fs != [] {
      LowerFieldsCount(t, fs[..|fs| - 1], h);
    }
  }

  lemma {:induction false} KeptCountBound(t: StructDef, fs: seq<StructField>, h: Helpers)
    ensures KeptCount(t, fs, h) <= |fs|
  {
    if fs != [] {
      KeptCountBound(t, fs[..|fs| - 1], h);
    }
  }

  /** The bound of LowerFieldsLength, with what it forces on the last field when met. */
  lemma LowerFieldsBound(t: StructDef, fs: seq<StructField>, h: Helpers)
    ensures |LowerFields(t, fs, h)| <= |fs|
    ensures fs != [] && |LowerFields(t, fs, h)| == |fs| ==>
      !h.isLengthField(t, fs[|fs| - 1]) && |LowerFields(t, fs[..|fs| - 1], h)| == |fs| - 1
  {
    LowerFieldsCount(t, fs, h);
    KeptCountBound(t, fs, h);
    if fs != [] {
      LowerFieldsCount(t, fs[..|fs| - 1], h);
      KeptCountBound(t, fs[..|fs| - 1], h);
    }
  }

  /** No field of `fs` is an array-length companion. */
  predicate NoLengthFields(t: StructDef, fs: seq<StructField>, h: Helpers) {
    forall j :: 0 <= j < |fs| ==> !h.isLengthField(t, fs[j])
  }

  /** Without length fields, every schema field is counted. */
  lemma {:induction false} KeptCountFull(t: StructDef, fs: seq<StructField>, h: Helpers)
    requires NoLengthFields(t, fs, h)
    ensures KeptCount(t, fs, h) == |fs|
  {
    if fs != [] {
      var prefix := fs[..|fs| - 1];
      forall j | 0 <= j < |prefix| ensures !h.isLengthField(t, prefix[j]) {
        assert prefix[j] == fs[j];
      }
      KeptCountFull(t, prefix, h);
    }
  }

  /** When every schema field is counted, none of them is a length field. */
  lemma {:induction false} FullKeptCountHasNoLength(t: StructDef, fs: seq<StructField>, h: Helpers)
    requires KeptCount(t, fs, h) == |fs|
    ensures NoLengthFields(t, fs, h)
  {
    if fs != [] {
      var prefix, last := fs[..|fs| - 1], fs[|fs| - 1];
      KeptCountBound(t, prefix, h);
      FullKeptCountHasNoLength(t, prefix, h);
      forall j | 0 <= j < |fs| ensures !h.isLengthField(t, fs[j]) {
        if j < |prefix| { assert fs[j] == prefix[j]; } else { assert fs[j] == last; }
      }
    }
  }

  /**
   * Lowering never produces more fields than the schema declares, and produces exactly
   * as many iff none is a length field.
   */
  lemma LowerFieldsLength(t: StructDef, fs: seq<StructField>, h: Helpers)
    ensures |LowerFields(t, fs, h)| <= |fs|
    ensures |LowerFields(t, fs, h)| == |fs| <==> NoLengthFields(t, fs, h)
  {
    LowerFieldsCount(t, fs, h);
    KeptCountBound(t, fs, h);
    if NoLengthFields(t, fs, h) {
      KeptCountFull(t, fs, h);
    }
    if |LowerFields(t, fs, h)| == |fs| {
      FullKeptCountHasNoLength(t, fs, h);
    }
  }

  /**
   * When every schema field is generated (by LowerFieldsLength, when none is a length
   * field), lowering is one to one: schema field `k` becomes generated field `k`.
   */
  lemma {:induction false} LowerFieldsPointwise(t: StructDef, fs: seq<StructField>, h: Helpers, k: nat)
    requires |LowerFields(t, fs, h)| == |fs|
    requires k < |fs|
    ensures LowerFields(t, fs, h)[k] == LowerField(t, fs[k], h)
    decreases |fs|
  {
    var prefix := fs[..|fs| - 1];
    LowerFieldsBound(t, fs, h);
    if k < |prefix| {
      LowerFieldsPointwise(t, prefix, h, k);
      assert prefix[k] == fs[k];
    }
  }

  /**
   * A generated extension object: the formatted name, kind extension object, the
   * resolved base, no enum members, at most one field per schema field, and no fields
   * exactly when every schema field is a length field.
   */
  lemma LowerStructShape(t: StructDef, base: Type, h: Helpers)
    ensures var o := LowerStruct(t, base, h);
      o.name == h.format(t.name) && o.kind == KindExtensionObject && ValidKind(o.kind) &&
      o.base == Some(base) && o.values == [] && |o.fields| <= |t.fields| &&
      (o.fields == [] <==> forall j :: 0 <= j < |t.fields| ==> h.isLengthField(t, t.fields[j]))
  {
    LowerFieldsBound(t, t.fields, h);
    FirstLoweredField(t, t.fields, h);
  }

  /** The entry for `key` in the base-type map after the first `i` definitions. */
  function Registered(defs: seq<StructDef>, h: Helpers, i: nat, key: string): Option<Type>
    requires i <= |defs|
    decreases i, 0
  {
    if i == 0 then Lookup(Roots(), key)
    else if Registers(defs, h, i - 1, key) then Lowered(defs, h, i - 1)
    else Registered(defs, h, i - 1, key)
  }

  /** The generated object for definition `i`, or None when its base is not known yet. */
  function Lowered(defs: seq<StructDef>, h: Helpers, i: nat): Option<Type>
    requires i < |defs|
    decreases i, 1
  {
    match Registered(defs, h, i, defs[i].baseType)
    case None => None
    case Some(base) => Some(LowerStruct(defs[i], base, h))
  }

  /** Definition `j` is kept and registers itself under `key`. */
  predicate Registers(defs: seq<StructDef>, h: Helpers, j: nat, key: string)
    requires j < |defs|
    decreases j, 2
  {
    Lowered(defs, h, j).Some? && RegisteredKey(defs[j]) == key
  }

  /** The objects the resolution yields from the first `n` definitions. */
  function ObjectsOf(defs: seq<StructDef>, h: Helpers, n: nat): (r: seq<Type>)
    requires n <= |defs|
    ensures |r| <= n
    ensures forall k :: 0 <= k < |r| ==> r[k].kind == KindExtensionObject && r[k].base.Some?
  {
    if n == 0 then []
    else
      ObjectsOf(defs, h, n - 1) +
        (match Lowered(defs, h, n - 1) case Some(o) => [o] case None => [])
  }

  /**
   * The declarative meaning of inclusion, independent of the helpers: a definition is
   * kept iff its base is a root or the registered name of an earlier kept definition.
   */
  ghost predicate Included(defs: seq<StructDef>, i: nat)
    requires i < |defs|
    decreases i
  {
    IsRootKey(defs[i].baseType) ||
    exists j :: 0 <= j < i && Included(defs, j) && RegisteredKey(defs[j]) == defs[i].baseType
  }

  /** The indices of the kept definitions among the first `n`, in increasing order. */
  ghost function KeptIndices(defs: seq<StructDef>, n: nat): seq<nat>
    requires n <= |defs|
  {
    if n == 0 then []
    else KeptIndices(defs, n - 1) + (if Included(defs, n - 1) then [n - 1] else [])
  }

  /** Only the roots and the registered names of kept definitions are ever in the map. */
  lemma {:induction false} RegisteredIff(defs: seq<StructDef>, h: Helpers, i: nat, key: string)
    requires i <= |defs|
    ensures Registered(defs, h, i, key).Some? <==>
      IsRootKey(key) || exists j :: 0 <= j < i && Included(defs, j) && RegisteredKey(defs[j]) == key
    decreases i, 0
  {
    if i > 0 {
      RegisteredIff(defs, h, i - 1, key);
      LoweredIffIncluded(defs, h, i - 1);
    }
  }

  /** A definition is kept by the resolver exactly when it is Included. */
  lemma {:induction false} LoweredIffIncluded(defs: seq<StructDef>, h: Helpers, i: nat)
    requires i < |defs|
    ensures Lowered(defs, h, i).Some? <==> Included(defs, i)
    decreases i, 1
  {
    RegisteredIff(defs, h, i, defs[i].baseType);
  }

  /** While no kept definition has registered `key`, its entry is the root entry, if any. */
  lemma {:induction false} UnregisteredKeyKeepsRoot(defs: seq<StructDef>, h: Helpers, i: nat, key: string)
    requires i <= |defs|
    requires forall j :: 0 <= j < i ==> !Registers(defs, h, j, key)
    ensures Registered(defs, h, i, key) == Lookup(Roots(), key)
  {
    if i > 0 {
      assert !Registers(defs, h, i - 1, key);
      UnregisteredKeyKeepsRoot(defs, h, i - 1, key);
    }
  }

  /**
   * After the last kept definition `j` that registers `key`, the entry for `key` is
   * that definition's object: a later registration overwrites an earlier one.
   */
  lemma {:induction false} RegisteredIsLatest(defs: seq<StructDef>, h: Helpers, i: nat, j: nat, key: string)
    requires j < i <= |defs|
    requires Registers(defs, h, j, key)
    requires forall j' :: j < j' < i ==> !Registers(defs, h, j', key)
    ensures Registered(defs, h, i, key) == Lowered(defs, h, j)
  {
    if i - 1 != j {
      assert !Registers(defs, h, i - 1, key);
      RegisteredIsLatest(defs, h, i - 1, j, key);
    }
  }

  /** A kept object is its definition lowered over the current entry for its base name. */
  lemma LoweredShape(defs: seq<StructDef>, h: Helpers, i: nat)
    requires i < |defs| && Lowered(defs, h, i).Some?
    ensures var o := Lowered(defs, h, i).value;
      o.name == h.format(defs[i].name) && o.kind == KindExtensionObject &&
      o.fields == LowerFields(defs[i], defs[i].fields, h) && o.values == [] &&
      o.base == Registered(defs, h, i, defs[i].baseType)
  {
  }

  /** The kept indices are increasing and are exactly the Included definitions. */
  lemma {:induction false} KeptIndicesSpec(defs: seq<StructDef>, n: nat)
    requires n <= |defs|
    ensures var idx := KeptIndices(defs, n);
      (forall k :: 0 <= k < |idx| ==> idx[k] < n) &&
      (forall k, l :: 0 <= k < l < |idx| ==> idx[k] < idx[l]) &&
      (forall j :: 0 <= j < n ==> (Included(defs, j) <==> j in idx))
  {
    if n > 0 {
      KeptIndicesSpec(defs, n - 1);
      var idx := KeptIndices(defs, n - 1);
      if Included(defs, n - 1) {
        assert KeptIndices(defs, n) == idx + [n - 1];
      } else {
        assert KeptIndices(defs, n) == idx;
      }
    }
  }

  /** The objects held by the present entries of `xs`, in order. */
  ghost function Present(xs: seq<Option<Type>>): seq<Type> {
    if xs == [] then []
    else Present(xs[..|xs| - 1]) + (match xs[|xs| - 1] case Some(o) => [o] case None => [])
  }

  /** The positions of the present entries of `xs`, in increasing order. */
  ghost function PresentIndices(xs: seq<Option<Type>>): seq<nat> {
    if xs == [] then []
    else PresentIndices(xs[..|xs| - 1]) + (if xs[|xs| - 1].Some? then [|xs| - 1] else [])
  }

  /** The k-th present object sits at the k-th present position. */
  lemma {:induction false} PresentSubsequence(xs: seq<Option<Type>>)
    ensures |Present(xs)| == |PresentIndices(xs)|
    ensures forall k :: 0 <= k < |PresentIndices(xs)| ==>
      PresentIndices(xs)[k] < |xs| && xs[PresentIndices(xs)[k]] == Some(Present(xs)[k])
  {
    if xs != [] {
      var prefix := xs[..|xs| - 1];
      PresentSubsequence(prefix);
      var idx, objs := PresentIndices(prefix), Present(prefix);
      var idx', objs' := PresentIndices(xs), Present(xs);
      forall k | 0 <= k < |idx'|
        ensures idx'[k] < |xs| && xs[idx'[k]] == Some(objs'[k])
      {
        if k < |idx| {
          assert idx'[k] == idx[k] && objs'[k] == objs[k];
          assert xs[idx[k]] == prefix[idx[k]];
        }
      }
    }
  }

  /** The resolution outcome of each of the first `n` definitions, in order. */
  ghost function LoweredUpTo(defs: seq<StructDef>, h: Helpers, n: nat): (r: seq<Option<Type>>)
    requires n <= |defs|
    ensures |r| == n
  {
    if n == 0 then [] else LoweredUpTo(defs, h, n - 1) + [Lowered(defs, h, n - 1)]
  }

  lemma {:induction false} LoweredUpToAt(defs: seq<StructDef>, h: Helpers, n: nat, i: nat)
    requires i < n <= |defs|
    ensures LoweredUpTo(defs, h, n)[i] == Lowered(defs, h, i)
  {
    if i < n - 1 {
      LoweredUpToAt(defs, h, n - 1, i);
    }
  }

  /** Extending the outcomes by one definition splits off its outcome as the last entry. */
  lemma LoweredUpToLast(defs: seq<StructDef>, h: Helpers, n: nat)
    requires 0 < n <= |defs|
    ensures LoweredUpTo(defs, h, n)[..n - 1] == LoweredUpTo(defs, h, n - 1)
    ensures LoweredUpTo(defs, h, n)[n - 1] == Lowered(defs, h, n - 1)
  {
  }

  /** The resolved objects are the present outcomes. */
  lemma {:induction false} ObjectsOfPresent(defs: seq<StructDef>, h: Helpers, n: nat)
    requires n <= |defs|
    ensures ObjectsOf(defs, h, n) == Present(LoweredUpTo(defs, h, n))
  {
    if n > 0 {
      ObjectsOfPresent(defs, h, n - 1);
      LoweredUpToLast(defs, h, n);
    }
  }

  /** The kept indices are the positions of the present outcomes. */
  lemma {:induction false} KeptIndicesPresent(defs: seq<StructDef>, h: Helpers, n: nat)
    requires n <= |defs|
    ensures KeptIndices(defs, n) == PresentIndices(LoweredUpTo(defs, h, n))
  {
    if n > 0 {
      var xs := LoweredUpTo(defs, h, n);
      KeptIndicesPresent(defs, h, n - 1);
      LoweredIffIncluded(defs, h, n - 1);
      LoweredUpToLast(defs, h, n);
      assert PresentIndices(xs) ==
        PresentIndices(xs[..n - 1]) + (if xs[n - 1].Some? then [n - 1] else []);
    }
  }

  /**
   * The resolver's output is the order-preserving subsequence of the kept definitions:
   * its k-th object is the object of the k-th kept index.
   */
  lemma ObjectsOfSubsequence(defs: seq<StructDef>, h: Helpers, n: nat)
    requires n <= |defs|
    ensures |ObjectsOf(defs, h, n)| == |KeptIndices(defs, n)|
    ensures forall k :: 0 <= k < |KeptIndices(defs, n)| ==>
      KeptIndices(defs, n)[k] < n && Lowered(defs, h, KeptIndices(defs, n)[k]) == Some(ObjectsOf(defs, h, n)[k])
  {
    var xs := LoweredUpTo(defs, h, n);
    ObjectsOfPresent(defs, h, n);
    KeptIndicesPresent(defs, h, n);
    PresentSubsequence(xs);
    forall k | 0 <= k < |KeptIndices(defs, n)|
      ensures KeptIndices(defs, n)[k] < n &&
        Lowered(defs, h, KeptIndices(defs, n)[k]) == Some(ObjectsOf(defs, h, n)[k])
    {
      LoweredUpToAt(defs, h, n, KeptIndices(defs, n)[k]);
    }
  }

  /**
   * A derived definition listed before its base is dropped, and so is everything that
   * derives from it, even when listed after the base; listing the base first keeps all.
   */
  lemma DerivedBeforeBaseIsDropped(h: Helpers)
    ensures var parent := StructDef("Parent", ExtensionObjectKey, []);
      var child := StructDef("Child", "tns:Parent", []);
      var grandchild := StructDef("Grandchild", "tns:Child", []);
      !Included([child, parent, grandchild], 0) && Included([child, parent, grandchild], 1) &&
      !Included([child, parent, grandchild], 2) &&
      Included([parent, child, grandchild], 0) && Included([parent, child, grandchild], 1) &&
      Included([parent, child, grandchild], 2) &&
      |ObjectsOf([child, parent, grandchild], h, 3)| == 1 &&
      |ObjectsOf([parent, child, grandchild], h, 3)| == 3
  {
    var parent := StructDef("Parent", ExtensionObjectKey, []);
    var child := StructDef("Child", "tns:Parent", []);
    var grandchild := StructDef("Grandchild", "tns:Child", []);
    var late, early := [child, parent, grandchild], [parent, child, grandchild];
    assert RegisteredKey(parent) != "tns:Child" by { assert RegisteredKey(parent)[4] == 'P'; }
    assert !IsRootKey("tns:Child") by { assert "tns:Child"[0] == 't'; }
    assert !IsRootKey("tns:Parent") by { assert "tns:Parent"[0] == 't'; }
    assert !Included(late, 0);
    assert !Included(late, 2);
    assert Included(early, 1) by { assert Included(early, 0); }
    assert Included(early, 2) by { assert RegisteredKey(early[1]) == early[2].baseType; }
    forall i | 0 <= i < 3 ensures Lowered(late, h, i).Some? == Included(late, i)
      && Lowered(early, h, i).Some? == Included(early, i)
    {
      LoweredIffIncluded(late, h, i);
      LoweredIffIncluded(early, h, i);
    }    assert |ObjectsOf(late, h, 1)| == 0;
    assert |ObjectsOf(late, h, 2)| == 1;
    assert |ObjectsOf(early, h, 1)| == 1;
    assert |ObjectsOf(early, h, 2)| == 2;
  }

  /** Lowering fields distributes over concatenation, so declaration order is kept. */
  lemma {:induction false} LowerFieldsAppend(t: StructDef, a: seq<StructField>, b: seq<StructField>, h: Helpers)
    ensures LowerFields(t, a + b, h) == LowerFields(t, a, h) + LowerFields(t, b, h)
    decreases |b|
  {
    if b == [] {
      assert a + b == a;
    } else {
      var last := b[|b| - 1];
      assert (a + b)[..|a + b| - 1] == a + b[..|b| - 1];
      LowerFieldsAppend(t, a, b[..|b| - 1], h);
    }
  }

  /**
   * Generated field `x` comes from schema field `k`: a field that is not a length field,
   * with its formatted name and its mapped type, or type AttributeID for that name.
   */
  predicate FieldFrom(t: StructDef, fs: seq<StructField>, h: Helpers, k: int, x: Field) {
    0 <= k < |fs| && !h.isLengthField(t, fs[k]) && x == LowerField(t, fs[k], h)
  }

  /** Every generated field comes from some non-length schema field. */
  lemma {:induction false} LowerFieldsSound(t: StructDef, fs: seq<StructField>, h: Helpers, x: Field)
    requires x in LowerFields(t, fs, h)
    ensures exists k :: FieldFrom(t, fs, h, k, x)
  {
    var init := fs[..|fs| - 1];
    var last := fs[|fs| - 1];
    if x in LowerFields(t, init, h) {
      LowerFieldsSound(t, init, h, x);
      var k :| FieldFrom(t, init, h, k, x);
      assert init[k] == fs[k];
      assert FieldFrom(t, fs, h, k, x);
    } else {
      assert FieldFrom(t, fs, h, |fs| - 1, x);
    }
  }

  /** Every non-length schema field is generated. */
  lemma {:induction false} LowerFieldsComplete(t: StructDef, fs: seq<StructField>, h: Helpers, k: nat)
    requires k < |fs| && !h.isLengthField(t, fs[k])
    ensures LowerField(t, fs[k], h) in LowerFields(t, fs, h)
  {
    var init := fs[..|fs| - 1];
    if k < |init| {
      LowerFieldsComplete(t, init, h, k);
      assert init[k] == fs[k];
    }
  }

  /** The generated fields are exactly those that come from some non-length schema field. */
  lemma LowerFieldsMembership(t: StructDef, fs: seq<StructField>, h: Helpers)
    ensures forall x :: x in LowerFields(t, fs, h) <==> exists k :: FieldFrom(t, fs, h, k, x)
  {
    forall x ensures x in LowerFields(t, fs, h) <==> exists k :: FieldFrom(t, fs, h, k, x) {
      if x in LowerFields(t, fs, h) {
        LowerFieldsSound(t, fs, h, x);
      }
      if exists k :: FieldFrom(t, fs, h, k, x) {
        var k :| FieldFrom(t, fs, h, k, x);
        LowerFieldsComplete(t, fs, h, k);
      }
    }
  }

  /**
   * Every field of a resolved object comes from a non-length field of its definition,
   * with the formatted name and the mapped type, or type AttributeID for that name.
   */
  lemma ResolvedObjectFields(defs: seq<StructDef>, h: Helpers, k: nat, x: Field)
    requires k < |ObjectsOf(defs, h, |defs|)|
    requires x in ObjectsOf(defs, h, |defs|)[k].fields
    ensures k < |KeptIndices(defs, |defs|)| && KeptIndices(defs, |defs|)[k] < |defs|
    ensures var d := defs[KeptIndices(defs, |defs|)[k]];
      exists j :: 0 <= j < |d.fields| && !h.isLengthField(d, d.fields[j]) &&
        x.name == h.format(d.fields[j].name) &&
        x.goType == (if x.name == "AttributeID" then "AttributeID" else GoFieldType(d.fields[j], h))
  {
    ObjectsOfSubsequence(defs, h, |defs|);
    var i := KeptIndices(defs, |defs|)[k];
    var d := defs[i];
    LoweredShape(defs, h, i);
    LowerFieldsSound(d, d.fields, h, x);
    var j :| FieldFrom(d, d.fields, h, j, x);
  }

  /** Field `k` is the first field of `fs` that is not an array-length companion. */
  predicate IsFirstKept(t: StructDef, fs: seq<StructField>, h: Helpers, k: int) {
    0 <= k < |fs| && !h.isLengthField(t, fs[k]) &&
    forall j :: 0 <= j < k ==> h.isLengthField(t, fs[j])
  }

  /**
   * The generated-field list is empty iff every field is a length field, and otherwise
   * starts with the first field that is not one.
   */
  lemma {:induction false} FirstLoweredField(t: StructDef, fs: seq<StructField>, h: Helpers)
    ensures (forall j :: 0 <= j < |fs| ==> h.isLengthField(t, fs[j])) <==> LowerFields(t, fs, h) == []
    ensures forall k :: IsFirstKept(t, fs, h, k) ==>
      LowerFields(t, fs, h) != [] && LowerFields(t, fs, h)[0] == LowerField(t, fs[k], h)
  {
    if fs != [] {
      var rest := fs[1..];
      assert fs == [fs[0]] + rest;
      LowerFieldsAppend(t, [fs[0]], rest, h);
      assert [fs[0]][..0] == [];
      var head := LowerFields(t, [fs[0]], h);
      assert head == (if h.isLengthField(t, fs[0]) then [] else [LowerField(t, fs[0], h)]);
      FirstLoweredField(t, rest, h);
      if h.isLengthField(t, fs[0]) {
        forall k | IsFirstKept(t, fs, h, k)
          ensures LowerFields(t, fs, h) != [] && LowerFields(t, fs, h)[0] == LowerField(t, fs[k], h)
        {
          assert k > 0;
          assert rest[k - 1] == fs[k];
          forall j | 0 <= j < k - 1 ensures h.isLengthField(t, rest[j]) {
            assert rest[j] == fs[j + 1];
          }
          assert IsFirstKept(t, rest, h, k - 1);
        }
        if forall j :: 0 <= j < |rest| ==> h.isLengthField(t, rest[j]) {
          forall j | 0 <= j < |fs| ensures h.isLengthField(t, fs[j]) {
            if j > 0 { assert fs[j] == rest[j - 1]; }
          }
        }
      } else {
        forall k | IsFirstKept(t, fs, h, k)
          ensures LowerFields(t, fs, h) != [] && LowerFields(t, fs, h)[0] == LowerField(t, fs[k], h)
        {
          assert k == 0;
        }
      }
    }
  }

  /**
   * Request classification of a generated object is positional: it holds iff the first
   * schema field that is not a length field is generated with type *RequestHeader.
   */
  lemma IsRequestPositional(t: StructDef, base: Type, h: Helpers)
    ensures IsRequest(LowerStruct(t, base, h)) <==>
      exists k :: IsFirstKept(t, t.fields, h, k) && LowerField(t, t.fields[k], h).goType == RequestHeaderType
  {
    var fs := t.fields;
    FirstLoweredField(t, fs, h);
    if LowerFields(t, fs, h) != [] {
      var k := FirstNonLength(t, fs, h, 0);
      assert IsFirstKept(t, fs, h, k);
    }
  }

  /**
   * Response classification of a generated object is positional likewise: it holds iff
   * the first schema field that is not a length field is generated as *ResponseHeader.
   */
  lemma IsResponsePositional(t: StructDef, base: Type, h: Helpers)
    ensures IsResponse(LowerStruct(t, base, h)) <==>
      exists k :: IsFirstKept(t, t.fields, h, k) && LowerField(t, t.fields[k], h).goType == ResponseHeaderType
  {
    var fs := t.fields;
    FirstLoweredField(t, fs, h);
    if LowerFields(t, fs, h) != [] {
      var k := FirstNonLength(t, fs, h, 0);
      assert IsFirstKept(t, fs, h, k);
    }
  }

  /** The index of the first field at or after `from` that is not a length field. */
  function FirstNonLength(t: StructDef, fs: seq<StructField>, h: Helpers, from: nat): (k: nat)
    requires from <= |fs|
    requires forall j :: 0 <= j < from ==> h.isLengthField(t, fs[j])
    requires exists j :: from <= j < |fs| && !h.isLengthField(t, fs[j])
    ensures from <= k && IsFirstKept(t, fs, h, k)
    decreases |fs| - from
  {
    if !h.isLengthField(t, fs[from]) then from else FirstNonLength(t, fs, h, from + 1)
  }

  /** Lowering one more field of a prefix appends that field's contribution. */
  lemma LowerFieldsPrefixStep(t: StructDef, fs: seq<StructField>, j: nat, h: Helpers)
    requires j < |fs|
    ensures LowerFields(t, fs[..j + 1], h) == LowerFields(t, fs[..j], h) +
      (if h.isLengthField(t, fs[j]) then [] else [LowerField(t, fs[j], h)])
  {
    assert fs[..j + 1][..j] == fs[..j];
  }

  /** A step that keeps definition `i`: its object is appended and registered under `key`. */
  lemma ResolveKept(defs: seq<StructDef>, h: Helpers, i: nat, m: map<string, Type>, objs: seq<Type>,
                    key: string, o: Type, next: map<string, Type>)
    requires i < |defs|
    requires objs == ObjectsOf(defs, h, i)
    requires forall k :: Registered(defs, h, i, k) == Lookup(m, k)
    requires defs[i].baseType in m
    requires key == RegisteredKey(defs[i])
    requires o == LowerStruct(defs[i], m[defs[i].baseType], h)
    requires next == m[key := o]
    ensures ObjectsOf(defs, h, i + 1) == objs + [o]
    ensures forall k :: Registered(defs, h, i + 1, k) == Lookup(next, k)
  {
    assert Registered(defs, h, i, defs[i].baseType) == Lookup(m, defs[i].baseType);
    assert Lowered(defs, h, i) == Some(o);
    forall k ensures Registered(defs, h, i + 1, k) == Lookup(next, k) {
      assert Registered(defs, h, i, k) == Lookup(m, k);
    }
  }

  /** A step that skips definition `i`: neither the output nor the map changes. */
  lemma ResolveSkipped(defs: seq<StructDef>, h: Helpers, i: nat, m: map<string, Type>, objs: seq<Type>)
    requires i < |defs|
    requires objs == ObjectsOf(defs, h, i)
    requires forall k :: Registered(defs, h, i, k) == Lookup(m, k)
    requires defs[i].baseType !in m
    ensures ObjectsOf(defs, h, i + 1) == objs
    ensures forall k :: Registered(defs, h, i + 1, k) == Lookup(m, k)
  {
    assert Registered(defs, h, i, defs[i].baseType) == Lookup(m, defs[i].baseType);
    assert Lowered(defs, h, i) == None;
    forall k ensures Registered(defs, h, i + 1, k) == Lookup(m, k) {
      assert Registered(defs, h, i, k) == Lookup(m, k);
    }
  }

  /**
   * The field loop of ExtObjects: the fields of `t` in order, length fields skipped,
   * each with its formatted name and mapped type, AttributeID overridden.
   */
  method LowerStructFields(t: StructDef, h: Helpers) returns (fields: seq<Field>)
    ensures fields == LowerFields(t, t.fields, h)
  {
    fields := [];
    var j := 0;
    while j < |t.fields|
      invariant 0 <= j <= |t.fields|
      invariant fields == LowerFields(t, t.fields[..j], h)
    {
      var f := t.fields[j];
      LowerFieldsPrefixStep(t, t.fields, j, h);
      if !h.isLengthField(t, f) {
        var of := Field(h.format(f.name), GoFieldType(f, h));
        if of.name == "AttributeID" {
          of := of.(goType := "AttributeID");
        }
        fields := fields + [of];
      }
      j := j + 1;
    }
    assert t.fields[..j] == t.fields;
  }

  /**
   * ExtObjects: one pass over the definitions, in order, with a map of known bases
   * seeded with the two roots; a definition whose base is unknown is skipped, a kept
   * one is lowered (length fields dropped, AttributeID overridden), registered under
   * "tns:" + its name and appended.
   */
  method ExtObjects(dict: TypeDictionary, h: Helpers) returns (objects: seq<Type>)
    ensures objects == ObjectsOf(dict.types, h, |dict.types|)
  {
    var defs := dict.types;
    var baseTypes := Roots();
    objects := [];
    var i := 0;
    while i < |defs|
      invariant 0 <= i <= |defs|
      invariant objects == ObjectsOf(defs, h, i)
      invariant forall key :: Registered(defs, h, i, key) == Lookup(baseTypes, key)
    {
      var t := defs[i];
      if t.baseType in baseTypes {
        var baseType := baseTypes[t.baseType];
        var fields := LowerStructFields(t, h);
        var o := Type(h.format(t.name), "", KindExtensionObject, Some(baseType), fields, []);
        var next := baseTypes["tns:" + t.name := o];
        ResolveKept(defs, h, i, baseTypes, objects, "tns:" + t.name, o, next);
        baseTypes := next;
        objects := objects + [o];
      } else {
        ResolveSkipped(defs, h, i, baseTypes, objects);
      }
      i := i + 1;
    }
  }
}
