/**
 * What the emitted Go declarations mean: an enum becomes a named integer type, a
 * FromString lookup and a constant block; an extension object becomes a struct with
 * its fields in order and, for requests and responses, header accessors.
 */
module Emit {

  import opened Wrappers
  import opened Schema
  import opened GenTypes
  import EnumLowering
  import Hierarchy

  /** The error FormatType reports for a type of unknown kind. */
  datatype Error = InvalidType(kind: Kind)

  /** An emitted declaration, by meaning rather than by text. */
  datatype Decl =
    | EnumDecl(name: string, underlying: string, constants: seq<Value>)
    | StructDecl(name: string, fields: seq<Field>, requestHeader: bool, responseHeader: bool)

  /**
   * The emitted `<Name>FromString(s)`: a switch over the members in declaration order,
   * so the value of the first member whose short name is `s`, and 0 when none is.
   */
  function FromString(constants: seq<Value>, s: string): (r: int)
    ensures (forall k :: 0 <= k < |constants| ==> constants[k].shortName != s) ==> r == 0
    ensures forall k :: (0 <= k < |constants| && constants[k].shortName == s &&
      (forall j :: 0 <= j < k ==> constants[j].shortName != s)) ==> r == constants[k].value
  {
    if constants == [] then 0
    else if constants[0].shortName == s then constants[0].value
    else FromString(constants[1..], s)
  }

  /** FormatType: dispatch on the kind; any kind other than the two known ones is an error. */
  function FormatType(t: Type): (r: Result<Decl, Error>)
    ensures r.Failure? <==> !ValidKind(t.kind)
    ensures r.Failure? ==> r.error == InvalidType(t.kind)
    ensures r.Success? && t.kind == KindEnum ==>
      r.value == EnumDecl(t.name, t.goType, t.values)
    ensures r.Success? && t.kind == KindExtensionObject ==>
      r.value.StructDecl? && r.value.name == t.name && r.value.fields == t.fields &&
      !(r.value.requestHeader && r.value.responseHeader)
    ensures r.Success? && t.kind == KindExtensionObject ==>
      r.value.requestHeader == IsRequest(t) && r.value.responseHeader == IsResponse(t)
  {
    if t.kind == KindEnum then Success(EnumDecl(t.name, t.goType, t.values))
    else if t.kind == KindExtensionObject then
      RequestResponseExclusive(t, []);
      Success(StructDecl(t.name, t.fields, IsRequest(t), IsResponse(t)))
    else Failure(InvalidType(t.kind))
  }

  /**
   * FormatTypes: emits the types in order and stops at the first one that fails; what
   * was written before the failure stays written.
   */
  method FormatTypes(types: seq<Type>) returns (written: seq<Decl>, err: Option<Error>)
    ensures err.None? <==> forall i :: 0 <= i < |types| ==> ValidKind(types[i].kind)
    ensures err.None? ==> |written| == |types|
    ensures err.Some? ==>
      |written| < |types| && !ValidKind(types[|written|].kind) &&
      err.value == InvalidType(types[|written|].kind)
    ensures |written| <= |types|
    ensures forall i :: 0 <= i < |written| ==> FormatType(types[i]) == Success(written[i])
  {
    written := [];
    var i := 0;
    while i < |types|
      invariant 0 <= i <= |types|
      invariant |written| == i
      invariant forall j :: 0 <= j < i ==> FormatType(types[j]) == Success(written[j])
    {
      var r := FormatType(types[i]);
      if r.Failure? {
        err := Some(r.error);
        return;
      }
      written := written + [r.value];
      i := i + 1;
    }
    err := None;
  }

  /**
   * The emitted enum for a schema enum: its constants are the schema members with their
   * literal values, and FromString maps each member's short name to its value (the
   * first one, should two share a name) and every other string to 0.
   */
  lemma EnumLookupFaithful(e: EnumDef, h: Helpers, s: string)
    ensures var r := FormatType(EnumLowering.LowerEnum(e, h));
      r.Success? && r.value.EnumDecl? &&
      r.value.name == h.format(e.name) &&
      r.value.underlying == EnumLowering.EnumUnderlying(e.bits) &&
      |r.value.constants| == |e.values| &&
      (forall k :: 0 <= k < |e.values| ==>
        r.value.constants[k].shortName == e.values[k].name &&
        r.value.constants[k].value == e.values[k].value) &&
      ((forall k :: 0 <= k < |e.values| ==> e.values[k].name != s) ==>
        FromString(r.value.constants, s) == 0) &&
      (forall k :: (0 <= k < |e.values| && e.values[k].name == s &&
        (forall j :: 0 <= j < k ==> e.values[j].name != s)) ==>
          FromString(r.value.constants, s) == e.values[k].value)
  {
  }

  /** Every object the resolver yields is emitted without error, as a struct. */
  lemma ResolvedObjectsFormat(defs: seq<StructDef>, h: Helpers)
    ensures forall k :: 0 <= k < |Hierarchy.ObjectsOf(defs, h, |defs|)| ==>
      FormatType(Hierarchy.ObjectsOf(defs, h, |defs|)[k]).Success? &&
      FormatType(Hierarchy.ObjectsOf(defs, h, |defs|)[k]).value.StructDecl?
  {
  }
}
