/** The generator's intermediate type model (Type, Field, Value, Kind) and its classifiers. */
module GenTypes {

  import opened Wrappers

  /** Go's `type Kind int`; only the two declared constants are valid kinds. */
  type Kind = int

  const KindEnum: Kind := 0
  const KindExtensionObject: Kind := 1

  predicate ValidKind(k: Kind) {
    k == KindEnum || k == KindExtensionObject
  }

  /** A generated enum constant: Go name, schema short name, literal value. */
  datatype Value = Value(name: string, shortName: string, value: int)

  /** A generated struct field: Go name and Go type expression. */
  datatype Field = Field(name: string, goType: string)

  /**
   * A generated type. `goType` is the underlying Go type of an enum, `base` the type
   * an extension object derives from (the Go pointer `Base *Type`, nil as None).
   */
  datatype Type = Type(
    name: string,
    goType: string,
    kind: Kind,
    base: Option<Type>,
    fields: seq<Field>,
    values: seq<Value>)

  const RequestHeaderType := "*RequestHeader"
  const ResponseHeaderType := "*ResponseHeader"

  /**
   * A type is a request when its first field is a pointer to RequestHeader; such a
   * first field is then not a pointer to ResponseHeader.
   */
  predicate IsRequest(t: Type): (r: bool)
    ensures r ==> |t.fields| > 0 && t.fields[0].goType != ResponseHeaderType
    ensures |t.fields| == 0 ==> !r
  {
    |t.fields| > 0 && t.fields[0].goType == RequestHeaderType
  }

  /**
   * A type is a response when its first field is a pointer to ResponseHeader; such a
   * first field is then not a pointer to RequestHeader.
   */
  predicate IsResponse(t: Type): (r: bool)
    ensures r ==> |t.fields| > 0 && t.fields[0].goType != RequestHeaderType
    ensures |t.fields| == 0 ==> !r
  {
    |t.fields| > 0 && t.fields[0].goType == ResponseHeaderType
  }

  /**
   * The classification is positional: it depends on the first field only, so no
   * type is both a request and a response, and fields after the first never matter.
   */
  lemma RequestResponseExclusive(t: Type, rest: seq<Field>)
    ensures !(IsRequest(t) && IsResponse(t))
    ensures |t.fields| > 0 ==>
      (IsRequest(t) <==> IsRequest(t.(fields := [t.fields[0]] + rest))) &&
      (IsResponse(t) <==> IsResponse(t.(fields := [t.fields[0]] + rest)))
  {
  }
}
