/** Mapping of a schema field's declared type to the Go type expression of its struct field. */
module FieldTypes {

  import opened Schema

  /** The fixed table of built-in schema types and their Go types. */
  const Builtins: map<string, string> := map[
    "opc:Boolean" := "bool",
    "opc:Byte" := "uint8",
    "opc:SByte" := "int8",
    "opc:Int16" := "int16",
    "opc:Int32" := "int32",
    "opc:Int64" := "int64",
    "opc:UInt16" := "uint16",
    "opc:UInt32" := "uint32",
    "opc:UInt64" := "uint64",
    "opc:Float" := "float32",
    "opc:Double" := "float64",
    "opc:String" := "string",
    "opc:DateTime" := "time.Time",
    "opc:ByteString" := "[]byte",
    "ua:StatusCode" := "StatusCode",
    "opc:Guid" := "*GUID"
  ]

  /**
   * Removes every occurrence of the namespace prefixes "ua:" and "tns:", scanning
   * left to right without overlap, as a strings.Replacer with those two pairs does.
   */
  function StripNamespaces(s: string): (r: string)
    ensures |r| <= |s|
    decreases |s|
  {
    if |s| >= 3 && s[..3] == "ua:" then StripNamespaces(s[3..])
    else if |s| >= 4 && s[..4] == "tns:" then StripNamespaces(s[4..])
    else if s == [] then []
    else [s[0]] + StripNamespaces(s[1..])
  }

  /** The Go type of a field: table entry or formatted name, then pointer, then slice. */
  function GoFieldType(f: StructField, h: Helpers): string
  {
    var builtin := f.typeName in Builtins;
    var t0 := if builtin then Builtins[f.typeName] else "";
    var t1 := if t0 == "" then h.format(StripNamespaces(f.typeName)) else t0;
    var t2 := if !f.isEnum && !builtin then "*" + t1 else t1;
    if h.isSlice(f) then "[]" + t2 else t2
  }

  /** The element name before any wrapper is added: the table entry or the formatted name. */
  function ElementName(f: StructField, h: Helpers): string {
    if f.typeName in Builtins then Builtins[f.typeName] else h.format(StripNamespaces(f.typeName))
  }

  /** Whether a pointer is added: a field whose element is neither built in nor an enum. */
  predicate IsPointer(f: StructField) {
    !f.isEnum && f.typeName !in Builtins
  }

  /** No table entry is empty, so the empty-string test in GoFieldType means "not built in". */
  lemma BuiltinEntriesNonEmpty(key: string)
    requires key in Builtins
    ensures Builtins[key] != ""
  {
  }

  /**
   * The shape of every field type: an optional "[]" outermost, then an optional single
   * "*", then the element name, so a pointer never wraps a slice ("*[]" is never built).
   * A built-in gets its table entry and never a pointer, any other non-enum exactly one
   * pointer, an enum none.
   */
  lemma GoFieldTypeShape(f: StructField, h: Helpers)
    ensures GoFieldType(f, h) ==
      (if h.isSlice(f) then "[]" else "") + (if IsPointer(f) then "*" else "") + ElementName(f, h)
    ensures f.typeName in Builtins ==>
      GoFieldType(f, h) == (if h.isSlice(f) then "[]" else "") + Builtins[f.typeName]
    ensures f.typeName !in Builtins && !f.isEnum ==>
      GoFieldType(f, h) == (if h.isSlice(f) then "[]" else "") + "*" + h.format(StripNamespaces(f.typeName))
    ensures f.typeName !in Builtins && f.isEnum ==>
      GoFieldType(f, h) == (if h.isSlice(f) then "[]" else "") + h.format(StripNamespaces(f.typeName))
    ensures !h.isSlice(f) ==> GoFieldType(f, h) == GoFieldType(f, h.(isSlice := _ => false))
    ensures h.isSlice(f) ==> GoFieldType(f, h) == "[]" + GoFieldType(f, h.(isSlice := _ => false))
  {
  }

  /** A type name without any ':' is left unchanged by namespace stripping. */
  lemma {:induction false} StripNamespacesUnqualified(s: string)
    requires forall i :: 0 <= i < |s| ==> s[i] != ':'
    ensures StripNamespaces(s) == s
  {
    if s != [] {
      assert |s| >= 3 ==> s[..3] != "ua:" by { if |s| >= 3 { assert s[..3][2] == s[2]; } }
      assert |s| >= 4 ==> s[..4] != "tns:" by { if |s| >= 4 { assert s[..4][3] == s[3]; } }
      StripNamespacesUnqualified(s[1..]);
      assert s == [s[0]] + s[1..];
    }
  }

  /** A name qualified by "ua:" or "tns:" loses exactly that prefix. */
  lemma StripNamespacesQualified(n: string)
    ensures StripNamespaces("ua:" + n) == StripNamespaces(n)
    ensures StripNamespaces("tns:" + n) == StripNamespaces(n)
  {
    assert ("ua:" + n)[..3] == "ua:" && ("ua:" + n)[3..] == n;
    assert ("tns:" + n)[..3] != "ua:" by { assert ("tns:" + n)[..3][0] == 't'; }
    assert ("tns:" + n)[..4] == "tns:" && ("tns:" + n)[4..] == n;
  }

  /** A qualified, unformatted reference to a structured type yields "*" + its local name. */
  lemma QualifiedReferenceIsPointer(f: StructField, n: string, h: Helpers)
    requires f.typeName == "tns:" + n
    requires forall i :: 0 <= i < |n| ==> n[i] != ':'
    requires "tns:" + n !in Builtins
    ensures GoFieldType(f, h) ==
      (if h.isSlice(f) then "[]" else "") + (if f.isEnum then "" else "*") + h.format(n)
  {
    GoFieldTypeShape(f, h);
    StripNamespacesQualified(n);
    StripNamespacesUnqualified(n);
  }
}
