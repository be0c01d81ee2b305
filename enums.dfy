/** Lowering of the dictionary's enumerated types to generated enum types. */
module EnumLowering {

  import opened Wrappers
  import opened Schema
  import opened GenTypes

  /** The candidate unsigned widths, smallest first, and their Go names. */
  const Widths: seq<int> := [8, 16, 32, 64]

  /** The number of bits of a Go unsigned integer type, 0 for any other name. */
  function WidthBits(goType: string): int {
    if goType == "uint8" then 8
    else if goType == "uint16" then 16
    else if goType == "uint32" then 32
    else if goType == "uint64" then 64
    else 0
  }

  /** The Go underlying type of an enum with the given declared bit count. */
  function EnumUnderlying(bits: int): (r: string)
    ensures r == "uint8" <==> bits <= 8
    ensures r == "uint16" <==> 8 < bits <= 16
    ensures r == "uint32" <==> 16 < bits <= 32
    ensures r == "uint64" <==> 32 < bits
    // a candidate width, covering the bit count whenever one can, and the smallest such
    ensures WidthBits(r) in Widths
    ensures bits <= 64 ==> bits <= WidthBits(r)
    ensures forall w :: w in Widths && bits <= w ==> WidthBits(r) <= w
  {
    if bits <= 8 then "uint8"
    else if bits <= 16 then "uint16"
    else if bits <= 32 then "uint32"
    else "uint64"
  }

  /** The generated constants of an enum, in declaration order. */
  function LowerValues(enumName: string, vals: seq<EnumValue>, h: Helpers): (r: seq<Value>)
    ensures |r| == |vals|
    ensures forall k :: 0 <= k < |vals| ==>
      r[k] == Value(h.format(enumName + vals[k].name), vals[k].name, vals[k].value)
  {
    if vals == [] then []
    else LowerValues(enumName, vals[..|vals| - 1], h) + [LowerValue(enumName, vals[|vals| - 1], h)]
  }

  function LowerValue(enumName: string, v: EnumValue, h: Helpers): Value {
    Value(h.format(enumName + v.name), v.name, v.value)
  }

  /** The generated enum type for one schema enum. */
  function LowerEnum(e: EnumDef, h: Helpers): Type {
    var name := h.format(e.name);
    Type(name, EnumUnderlying(e.bits), KindEnum, None, [], LowerValues(name, e.values, h))
  }

  /**
   * Enums: one generated enum per schema enum, in order; each keeps its members'
   * order, short names and exact literal values (gaps and offsets included).
   */
  method Enums(dict: TypeDictionary, h: Helpers) returns (enums: seq<Type>)
    ensures |enums| == |dict.enums|
    ensures forall i :: 0 <= i < |enums| ==> enums[i] == LowerEnum(dict.enums[i], h)
    ensures forall i :: 0 <= i < |enums| ==>
      var e := enums[i];
      var t := dict.enums[i];
      e.kind == KindEnum && e.name == h.format(t.name) && e.goType == EnumUnderlying(t.bits) &&
      e.base == None && e.fields == [] && |e.values| == |t.values| &&
      forall k :: 0 <= k < |t.values| ==>
        e.values[k].shortName == t.values[k].name && e.values[k].value == t.values[k].value &&
        e.values[k].name == h.format(e.name + t.values[k].name)
  {
    enums := [];
    var i := 0;
    while i < |dict.enums|
      invariant 0 <= i <= |dict.enums|
      invariant |enums| == i
      invariant forall j :: 0 <= j < i ==> enums[j] == LowerEnum(dict.enums[j], h)
    {
      var t := dict.enums[i];
      var name := h.format(t.name);
      var goType: string;
      if t.bits <= 8 {
        goType := "uint8";
      } else if t.bits <= 16 {
        goType := "uint16";
      } else if t.bits <= 32 {
        goType := "uint32";
      } else {
        goType := "uint64";
      }
      var values: seq<Value> := [];
      var k := 0;
      while k < |t.values|
        invariant 0 <= k <= |t.values|
        invariant values == LowerValues(name, t.values[..k], h)
      {
        var val := t.values[k];
        values := values + [Value(h.format(name + val.name), val.name, val.value)];
        assert t.values[..k + 1][..k] == t.values[..k];
        k := k + 1;
      }
      assert t.values[..k] == t.values;
      enums := enums + [Type(name, goType, KindEnum, None, [], values)];
      i := i + 1;
    }
  }
}
