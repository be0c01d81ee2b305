/**
 * The already parsed binary type dictionary (Opc.Ua.Types.bsd) that the generator
 * consumes, restricted to the parts the generator reads (plus the uninterpreted
 * remaining attributes of a field), and the external helpers whose definitions are
 * not part of this model.
 */
module Schema {

  /** One `(name, value)` member of an enumerated type, with its literal value. */
  datatype EnumValue = EnumValue(name: string, value: int)

  /** An enumerated type of the dictionary: name, declared bit count, ordered members. */
  datatype EnumDef = EnumDef(name: string, bits: int, values: seq<EnumValue>)

  /**
   * The attributes of a schema field that the generator itself never reads (such as
   * LengthField); they stay uninterpreted, and only the external helpers may inspect them.
   */
  type FieldAttributes

  /**
   * A field of a structured type: name, qualified schema type, whether it names an enum,
   * and its remaining schema attributes.
   */
  datatype StructField = StructField(
    name: string,
    typeName: string,
    isEnum: bool,
    attributes: FieldAttributes)

  /** A structured type: name, qualified base type reference, ordered fields. */
  datatype StructDef = StructDef(name: string, baseType: string, fields: seq<StructField>)

  /** The dictionary: its enumerated types and its structured types, in file order. */
  datatype TypeDictionary = TypeDictionary(enums: seq<EnumDef>, types: seq<StructDef>)

  /**
   * The helpers the generator calls but that are defined elsewhere:
   * `format` is goname.Format (schema name to Go identifier), `isSlice` is
   * StructField.IsSlice and `isLengthField` is StructDef.IsLengthField.
   * They are left uninterpreted: every property below holds for all of them.
   */
  datatype Helpers = Helpers(
    format: string -> string,
    isSlice: StructField -> bool,
    isLengthField: (StructDef, StructField) -> bool)
}
