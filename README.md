# OPC UA type generator — Dafny model

This project models the core of `cmd/service`, the generator that turns the OPC UA
binary type dictionary (`Opc.Ua.Types.bsd`, OPC UA Part 6 Annex C) into Go types. It
models:

- enum lowering: the underlying width and the members with their literal values;
- hierarchy resolution: which structured types derive from `ua:ExtensionObject` or
  `tns:DataTypeDefinition`, in a single pass with a growing base-type map;
- the field type mapping: the built-in table, namespace stripping, pointers and slices;
- the request/response classification and the service-name filter;
- what the emitted code means: the kind dispatch of `FormatType`/`FormatTypes`, the
  `<Enum>FromString` lookup, and the two registration lists written as `init()` bodies.

Modules, following the program's components:

| file | module | contents |
|---|---|---|
| wrappers.dfy | Wrappers | Option, Result, map lookup |
| schema.dfy | Schema | the parsed dictionary (the parts the generator reads, plus each field's other attributes) and the external helpers |
| types.dfy | GenTypes | `Kind`, `Type`, `Field`, `Value`, `IsRequest`, `IsResponse` |
| field_types.dfy | FieldTypes | `Builtins`, `StripNamespaces`, `GoFieldType` |
| enums.dfy | EnumLowering | `Enums` as a method with loops, its specification functions |
| ext_objects.dfy | Hierarchy | `ExtObjects` as a method with loops over a mutable map, its specification and lemmas |
| emit.dfy | Emit | `FormatType`, `FormatTypes`, the `FromString` lookup |
| registry.dfy | Registry | `isService`, the two registration lists |

Modelling decisions:

- `goname.Format`, `StructField.IsSlice` and `StructDef.IsLengthField` are defined outside
  the modelled file. They are the fields of a `Helpers` value of total functions. A
  `StructField` carries its other schema attributes (such as `LengthField`) as a value of
  the uninterpreted type `FieldAttributes`. The generator never reads it, so `isSlice` and
  `isLengthField` can depend on anything the schema records about a field. Every lemma holds for all such functions.
- `StructField.IsEnum` is a field of the input, as it is in Go.
- Go's `type Kind int` is an `int`. Kind 0 is an enum, kind 1 is an extension object, and
  every other value is invalid. The two root entries of the base map keep Go's zero Kind.
- The pointer `Base *Type` holds the base type's value (`Option<Type>`, nil as `None`). The
  object a pointer refers to is never changed after it is registered, so value semantics
  gives the same result.
- `ExtObjects` is specified by the functions `Registered` (the map entry for a key after
  the first `i` definitions) and `Lowered` (the object for definition `i`). The lemmas
  connect these to `Included`, a definition of inclusion by name that does not mention the map.

Behaviour of the code that the model keeps exactly as written:

- The type-name cleanup uses `strings.NewReplacer("ua:", "", "tns:", "")`. That removes
  every occurrence of those prefixes, scanning left to right, not only a leading prefix.
  `StripNamespaces` models this.
- `opc:Guid` maps to `*GUID` through the built-in table, so one built-in type is a pointer.
- The generator does not report duplicate identifiers. It registers each type once, in
  program order, and leaves duplicates to the registry functions, which are not modelled.
- An unresolved base type is dropped without any message. `DerivedBeforeBaseIsDropped` shows this.

## Model

| member | source | states |
|---|---|---|
| GenTypes.IsRequest | cmd/service/main.go:219-221 | a request has a first field, and that field is not a `*ResponseHeader`; a type without fields is never a request |
| GenTypes.IsResponse | cmd/service/main.go:223-225 | a response has a first field, and that field is not a `*RequestHeader`; a type without fields is never a response |
| GenTypes.RequestResponseExclusive | cmd/service/main.go:219-225 | no type is both a request and a response; each classification depends only on the first field |
| FieldTypes.GoFieldTypeShape | cmd/service/main.go:367-380 | the contract of `goFieldType`: a field type is an optional outer `[]`, then at most one `*`, then the element. A built-in gets its table entry with no `*`. A non-built-in non-enum gets exactly one `*`. An enum never gets `*`. A slice is `[]` before the non-slice expression |
| FieldTypes.BuiltinEntriesNonEmpty | cmd/service/main.go:348-369 | no table entry is empty, so the `t == ""` test means "not built in" |
| FieldTypes.StripNamespaces | cmd/service/main.go:370-371 | the replacer never lengthens a name |
| FieldTypes.StripNamespacesUnqualified | cmd/service/main.go:370-371 | a type name without `:` is left unchanged by namespace stripping |
| FieldTypes.StripNamespacesQualified | cmd/service/main.go:370-371 | a name prefixed by `ua:` or `tns:` loses exactly that prefix |
| FieldTypes.QualifiedReferenceIsPointer | cmd/service/main.go:367-380 | a `tns:`-qualified non-built-in reference becomes `[]`? + `*` (unless enum) + the formatted local name |
| EnumLowering.EnumUnderlying | cmd/service/main.go:116-125 | uint8 iff bits <= 8, uint16 iff 8 < bits <= 16, uint32 iff 16 < bits <= 32, uint64 otherwise; the chosen width is a candidate, covers bits when bits <= 64, and is the smallest candidate that does |
| EnumLowering.LowerValues | cmd/service/main.go:127-134 | one constant per member, same order, short name and literal value copied, Go name formatted from enum name + member name |
| EnumLowering.Enums | cmd/service/main.go:108-138 | one enum per schema enum in order, with Kind enum, formatted name, the chosen width, and members of the same count and order with literal names and values |
| Hierarchy.ExtObjects | cmd/service/main.go:140-190 | the loop over the definitions with the mutable base map returns exactly the specified resolution `ObjectsOf` |
| Hierarchy.ObjectsOf | cmd/service/main.go:151-188 | at most one object per definition; every object has kind extension object and a base |
| Hierarchy.RegisteredIff | cmd/service/main.go:141-186 | a key is in the base map iff it is a root or the `tns:` name of an earlier kept definition |
| Hierarchy.LoweredIffIncluded | cmd/service/main.go:152-157 | a definition is kept iff its base is a root or the `tns:` name of an earlier kept definition |
| Hierarchy.UnregisteredKeyKeepsRoot | cmd/service/main.go:141-154 | while no kept definition has registered a key, its entry is the root entry (or absent) |
| Hierarchy.RegisteredIsLatest | cmd/service/main.go:182-185 | a key's entry is the object of the last kept definition registered under it (later ones overwrite) |
| Hierarchy.LoweredShape | cmd/service/main.go:159-163 | a kept object has the formatted name, kind extension object, the lowered fields, and the current entry for its base name as base |
| Hierarchy.KeptIndicesSpec | cmd/service/main.go:152-188 | the kept indices increase and are exactly the included definitions |
| Hierarchy.ObjectsOfSubsequence | cmd/service/main.go:151-188 | the k-th resolved object is the object of the k-th kept definition: an order-preserving subsequence of the input |
| Hierarchy.DerivedBeforeBaseIsDropped | cmd/service/main.go:152-157 | a derived definition listed before its base is dropped, and so is a definition deriving from it even when listed after the base; with the base listed first, all three are kept |
| Hierarchy.LowerFieldShape | cmd/service/main.go:172-178 | the contract of one field's lowering: the formatted name; type AttributeID when that name is AttributeID, and otherwise the `goFieldType` shape (`[]`?, `*`?, element) |
| Hierarchy.LowerFieldsLength | cmd/service/main.go:165-179 | the contract of the field loop's result size: never more fields than the schema declares, and exactly as many iff none is a length field |
| Hierarchy.LowerFieldsPointwise | cmd/service/main.go:165-179 | when every schema field is generated (by `LowerFieldsLength`, exactly when none is a length field), schema field `k` becomes generated field `k` |
| Hierarchy.LowerStructShape | cmd/service/main.go:159-180 | the contract of one object's lowering: formatted name, kind extension object, the resolved base, no enum values, at most one field per schema field, and no fields iff every schema field is a length field |
| Hierarchy.LowerFieldsAppend | cmd/service/main.go:165-180 | lowering fields distributes over concatenation, so declaration order is kept |
| Hierarchy.LowerFieldsSound | cmd/service/main.go:165-179 | every generated field is the lowering of some schema field that is not a length field |
| Hierarchy.LowerFieldsComplete | cmd/service/main.go:165-179 | the lowering of every schema field that is not a length field is among the generated fields |
| Hierarchy.LowerFieldsMembership | cmd/service/main.go:165-179 | a field is generated iff it is the lowering of some schema field that is not a length field |
| Hierarchy.ResolvedObjectFields | cmd/service/main.go:165-179 | every field of a resolved object comes from a non-length field of its definition. It has the formatted name and type AttributeID if that name is AttributeID, and otherwise the `goFieldType` of the schema field |
| Hierarchy.LowerStructFields | cmd/service/main.go:165-180 | the field loop returns exactly the non-length fields lowered in declaration order (`LowerFields`) |
| Hierarchy.FirstLoweredField | cmd/service/main.go:165-179 | there are no generated fields iff every field is a length field; otherwise the first generated field comes from the first non-length field |
| Hierarchy.IsRequestPositional | cmd/service/main.go:219-221 | a generated object is a request iff its first non-length schema field is generated as `*RequestHeader` |
| Hierarchy.IsResponsePositional | cmd/service/main.go:223-225 | a generated object is a response iff its first non-length schema field is generated as `*ResponseHeader` |
| Emit.FromString | cmd/service/main.go:261-267 | the emitted lookup returns the value of the first member with that short name, and 0 when no member has it |
| Emit.FormatType | cmd/service/main.go:247-256 | fails iff the kind is neither enum nor extension object, with that kind in the error; an enum is emitted with its values, and a struct with its fields, the request accessors iff `IsRequest`, the response accessors iff `IsResponse`, and never both |
| Emit.FormatTypes | cmd/service/main.go:238-245 | formats in order and stops at the first failure. The error names the first invalid kind, and what was written before it stays written. Without an error every type was written |
| Emit.EnumLookupFaithful | cmd/service/main.go:258-273 | an emitted enum has the schema's members with literal values. FromString maps each short name to its first member's value and every other string to 0 |
| Emit.ResolvedObjectsFormat | cmd/service/main.go:247-256 | every resolved object is emitted without error, as a struct |
| Registry.ExtObjectRegistrations | cmd/service/main.go:281-284 | one registration per object in order, under `<Name>_Encoding_DefaultBinary` |
| Registry.ServiceRegistrations | cmd/service/main.go:339-344 | at most one service registration per object |
| Registry.ServiceRegistrationsAppend | cmd/service/main.go:339-345 | service registration distributes over concatenation, keeping the objects' order |
| Registry.ServiceRegistrationsMembership | cmd/service/main.go:329-344 | the service registrations are exactly the extension-object registrations whose type name ends in Request or Response, or is ServiceFault |
| Registry.IsServiceIff | cmd/service/main.go:330-332 | the contract of `isService`: a name passes iff it is some stem followed by `Request` or by `Response`, or is exactly `ServiceFault` |
| Registry.IsServiceExamples | cmd/service/main.go:330-332 | the filter tests name suffixes: ReadRequest, ReadResponse and ServiceFault pass; RequestHeader, ResponseHeader and ReadValueId do not |

## Left out

- `main`, flag parsing, `write`, file writing, running `goimports`, and the `log.Fatal`
  exits (cmd/service/main.go:21-93) are process control and I/O.
- The text layout of every template (header, Request/Response interfaces, struct and
  const blocks) is not modelled. The model covers what the emitted code means.
- Template execution and writer errors are left out because they are I/O. `FormatType`
  models only the failure from an unknown kind.
- `ReadTypes` and the full shape of `TypeDictionary` are not part of this model. The input
  datatypes hold the fields the generator reads; a field's other attributes are an
  uninterpreted `FieldAttributes` value, for the external helpers only.
- `goname.Format`, `StructField.IsSlice` and `StructDef.IsLengthField` are not part of this
  model. They stay uninterpreted functions of the `Helpers` value.
- `RegisterExtensionObject`, `RegisterService`, `NewNumericNodeID` and the `id` table are
  foreign calls. The registration lists name the identifier and the created type, and
  nothing is assumed about duplicate identifiers.
- Go compile-time checks on the generated code are not modelled. Two examples: two enum
  members with the same short name would be a duplicate `case`, and a literal that does
  not fit the chosen width would be rejected. `FromString` gives first-match semantics.
- The emitted `Header`/`SetHeader` use the field named `RequestHeader` or `ResponseHeader`.
  `FormatType` ties the emitted accessor flags to `IsRequest`/`IsResponse`, the positional
  rule on the first field's type; the model does not check that this field has that name.
- ua/cancel_response_test.go tests the binary codec (`ResponseHeader` encoding, time
  ticks). That codec is not part of this model.
