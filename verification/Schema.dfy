/** Protocol schemas: field types, framing and the values fields decode to. */
module Schema {
  import opened Bytes

  datatype FieldType = U8 | U16 | U32 | U64 | I8 | I16 | I32 | I64 | BYTES | STRING

  datatype FieldDef = FieldDef(name: string, ftype: FieldType)

  datatype FramingType = LENGTH_FIELD | DATAGRAM

  datatype FramingConfig = FramingConfig(ftype: FramingType, lengthField: string, headerLen: nat,
                                         lengthIncludesHeader: bool)

  datatype ProtocolSchema = ProtocolSchema(transport: string, endian: string, framing: FramingConfig,
                                           fields: seq<FieldDef>)

  /** A decoded value. Strings are kept as the bytes they were built from. */
  datatype FieldValue =
    | UInt8(v8: byte) | UInt16(v16: u16) | UInt32(v32: u32) | UInt64(v64: u64)
    | Int8(s8: i8) | Int16(s16: i16) | Int32(s32: i32) | Int64(s64: i64)
    | ByteString(bytes: seq<byte>) | Text(chars: seq<byte>)

  type Fields = map<string, FieldValue>

  predicate IsVariable(t: FieldType) {
    t.BYTES? || t.STRING?
  }

  /** Variable-length fields count as size 0. */
  function FieldTypeSize(t: FieldType): nat {
    match t
    case U8 | I8 => 1
    case U16 | I16 => 2
    case U32 | I32 => 4
    case U64 | I64 => 8
    case BYTES | STRING => 0
  }

  predicate UsesLengthFraming(s: ProtocolSchema) {
    s.transport == "tcp" && s.framing.ftype.LENGTH_FIELD?
  }

  ghost predicate UniqueNames(fields: seq<FieldDef>) {
    forall i, j :: 0 <= i < j < |fields| ==> fields[i].name != fields[j].name
  }

  /** The names of the first k fields. */
  function FirstNames(fields: seq<FieldDef>, k: nat): set<string>
    requires k <= |fields|
  {
    if k == 0 then {} else {fields[0].name} + FirstNames(fields[1..], k - 1)
  }

  function Names(fields: seq<FieldDef>): set<string> {
    FirstNames(fields, |fields|)
  }

  /** Only a 16-bit field with the configured name is read as the length. */
  predicate IsLengthField(f: FieldDef, lengthField: string) {
    f.name == lengthField && f.ftype.U16?
  }
}
