/** What one field's bytes mean, and the inverse encoder. */
module FieldCodec {
  import opened Bytes
  import opened Schema

  predicate HasType(v: FieldValue, t: FieldType) {
    match t
    case U8 => v.UInt8?
    case U16 => v.UInt16?
    case U32 => v.UInt32?
    case U64 => v.UInt64?
    case I8 => v.Int8?
    case I16 => v.Int16?
    case I32 => v.Int32?
    case I64 => v.Int64?
    case BYTES => v.ByteString?
    case STRING => v.Text?
  }

  // Fixed-size values as numbers of their width

  predicate InWidth(n: nat, t: FieldType) {
    n < Pow256(FieldTypeSize(t))
  }

  /** The value of a fixed-size type with this bit pattern. */
  function FromRaw(t: FieldType, n: nat): (v: FieldValue)
    requires !IsVariable(t) && InWidth(n, t)
    ensures HasType(v, t) && ToRaw(v) == n
  {
    PowValues();
    match t
    case U8 => UInt8(n)
    case U16 => UInt16(n)
    case U32 => UInt32(n)
    case U64 => UInt64(n)
    case I8 => Int8(AsSigned(n, 0x80))
    case I16 => Int16(AsSigned(n, 0x8000))
    case I32 => Int32(AsSigned(n, 0x8000_0000))
    case I64 => Int64(AsSigned(n, 0x8000_0000_0000_0000))
  }

  /** The bit pattern of a fixed-size value. */
  function ToRaw(v: FieldValue): (n: nat) {
    match v
    case UInt8(n) => n
    case UInt16(n) => n
    case UInt32(n) => n
    case UInt64(n) => n
    case Int8(n) => AsUnsigned(n, 0x80)
    case Int16(n) => AsUnsigned(n, 0x8000)
    case Int32(n) => AsUnsigned(n, 0x8000_0000)
    case Int64(n) => AsUnsigned(n, 0x8000_0000_0000_0000)
    case ByteString(_) | Text(_) => 0
  }

  lemma ToRawInverse(v: FieldValue, t: FieldType)
    requires !IsVariable(t) && HasType(v, t)
    ensures InWidth(ToRaw(v), t) && FromRaw(t, ToRaw(v)) == v
  {
    PowValues();
  }

  // Bytes

  /** 8-, 16- and 32-bit values are read in network order, 64-bit values in host order. */
  function Load(t: FieldType, bs: seq<byte>): (n: nat)
    requires |bs| == FieldTypeSize(t)
    ensures InWidth(n, t)
  {
    if FieldTypeSize(t) == 8 then LittleEndian(bs) else BigEndian(bs)
  }

  function Store(t: FieldType, n: nat): (bs: seq<byte>)
    ensures |bs| == FieldTypeSize(t)
  {
    if FieldTypeSize(t) == 8 then ToLittleEndian(n, 8) else ToBigEndian(n, FieldTypeSize(t))
  }

  function DecodeValue(t: FieldType, bs: seq<byte>): (v: FieldValue)
    requires IsVariable(t) || |bs| == FieldTypeSize(t)
    ensures HasType(v, t)
  {
    match t
    case BYTES => ByteString(bs)
    case STRING => Text(bs)
    case _ => FromRaw(t, Load(t, bs))
  }

  function EncodeValue(t: FieldType, v: FieldValue): (bs: seq<byte>)
    requires HasType(v, t)
    ensures IsVariable(t) || |bs| == FieldTypeSize(t)
  {
    match t
    case BYTES => v.bytes
    case STRING => v.chars
    case _ => Store(t, ToRaw(v))
  }

  /** Every value survives being written and read back. */
  lemma DecodeInvertsEncodeValue(t: FieldType, v: FieldValue)
    requires HasType(v, t)
    ensures DecodeValue(t, EncodeValue(t, v)) == v
  {
    if !IsVariable(t) {
      ToRawInverse(v, t);
      LittleEndianRoundTrip(ToRaw(v), FieldTypeSize(t));
      BigEndianRoundTrip(ToRaw(v), FieldTypeSize(t));
    }
  }

  /** Every byte of a field is recoverable from its value. */
  lemma EncodeInvertsDecodeValue(t: FieldType, bs: seq<byte>)
    requires IsVariable(t) || |bs| == FieldTypeSize(t)
    ensures EncodeValue(t, DecodeValue(t, bs)) == bs
  {
    BigEndianInverse(bs);
    LittleEndianInverse(bs);
  }

  // What decoded values are, in numbers

  lemma UnsignedValues(bs: seq<byte>)
    ensures |bs| == 1 ==> DecodeValue(U8, bs) == UInt8(bs[0])
    ensures |bs| == 2 ==> DecodeValue(U16, bs).v16 == BigEndian(bs)
    ensures |bs| == 4 ==> DecodeValue(U32, bs).v32 == BigEndian(bs)
    ensures |bs| == 8 ==> DecodeValue(U64, bs).v64 == LittleEndian(bs)
  {
    if |bs| == 1 {
      assert bs[..0] == [];
    }
  }

  /** Signed values are two's complement: within their type's range, they differ from the bytes' number by
      nothing or by the whole range. */
  lemma SignedValues(bs: seq<byte>)
    ensures |bs| == 1 ==> DecodeValue(I8, bs).s8 in {bs[0] as int, bs[0] as int - 0x100}
    ensures |bs| == 2 ==> DecodeValue(I16, bs).s16 in {BigEndian(bs), BigEndian(bs) - 0x1_0000}
    ensures |bs| == 4 ==> DecodeValue(I32, bs).s32 in {BigEndian(bs), BigEndian(bs) - 0x1_0000_0000}
    ensures |bs| == 8 ==> DecodeValue(I64, bs).s64 in {LittleEndian(bs), LittleEndian(bs) - 0x1_0000_0000_0000_0000}
  {
    PowValues();
    if |bs| == 1 {
      assert bs[..0] == [];
    }
  }

  lemma VariableValues(bs: seq<byte>)
    ensures DecodeValue(BYTES, bs) == ByteString(bs) && DecodeValue(STRING, bs) == Text(bs)
  {}

  // The byte order a schema declares

  /** The value the schema language promises: the bytes read in the declared order. */
  function DeclaredValue(endian: string, t: FieldType, bs: seq<byte>): FieldValue
    requires IsVariable(t) || |bs| == FieldTypeSize(t)
  {
    match t
    case BYTES => ByteString(bs)
    case STRING => Text(bs)
    case _ => FromRaw(t, if endian == "little" then LittleEndian(bs) else BigEndian(bs))
  }

  /** The decoder never looks at the declared order. It agrees with the declaration exactly when the
      field has no byte order, when the declaration is the built-in one for that width, or when the
      bytes read the same both ways. */
  lemma DeclaredOrderHonoured(endian: string, t: FieldType, bs: seq<byte>)
    requires IsVariable(t) || |bs| == FieldTypeSize(t)
    ensures DecodeValue(t, bs) == DeclaredValue(endian, t, bs)
       <==> (|| IsVariable(t)
             || (endian == "little" <==> FieldTypeSize(t) == 8)
             || bs == Reversed(bs))
  {
    if !IsVariable(t) {
      ByteOrdersAgree(bs);
      var declared := if endian == "little" then LittleEndian(bs) else BigEndian(bs);
      assert ToRaw(FromRaw(t, declared)) == declared && ToRaw(DecodeValue(t, bs)) == Load(t, bs);
    }
  }
}
