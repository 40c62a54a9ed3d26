/** Splitting a byte stream into length-prefixed frames, as a recursive specification. */
module Framing {
  import opened Bytes
  import opened Schema
  import opened MessageCodec

  /** One frame and the length its length field declared. */
  datatype Frame = Frame(bytes: seq<byte>, bodyLen: u16)

  /** The last length field among the leading fields that fit in data, variable fields taking no room;
      found when there is none. */
  function ScanLength(fields: seq<FieldDef>, lengthField: string, data: seq<byte>, found: u16): u16 {
    if fields == [] || FieldTypeSize(fields[0].ftype) > |data| then found else
    var seen := if IsLengthField(fields[0], lengthField) then ReadU16(data[..2]) else found;
    ScanLength(fields[1..], lengthField, data[FieldTypeSize(fields[0].ftype)..], seen)
  }

  function ReadU16(bs: seq<byte>): u16
    requires |bs| == 2
  {
    PowValues();
    BigEndian(bs)
  }

  function BodyLen(s: ProtocolSchema, data: seq<byte>): u16 {
    ScanLength(s.fields, s.framing.lengthField, data, 0)
  }

  function FrameSize(framing: FramingConfig, bodyLen: nat): nat {
    if framing.lengthIncludesHeader then bodyLen else framing.headerLen + bodyLen
  }

  /** The size of the frame at the front of data, whether or not it is complete. */
  function FrameLen(s: ProtocolSchema, data: seq<byte>): nat {
    FrameSize(s.framing, BodyLen(s, data))
  }

  /** The header fits, and so does the frame it declares. */
  predicate HasFrame(s: ProtocolSchema, data: seq<byte>) {
    data != [] && s.framing.headerLen <= |data| && FrameLen(s, data) <= |data|
  }

  /** Every frame met takes at least one byte, so that splitting ends. */
  predicate Progresses(s: ProtocolSchema, data: seq<byte>)
    decreases |data|
  {
    HasFrame(s, data) ==> FrameLen(s, data) > 0 && Progresses(s, data[FrameLen(s, data)..])
  }

  function Frames(s: ProtocolSchema, data: seq<byte>): seq<Frame>
    requires Progresses(s, data)
    decreases |data|
  {
    if !HasFrame(s, data) then [] else
    var n := FrameLen(s, data);
    [Frame(data[..n], BodyLen(s, data))] + Frames(s, data[n..])
  }

  /** The incomplete tail no frame covers. */
  function Rest(s: ProtocolSchema, data: seq<byte>): (rest: seq<byte>)
    requires Progresses(s, data)
    ensures |rest| <= |data|
    decreases |data|
  {
    if !HasFrame(s, data) then data else Rest(s, data[FrameLen(s, data)..])
  }

  function DecodeFrame(s: ProtocolSchema, frame: Frame): Fields {
    DecodeFields(s.fields, frame.bytes, Declared(frame.bodyLen))
  }

  function DecodeStream(s: ProtocolSchema, data: seq<byte>): seq<Fields>
    requires Progresses(s, data)
    decreases |data|
  {
    if !HasFrame(s, data) then [] else
    var n := FrameLen(s, data);
    [DecodeFrame(s, Frame(data[..n], BodyLen(s, data)))] + DecodeStream(s, data[n..])
  }

  /** What a decoder yields for a whole buffer. */
  function DecodeAll(s: ProtocolSchema, data: seq<byte>): seq<Fields>
    requires Terminates(s, data)
  {
    if data == [] then []
    else if UsesLengthFraming(s) then DecodeStream(s, data)
    else if s.transport == "udp" then [DecodeFields(s.fields, data, Remainder)]
    else []
  }

  predicate Terminates(s: ProtocolSchema, data: seq<byte>) {
    UsesLengthFraming(s) ==> Progresses(s, data)
  }
}
