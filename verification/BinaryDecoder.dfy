/** The schema-driven decoder: loops over a moving offset, proved to compute the recursive specification. */
module BinaryDecoder {
  import opened Bytes
  import opened Schema
  import opened FieldCodec
  import opened MessageCodec
  import opened Framing

  /** A 16-bit word in network order, copied on a little-endian host and swapped. */
  function CopyU16(data: seq<byte>, offset: nat): (v: u16)
    requires offset + 2 <= |data|
    ensures v == ReadU16(data[offset..offset + 2])
  {
    NtohsOfLoad(data[offset..offset + 2]);
    Ntohs(LittleEndian(data[offset..offset + 2]))
  }

  /** Reads one value in place; size is the room a variable-length field takes. */
  method ReadValue(data: seq<byte>, offset: nat, t: FieldType, size: nat) returns (v: FieldValue)
    requires offset + size <= |data| && (IsVariable(t) || size == FieldTypeSize(t))
    ensures v == DecodeValue(t, data[offset..offset + size])
  {
    var bs := data[offset..offset + size];
    PowValues();
    match t
    case U8 => v := UInt8(data[offset]);
    case U16 => v := UInt16(CopyU16(data, offset));
    case U32 => NtohlOfLoad(bs); v := UInt32(Ntohl(LittleEndian(bs)));
    case U64 => v := UInt64(LittleEndian(bs));
    case I8 => v := Int8(AsSigned(data[offset], 0x80));
    case I16 => v := Int16(AsSigned(CopyU16(data, offset), 0x8000));
    case I32 => NtohlOfLoad(bs); v := Int32(AsSigned(Ntohl(LittleEndian(bs)), 0x8000_0000));
    case I64 => v := Int64(AsSigned(LittleEndian(bs), 0x8000_0000_0000_0000));
    case BYTES => v := ByteString(bs);
    case STRING => v := Text(bs);
  }

  /** The first k fields end here, variable-length ones taking no room, and the next one does not fit. */
  predicate StopsAt(fields: seq<FieldDef>, data: seq<byte>, start: nat, end: nat, k: nat)
    requires k <= |fields|
  {
    end == start + FixedOffset(fields, k) && (k < |fields| ==> end + FieldTypeSize(fields[k].ftype) > |data|)
  }

  /** First pass over a frame: finds the declared length, moving the offset past every field that fits. */
  method ScanForLength(s: ProtocolSchema, data: seq<byte>, start: nat) returns (payloadLen: u16, offset: nat)
    requires start <= |data|
    ensures payloadLen == BodyLen(s, data[start..])
    ensures start <= offset <= |data|
    ensures exists k :: 0 <= k <= |s.fields| && StopsAt(s.fields, data, start, offset, k)
  {
    offset := start;
    payloadLen := 0;
    var i := 0;
    while i < |s.fields|
      invariant 0 <= i <= |s.fields| && start <= offset <= |data|
      invariant offset == start + FixedOffset(s.fields, i)
      invariant ScanLength(s.fields[i..], s.framing.lengthField, data[offset..], payloadLen)
             == BodyLen(s, data[start..])
    {
      var field := s.fields[i];
      var fieldSize := FieldTypeSize(field.ftype);
      assert s.fields[i..][0] == field && s.fields[i..][1..] == s.fields[i + 1..];
      NextOffset(s.fields, i);
      if offset + fieldSize > |data| { break; }
      if field.name == s.framing.lengthField {
        if field.ftype == U16 {
          assert data[offset..][..2] == data[offset..offset + 2];
          payloadLen := CopyU16(data, offset);
        }
      }
      assert data[offset..][fieldSize..] == data[offset + fieldSize..];
      offset := offset + fieldSize;
      i := i + 1;
    }
    assert StopsAt(s.fields, data, start, offset, i);
  }

  /** Second pass over a frame: decodes fields until one would cross the frame's end. */
  method DecodeFrameAt(s: ProtocolSchema, data: seq<byte>, msgStart: nat, msgSize: nat, payloadLen: u16)
    returns (message: Fields)
    requires msgStart + msgSize <= |data|
    ensures message == DecodeFrame(s, Frame(data[msgStart..msgStart + msgSize], payloadLen))
  {
    var end := msgStart + msgSize;
    message := map[];
    var offset := msgStart;
    var i := 0;
    ghost var ext := Declared(payloadLen);
    ghost var todo, rest := s.fields, data[msgStart..end];
    while i < |s.fields|
      invariant 0 <= i <= |s.fields| && todo == s.fields[i..]
      invariant msgStart <= offset <= end && rest == data[offset..end]
      invariant message + DecodeFields(todo, rest, ext) == DecodeFields(s.fields, data[msgStart..end], ext)
    {
      var field := s.fields[i];
      var fieldSize := FieldTypeSize(field.ftype);
      if field.ftype == BYTES || field.ftype == STRING {
        fieldSize := payloadLen;
      }
      if offset + fieldSize > end { break; }
      var value := ReadValue(data, offset, field.ftype, fieldSize);
      assert rest[..fieldSize] == data[offset..offset + fieldSize];
      ReadStep(todo, rest, fieldSize, ext, message, value);
      message := message[field.name := value];
      offset := offset + fieldSize;
      i := i + 1;
      todo, rest := todo[1..], rest[fieldSize..];
    }
    ReadEnds(todo, rest, ext, message);
  }

  /** A datagram is one message; a variable-length field takes all that is left. */
  method DecodeDatagram(s: ProtocolSchema, data: seq<byte>) returns (message: Fields)
    ensures message == DecodeFields(s.fields, data, Remainder)
  {
    message := map[];
    var offset := 0;
    var i := 0;
    ghost var todo, rest := s.fields, data;
    while i < |s.fields|
      invariant 0 <= i <= |s.fields| && todo == s.fields[i..]
      invariant 0 <= offset <= |data| && rest == data[offset..]
      invariant message + DecodeFields(todo, rest, Remainder) == DecodeFields(s.fields, data, Remainder)
    {
      var field := s.fields[i];
      var fieldSize := FieldTypeSize(field.ftype);
      if field.ftype == BYTES || field.ftype == STRING {
        fieldSize := |data| - offset;
      }
      if offset + fieldSize > |data| { break; }
      var value := ReadValue(data, offset, field.ftype, fieldSize);
      assert rest[..fieldSize] == data[offset..offset + fieldSize];
      ReadStep(todo, rest, fieldSize, Remainder, message, value);
      message := message[field.name := value];
      offset := offset + fieldSize;
      i := i + 1;
      todo, rest := todo[1..], rest[fieldSize..];
    }
    ReadEnds(todo, rest, Remainder, message);
  }

  /** Reading one field moves its contribution from what is still to decode into the message. */
  lemma ReadStep(todo: seq<FieldDef>, rest: seq<byte>, n: nat, ext: Extent, message: Fields,
                 value: FieldValue)
    requires todo != [] && n == FieldExtent(todo[0].ftype, ext, |rest|) <= |rest|
    requires value == DecodeValue(todo[0].ftype, rest[..n])
    ensures message[todo[0].name := value] + DecodeFields(todo[1..], rest[n..], ext)
         == message + DecodeFields(todo, rest, ext)
  {
    var tail := DecodeFields(todo[1..], rest[n..], ext);
    assert DecodeFields(todo, rest, ext) == map[todo[0].name := value] + tail;
    AddThenMerge(message, todo[0].name, value, tail);
  }

  lemma AddThenMerge(m: Fields, name: string, value: FieldValue, tail: Fields)
    ensures m[name := value] + tail == m + (map[name := value] + tail)
  {}

  lemma ReadEnds(todo: seq<FieldDef>, rest: seq<byte>, ext: Extent, message: Fields)
    requires todo != [] ==> FieldExtent(todo[0].ftype, ext, |rest|) > |rest|
    ensures message + DecodeFields(todo, rest, ext) == message
  {}

  lemma FrameStep(s: ProtocolSchema, rest: seq<byte>, messages: seq<Fields>, message: Fields)
    requires HasFrame(s, rest) && Progresses(s, rest)
    requires message == DecodeFrame(s, Frame(rest[..FrameLen(s, rest)], BodyLen(s, rest)))
    ensures var n := FrameLen(s, rest);
            && n > 0 && Progresses(s, rest[n..])
            && (messages + [message]) + DecodeStream(s, rest[n..]) == messages + DecodeStream(s, rest)
  {
    assert DecodeStream(s, rest) == [message] + DecodeStream(s, rest[FrameLen(s, rest)..]);
  }

  lemma StreamEnds(s: ProtocolSchema, rest: seq<byte>, messages: seq<Fields>)
    requires !HasFrame(s, rest)
    ensures Progresses(s, rest) && messages + DecodeStream(s, rest) == messages
  {}

  /** Length-field framing: a buffer may hold several messages and an incomplete tail. */
  method DecodeFramed(s: ProtocolSchema, data: seq<byte>) returns (messages: seq<Fields>)
    requires Progresses(s, data)
    ensures messages == DecodeStream(s, data)
  {
    messages := [];
    var offset := 0;
    ghost var rest := data;
    while offset < |data|
      invariant 0 <= offset <= |data| && rest == data[offset..] && Progresses(s, rest)
      invariant messages + DecodeStream(s, rest) == DecodeStream(s, data)
      decreases |data| - offset
    {
      if offset + s.framing.headerLen > |data| { break; }
      var msgStart := offset;
      var payloadLen;
      payloadLen, offset := ScanForLength(s, data, offset);
      var msgSize := s.framing.headerLen + payloadLen;
      if s.framing.lengthIncludesHeader {
        msgSize := payloadLen;
      }
      assert msgSize == FrameLen(s, rest);
      if msgStart + msgSize > |data| { break; }
      var message := DecodeFrameAt(s, data, msgStart, msgSize, payloadLen);
      assert data[msgStart..msgStart + msgSize] == rest[..msgSize];
      FrameStep(s, rest, messages, message);
      messages := messages + [message];
      offset := msgStart + msgSize;
      rest := rest[msgSize..];
    }
    StreamEnds(s, rest, messages);
  }

  method Decode(s: ProtocolSchema, data: seq<byte>) returns (messages: seq<Fields>)
    requires Terminates(s, data)
    ensures messages == DecodeAll(s, data)
  {
    messages := [];
    if |data| == 0 { return; }
    if s.transport == "tcp" && s.framing.ftype == LENGTH_FIELD {
      messages := DecodeFramed(s, data);
    } else if s.transport == "udp" {
      var message := DecodeDatagram(s, data);
      messages := messages + [message];
    }
  }
}
