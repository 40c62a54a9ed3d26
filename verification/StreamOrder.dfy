/** When the messages of a stream are read in the byte order their schema declares. */
module StreamOrder {
  import opened Bytes
  import opened Schema
  import opened FieldCodec
  import opened MessageCodec
  import opened Framing
  import opened FramingTheory
  import opened WireCodec
  import opened ByteOrder

  // Where the fields of a frame lie

  /** Where the i-th field starts in a frame whose variable-length fields take len bytes each. */
  function Offset(fields: seq<FieldDef>, i: nat, len: nat): nat
    requires i <= |fields|
  {
    if i == 0 then 0 else FieldExtent(fields[0].ftype, Declared(len), 0) + Offset(fields[1..], i - 1, len)
  }

  /** The number of variable-length fields among the first i. */
  function Variables(fields: seq<FieldDef>, i: nat): nat
    requires i <= |fields|
  {
    if i == 0 then 0 else (if IsVariable(fields[0].ftype) then 1 else 0) + Variables(fields[1..], i - 1)
  }

  lemma {:induction false} OffsetIs(fields: seq<FieldDef>, i: nat, len: nat)
    requires i <= |fields|
    ensures Offset(fields, i, len) == FixedOffset(fields, i) + len * Variables(fields, i)
  {
    if i == 0 {
    } else {
      OffsetIs(fields[1..], i - 1, len);
      Distribute(len, Variables(fields[1..], i - 1));
    }
  }

  lemma Distribute(a: nat, b: nat)
    ensures a * (1 + b) == a + a * b && (1 + b) * a == a + a * b
  {}

  lemma {:induction false} NextVariables(fields: seq<FieldDef>, i: nat)
    requires i < |fields|
    ensures Variables(fields, i + 1) == Variables(fields, i) + if IsVariable(fields[i].ftype) then 1 else 0
  {
    if i == 0 {
      assert Variables(fields[1..], 0) == 0;
    } else {
      NextVariables(fields[1..], i - 1);
    }
  }

  /** The first i fields fit exactly when they end within the frame. */
  lemma {:induction false} FitWhen(fields: seq<FieldDef>, avail: nat, i: nat, len: nat)
    requires i <= |fields|
    ensures i <= FitCount(fields, avail, Declared(len)) <==> Offset(fields, i, len) <= avail
  {
    if i == 0 {
    } else {
      var n := FieldExtent(fields[0].ftype, Declared(len), avail);
      if n <= avail {
        FitWhen(fields[1..], avail - n, i - 1, len);
      }
    }
  }

  lemma {:induction false} SkipAt(fields: seq<FieldDef>, frame: seq<byte>, i: nat, len: nat)
    requires i <= FitCount(fields, |frame|, Declared(len))
    ensures Offset(fields, i, len) <= |frame|
    ensures Skip(fields, frame, i, Declared(len)) == frame[Offset(fields, i, len)..]
  {
    if i == 0 {
    } else {
      var n := FieldExtent(fields[0].ftype, Declared(len), |frame|);
      SkipAt(fields[1..], frame[n..], i - 1, len);
      assert frame[n..][Offset(fields[1..], i - 1, len)..] == frame[Offset(fields, i, len)..];
    }
  }

  lemma {:induction false} OffsetAfter(fields: seq<FieldDef>, i: nat, len: nat)
    requires i < |fields|
    ensures Offset(fields, i + 1, len) == Offset(fields, i, len) + FieldExtent(fields[i].ftype, Declared(len), 0)
  {
    if i == 0 {
      assert Offset(fields[1..], 0, len) == 0;
    } else {
      OffsetAfter(fields[1..], i - 1, len);
    }
  }

  lemma FieldAt(fields: seq<FieldDef>, frame: seq<byte>, i: nat, len: nat)
    requires i < FitCount(fields, |frame|, Declared(len))
    ensures Offset(fields, i, len) <= Offset(fields, i + 1, len) <= |frame|
    ensures FieldBytes(fields, frame, i, Declared(len))
         == frame[Offset(fields, i, len)..Offset(fields, i + 1, len)]
  {
    FitWhen(fields, |frame|, i + 1, len);
    SkipAt(fields, frame, i, len);
    OffsetAfter(fields, i, len);
    SliceOfTail(frame, Offset(fields, i, len), 0, FieldExtent(fields[i].ftype, Declared(len), 0));
  }

  lemma {:induction false} FixedOffsetsGrow(fields: seq<FieldDef>, i: nat, j: nat)
    requires i <= j <= |fields|
    ensures FixedOffset(fields, i) <= FixedOffset(fields, j)
  {
    if i == 0 {
    } else {
      FixedOffsetsGrow(fields[1..], i - 1, j - 1);
    }
  }

  // The declared length

  /** This length field lies within the buffer, variable-length fields taking no room. */
  predicate LengthFits(fields: seq<FieldDef>, lengthField: string, room: nat, j: nat)
    requires j < |fields|
  {
    IsLengthField(fields[j], lengthField) && FixedOffset(fields, j) + 2 <= room
  }

  lemma {:induction false} ScanNone(fields: seq<FieldDef>, lengthField: string, data: seq<byte>, found: u16)
    requires forall k :: 0 <= k < |fields| ==> !LengthFits(fields, lengthField, |data|, k)
    ensures ScanLength(fields, lengthField, data, found) == found
  {
    if fields == [] || FieldTypeSize(fields[0].ftype) > |data| {
    } else {
      var n := FieldTypeSize(fields[0].ftype);
      assert !LengthFits(fields, lengthField, |data|, 0);
      var tail, room := fields[1..], |data| - n;
      forall k | 0 <= k < |tail| ensures !LengthFits(tail, lengthField, room, k) {
        assert !LengthFits(fields, lengthField, |data|, k + 1);
      }
      ScanNone(tail, lengthField, data[n..], found);
    }
  }

  /** The length is read at the place, in the fixed layout, of the last length field that fits. */
  lemma {:induction false} ScanAt(fields: seq<FieldDef>, lengthField: string, data: seq<byte>, found: u16, j: nat)
    requires j < |fields| && LengthFits(fields, lengthField, |data|, j)
    requires forall k :: j < k < |fields| ==> !LengthFits(fields, lengthField, |data|, k)
    ensures ScanLength(fields, lengthField, data, found)
         == ReadU16(data[FixedOffset(fields, j)..FixedOffset(fields, j) + 2])
  {
    var n := FieldTypeSize(fields[0].ftype);
    var tail, room := fields[1..], |data| - n;
    forall k | j <= k < |tail| ensures !LengthFits(tail, lengthField, room, k) {
      assert !LengthFits(fields, lengthField, |data|, k + 1);
    }
    if j == 0 {
      ScanNone(tail, lengthField, data[2..], ReadU16(data[..2]));
    } else {
      var seen := if IsLengthField(fields[0], lengthField) then ReadU16(data[..2]) else found;
      ScanAt(tail, lengthField, data[n..], seen, j - 1);
      SliceOfTail(data, n, FixedOffset(fields[1..], j - 1), FixedOffset(fields[1..], j - 1) + 2);
    }
  }

  /** The declared length is that of the last length field that fits, or 0 when none does. */
  lemma BodyLenMeaning(s: ProtocolSchema, data: seq<byte>, j: nat)
    requires j < |s.fields| ==> LengthFits(s.fields, s.framing.lengthField, |data|, j)
    requires forall k :: 0 <= k < |s.fields| && (k > j || j >= |s.fields|) ==>
               !LengthFits(s.fields, s.framing.lengthField, |data|, k)
    ensures BodyLen(s, data) as int
         == if j < |s.fields|
            then 0x100 * data[FixedOffset(s.fields, j)] as int + data[FixedOffset(s.fields, j) + 1] as int
            else 0
  {
    if j < |s.fields| {
      var o := FixedOffset(s.fields, j);
      ScanAt(s.fields, s.framing.lengthField, data, 0, j);
      BigEndian2(data[o..o + 2]);
    } else {
      ScanNone(s.fields, s.framing.lengthField, data, 0);
    }
  }

  predicate HasLength(s: ProtocolSchema) {
    exists j :: 0 <= j < |s.fields| && IsLengthField(s.fields[j], s.framing.lengthField)
  }

  lemma BodyLenAt(s: ProtocolSchema, data: seq<byte>, j: nat)
    requires UniqueNames(s.fields) && j < |s.fields| && IsLengthField(s.fields[j], s.framing.lengthField)
    requires FixedOffset(s.fields, j) + 2 <= |data|
    ensures BodyLen(s, data) as int
         == 0x100 * data[FixedOffset(s.fields, j)] as int + data[FixedOffset(s.fields, j) + 1] as int
  {
    BodyLenMeaning(s, data, j);
  }

  // Field by field

  ghost predicate FieldHonoured(endian: string, fields: seq<FieldDef>, frame: seq<byte>, ext: Extent, i: nat)
    requires i < FitCount(fields, |frame|, ext)
  {
    var bs := FieldBytes(fields, frame, i, ext);
    DecodeValue(fields[i].ftype, bs) == DeclaredValue(endian, fields[i].ftype, bs)
  }

  /** A message is read in the declared order exactly when each of its fields is. */
  lemma {:induction false} HonouredFieldByField(endian: string, fields: seq<FieldDef>, frame: seq<byte>, ext: Extent)
    requires UniqueNames(fields)
    ensures DecodeFields(fields, frame, ext) == DeclaredFields(endian, fields, frame, ext)
       <==> forall i :: 0 <= i < FitCount(fields, |frame|, ext) ==> FieldHonoured(endian, fields, frame, ext, i)
  {
    if fields == [] || FieldExtent(fields[0].ftype, ext, |frame|) > |frame| {
    } else {
      var n := FieldExtent(fields[0].ftype, ext, |frame|);
      var k := FitCount(fields[1..], |frame| - n, ext);
      assert FitCount(fields, |frame|, ext) == 1 + k;
      HonouredFieldByField(endian, fields[1..], frame[n..], ext);
      HeadShows(fields, frame, ext, n, endian);
      forall i | 0 <= i < k
        ensures FieldHonoured(endian, fields, frame, ext, i + 1)
           <==> FieldHonoured(endian, fields[1..], frame[n..], ext, i)
      {
        assert FieldBytes(fields, frame, i + 1, ext) == FieldBytes(fields[1..], frame[n..], i, ext);
      }
      assert FieldBytes(fields, frame, 0, ext) == frame[..n];
      LaterFields(endian, fields, frame, ext, n, k);
    }
  }

  /** Fields from the second one on are those of the rest of the message. */
  lemma LaterFields(endian: string, fields: seq<FieldDef>, frame: seq<byte>, ext: Extent, n: nat, k: nat)
    requires fields != [] && n <= |frame| && FitCount(fields, |frame|, ext) == 1 + k
    requires FitCount(fields[1..], |frame[n..]|, ext) == k
    requires forall i :: 0 <= i < k ==>
               (FieldHonoured(endian, fields, frame, ext, i + 1)
                <==> FieldHonoured(endian, fields[1..], frame[n..], ext, i))
    ensures (forall i :: 0 <= i < 1 + k ==> FieldHonoured(endian, fields, frame, ext, i))
       <==> FieldHonoured(endian, fields, frame, ext, 0)
            && forall i :: 0 <= i < k ==> FieldHonoured(endian, fields[1..], frame[n..], ext, i)
  {
    if forall i :: 0 <= i < k ==> FieldHonoured(endian, fields[1..], frame[n..], ext, i) {
      forall i | 0 < i < 1 + k ensures FieldHonoured(endian, fields, frame, ext, i) {
        assert FieldHonoured(endian, fields[1..], frame[n..], ext, i - 1);
      }
    }
    if forall i :: 0 <= i < 1 + k ==> FieldHonoured(endian, fields, frame, ext, i) {
      forall i | 0 <= i < k ensures FieldHonoured(endian, fields[1..], frame[n..], ext, i) {
        assert FieldHonoured(endian, fields, frame, ext, i + 1);
      }
    }
  }

  // Streams

  /** The promised reading of a stream's frame. */
  function DeclaredFrame(s: ProtocolSchema, frame: Frame): Fields {
    DeclaredFields(s.endian, s.fields, frame.bytes, Declared(frame.bodyLen))
  }

  /** The promised reading of a stream: the same frames, each value in the declared order. */
  function DeclaredStream(s: ProtocolSchema, data: seq<byte>): (r: seq<Fields>)
    requires Progresses(s, data)
    ensures |r| == |Frames(s, data)|
    ensures forall i :: 0 <= i < |r| ==> r[i] == DeclaredFrame(s, Frames(s, data)[i])
  {
    seq(|Frames(s, data)|, i requires 0 <= i < |Frames(s, data)| => DeclaredFrame(s, Frames(s, data)[i]))
  }

  /** Some frame of some stream holds the i-th field, and, when it is the length field itself, a length whose
      two bytes differ. Behind a variable-length field, which takes the whole declared length, only the room
      of the header is left. */
  predicate CanBeRead(s: ProtocolSchema, i: nat)
    requires i < |s.fields|
  {
    var header, end, variables := s.framing.headerLen, FixedOffset(s.fields, i + 1), Variables(s.fields, i);
    if IsLengthField(s.fields[i], s.framing.lengthField) then
      if variables == 0 then end <= header + 65534 else end + variables - 1 <= header
    else if variables == 0 && HasLength(s) then end <= header + 65535
    else end <= header
  }

  /** Every field that some stream lets the decoder read has its built-in order. */
  predicate StreamOrderSafe(s: ProtocolSchema) {
    forall i :: 0 <= i < |s.fields| && CanBeRead(s, i) ==> OrderBuiltIn(s.endian, s.fields[i].ftype)
  }

  // Safe schemas

  /** What the frame at the front of a stream holds of the i-th field. */
  lemma ReadAt(s: ProtocolSchema, data: seq<byte>, i: nat)
    requires AlwaysProgresses(s) && HasFrame(s, data)
    requires i < FitCount(s.fields, FrameLen(s, data), Declared(BodyLen(s, data)))
    requires !IsVariable(s.fields[i].ftype)
    ensures var len := BodyLen(s, data);
            && FixedOffset(s.fields, i + 1) + len * Variables(s.fields, i) <= s.framing.headerLen + len
            && Offset(s.fields, i, len) <= Offset(s.fields, i + 1, len) <= |data|
            && FieldBytes(s.fields, data[..FrameLen(s, data)], i, Declared(len))
            == data[Offset(s.fields, i, len)..Offset(s.fields, i + 1, len)]
  {
    var len := BodyLen(s, data);
    FieldAt(s.fields, data[..FrameLen(s, data)], i, len);
    OffsetIs(s.fields, i + 1, len);
    NextVariables(s.fields, i);
  }

  lemma NoRoomBehind(len: nat, variables: nat, end: nat, header: nat)
    requires variables >= 1 && end + len * variables <= header + len
    ensures end <= header
    ensures len > 0 ==> end + variables - 1 <= header
  {
    Distribute(len, variables - 1);
    if len > 0 {
      Distribute(variables - 1, len - 1);
    }
  }

  lemma ReadCanBeRead(s: ProtocolSchema, data: seq<byte>, i: nat)
    requires AlwaysProgresses(s) && HasFrame(s, data)
    requires i < FitCount(s.fields, FrameLen(s, data), Declared(BodyLen(s, data)))
    requires !IsVariable(s.fields[i].ftype) && !IsLengthField(s.fields[i], s.framing.lengthField)
    ensures CanBeRead(s, i)
  {
    var len, variables := BodyLen(s, data), Variables(s.fields, i);
    ReadAt(s, data, i);
    if variables > 0 {
      NoRoomBehind(len, variables, FixedOffset(s.fields, i + 1), s.framing.headerLen);
    } else if !HasLength(s) {
      ScanWithout(s.fields, s.framing.lengthField, data, 0);
    }
  }

  /** A length field that cannot be read with two different bytes. */
  lemma LengthForced(s: ProtocolSchema, i: nat, len: u16)
    requires i < |s.fields| && IsLengthField(s.fields[i], s.framing.lengthField) && !CanBeRead(s, i)
    requires FixedOffset(s.fields, i + 1) + len * Variables(s.fields, i) <= s.framing.headerLen + len
    ensures (len == 65535 && Variables(s.fields, i) == 0) || len == 0
    ensures Offset(s.fields, i, len) == FixedOffset(s.fields, i)
  {
    OffsetIs(s.fields, i, len);
    if Variables(s.fields, i) > 0 {
      NoRoomBehind(len, Variables(s.fields, i), FixedOffset(s.fields, i + 1), s.framing.headerLen);
    }
  }

  lemma LengthCanBeRead(s: ProtocolSchema, data: seq<byte>, i: nat)
    requires AlwaysProgresses(s) && UniqueNames(s.fields) && HasFrame(s, data)
    requires i < FitCount(s.fields, FrameLen(s, data), Declared(BodyLen(s, data)))
    requires IsLengthField(s.fields[i], s.framing.lengthField) && !CanBeRead(s, i)
    ensures var bs := FieldBytes(s.fields, data[..FrameLen(s, data)], i, Declared(BodyLen(s, data)));
            bs == Reversed(bs)
  {
    ReadAt(s, data, i);
    LengthForced(s, i, BodyLen(s, data));
    OffsetAfter(s.fields, i, BodyLen(s, data));
    BodyLenAt(s, data, i);
  }

  lemma FrontHonoured(s: ProtocolSchema, data: seq<byte>)
    requires AlwaysProgresses(s) && UniqueNames(s.fields) && StreamOrderSafe(s) && HasFrame(s, data)
    ensures var frame := Frame(data[..FrameLen(s, data)], BodyLen(s, data));
            DecodeFrame(s, frame) == DeclaredFrame(s, frame)
  {
    var frame, ext := data[..FrameLen(s, data)], Declared(BodyLen(s, data));
    forall i | 0 <= i < FitCount(s.fields, |frame|, ext) ensures FieldHonoured(s.endian, s.fields, frame, ext, i) {
      var t, bs := s.fields[i].ftype, FieldBytes(s.fields, frame, i, ext);
      if !IsVariable(t) && !CanBeRead(s, i) {
        if !IsLengthField(s.fields[i], s.framing.lengthField) {
          ReadCanBeRead(s, data, i);
        } else {
          LengthCanBeRead(s, data, i);
          DeclaredOrderHonoured(s.endian, t, bs);
        }
      } else {
        BuiltInHonoured(s.endian, t, bs);
      }
    }
    HonouredFieldByField(s.endian, s.fields, frame, ext);
  }

  lemma {:induction false} SafeStream(s: ProtocolSchema, data: seq<byte>)
    requires AlwaysProgresses(s) && UniqueNames(s.fields) && StreamOrderSafe(s) && Progresses(s, data)
    ensures forall f :: f in Frames(s, data) ==> DecodeFrame(s, f) == DeclaredFrame(s, f)
    decreases |data|
  {
    if !HasFrame(s, data) {
    } else {
      FrontHonoured(s, data);
      SafeStream(s, data[FrameLen(s, data)..]);
    }
  }

  // Streams that other schemas misread

  /** The frame at the front of this stream is read in another order than declared. */
  ghost predicate FrontMisread(s: ProtocolSchema, data: seq<byte>) {
    && HasFrame(s, data)
    && var frame := Frame(data[..FrameLen(s, data)], BodyLen(s, data));
       DecodeFrame(s, frame) != DeclaredFrame(s, frame)
  }

  lemma LopsidedNotHonoured(endian: string, fields: seq<FieldDef>, frame: seq<byte>, i: nat, len: nat)
    requires i < FitCount(fields, |frame|, Declared(len)) && !OrderBuiltIn(endian, fields[i].ftype)
    requires var start, size := Offset(fields, i, len), FieldTypeSize(fields[i].ftype);
             start + size <= |frame| && frame[start] != frame[start + size - 1]
    ensures !FieldHonoured(endian, fields, frame, Declared(len), i)
  {
    FieldAt(fields, frame, i, len);
    OffsetAfter(fields, i, len);
    var bs := FieldBytes(fields, frame, i, Declared(len));
    assert bs[0] != Reversed(bs)[0];
    DeclaredOrderHonoured(endian, fields[i].ftype, bs);
  }

  lemma LopsidedFieldShows(s: ProtocolSchema, data: seq<byte>, i: nat)
    requires AlwaysProgresses(s) && UniqueNames(s.fields)
    requires i < |s.fields| && !OrderBuiltIn(s.endian, s.fields[i].ftype)
    requires FrameLen(s, data) <= |data| && Offset(s.fields, i + 1, BodyLen(s, data)) <= FrameLen(s, data)
    requires var start, size := Offset(s.fields, i, BodyLen(s, data)), FieldTypeSize(s.fields[i].ftype);
             start + size <= |data| && data[start] != data[start + size - 1]
    ensures FrontMisread(s, data)
  {
    var len, frame := BodyLen(s, data), data[..FrameLen(s, data)];
    FitWhen(s.fields, |frame|, i + 1, len);
    OffsetAfter(s.fields, i, len);
    LopsidedNotHonoured(s.endian, s.fields, frame, i, len);
    HonouredFieldByField(s.endian, s.fields, frame, Declared(len));
  }

  /** The same for a field whose place does not depend on the declared length. */
  lemma LopsidedInPlace(s: ProtocolSchema, data: seq<byte>, i: nat)
    requires AlwaysProgresses(s) && UniqueNames(s.fields)
    requires i < |s.fields| && !OrderBuiltIn(s.endian, s.fields[i].ftype)
    requires Variables(s.fields, i) == 0 || BodyLen(s, data) == 0
    requires FrameLen(s, data) <= |data| && FixedOffset(s.fields, i + 1) <= FrameLen(s, data)
    requires var start, size := FixedOffset(s.fields, i), FieldTypeSize(s.fields[i].ftype);
             start + size <= |data| && data[start] != data[start + size - 1]
    ensures FrontMisread(s, data)
  {
    NextVariables(s.fields, i);
    OffsetIs(s.fields, i, BodyLen(s, data));
    OffsetIs(s.fields, i + 1, BodyLen(s, data));
    LopsidedFieldShows(s, data, i);
  }

  /** In the fixed layout no other field overlaps the length field. */
  lemma LengthApart(fields: seq<FieldDef>, i: nat, j: nat)
    requires i < |fields| && j < |fields| && i != j && fields[j].ftype.U16?
    ensures FixedOffset(fields, i) + FieldTypeSize(fields[i].ftype) <= FixedOffset(fields, j)
         || FixedOffset(fields, j) + 2 <= FixedOffset(fields, i)
  {
    NextOffset(fields, i);
    NextOffset(fields, j);
    if i < j {
      FixedOffsetsGrow(fields, i + 1, j);
    } else {
      FixedOffsetsGrow(fields, j + 1, i);
    }
  }

  /** A frame of the greatest declared length, to reach a field in front of all variable ones. */
  lemma MisreadInBody(s: ProtocolSchema, i: nat, j: nat) returns (data: seq<byte>)
    requires AlwaysProgresses(s) && UniqueNames(s.fields)
    requires i < |s.fields| && !OrderBuiltIn(s.endian, s.fields[i].ftype)
    requires j < |s.fields| && IsLengthField(s.fields[j], s.framing.lengthField) && i != j
    requires Variables(s.fields, i) == 0 && FixedOffset(s.fields, i + 1) <= s.framing.headerLen + 65535
    ensures FrontMisread(s, data)
  {
    var p, q := FixedOffset(s.fields, i), FixedOffset(s.fields, j);
    LengthApart(s.fields, i, j);
    NextOffset(s.fields, i);
    data := Zeros(s.framing.headerLen + 65535 + q + 2)[q := 255][q + 1 := 255][p := 1];
    BodyLenAt(s, data, j);
    LopsidedInPlace(s, data, i);
  }

  /** A frame that is only a header, to reach a field behind variable ones. */
  lemma MisreadInHeader(s: ProtocolSchema, i: nat, j: nat) returns (data: seq<byte>)
    requires AlwaysProgresses(s) && UniqueNames(s.fields)
    requires i < |s.fields| && !OrderBuiltIn(s.endian, s.fields[i].ftype)
    requires j < |s.fields| && IsLengthField(s.fields[j], s.framing.lengthField) && i != j
    requires FixedOffset(s.fields, i + 1) <= s.framing.headerLen
    ensures FrontMisread(s, data)
  {
    var p, q := FixedOffset(s.fields, i), FixedOffset(s.fields, j);
    LengthApart(s.fields, i, j);
    NextOffset(s.fields, i);
    data := Zeros(s.framing.headerLen + q + 2)[p := 1];
    BodyLenAt(s, data, j);
    LopsidedInPlace(s, data, i);
  }

  /** The same when the schema has no length field. */
  lemma MisreadWithoutLength(s: ProtocolSchema, i: nat) returns (data: seq<byte>)
    requires AlwaysProgresses(s) && UniqueNames(s.fields) && !HasLength(s)
    requires i < |s.fields| && !OrderBuiltIn(s.endian, s.fields[i].ftype)
    requires FixedOffset(s.fields, i + 1) <= s.framing.headerLen
    ensures FrontMisread(s, data)
  {
    NextOffset(s.fields, i);
    data := Zeros(s.framing.headerLen)[FixedOffset(s.fields, i) := 1];
    ScanWithout(s.fields, s.framing.lengthField, data, 0);
    LopsidedInPlace(s, data, i);
  }

  /** A length field that is itself misread, declaring 65534. */
  lemma MisreadLength(s: ProtocolSchema, i: nat) returns (data: seq<byte>)
    requires AlwaysProgresses(s) && UniqueNames(s.fields)
    requires i < |s.fields| && !OrderBuiltIn(s.endian, s.fields[i].ftype)
    requires IsLengthField(s.fields[i], s.framing.lengthField) && Variables(s.fields, i) == 0
    requires FixedOffset(s.fields, i + 1) <= s.framing.headerLen + 65534
    ensures FrontMisread(s, data)
  {
    var q := FixedOffset(s.fields, i);
    NextOffset(s.fields, i);
    data := Zeros(s.framing.headerLen + 65534 + q + 2)[q := 255][q + 1 := 254];
    BodyLenAt(s, data, i);
    LopsidedInPlace(s, data, i);
  }

  /** Behind variable-length fields the length is scanned at one place and decoded at another; declaring 1
      leaves room for both. */
  lemma MisreadLateLength(s: ProtocolSchema, i: nat) returns (data: seq<byte>)
    requires AlwaysProgresses(s) && UniqueNames(s.fields)
    requires i < |s.fields| && !OrderBuiltIn(s.endian, s.fields[i].ftype)
    requires IsLengthField(s.fields[i], s.framing.lengthField) && Variables(s.fields, i) > 0
    requires FixedOffset(s.fields, i + 1) + Variables(s.fields, i) - 1 <= s.framing.headerLen
    ensures FrontMisread(s, data)
  {
    var q, variables := FixedOffset(s.fields, i), Variables(s.fields, i);
    NextOffset(s.fields, i);
    NextVariables(s.fields, i);
    data := Zeros(s.framing.headerLen + 1 + q + 2)[q + 1 := 1][q + variables := 1];
    BodyLenAt(s, data, i);
    OffsetIs(s.fields, i, 1);
    OffsetIs(s.fields, i + 1, 1);
    LopsidedFieldShows(s, data, i);
  }

  lemma MisorderedStream(s: ProtocolSchema) returns (data: seq<byte>)
    requires AlwaysProgresses(s) && UniqueNames(s.fields) && !StreamOrderSafe(s)
    ensures FrontMisread(s, data)
  {
    var i :| 0 <= i < |s.fields| && CanBeRead(s, i) && !OrderBuiltIn(s.endian, s.fields[i].ftype);
    if IsLengthField(s.fields[i], s.framing.lengthField) {
      if Variables(s.fields, i) == 0 {
        data := MisreadLength(s, i);
      } else {
        data := MisreadLateLength(s, i);
      }
    } else if j :| 0 <= j < |s.fields| && IsLengthField(s.fields[j], s.framing.lengthField) {
      if Variables(s.fields, i) == 0 {
        data := MisreadInBody(s, i, j);
      } else {
        data := MisreadInHeader(s, i, j);
      }
    } else {
      data := MisreadWithoutLength(s, i);
    }
  }

  // Exactly when

  ghost predicate StreamHonoured(s: ProtocolSchema, data: seq<byte>) {
    Progresses(s, data) && DecodeStream(s, data) == DeclaredStream(s, data)
  }

  /** Decoding ends and every message is read in the declared order, on every stream, exactly when lengths
      exclude a non-empty header and each field that some stream lets the decoder read has its built-in
      order: conditions on the schema alone. */
  lemma StreamOrderHonouredWhen(s: ProtocolSchema)
    requires UniqueNames(s.fields)
    ensures (forall data :: StreamHonoured(s, data)) <==> AlwaysProgresses(s) && StreamOrderSafe(s)
  {
    if !AlwaysProgresses(s) {
      TerminatesOnEveryStream(s);
      var data :| !Progresses(s, data);
      assert !StreamHonoured(s, data);
    } else if StreamOrderSafe(s) {
      forall data ensures StreamHonoured(s, data) {
        ProgressHolds(s, data);
        SafeStream(s, data);
        StreamIsFrameByFrame(s, data);
      }
    } else {
      var data := MisorderedStream(s);
      FrontShows(s, data);
      assert !StreamHonoured(s, data);
    }
  }

  lemma FrontShows(s: ProtocolSchema, data: seq<byte>)
    requires AlwaysProgresses(s) && FrontMisread(s, data)
    ensures !StreamHonoured(s, data)
  {
    ProgressHolds(s, data);
    FirstFrame(s, data);
    assert DecodeStream(s, data)[0] != DeclaredStream(s, data)[0];
  }
}
