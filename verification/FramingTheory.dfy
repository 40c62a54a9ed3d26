/** Where frames lie in a stream, when splitting ends, and when it can resume on a longer stream. */
module FramingTheory {
  import opened Bytes
  import opened Schema
  import opened Framing

  // Frames tile the stream

  function Concat(frames: seq<Frame>): seq<byte> {
    if frames == [] then [] else frames[0].bytes + Concat(frames[1..])
  }

  function BodyTotal(frames: seq<Frame>): nat {
    if frames == [] then 0 else frames[0].bodyLen + BodyTotal(frames[1..])
  }

  /** The header or the declared frame does not fit. */
  predicate TooShort(s: ProtocolSchema, data: seq<byte>) {
    || data == []
    || |data| < s.framing.headerLen
    || |data| < BodyLen(s, data) as int + if s.framing.lengthIncludesHeader then 0 else s.framing.headerLen
  }

  /** Frames and remainder are the stream itself, without gap or overlap, and the remainder is maximal. */
  lemma {:induction false} FramesTile(s: ProtocolSchema, data: seq<byte>)
    requires Progresses(s, data)
    ensures Concat(Frames(s, data)) + Rest(s, data) == data
    ensures !HasFrame(s, Rest(s, data)) && Progresses(s, Rest(s, data))
    ensures TooShort(s, Rest(s, data))
    decreases |data|
  {
    if !HasFrame(s, data) {
    } else {
      var n := FrameLen(s, data);
      FramesTile(s, data[n..]);
      FirstFrame(s, data);
      ConcatFirst(Frame(data[..n], BodyLen(s, data)), Frames(s, data[n..]), Rest(s, data[n..]), data, n);
    }
  }

  lemma ConcatFirst(f: Frame, frames: seq<Frame>, rest: seq<byte>, data: seq<byte>, n: nat)
    requires n <= |data| && f.bytes == data[..n] && Concat(frames) + rest == data[n..]
    ensures Concat([f] + frames) + rest == data
  {
    assert ([f] + frames)[1..] == frames;
    assert data == data[..n] + (Concat(frames) + rest);
  }

  lemma FirstFrame(s: ProtocolSchema, data: seq<byte>)
    requires Progresses(s, data) && HasFrame(s, data)
    ensures var n := FrameLen(s, data);
            var f := Frame(data[..n], BodyLen(s, data));
            && Frames(s, data) == [f] + Frames(s, data[n..])
            && Rest(s, data) == Rest(s, data[n..])
            && DecodeStream(s, data) == [DecodeFrame(s, f)] + DecodeStream(s, data[n..])
            && Frames(s, data)[0] == f && Frames(s, data)[1..] == Frames(s, data[n..])
  {}

  /** A frame is as long as it declares, not counting the header or counting it, as configured. */
  lemma {:induction false} FrameSizes(s: ProtocolSchema, data: seq<byte>)
    requires Progresses(s, data)
    ensures forall f :: f in Frames(s, data) ==> f.bytes != []
    ensures !s.framing.lengthIncludesHeader ==>
              forall f :: f in Frames(s, data) ==> |f.bytes| == s.framing.headerLen + f.bodyLen
    ensures s.framing.lengthIncludesHeader ==> forall f :: f in Frames(s, data) ==> |f.bytes| == f.bodyLen
    decreases |data|
  {
    if !HasFrame(s, data) {
    } else {
      FrameSizes(s, data[FrameLen(s, data)..]);
    }
  }

  /** One message per frame, in order. */
  lemma {:induction false} StreamIsFrameByFrame(s: ProtocolSchema, data: seq<byte>)
    requires Progresses(s, data)
    ensures |DecodeStream(s, data)| == |Frames(s, data)|
    ensures forall i :: 0 <= i < |Frames(s, data)| ==>
              DecodeStream(s, data)[i] == DecodeFrame(s, Frames(s, data)[i])
    decreases |data|
  {
    if !HasFrame(s, data) {
    } else {
      StreamIsFrameByFrame(s, data[FrameLen(s, data)..]);
    }
  }

  lemma {:induction false} ConcatLength(framing: FramingConfig, frames: seq<Frame>)
    requires forall f :: f in frames ==>
               |f.bytes| == if framing.lengthIncludesHeader then f.bodyLen else framing.headerLen + f.bodyLen
    ensures |Concat(frames)|
         == BodyTotal(frames) + if framing.lengthIncludesHeader then 0 else |frames| * framing.headerLen
  {
    if frames == [] {
    } else {
      ConcatLength(framing, frames[1..]);
      assert Concat(frames) == frames[0].bytes + Concat(frames[1..]);
      OneMore(|frames| - 1, framing.headerLen);
    }
  }

  lemma OneMore(n: nat, h: nat)
    ensures (n + 1) * h == n * h + h
  {}

  /** Consumed bytes are the declared lengths, plus one header per message when lengths exclude it. */
  lemma LengthAccounting(s: ProtocolSchema, data: seq<byte>)
    requires Progresses(s, data)
    ensures s.framing.lengthIncludesHeader ==> |data| - |Rest(s, data)| == BodyTotal(Frames(s, data))
    ensures !s.framing.lengthIncludesHeader ==>
              && |data| - |Rest(s, data)|
              == |DecodeStream(s, data)| * s.framing.headerLen + BodyTotal(Frames(s, data))
              && |DecodeStream(s, data)| * s.framing.headerLen <= |data|
  {
    FramesTile(s, data);
    FrameSizes(s, data);
    StreamIsFrameByFrame(s, data);
    ConcatLength(s.framing, Frames(s, data));
    assert |data| == |Concat(Frames(s, data))| + |Rest(s, data)|;
  }

  // Termination

  function Zeros(n: nat): (z: seq<byte>)
    ensures |z| == n && forall i :: 0 <= i < n ==> z[i] == 0
  {
    seq(n, i => 0)
  }

  lemma ReadZero(bs: seq<byte>)
    requires |bs| == 2 && bs[0] == 0 && bs[1] == 0
    ensures ReadU16(bs) == 0
  {
    NtohsOfLoad(bs);
    LittleEndian2(bs);
  }

  /** Every length field in an all-zero buffer reads as zero. */
  lemma {:induction false} ScanZeros(fields: seq<FieldDef>, lengthField: string, data: seq<byte>)
    requires forall i :: 0 <= i < |data| ==> data[i] == 0
    ensures ScanLength(fields, lengthField, data, 0) == 0
  {
    if fields == [] || FieldTypeSize(fields[0].ftype) > |data| {
    } else {
      if IsLengthField(fields[0], lengthField) {
        ReadZero(data[..2]);
      }
      ScanZeros(fields[1..], lengthField, data[FieldTypeSize(fields[0].ftype)..]);
    }
  }

  /** Lengths that exclude a non-empty header. */
  predicate AlwaysProgresses(s: ProtocolSchema) {
    s.framing.headerLen >= 1 && !s.framing.lengthIncludesHeader
  }

  lemma {:induction false} ProgressHolds(s: ProtocolSchema, data: seq<byte>)
    requires AlwaysProgresses(s)
    ensures Progresses(s, data)
    decreases |data|
  {
    if !HasFrame(s, data) {
    } else {
      ProgressHolds(s, data[FrameLen(s, data)..]);
    }
  }

  /** Decoding ends on every stream exactly for the schemas whose lengths exclude a non-empty header. */
  lemma TerminatesOnEveryStream(s: ProtocolSchema)
    ensures (forall data :: Progresses(s, data)) <==> AlwaysProgresses(s)
  {
    if AlwaysProgresses(s) {
      forall data ensures Progresses(s, data) {
        ProgressHolds(s, data);
      }
    } else {
      var data := Zeros(s.framing.headerLen + 1);
      ScanZeros(s.fields, s.framing.lengthField, data);
      assert !Progresses(s, data);
    }
  }

  // Resuming on a longer stream

  /** Every length field lies within the first room bytes of the fixed layout. */
  predicate LengthWithin(fields: seq<FieldDef>, lengthField: string, room: int) {
    fields != [] ==>
      && (IsLengthField(fields[0], lengthField) ==> 2 <= room)
      && LengthWithin(fields[1..], lengthField, room - FieldTypeSize(fields[0].ftype))
  }

  /** Every length field lies in the header. */
  predicate LengthInHeader(s: ProtocolSchema) {
    LengthWithin(s.fields, s.framing.lengthField, s.framing.headerLen)
  }

  /** Without a length field in range, scanning keeps what it found. */
  lemma {:induction false} ScanPastRoom(fields: seq<FieldDef>, lengthField: string, data: seq<byte>,
                                        found: u16, room: int)
    requires LengthWithin(fields, lengthField, room) && room < 2
    ensures ScanLength(fields, lengthField, data, found) == found
  {
    if fields == [] || FieldTypeSize(fields[0].ftype) > |data| {
    } else {
      var n := FieldTypeSize(fields[0].ftype);
      ScanPastRoom(fields[1..], lengthField, data[n..], found, room - n);
    }
  }

  /** Bytes after the header do not change the length read. */
  lemma {:induction false} ScanStable(fields: seq<FieldDef>, lengthField: string, data: seq<byte>,
                                      more: seq<byte>, found: u16, room: int)
    requires LengthWithin(fields, lengthField, room) && room <= |data|
    ensures ScanLength(fields, lengthField, data + more, found) == ScanLength(fields, lengthField, data, found)
  {
    if fields == [] {
    } else {
      var n := FieldTypeSize(fields[0].ftype);
      if n <= |data| {
        assert (data + more)[n..] == data[n..] + more;
        assert n >= 2 ==> (data + more)[..2] == data[..2];
        var seen := if IsLengthField(fields[0], lengthField) then ReadU16(data[..2]) else found;
        ScanStable(fields[1..], lengthField, data[n..], more, seen, room - n);
      } else {
        ScanPastRoom(fields[1..], lengthField, (data + more)[if n <= |data + more| then n else 0..], found, room - n);
      }
    }
  }

  lemma BodyLenStable(s: ProtocolSchema, data: seq<byte>, more: seq<byte>)
    requires LengthInHeader(s) && s.framing.headerLen <= |data|
    ensures BodyLen(s, data + more) == BodyLen(s, data)
  {
    ScanStable(s.fields, s.framing.lengthField, data, more, 0, s.framing.headerLen);
  }

  /** A frame's declared length is read from the frame itself, when it holds its own header. */
  lemma {:induction false} FramesAreSelfContained(s: ProtocolSchema, data: seq<byte>)
    requires Progresses(s, data) && LengthInHeader(s)
    ensures forall f :: f in Frames(s, data) && s.framing.headerLen <= |f.bytes| ==>
              BodyLen(s, f.bytes) == f.bodyLen
    decreases |data|
  {
    if !HasFrame(s, data) {
    } else {
      var n := FrameLen(s, data);
      FramesAreSelfContained(s, data[n..]);
      if s.framing.headerLen <= n {
        assert data == data[..n] + data[n..];
        BodyLenStable(s, data[..n], data[n..]);
      }
    }
  }

  /** Splitting a and later, once b has arrived, what was left of it, ends and gives the frames of the
      whole. */
  ghost predicate ResumesAt(s: ProtocolSchema, a: seq<byte>, b: seq<byte>) {
    && Progresses(s, a) && Progresses(s, a + b) && Progresses(s, Rest(s, a) + b)
    && Frames(s, a + b) == Frames(s, a) + Frames(s, Rest(s, a) + b)
  }

  /** A half-received frame is never misread, and complete frames never change when more bytes arrive. */
  lemma {:induction false} DecodingResumes(s: ProtocolSchema, a: seq<byte>, b: seq<byte>)
    requires LengthInHeader(s) && Progresses(s, a + b)
    ensures Progresses(s, a) && Progresses(s, Rest(s, a) + b)
    ensures Frames(s, a + b) == Frames(s, a) + Frames(s, Rest(s, a) + b)
    ensures DecodeStream(s, a + b) == DecodeStream(s, a) + DecodeStream(s, Rest(s, a) + b)
    ensures Rest(s, a + b) == Rest(s, Rest(s, a) + b)
    decreases |a|
  {
    if !HasFrame(s, a) {
    } else {
      var n := FrameLen(s, a);
      BodyLenStable(s, a, b);
      assert (a + b)[..n] == a[..n] && (a + b)[n..] == a[n..] + b;
      DecodingResumes(s, a[n..], b);
      FirstFrame(s, a);
      FirstFrame(s, a + b);
      var f := Frame(a[..n], BodyLen(s, a));
      var next := Rest(s, a) + b;
      Associate([f], Frames(s, a[n..]), Frames(s, next));
      Associate([DecodeFrame(s, f)], DecodeStream(s, a[n..]), DecodeStream(s, next));
    }
  }

  lemma Associate<T>(a: seq<T>, b: seq<T>, c: seq<T>)
    ensures a + (b + c) == (a + b) + c
  {}

  // Exactly when decoding resumes

  /** A stream whose declared length depends on how much of it has arrived: cut at room bytes it reads
      as 0, in full as 65535. */
  lemma {:induction false} LateLength(fields: seq<FieldDef>, lengthField: string, room: int, found: u16)
    returns (o: nat)
    requires !LengthWithin(fields, lengthField, room)
    ensures room < o + 2
    ensures ScanLength(fields, lengthField, Zeros(o) + [255, 255], found) == 65535
    ensures room >= 0 ==> ScanLength(fields, lengthField, (Zeros(o) + [255, 255])[..room], 0) == 0
  {
    if IsLengthField(fields[0], lengthField) && room < 2 {
      o := 0;
      ReadsMax(fields, lengthField, found);
      assert Zeros(0) + [255, 255] == [255, 255];
    } else {
      var seen := if IsLengthField(fields[0], lengthField) then 0 else found;
      var n := FieldTypeSize(fields[0].ftype);
      var p := LateLength(fields[1..], lengthField, room - n, seen);
      o := n + p;
      LateLengthStep(fields, lengthField, room, found, p);
    }
  }

  lemma LateLengthStep(fields: seq<FieldDef>, lengthField: string, room: int, found: u16, p: nat)
    requires fields != [] && (IsLengthField(fields[0], lengthField) ==> 2 <= room)
    requires room < FieldTypeSize(fields[0].ftype) + p + 2
    requires var d := Zeros(p) + [255, 255];
             var left := room - FieldTypeSize(fields[0].ftype);
             var seen := if IsLengthField(fields[0], lengthField) then 0 else found;
             && ScanLength(fields[1..], lengthField, d, seen) == 65535
             && (left >= 0 ==> ScanLength(fields[1..], lengthField, d[..left], 0) == 0)
    ensures var d := Zeros(FieldTypeSize(fields[0].ftype) + p) + [255, 255];
            && ScanLength(fields, lengthField, d, found) == 65535
            && (room >= 0 ==> ScanLength(fields, lengthField, d[..room], 0) == 0)
  {
    var n := FieldTypeSize(fields[0].ftype);
    var d, e := Zeros(n + p) + [255, 255], Zeros(p) + [255, 255];
    assert d[n..] == e;
    ScanZeroHead(fields, lengthField, d, found);
    if n <= room {
      DropOfTake(d, n, room);
      ScanZeroHead(fields, lengthField, d[..room], 0);
    }
  }

  /** A first field made of zeros contributes a zero length, or nothing. */
  lemma ScanZeroHead(fields: seq<FieldDef>, lengthField: string, d: seq<byte>, found: u16)
    requires fields != [] && FieldTypeSize(fields[0].ftype) <= |d|
    requires forall i :: 0 <= i < FieldTypeSize(fields[0].ftype) ==> d[i] == 0
    ensures ScanLength(fields, lengthField, d, found)
         == ScanLength(fields[1..], lengthField, d[FieldTypeSize(fields[0].ftype)..],
                       if IsLengthField(fields[0], lengthField) then 0 else found)
  {
    if IsLengthField(fields[0], lengthField) {
      ReadZero(d[..2]);
    }
  }

  lemma DropOfTake<T>(s: seq<T>, a: nat, b: nat)
    requires a <= b <= |s|
    ensures s[..b][a..] == s[a..][..b - a]
  {}

  lemma ReadsMax(fields: seq<FieldDef>, lengthField: string, found: u16)
    requires fields != [] && IsLengthField(fields[0], lengthField)
    ensures ScanLength(fields, lengthField, [255, 255], found) == 65535
  {
    var d: seq<byte> := [255, 255];
    assert d[..2] == d && d[2..] == [];
    NtohsOfLoad(d);
    LittleEndian2(d);
    ScanNothing(fields[1..], lengthField, 65535);
  }

  lemma {:induction false} ScanNothing(fields: seq<FieldDef>, lengthField: string, found: u16)
    ensures ScanLength(fields, lengthField, [], found) == found
  {
    if fields == [] {
    } else {
      ScanNothing(fields[1..], lengthField, found);
    }
  }

  /** Half-received frames are handled correctly on every stream and every cut exactly when lengths exclude a
      non-empty header and each length field lies inside it: conditions on the schema alone. */
  lemma ResumesExactlyWhen(s: ProtocolSchema)
    ensures (forall a, b :: ResumesAt(s, a, b)) <==> AlwaysProgresses(s) && LengthInHeader(s)
  {
    if !AlwaysProgresses(s) {
      TerminatesOnEveryStream(s);
      var data :| !Progresses(s, data);
      assert !ResumesAt(s, data, []);
    } else if LengthInHeader(s) {
      forall a, b ensures ResumesAt(s, a, b) {
        ProgressHolds(s, a + b);
        DecodingResumes(s, a, b);
      }
    } else {
      var a, b := MisreadStream(s);
      assert !ResumesAt(s, a, b);
    }
  }

  /** A stream and a cut that mislead the splitter when a length field lies outside the header. */
  lemma MisreadStream(s: ProtocolSchema) returns (a: seq<byte>, b: seq<byte>)
    requires AlwaysProgresses(s) && !LengthInHeader(s)
    ensures !ResumesAt(s, a, b)
  {
    var h := s.framing.headerLen;
    var o := LateLength(s.fields, s.framing.lengthField, h, 0);
    var d := Zeros(o) + [255, 255];
    a, b := d[..h], d[h..];
    assert a + b == d;
    Misread(s, a, b);
  }

  lemma Misread(s: ProtocolSchema, a: seq<byte>, b: seq<byte>)
    requires AlwaysProgresses(s) && |a| == s.framing.headerLen
    requires BodyLen(s, a) == 0 && BodyLen(s, a + b) == 65535
    ensures !ResumesAt(s, a, b)
  {
    ProgressHolds(s, a);
    ProgressHolds(s, a + b);
    ProgressHolds(s, Rest(s, a) + b);
    assert |Frames(s, a)[0].bytes| == s.framing.headerLen;
    if HasFrame(s, a + b) {
      assert |Frames(s, a + b)[0].bytes| == s.framing.headerLen + 65535;
    }
  }
}
