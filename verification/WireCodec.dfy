/** Encoders for messages and message streams, and the proofs that the decoder inverts them. */
module WireCodec {
  import opened Bytes
  import opened Schema
  import opened FieldCodec
  import opened MessageCodec
  import opened Framing
  import opened FramingTheory

  /** A message on the wire: its declared fields, and the bytes of its frame no field covers. */
  datatype WireMessage = WireMessage(fields: Fields, extra: seq<byte>)

  /** The length field exists, is 16 bits wide and comes before any variable-length field. */
  predicate LengthPlaced(fields: seq<FieldDef>, lengthField: string) {
    && fields != []
    && if fields[0].name == lengthField then fields[0].ftype.U16?
       else !IsVariable(fields[0].ftype) && LengthPlaced(fields[1..], lengthField)
  }

  ghost predicate WellFormed(s: ProtocolSchema) {
    && UsesLengthFraming(s)
    && UniqueNames(s.fields)
    && LengthPlaced(s.fields, s.framing.lengthField)
    && LengthInHeader(s)
  }

  function Encode(s: ProtocolSchema, w: WireMessage): seq<byte>
    requires Covers(s.fields, w.fields)
  {
    EncodeFields(s.fields, w.fields) + w.extra
  }

  lemma {:induction false} LengthIsCovered(fields: seq<FieldDef>, lengthField: string, m: Fields)
    requires LengthPlaced(fields, lengthField) && Covers(fields, m)
    ensures lengthField in m && m[lengthField].UInt16?
  {
    if fields[0].name == lengthField {
    } else {
      LengthIsCovered(fields[1..], lengthField, m);
    }
  }

  /** The value of the message's length field. */
  function DeclaredLen(s: ProtocolSchema, w: WireMessage): u16
    requires LengthPlaced(s.fields, s.framing.lengthField) && Covers(s.fields, w.fields)
  {
    LengthIsCovered(s.fields, s.framing.lengthField, w.fields);
    w.fields[s.framing.lengthField].v16
  }

  /** A message a sender may emit: exactly the schema's fields, each of its type, variable-length fields
      as long as declared, and the whole as long as the framing says. */
  ghost predicate Valid(s: ProtocolSchema, w: WireMessage)
    requires WellFormed(s)
  {
    && Covers(s.fields, w.fields)
    && w.fields.Keys == Names(s.fields)
    && Conforms(s.fields, w.fields, Declared(DeclaredLen(s, w)), w.extra)
    && |Encode(s, w)|
    == (if s.framing.lengthIncludesHeader then DeclaredLen(s, w) else s.framing.headerLen + DeclaredLen(s, w))
    && Encode(s, w) != [] && s.framing.headerLen <= |Encode(s, w)|
  }

  ghost predicate AllValid(s: ProtocolSchema, ms: seq<WireMessage>)
    requires WellFormed(s)
  {
    forall i :: 0 <= i < |ms| ==> Valid(s, ms[i])
  }

  function EncodeAll(s: ProtocolSchema, ms: seq<WireMessage>): seq<byte>
    requires forall i :: 0 <= i < |ms| ==> Covers(s.fields, ms[i].fields)
  {
    if ms == [] then [] else Encode(s, ms[0]) + EncodeAll(s, ms[1..])
  }

  function FieldsOf(ms: seq<WireMessage>): (r: seq<Fields>)
    ensures |r| == |ms| && forall i :: 0 <= i < |ms| ==> r[i] == ms[i].fields
  {
    if ms == [] then [] else [ms[0].fields] + FieldsOf(ms[1..])
  }

  // The length scan finds the encoded length

  lemma {:induction false} ScanWithout(fields: seq<FieldDef>, lengthField: string, data: seq<byte>, found: u16)
    requires forall i :: 0 <= i < |fields| ==> !IsLengthField(fields[i], lengthField)
    ensures ScanLength(fields, lengthField, data, found) == found
  {
    if fields == [] || FieldTypeSize(fields[0].ftype) > |data| {
    } else {
      ScanWithout(fields[1..], lengthField, data[FieldTypeSize(fields[0].ftype)..], found);
    }
  }

  lemma EncodedU16(v: u16)
    ensures ReadU16(EncodeValue(U16, UInt16(v))) == v
  {
    DecodeInvertsEncodeValue(U16, UInt16(v));
  }

  lemma {:induction false} ScanFindsLength(fields: seq<FieldDef>, lengthField: string, m: Fields,
                                           more: seq<byte>, found: u16)
    requires UniqueNames(fields) && LengthPlaced(fields, lengthField) && Covers(fields, m)
    ensures lengthField in m && m[lengthField].UInt16?
    ensures ScanLength(fields, lengthField, EncodeFields(fields, m) + more, found) == m[lengthField].v16
  {
    LengthIsCovered(fields, lengthField, m);
    SplitHead(EncodeValue(fields[0].ftype, m[fields[0].name]), EncodeFields(fields[1..], m), more);
    if fields[0].name == lengthField {
      EncodedU16(m[lengthField].v16);
      ScanWithout(fields[1..], lengthField, EncodeFields(fields[1..], m) + more, m[lengthField].v16);
    } else {
      ScanFindsLength(fields[1..], lengthField, m, more, found);
    }
  }

  /** At the front of a stream a valid message is a frame, and decodes to its own fields. */
  lemma FrontFrame(s: ProtocolSchema, w: WireMessage, more: seq<byte>)
    requires WellFormed(s) && Valid(s, w)
    ensures var data := Encode(s, w) + more;
            && HasFrame(s, data) && FrameLen(s, data) == |Encode(s, w)| && BodyLen(s, data) == DeclaredLen(s, w)
            && DecodeFrame(s, Frame(Encode(s, w), DeclaredLen(s, w))) == w.fields
  {
    FrontLength(s, w, more);
    DecodesBack(s, w);
  }

  lemma FrontLength(s: ProtocolSchema, w: WireMessage, more: seq<byte>)
    requires WellFormed(s) && Covers(s.fields, w.fields)
    ensures BodyLen(s, Encode(s, w) + more) == DeclaredLen(s, w)
  {
    Associate(EncodeFields(s.fields, w.fields), w.extra, more);
    ScanFindsLength(s.fields, s.framing.lengthField, w.fields, w.extra + more, 0);
  }

  lemma DecodesBack(s: ProtocolSchema, w: WireMessage)
    requires WellFormed(s) && Valid(s, w)
    ensures DecodeFrame(s, Frame(Encode(s, w), DeclaredLen(s, w))) == w.fields
  {
    DecodeInvertsEncode(s.fields, w.fields, Declared(DeclaredLen(s, w)), w.extra);
  }

  // Streams of messages

  /** Decoding the concatenated encodings of any messages, followed by any incomplete frame, gives back
      every field of every message, and leaves the incomplete tail. */
  lemma {:induction false} StreamRoundTrip(s: ProtocolSchema, ms: seq<WireMessage>, tail: seq<byte>)
    requires WellFormed(s) && AllValid(s, ms) && !HasFrame(s, tail)
    ensures var data := EncodeAll(s, ms) + tail;
            && Progresses(s, data)
            && DecodeStream(s, data) == FieldsOf(ms)
            && Rest(s, data) == tail
  {
    var data := EncodeAll(s, ms) + tail;
    if ms == [] {
      assert data == tail;
    } else {
      var front, rest := Encode(s, ms[0]), EncodeAll(s, ms[1..]) + tail;
      StreamRoundTrip(s, ms[1..], tail);
      PrependMessage(s, ms[0], rest);
      Associate(front, EncodeAll(s, ms[1..]), tail);
      assert data == front + rest;
    }
  }

  /** A message in front of a stream is decoded first, and leaves the rest as it was. */
  lemma PrependMessage(s: ProtocolSchema, w: WireMessage, rest: seq<byte>)
    requires WellFormed(s) && Valid(s, w) && Progresses(s, rest)
    ensures var data := Encode(s, w) + rest;
            && Progresses(s, data) && Rest(s, data) == Rest(s, rest)
            && DecodeStream(s, data) == [w.fields] + DecodeStream(s, rest)
  {
    var front := Encode(s, w);
    var data := front + rest;
    FrontFrame(s, w, rest);
    assert data[..|front|] == front && data[|front|..] == rest;
    assert Progresses(s, data);
    FirstFrame(s, data);
  }

  /** Part of a message is not a frame. */
  lemma PartialIsIncomplete(s: ProtocolSchema, w: WireMessage, n: nat)
    requires WellFormed(s) && Valid(s, w) && n < |Encode(s, w)|
    ensures !HasFrame(s, Encode(s, w)[..n])
  {
    var part, more := Encode(s, w)[..n], Encode(s, w)[n..];
    if s.framing.headerLen <= n {
      assert part + more == Encode(s, w) + [];
      FrontFrame(s, w, []);
      BodyLenStable(s, part, more);
    }
  }

  /** How many leading messages lie wholly within the first n bytes of the stream. */
  ghost function Complete(s: ProtocolSchema, ms: seq<WireMessage>, n: nat): (k: nat)
    requires forall i :: 0 <= i < |ms| ==> Covers(s.fields, ms[i].fields)
    ensures k <= |ms|
  {
    if ms == [] || n < |Encode(s, ms[0])| then 0 else 1 + Complete(s, ms[1..], n - |Encode(s, ms[0])|)
  }

  /** Cut a message stream anywhere: exactly the messages received in full are decoded. */
  lemma {:induction false} CutStreamDecodes(s: ProtocolSchema, ms: seq<WireMessage>, n: nat)
    requires WellFormed(s) && AllValid(s, ms) && n <= |EncodeAll(s, ms)|
    ensures Progresses(s, EncodeAll(s, ms)[..n])
    ensures DecodeStream(s, EncodeAll(s, ms)[..n]) == FieldsOf(ms[..Complete(s, ms, n)])
  {
    if ms == [] {
      assert EncodeAll(s, ms)[..n] == [];
    } else if n < |Encode(s, ms[0])| {
      CutInsideFirst(s, ms, n);
    } else {
      CutStreamDecodes(s, ms[1..], n - |Encode(s, ms[0])|);
      CutAfterFirst(s, ms, n);
    }
  }

  lemma CutInsideFirst(s: ProtocolSchema, ms: seq<WireMessage>, n: nat)
    requires WellFormed(s) && ms != [] && AllValid(s, ms) && n < |Encode(s, ms[0])|
    ensures n <= |EncodeAll(s, ms)| && Progresses(s, EncodeAll(s, ms)[..n])
    ensures DecodeStream(s, EncodeAll(s, ms)[..n]) == []
  {
    assert EncodeAll(s, ms)[..n] == Encode(s, ms[0])[..n];
    PartialIsIncomplete(s, ms[0], n);
  }

  lemma CutAfterFirst(s: ProtocolSchema, ms: seq<WireMessage>, n: nat)
    requires WellFormed(s) && ms != [] && AllValid(s, ms)
    requires |Encode(s, ms[0])| <= n <= |EncodeAll(s, ms)|
    requires var later, m := EncodeAll(s, ms[1..]), n - |Encode(s, ms[0])|;
             Progresses(s, later[..m]) && DecodeStream(s, later[..m]) == FieldsOf(ms[1..][..Complete(s, ms[1..], m)])
    ensures Progresses(s, EncodeAll(s, ms)[..n])
    ensures DecodeStream(s, EncodeAll(s, ms)[..n]) == FieldsOf(ms[..Complete(s, ms, n)])
  {
    PrependMessage(s, ms[0], EncodeAll(s, ms[1..])[..n - |Encode(s, ms[0])|]);
    BytesBehindFirst(s, ms, n);
    MessagesBehindFirst(s, ms, n);
  }

  lemma BytesBehindFirst(s: ProtocolSchema, ms: seq<WireMessage>, n: nat)
    requires ms != [] && forall i :: 0 <= i < |ms| ==> Covers(s.fields, ms[i].fields)
    requires |Encode(s, ms[0])| <= n <= |EncodeAll(s, ms)|
    ensures EncodeAll(s, ms)[..n] == Encode(s, ms[0]) + EncodeAll(s, ms[1..])[..n - |Encode(s, ms[0])|]
  {
    TakeBehind(Encode(s, ms[0]), EncodeAll(s, ms[1..]), n);
  }

  lemma MessagesBehindFirst(s: ProtocolSchema, ms: seq<WireMessage>, n: nat)
    requires ms != [] && forall i :: 0 <= i < |ms| ==> Covers(s.fields, ms[i].fields)
    requires |Encode(s, ms[0])| <= n
    ensures FieldsOf(ms[..Complete(s, ms, n)])
         == [ms[0].fields] + FieldsOf(ms[1..][..Complete(s, ms[1..], n - |Encode(s, ms[0])|)])
  {
    FieldsOfLeading(ms, Complete(s, ms, n));
  }

  lemma TakeBehind<T>(a: seq<T>, b: seq<T>, n: nat)
    requires |a| <= n <= |a| + |b|
    ensures (a + b)[..n] == a + b[..n - |a|]
  {}

  lemma FieldsOfLeading(ms: seq<WireMessage>, k: nat)
    requires 0 < k <= |ms|
    ensures FieldsOf(ms[..k]) == [ms[0].fields] + FieldsOf(ms[1..][..k - 1])
  {
    assert ms[..k][0] == ms[0] && ms[..k][1..] == ms[1..][..k - 1];
  }

  /** What Complete counts: the k leading messages fit in n bytes, and k + 1 do not. */
  lemma {:induction false} CompleteIsMaximal(s: ProtocolSchema, ms: seq<WireMessage>, n: nat)
    requires forall i :: 0 <= i < |ms| ==> Covers(s.fields, ms[i].fields)
    ensures var k := Complete(s, ms, n);
            && |EncodeAll(s, ms[..k])| <= n
            && (k < |ms| ==> n < |EncodeAll(s, ms[..k + 1])|)
  {
    if ms == [] {
    } else {
      var k := Complete(s, ms, n);
      if k == 0 {
        EncodeLeading(s, ms, 1);
      } else {
        CompleteIsMaximal(s, ms[1..], n - |Encode(s, ms[0])|);
        EncodeLeading(s, ms, k);
        if k < |ms| {
          EncodeLeading(s, ms, k + 1);
        }
      }
    }
  }

  lemma EncodeLeading(s: ProtocolSchema, ms: seq<WireMessage>, k: nat)
    requires forall i :: 0 <= i < |ms| ==> Covers(s.fields, ms[i].fields)
    requires 0 < k <= |ms|
    ensures EncodeAll(s, ms[..k]) == Encode(s, ms[0]) + EncodeAll(s, ms[1..][..k - 1])
  {
    assert ms[..k][0] == ms[0] && ms[..k][1..] == ms[1..][..k - 1];
  }

  lemma {:induction false} AllComplete(s: ProtocolSchema, ms: seq<WireMessage>)
    requires forall i :: 0 <= i < |ms| ==> Covers(s.fields, ms[i].fields)
    ensures Complete(s, ms, |EncodeAll(s, ms)|) == |ms|
  {
    if ms == [] {
    } else {
      AllComplete(s, ms[1..]);
    }
  }

  // Datagrams

  /** Decoding a datagram gives back the message it was encoded from. */
  lemma DatagramRoundTrip(s: ProtocolSchema, w: WireMessage)
    requires s.transport == "udp" && Covers(s.fields, w.fields) && w.fields.Keys == Names(s.fields)
    requires Conforms(s.fields, w.fields, Remainder, w.extra) && Encode(s, w) != []
    ensures DecodeAll(s, Encode(s, w)) == [w.fields]
  {
    DecodeInvertsEncode(s.fields, w.fields, Remainder, w.extra);
    assert "udp"[0] != "tcp"[0];
    assert DecodeFields(s.fields, Encode(s, w), Remainder) == w.fields;
  }

  /** Any non-empty datagram is one message: the longest schema prefix that fits, each value read right
      after the earlier ones. */
  lemma DatagramIsOneMessage(s: ProtocolSchema, data: seq<byte>)
    requires s.transport == "udp" && UniqueNames(s.fields)
    ensures Terminates(s, data) && |DecodeAll(s, data)| == if data == [] then 0 else 1
    ensures data != [] ==>
              var m, k := DecodeAll(s, data)[0], FitCount(s.fields, |data|, Remainder);
              && m.Keys == FirstNames(s.fields, k)
              && (forall i :: 0 <= i < k ==>
                    s.fields[i].name in m
                    && m[s.fields[i].name] == DecodeValue(s.fields[i].ftype, FieldBytes(s.fields, data, i, Remainder)))
              && (k < |s.fields| ==>
                    var rest := Skip(s.fields, data, k, Remainder);
                    FieldExtent(s.fields[k].ftype, Remainder, |rest|) > |rest|)
  {
    assert "udp"[0] != "tcp"[0];
    var k := FitCount(s.fields, |data|, Remainder);
    DecodesLongestFittingPrefix(s.fields, data, Remainder);
    forall i | 0 <= i < k
      ensures s.fields[i].name in DecodeFields(s.fields, data, Remainder)
      ensures DecodeFields(s.fields, data, Remainder)[s.fields[i].name]
           == DecodeValue(s.fields[i].ftype, FieldBytes(s.fields, data, i, Remainder))
    {
      DecodedValueAt(s.fields, data, Remainder, i);
    }
    if k < |s.fields| {
      NextDoesNotFit(s.fields, data, Remainder);
    }
  }

  /** Each message of a stream is decoded from its own frame: the longest schema prefix that fits, each
      value read right after the earlier ones, a variable-length field taking the declared length. */
  lemma StreamMessages(s: ProtocolSchema, data: seq<byte>, i: nat)
    requires Progresses(s, data) && UniqueNames(s.fields) && i < |Frames(s, data)|
    ensures |DecodeStream(s, data)| == |Frames(s, data)|
    ensures var m, frame := DecodeStream(s, data)[i], Frames(s, data)[i];
            var ext := Declared(frame.bodyLen);
            var k := FitCount(s.fields, |frame.bytes|, ext);
            && m.Keys == FirstNames(s.fields, k)
            && (forall j :: 0 <= j < k ==>
                  s.fields[j].name in m
                  && m[s.fields[j].name] == DecodeValue(s.fields[j].ftype, FieldBytes(s.fields, frame.bytes, j, ext)))
            && (k < |s.fields| ==>
                  var rest := Skip(s.fields, frame.bytes, k, ext);
                  FieldExtent(s.fields[k].ftype, ext, |rest|) > |rest|)
  {
    var frame := Frames(s, data)[i];
    var ext := Declared(frame.bodyLen);
    var k := FitCount(s.fields, |frame.bytes|, ext);
    StreamIsFrameByFrame(s, data);
    DecodesLongestFittingPrefix(s.fields, frame.bytes, ext);
    forall j | 0 <= j < k
      ensures s.fields[j].name in DecodeFields(s.fields, frame.bytes, ext)
      ensures DecodeFields(s.fields, frame.bytes, ext)[s.fields[j].name]
           == DecodeValue(s.fields[j].ftype, FieldBytes(s.fields, frame.bytes, j, ext))
    {
      DecodedValueAt(s.fields, frame.bytes, ext, j);
    }
    if k < |s.fields| {
      NextDoesNotFit(s.fields, frame.bytes, ext);
    }
  }

  /** Transport and framing decide: length-prefixed messages, one datagram, or nothing at all. */
  lemma TransportDecides(s: ProtocolSchema, data: seq<byte>)
    requires Terminates(s, data)
    ensures s.transport == "tcp" && s.framing.ftype == LENGTH_FIELD ==>
              Progresses(s, data) && DecodeAll(s, data) == DecodeStream(s, data)
    ensures s.transport == "udp" ==> |DecodeAll(s, data)| == if data == [] then 0 else 1
    ensures s.transport != "udp" && (s.transport != "tcp" || s.framing.ftype == DATAGRAM) ==>
              DecodeAll(s, data) == []
  {
    assert "udp"[0] != "tcp"[0];
  }

  // The stream branch and the datagram branch

  /** At most one variable-length field, and it comes last. */
  predicate TrailingVariable(fields: seq<FieldDef>) {
    fields == [] || |fields| == 1 || (!IsVariable(fields[0].ftype) && TrailingVariable(fields[1..]))
  }

  function FixedTotal(fields: seq<FieldDef>): nat {
    if fields == [] then 0 else FieldTypeSize(fields[0].ftype) + FixedTotal(fields[1..])
  }

  predicate HasVariable(fields: seq<FieldDef>) {
    exists f :: f in fields && IsVariable(f.ftype)
  }

  /** Without variable-length fields an encoding has the layout's fixed size. */
  lemma {:induction false} FixedLayout(fields: seq<FieldDef>, m: Fields, ext: Extent, extra: seq<byte>)
    requires Covers(fields, m) && !HasVariable(fields)
    ensures Conforms(fields, m, ext, extra) && |EncodeFields(fields, m)| == FixedTotal(fields)
  {
    if fields == [] {
    } else {
      assert fields[0] in fields;
      assert forall f :: f in fields[1..] ==> f in fields;
      FixedLayout(fields[1..], m, ext, extra);
    }
  }

  lemma {:induction false} ExtentsAgree(fields: seq<FieldDef>, frame: seq<byte>, n: nat)
    requires TrailingVariable(fields) && (HasVariable(fields) ==> |frame| == FixedTotal(fields) + n)
    ensures DecodeFields(fields, frame, Declared(n)) == DecodeFields(fields, frame, Remainder)
  {
    if fields == [] {
    } else if IsVariable(fields[0].ftype) {
      assert fields[0] in fields && |fields| == 1;
      assert FixedTotal(fields) == FixedTotal(fields[1..]) == 0;
    } else if FieldTypeSize(fields[0].ftype) <= |frame| {
      assert HasVariable(fields[1..]) ==> HasVariable(fields);
      ExtentsAgree(fields[1..], frame[FieldTypeSize(fields[0].ftype)..], n);
    }
  }

  /** The duplicated decoding branches agree: the stream branch gives, frame by frame, what the datagram
      branch gives for the frame's bytes. */
  lemma BranchesAgree(s: ProtocolSchema, data: seq<byte>)
    requires UsesLengthFraming(s) && AlwaysProgresses(s)
    requires TrailingVariable(s.fields) && (HasVariable(s.fields) ==> FixedTotal(s.fields) == s.framing.headerLen)
    ensures Progresses(s, data) && |DecodeAll(s, data)| == |Frames(s, data)|
    ensures forall i :: 0 <= i < |Frames(s, data)| ==>
              DecodeAll(s.(transport := "udp"), Frames(s, data)[i].bytes) == [DecodeAll(s, data)[i]]
  {
    assert "udp"[0] != "tcp"[0];
    ProgressHolds(s, data);
    FrameSizes(s, data);
    StreamIsFrameByFrame(s, data);
    forall i | 0 <= i < |Frames(s, data)|
      ensures DecodeAll(s.(transport := "udp"), Frames(s, data)[i].bytes) == [DecodeAll(s, data)[i]]
    {
      var f := Frames(s, data)[i];
      assert f in Frames(s, data);
      ExtentsAgree(s.fields, f.bytes, f.bodyLen);
    }
  }
}
