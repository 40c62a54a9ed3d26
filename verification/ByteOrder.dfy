/** The byte order a schema declares, and when decoding honours it. */
module ByteOrder {
  import opened Bytes
  import opened Schema
  import opened FieldCodec
  import opened MessageCodec
  import opened Framing
  import opened FramingTheory

  // One field

  /** The declaration is the built-in one for the type's width, or cannot matter. */
  predicate OrderBuiltIn(endian: string, t: FieldType) {
    IsVariable(t) || FieldTypeSize(t) == 1 || (endian == "little" <==> FieldTypeSize(t) == 8)
  }

  /** Bytes that read differently both ways. */
  function Lopsided(n: nat): (bs: seq<byte>)
    requires n > 0
    ensures |bs| == n && (n > 1 ==> bs != Reversed(bs))
  {
    var bs := [1] + Zeros(n - 1);
    assert n > 1 ==> bs[0] != Reversed(bs)[0];
    bs
  }

  /** A field type is read in the declared order whatever its bytes are exactly when the declaration is the
      built-in one for its width. */
  lemma FieldOrderHonouredWhen(endian: string, t: FieldType)
    ensures (forall bs: seq<byte> :: IsVariable(t) || |bs| == FieldTypeSize(t) ==>
                DecodeValue(t, bs) == DeclaredValue(endian, t, bs))
       <==> OrderBuiltIn(endian, t)
  {
    if OrderBuiltIn(endian, t) {
      forall bs: seq<byte> | IsVariable(t) || |bs| == FieldTypeSize(t)
        ensures DecodeValue(t, bs) == DeclaredValue(endian, t, bs)
      {
        BuiltInHonoured(endian, t, bs);
      }
    } else {
      DeclaredOrderHonoured(endian, t, Lopsided(FieldTypeSize(t)));
    }
  }

  lemma BuiltInHonoured(endian: string, t: FieldType, bs: seq<byte>)
    requires OrderBuiltIn(endian, t) && (IsVariable(t) || |bs| == FieldTypeSize(t))
    ensures DecodeValue(t, bs) == DeclaredValue(endian, t, bs)
  {
    DeclaredOrderHonoured(endian, t, bs);
    if |bs| == 1 {
      assert bs == Reversed(bs);
    }
  }

  // One message

  /** The message the schema language promises: the same layout, each value in the declared order. */
  function DeclaredFields(endian: string, fields: seq<FieldDef>, frame: seq<byte>, ext: Extent): Fields {
    if fields == [] then map[] else
    var n := FieldExtent(fields[0].ftype, ext, |frame|);
    if n > |frame| then map[] else
    map[fields[0].name := DeclaredValue(endian, fields[0].ftype, frame[..n])]
      + DeclaredFields(endian, fields[1..], frame[n..], ext)
  }

  /** Every field that can ever be decoded has its built-in order. Behind a field that takes all that is
      left, no field with a byte order is. */
  predicate OrderSafe(endian: string, fields: seq<FieldDef>, ext: Extent) {
    fields != [] ==>
      if IsVariable(fields[0].ftype) && ext.Remainder? then true
      else OrderBuiltIn(endian, fields[0].ftype) && OrderSafe(endian, fields[1..], ext)
  }

  lemma {:induction false} NothingLeft(endian: string, fields: seq<FieldDef>, ext: Extent)
    ensures DecodeFields(fields, [], ext) == DeclaredFields(endian, fields, [], ext)
  {
    if fields == [] || FieldExtent(fields[0].ftype, ext, 0) > 0 {
    } else {
      NothingLeft(endian, fields[1..], ext);
    }
  }

  lemma {:induction false} SafeOrderHonoured(endian: string, fields: seq<FieldDef>, frame: seq<byte>, ext: Extent)
    requires OrderSafe(endian, fields, ext)
    ensures DecodeFields(fields, frame, ext) == DeclaredFields(endian, fields, frame, ext)
  {
    if fields == [] || FieldExtent(fields[0].ftype, ext, |frame|) > |frame| {
    } else {
      var n := FieldExtent(fields[0].ftype, ext, |frame|);
      if IsVariable(fields[0].ftype) && ext.Remainder? {
        assert frame[n..] == [];
        NothingLeft(endian, fields[1..], ext);
      } else {
        BuiltInHonoured(endian, fields[0].ftype, frame[..n]);
        SafeOrderHonoured(endian, fields[1..], frame[n..], ext);
      }
    }
  }

  /** What one field adds is still there in the whole message. */
  lemma HeadShows(fields: seq<FieldDef>, frame: seq<byte>, ext: Extent, n: nat, endian: string)
    requires fields != [] && UniqueNames(fields) && n == FieldExtent(fields[0].ftype, ext, |frame|) <= |frame|
    ensures DecodeFields(fields, frame, ext) == DeclaredFields(endian, fields, frame, ext) ==>
              && DecodeValue(fields[0].ftype, frame[..n]) == DeclaredValue(endian, fields[0].ftype, frame[..n])
              && DecodeFields(fields[1..], frame[n..], ext) == DeclaredFields(endian, fields[1..], frame[n..], ext)
  {
    var name, tail := fields[0].name, DecodeFields(fields[1..], frame[n..], ext);
    var declared := DeclaredFields(endian, fields[1..], frame[n..], ext);
    NameIsNew(fields, frame[n..], ext);
    SameKeys(endian, fields[1..], frame[n..], ext);
    PrependApart(name, DecodeValue(fields[0].ftype, frame[..n]), tail,
                 DeclaredValue(endian, fields[0].ftype, frame[..n]), declared);
  }

  lemma NameIsNew(fields: seq<FieldDef>, frame: seq<byte>, ext: Extent)
    requires fields != [] && UniqueNames(fields)
    ensures fields[0].name !in DecodeFields(fields[1..], frame, ext)
  {
    DecodesLongestFittingPrefix(fields[1..], frame, ext);
    FirstNamesMeaning(fields[1..], FitCount(fields[1..], |frame|, ext), fields[0].name);
  }

  lemma {:induction false} SameKeys(endian: string, fields: seq<FieldDef>, frame: seq<byte>, ext: Extent)
    ensures DeclaredFields(endian, fields, frame, ext).Keys == DecodeFields(fields, frame, ext).Keys
  {
    if fields == [] || FieldExtent(fields[0].ftype, ext, |frame|) > |frame| {
    } else {
      var n := FieldExtent(fields[0].ftype, ext, |frame|);
      SameKeys(endian, fields[1..], frame[n..], ext);
      DecodeHead(fields, frame, ext, n);
    }
  }

  lemma PrependApart(name: string, v: FieldValue, m: Fields, v': FieldValue, m': Fields)
    requires name !in m && name !in m'
    ensures map[name := v] + m == map[name := v'] + m' ==> v == v' && m == m'
  {
    var a, b := map[name := v] + m, map[name := v'] + m';
    if a == b {
      assert a[name] == v && b[name] == v';
      assert m == a - {name} && m' == b - {name};
    }
  }

  /** A message that the declared order would read differently. */
  lemma {:induction false} Misordered(endian: string, fields: seq<FieldDef>, ext: Extent) returns (frame: seq<byte>)
    requires UniqueNames(fields) && !OrderSafe(endian, fields, ext)
    ensures DecodeFields(fields, frame, ext) != DeclaredFields(endian, fields, frame, ext)
  {
    var t := fields[0].ftype;
    if !OrderBuiltIn(endian, t) {
      frame := Lopsided(FieldTypeSize(t));
      DeclaredOrderHonoured(endian, t, frame);
      assert frame[..|frame|] == frame;
      HeadShows(fields, frame, ext, |frame|, endian);
    } else {
      var n := FieldExtent(t, ext, 0);
      var rest := Misordered(endian, fields[1..], ext);
      frame := Zeros(n) + rest;
      assert frame[n..] == rest;
      HeadShows(fields, frame, ext, n, endian);
    }
  }

  /** Every message is read in the declared order exactly when every field that can ever be decoded has its
      built-in order: a condition on the schema alone. */
  lemma MessageOrderHonouredWhen(endian: string, fields: seq<FieldDef>, ext: Extent)
    requires UniqueNames(fields)
    ensures (forall frame :: DecodeFields(fields, frame, ext) == DeclaredFields(endian, fields, frame, ext))
       <==> OrderSafe(endian, fields, ext)
  {
    if OrderSafe(endian, fields, ext) {
      forall frame ensures DecodeFields(fields, frame, ext) == DeclaredFields(endian, fields, frame, ext) {
        SafeOrderHonoured(endian, fields, frame, ext);
      }
    } else {
      var frame := Misordered(endian, fields, ext);
    }
  }

  // Whole buffers

  /** The promised reading of a datagram. */
  function DeclaredDatagram(s: ProtocolSchema, data: seq<byte>): seq<Fields> {
    if data == [] then [] else [DeclaredFields(s.endian, s.fields, data, Remainder)]
  }

  /** A datagram schema's byte order is honoured on all datagrams exactly when the schema is safe. */
  lemma DatagramOrderHonouredWhen(s: ProtocolSchema)
    requires s.transport == "udp" && UniqueNames(s.fields)
    ensures (forall data :: Terminates(s, data) && DecodeAll(s, data) == DeclaredDatagram(s, data))
       <==> OrderSafe(s.endian, s.fields, Remainder)
  {
    assert "udp"[0] != "tcp"[0];
    if OrderSafe(s.endian, s.fields, Remainder) {
      forall data ensures Terminates(s, data) && DecodeAll(s, data) == DeclaredDatagram(s, data) {
        SafeOrderHonoured(s.endian, s.fields, data, Remainder);
      }
    } else {
      var data := Misordered(s.endian, s.fields, Remainder);
      NothingLeft(s.endian, s.fields, Remainder);
      assert DecodeAll(s, data) != DeclaredDatagram(s, data);
    }
  }

  lemma {:induction false} AllBuiltIn(endian: string, fields: seq<FieldDef>, ext: Extent)
    requires ext.Declared?
    ensures OrderSafe(endian, fields, ext)
       <==> forall i :: 0 <= i < |fields| ==> OrderBuiltIn(endian, fields[i].ftype)
  {
    if fields == [] {
    } else {
      AllBuiltIn(endian, fields[1..], ext);
      assert forall i :: 0 < i < |fields| ==> fields[i] == fields[1..][i - 1];
      assert forall i :: 0 <= i < |fields[1..]| ==> fields[1..][i] == fields[i + 1];
    }
  }
}
