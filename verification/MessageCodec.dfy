/** One message: its declared fields laid out back to back, and the inverse encoder. */
module MessageCodec {
  import opened Bytes
  import opened Schema
  import opened FieldCodec

  /** How many bytes a variable-length field takes: the declared body length, or all that is left. */
  datatype Extent = Declared(len: nat) | Remainder

  function FieldExtent(t: FieldType, ext: Extent, avail: nat): nat {
    if !IsVariable(t) then FieldTypeSize(t) else if ext.Declared? then ext.len else avail
  }

  /** Fields are read in order until one does not fit; a later field of the same name wins. */
  function DecodeFields(fields: seq<FieldDef>, frame: seq<byte>, ext: Extent): Fields {
    if fields == [] then map[] else
    var n := FieldExtent(fields[0].ftype, ext, |frame|);
    if n > |frame| then map[] else
    map[fields[0].name := DecodeValue(fields[0].ftype, frame[..n])] + DecodeFields(fields[1..], frame[n..], ext)
  }

  /** What the first field contributes when it fits. */
  lemma DecodeHead(fields: seq<FieldDef>, frame: seq<byte>, ext: Extent, n: nat)
    requires fields != [] && n == FieldExtent(fields[0].ftype, ext, |frame|) <= |frame|
    ensures var name := fields[0].name;
            var m, tail := DecodeFields(fields, frame, ext), DecodeFields(fields[1..], frame[n..], ext);
            && m.Keys == {name} + tail.Keys
            && (forall k :: k in tail ==> m[k] == tail[k])
            && (name !in tail ==> m[name] == DecodeValue(fields[0].ftype, frame[..n]))
  {}

  /** m assigns every field a value of its type. */
  ghost predicate Covers(fields: seq<FieldDef>, m: Fields) {
    forall i :: 0 <= i < |fields| ==> fields[i].name in m && HasType(m[fields[i].name], fields[i].ftype)
  }

  function EncodeFields(fields: seq<FieldDef>, m: Fields): seq<byte>
    requires Covers(fields, m)
  {
    if fields == [] then [] else EncodeValue(fields[0].ftype, m[fields[0].name]) + EncodeFields(fields[1..], m)
  }

  /** Each variable-length value is exactly as long as its extent will say when the encoding is
      followed by the given extra bytes. */
  ghost predicate Conforms(fields: seq<FieldDef>, m: Fields, ext: Extent, extra: seq<byte>)
    requires Covers(fields, m)
  {
    fields != [] ==>
      && (IsVariable(fields[0].ftype) ==>
            if ext.Declared? then |EncodeValue(fields[0].ftype, m[fields[0].name])| == ext.len
            else EncodeFields(fields[1..], m) + extra == [])
      && Conforms(fields[1..], m, ext, extra)
  }

  /** Decoding an encoding gives the values back, whatever bytes follow it. */
  lemma {:induction false} DecodeInvertsEncode(fields: seq<FieldDef>, m: Fields, ext: Extent, extra: seq<byte>)
    requires Covers(fields, m) && Conforms(fields, m, ext, extra)
    ensures SameOn(DecodeFields(fields, EncodeFields(fields, m) + extra, ext), m, Names(fields))
  {
    if fields == [] {
    } else {
      var frame, n, rest := EncodedHead(fields, m, ext, extra);
      DecodeInvertsEncode(fields[1..], m, ext, extra);
      DecodeHead(fields, frame, ext, n);
      assert Names(fields) == {fields[0].name} + Names(fields[1..]);
    }
  }

  /** d is m restricted to these names. */
  ghost predicate SameOn(d: Fields, m: Fields, names: set<string>) {
    d.Keys == names && forall k :: k in d ==> k in m && d[k] == m[k]
  }

  lemma EncodedHead(fields: seq<FieldDef>, m: Fields, ext: Extent, extra: seq<byte>)
    returns (frame: seq<byte>, n: nat, rest: seq<byte>)
    requires fields != [] && Covers(fields, m) && Conforms(fields, m, ext, extra)
    ensures frame == EncodeFields(fields, m) + extra && rest == EncodeFields(fields[1..], m) + extra
    ensures n == FieldExtent(fields[0].ftype, ext, |frame|) <= |frame| && frame[n..] == rest
    ensures DecodeValue(fields[0].ftype, frame[..n]) == m[fields[0].name]
  {
    var t, v := fields[0].ftype, m[fields[0].name];
    rest := EncodeFields(fields[1..], m) + extra;
    frame := EncodeFields(fields, m) + extra;
    n := |EncodeValue(t, v)|;
    SplitHead(EncodeValue(t, v), EncodeFields(fields[1..], m), extra);
    DecodeInvertsEncodeValue(t, v);
  }

  lemma SplitHead<T>(head: seq<T>, body: seq<T>, extra: seq<T>)
    ensures var all := head + body + extra;
            all[..|head|] == head && all[|head|..] == body + extra
  {}

  // Which fields are decoded, and from which bytes

  /** The number of leading fields that fit. */
  function FitCount(fields: seq<FieldDef>, avail: nat, ext: Extent): (k: nat)
    ensures k <= |fields|
  {
    if fields == [] then 0 else
    var n := FieldExtent(fields[0].ftype, ext, avail);
    if n > avail then 0 else 1 + FitCount(fields[1..], avail - n, ext)
  }

  /** What is left of a frame after its first i fields, each taking its own extent. */
  function Skip(fields: seq<FieldDef>, frame: seq<byte>, i: nat, ext: Extent): (rest: seq<byte>)
    requires i <= FitCount(fields, |frame|, ext)
    ensures |rest| <= |frame|
  {
    if i == 0 then frame else
    var n := FieldExtent(fields[0].ftype, ext, |frame|);
    Skip(fields[1..], frame[n..], i - 1, ext)
  }

  lemma {:induction false} FieldFits(fields: seq<FieldDef>, frame: seq<byte>, i: nat, ext: Extent)
    requires i < FitCount(fields, |frame|, ext)
    ensures var rest := Skip(fields, frame, i, ext);
            FieldExtent(fields[i].ftype, ext, |rest|) <= |rest|
  {
    if i == 0 {
    } else {
      FieldFits(fields[1..], frame[FieldExtent(fields[0].ftype, ext, |frame|)..], i - 1, ext);
    }
  }

  /** The bytes of the i-th field. */
  function FieldBytes(fields: seq<FieldDef>, frame: seq<byte>, i: nat, ext: Extent): (bs: seq<byte>)
    requires i < FitCount(fields, |frame|, ext)
    ensures IsVariable(fields[i].ftype) || |bs| == FieldTypeSize(fields[i].ftype)
  {
    FieldFits(fields, frame, i, ext);
    var rest := Skip(fields, frame, i, ext);
    rest[..FieldExtent(fields[i].ftype, ext, |rest|)]
  }

  /** The size of the first i fields when none of them is variable. */
  function FixedOffset(fields: seq<FieldDef>, i: nat): nat
    requires i <= |fields|
  {
    if i == 0 then 0 else FieldTypeSize(fields[0].ftype) + FixedOffset(fields[1..], i - 1)
  }

  lemma {:induction false} FixedPrefix(fields: seq<FieldDef>, data: seq<byte>, i: nat, ext: Extent)
    requires i <= |fields| && forall j :: 0 <= j < i ==> !IsVariable(fields[j].ftype)
    requires FixedOffset(fields, i) <= |data|
    ensures i <= FitCount(fields, |data|, ext)
    ensures Skip(fields, data, i, ext) == data[FixedOffset(fields, i)..]
  {
    if i == 0 {
    } else {
      var n := FieldTypeSize(fields[0].ftype);
      FixedPrefix(fields[1..], data[n..], i - 1, ext);
      assert data[n..][FixedOffset(fields[1..], i - 1)..] == data[FixedOffset(fields, i)..];
    }
  }

  lemma {:induction false} NextOffset(fields: seq<FieldDef>, i: nat)
    requires i < |fields|
    ensures FixedOffset(fields, i + 1) == FixedOffset(fields, i) + FieldTypeSize(fields[i].ftype)
  {
    if i == 0 {
      assert FixedOffset(fields[1..], 0) == 0;
    } else {
      NextOffset(fields[1..], i - 1);
    }
  }

  /** In a fixed layout a field's bytes lie at the sum of the earlier sizes. */
  lemma FixedFieldBytes(fields: seq<FieldDef>, data: seq<byte>, i: nat, ext: Extent)
    requires i < |fields| && forall j :: 0 <= j <= i ==> !IsVariable(fields[j].ftype)
    requires FixedOffset(fields, i + 1) <= |data|
    ensures i < FitCount(fields, |data|, ext) && FixedOffset(fields, i) <= FixedOffset(fields, i + 1)
    ensures FieldBytes(fields, data, i, ext) == data[FixedOffset(fields, i)..FixedOffset(fields, i + 1)]
  {
    NextOffset(fields, i);
    FixedPrefix(fields, data, i + 1, ext);
    FixedPrefix(fields, data, i, ext);
    SliceOfTail(data, FixedOffset(fields, i), 0, FieldTypeSize(fields[i].ftype));
  }

  lemma {:induction false} FirstNamesMeaning(fields: seq<FieldDef>, k: nat, x: string)
    requires k <= |fields|
    ensures x in FirstNames(fields, k) <==> exists i :: 0 <= i < k && fields[i].name == x
  {
    if k == 0 {
    } else {
      FirstNamesMeaning(fields[1..], k - 1, x);
      if x in FirstNames(fields[1..], k - 1) {
        var i :| 0 <= i < k - 1 && fields[1..][i].name == x;
        assert fields[i + 1].name == x;
      }
      if exists i :: 0 < i < k && fields[i].name == x {
        var i :| 0 < i < k && fields[i].name == x;
        assert fields[1..][i - 1].name == x;
      }
    }
  }

  /** Decoding yields the longest prefix of the schema that fits. */
  lemma {:induction false} DecodesLongestFittingPrefix(fields: seq<FieldDef>, frame: seq<byte>, ext: Extent)
    ensures DecodeFields(fields, frame, ext).Keys == FirstNames(fields, FitCount(fields, |frame|, ext))
  {
    if fields == [] {
    } else {
      var n := FieldExtent(fields[0].ftype, ext, |frame|);
      if n <= |frame| {
        DecodesLongestFittingPrefix(fields[1..], frame[n..], ext);
        var k := FitCount(fields[1..], |frame[n..]|, ext);
        assert FitCount(fields, |frame|, ext) == 1 + k;
        assert FirstNames(fields, 1 + k) == {fields[0].name} + FirstNames(fields[1..], k);
        DecodeHead(fields, frame, ext, n);
      }
    }
  }

  lemma {:induction false} NextDoesNotFit(fields: seq<FieldDef>, frame: seq<byte>, ext: Extent)
    requires FitCount(fields, |frame|, ext) < |fields|
    ensures var k := FitCount(fields, |frame|, ext);
            var rest := Skip(fields, frame, k, ext);
            FieldExtent(fields[k].ftype, ext, |rest|) > |rest|
  {
    var n := FieldExtent(fields[0].ftype, ext, |frame|);
    if n > |frame| {
    } else {
      NextDoesNotFit(fields[1..], frame[n..], ext);
      var k := FitCount(fields[1..], |frame[n..]|, ext);
      assert FitCount(fields, |frame|, ext) == k + 1;
      assert Skip(fields, frame, k + 1, ext) == Skip(fields[1..], frame[n..], k, ext);
      assert fields[1..][k] == fields[k + 1];
    }
  }

  /** A decoded field's value is read from the bytes right after the earlier fields. */
  lemma {:induction false} DecodedValueAt(fields: seq<FieldDef>, frame: seq<byte>, ext: Extent, i: nat)
    requires UniqueNames(fields) && i < FitCount(fields, |frame|, ext)
    ensures fields[i].name in DecodeFields(fields, frame, ext)
    ensures DecodeFields(fields, frame, ext)[fields[i].name]
         == DecodeValue(fields[i].ftype, FieldBytes(fields, frame, i, ext))
  {
    var n := FieldExtent(fields[0].ftype, ext, |frame|);
    DecodeHead(fields, frame, ext, n);
    if i == 0 {
      DecodesLongestFittingPrefix(fields[1..], frame[n..], ext);
      FirstNamesMeaning(fields[1..], FitCount(fields[1..], |frame| - n, ext), fields[0].name);
    } else {
      DecodedValueAt(fields[1..], frame[n..], ext, i - 1);
      assert FieldBytes(fields, frame, i, ext) == FieldBytes(fields[1..], frame[n..], i - 1, ext);
    }
  }

  lemma {:induction false} EncodeSameValues(fields: seq<FieldDef>, m: Fields, m': Fields)
    requires Covers(fields, m)
    requires forall i :: 0 <= i < |fields| ==> fields[i].name in m' && m[fields[i].name] == m'[fields[i].name]
    ensures Covers(fields, m') && EncodeFields(fields, m) == EncodeFields(fields, m')
  {
    if fields == [] {
    } else {
      EncodeSameValues(fields[1..], m, m');
    }
  }

  /** Decoding loses nothing: when every field fits, the decoded fields encoded again, followed by what
      no field covers, are the frame itself. */
  lemma {:induction false} EncodeInvertsDecode(fields: seq<FieldDef>, frame: seq<byte>, ext: Extent)
    requires UniqueNames(fields) && FitCount(fields, |frame|, ext) == |fields|
    ensures Covers(fields, DecodeFields(fields, frame, ext))
    ensures EncodeFields(fields, DecodeFields(fields, frame, ext)) + Skip(fields, frame, |fields|, ext) == frame
  {
    if fields == [] {
    } else {
      var n := FieldExtent(fields[0].ftype, ext, |frame|);
      var m, tail := DecodeFields(fields, frame, ext), DecodeFields(fields[1..], frame[n..], ext);
      EncodeInvertsDecode(fields[1..], frame[n..], ext);
      assert Skip(fields, frame, |fields|, ext) == Skip(fields[1..], frame[n..], |fields| - 1, ext);
      DecodeHead(fields, frame, ext, n);
      EncodeSameValues(fields[1..], tail, m);
      DecodedValueAt(fields, frame, ext, 0);
      EncodeInvertsDecodeValue(fields[0].ftype, frame[..n]);
      EncodedAgain(fields, m, frame, n, EncodeFields(fields[1..], tail), Skip(fields, frame, |fields|, ext));
    }
  }

  lemma EncodedAgain(fields: seq<FieldDef>, m: Fields, frame: seq<byte>, n: nat, body: seq<byte>,
                     rest: seq<byte>)
    requires fields != [] && fields[0].name in m && HasType(m[fields[0].name], fields[0].ftype)
    requires n <= |frame| && EncodeValue(fields[0].ftype, m[fields[0].name]) == frame[..n]
    requires Covers(fields[1..], m) && EncodeFields(fields[1..], m) == body && body + rest == frame[n..]
    ensures Covers(fields, m) && EncodeFields(fields, m) + rest == frame
  {
    assert forall i :: 0 < i < |fields| ==> fields[i] == fields[1..][i - 1];
    assert frame == frame[..n] + (body + rest);
  }
}
