/** In-order TCP stream reassembly over wrapping 32-bit sequence numbers. */
module TcpReassembly {
  import opened Bytes
  import opened Packets

  datatype Segment = Segment(seqNo: u32, payload: seq<byte>)

  datatype State = State(stream: seq<byte>, nextSeq: u32, initialized: bool)

  const FRESH := State([], 0, false)

  /** The first segment fixes the expected number; only a segment with exactly that number is appended. */
  function Accept(st: State, seg: Segment): State {
    var next := if st.initialized then st.nextSeq else seg.seqNo;
    if seg.payload != [] && seg.seqNo == next
    then State(st.stream + seg.payload, (seg.seqNo + |seg.payload|) % TWO_32, true)
    else State(st.stream, next, true)
  }

  /** The state after a run of segments. */
  function Run(segs: seq<Segment>): State {
    if segs == [] then FRESH else Accept(Run(segs[..|segs| - 1]), segs[|segs| - 1])
  }

  function SegmentOf(packet: Packet): Segment {
    Segment(packet.tcpSeq, packet.payload)
  }

  class TcpReassembler {
    var stream: seq<byte>
    var nextSeq: u32
    var initialized: bool

    ghost function View(): State
      reads this
    {
      State(stream, nextSeq, initialized)
    }

    constructor ()
      ensures View() == FRESH
    {
      stream, nextSeq, initialized := [], 0, false;
    }

    method AddSegment(packet: Packet)
      modifies this
      ensures View() == Accept(old(View()), SegmentOf(packet))
    {
      if !initialized {
        nextSeq := packet.tcpSeq;
        initialized := true;
      }
      var data := packet.payload;
      var len := |data|;
      if len == 0 { return; }
      var segSeq := packet.tcpSeq;
      if segSeq == nextSeq {
        stream := stream + data;
        nextSeq := (segSeq + len) % TWO_32;
      }
    }

    function ByteCount(): (n: nat)
      reads this
      ensures n == |View().stream|
    {
      |stream|
    }
  }

  // Every run keeps the expected number in step with the bytes held

  lemma {:induction false} NextSeqTracksStream(segs: seq<Segment>)
    requires segs != []
    ensures Run(segs).initialized
    ensures Run(segs).nextSeq == (segs[0].seqNo + |Run(segs).stream|) % TWO_32
  {
    var front, last := segs[..|segs| - 1], segs[|segs| - 1];
    if front == [] {
    } else {
      NextSeqTracksStream(front);
      var n := |Run(front).stream|;
      AddModulo(segs[0].seqNo + n, |last.payload|);
    }
  }

  lemma AddModulo(a: nat, b: nat)
    ensures (a % TWO_32 + b) % TWO_32 == (a + b) % TWO_32
  {}

  lemma RunAppend(segs: seq<Segment>, seg: Segment)
    ensures Run(segs + [seg]) == Accept(Run(segs), seg)
  {
    assert (segs + [seg])[..|segs|] == segs;
  }

  /** The stream only ever grows at its end. */
  lemma {:induction false} StreamGrows(segs: seq<Segment>, more: seq<Segment>)
    ensures Run(segs).stream <= Run(segs + more).stream
  {
    if more == [] {
      assert segs + more == segs;
    } else {
      var front, last := more[..|more| - 1], more[|more| - 1];
      StreamGrows(segs, front);
      assert segs + more == (segs + front) + [last];
      RunAppend(segs + front, last);
    }
  }

  /** Within one turn of the sequence space, sequence numbers name offsets unambiguously. */
  lemma OffsetsDistinct(isn: u32, a: nat, b: nat)
    requires a < TWO_32 && b < TWO_32
    ensures (isn + a) % TWO_32 == (isn + b) % TWO_32 <==> a == b
  {
    var x, y := (isn + a) / TWO_32, (isn + b) / TWO_32;
    assert isn + a == x * TWO_32 + (isn + a) % TWO_32;
    assert isn + b == y * TWO_32 + (isn + b) % TWO_32;
    assert 0 <= x <= 1 && 0 <= y <= 1;
  }

  /** A non-empty segment that starts behind the accepted position changes nothing. */
  lemma StaleSegmentIgnored(segs: seq<Segment>, seg: Segment, offset: nat)
    requires segs != [] && seg.payload != []
    requires offset < |Run(segs).stream| < TWO_32
    requires seg.seqNo == (segs[0].seqNo + offset) % TWO_32
    ensures Run(segs + [seg]) == Run(segs)
  {
    NextSeqTracksStream(segs);
    RunAppend(segs, seg);
    OffsetsDistinct(segs[0].seqNo, offset, |Run(segs).stream|);
  }

  // What starts a stream

  ghost predicate CarriesFirstByte(segs: seq<Segment>, i: int)
    requires 0 <= i < |segs|
  {
    segs[i].payload != [] && segs[i].seqNo == segs[0].seqNo
  }

  /** Anything at all is reassembled exactly when some non-empty segment carries the very number the first
      captured segment has. */
  lemma {:induction false} StreamStartsWhen(segs: seq<Segment>)
    ensures Run(segs).stream != [] <==> exists i :: 0 <= i < |segs| && CarriesFirstByte(segs, i)
  {
    if segs == [] {
    } else {
      var front, last := segs[..|segs| - 1], segs[|segs| - 1];
      StreamStartsWhen(front);
      assert forall i :: 0 <= i < |front| ==> (CarriesFirstByte(front, i) <==> CarriesFirstByte(segs, i));
      if front != [] && Run(front).stream == [] {
        NextSeqTracksStream(front);
        assert Run(front).nextSeq == segs[0].seqNo;
      }
      assert Run(segs).stream != [] <==> Run(front).stream != [] || CarriesFirstByte(segs, |segs| - 1);
    }
  }

  /** A connection request takes up one sequence number (section 3.4 of RFC 9293) but does not advance the
      expected one, so that a capture starting with it reassembles none of the data that follows, whatever
      empty segments, such as repeated requests, are mixed in. */
  lemma HandshakeHidesStream(segs: seq<Segment>, offsets: seq<nat>)
    requires segs != [] && segs[0].payload == [] && |offsets| == |segs|
    requires forall i :: 0 < i < |segs| && segs[i].payload != [] ==>
               offsets[i] + 1 < TWO_32 && segs[i].seqNo == (segs[0].seqNo + (1 + offsets[i])) % TWO_32
    ensures Run(segs).stream == []
  {
    StreamStartsWhen(segs);
    forall i | 0 <= i < |segs| ensures !CarriesFirstByte(segs, i) {
      if i > 0 && segs[i].payload != [] {
        OffsetsDistinct(segs[0].seqNo, 1 + offsets[i], 0);
      }
    }
  }

  // Segments without data

  /** The segments that can matter: the first one, and those carrying data. */
  function Kept(segs: seq<Segment>): (kept: seq<Segment>)
    ensures segs != [] ==> kept != [] && kept[0] == segs[0]
  {
    if |segs| <= 1 then segs else
    var front, last := Kept(segs[..|segs| - 1]), segs[|segs| - 1];
    if last.payload == [] then front else front + [last]
  }

  /** Empty segments after the first one change nothing, whatever their numbers. */
  lemma {:induction false} EmptySegmentsIgnored(segs: seq<Segment>)
    ensures Run(Kept(segs)) == Run(segs)
  {
    if |segs| <= 1 {
    } else {
      var front, last := segs[..|segs| - 1], segs[|segs| - 1];
      EmptySegmentsIgnored(front);
      NextSeqTracksStream(front);
      if last.payload != [] {
        RunAppend(Kept(front), last);
      }
    }
  }

  // Runs carrying pieces of one reference stream

  /** A stretch of the sender's stream. */
  datatype Piece = Piece(offset: nat, len: nat)

  ghost predicate InRange(pieces: seq<Piece>, ref: seq<byte>) {
    forall i :: 0 <= i < |pieces| ==> pieces[i].offset + pieces[i].len <= |ref|
  }

  /** The segment carrying a piece, numbered from the initial sequence number modulo 2^32. */
  function Wire(p: Piece, ref: seq<byte>, isn: u32): Segment
    requires p.offset + p.len <= |ref|
  {
    Segment((isn + p.offset) % TWO_32, ref[p.offset..p.offset + p.len])
  }

  function WireAll(pieces: seq<Piece>, ref: seq<byte>, isn: u32): (segs: seq<Segment>)
    requires InRange(pieces, ref)
    ensures |segs| == |pieces|
    ensures forall i :: 0 <= i < |pieces| ==> segs[i] == Wire(pieces[i], ref, isn)
  {
    seq(|pieces|, i requires 0 <= i < |pieces| && InRange(pieces, ref) => Wire(pieces[i], ref, isn))
  }

  /** Where in-order acceptance stands in the sender's stream, without any wrap-around. */
  function Position(pieces: seq<Piece>): nat
    requires pieces != []
  {
    var last := pieces[|pieces| - 1];
    var pos := if |pieces| == 1 then last.offset else Position(pieces[..|pieces| - 1]);
    if last.offset == pos then pos + last.len else pos
  }

  /** The reassembled bytes are the reference from the first piece's offset to the accepted position. */
  ghost predicate Exact(pieces: seq<Piece>, ref: seq<byte>, isn: u32)
    requires pieces != [] && InRange(pieces, ref)
  {
    pieces[0].offset <= Position(pieces) <= |ref|
    && Run(WireAll(pieces, ref, isn)).stream == ref[pieces[0].offset..Position(pieces)]
  }

  /** With loss, duplication, overlap and reordering, no byte is wrong, repeated or skipped: wrapped
      numbers accept exactly what unwrapped offsets accept. */
  lemma {:induction false} ReassemblyIsExact(pieces: seq<Piece>, ref: seq<byte>, isn: u32)
    requires pieces != [] && InRange(pieces, ref) && |ref| < TWO_32
    ensures Exact(pieces, ref, isn)
  {
    var front, last := pieces[..|pieces| - 1], pieces[|pieces| - 1];
    assert pieces == front + [last];
    WireAppend(front, last, ref, isn);
    if front == [] {
      assert pieces == [last];
      FirstIsExact(last, ref, isn);
    } else {
      ReassemblyIsExact(front, ref, isn);
      NextIsExact(front, last, ref, isn);
    }
  }

  lemma FirstIsExact(first: Piece, ref: seq<byte>, isn: u32)
    requires InRange([first], ref)
    ensures Exact([first], ref, isn)
  {
    assert [] + [first] == [first];
    WireAppend([], first, ref, isn);
  }

  lemma NextIsExact(front: seq<Piece>, last: Piece, ref: seq<byte>, isn: u32)
    requires front != [] && InRange(front + [last], ref) && InRange(front, ref) && |ref| < TWO_32
    requires Exact(front, ref, isn)
    ensures Exact(front + [last], ref, isn)
  {
    var pieces, start, pos := front + [last], front[0].offset, Position(front);
    var st := State(ref[start..pos], (isn + pos) % TWO_32, true);
    ExactState(front, ref, isn);
    RunNext(front, last, ref, isn, st);
    AcceptPiece(st, start, pos, last, ref, isn);
    PositionAppend(front, last);
    assert pieces[0].offset == start;
    assert Run(WireAll(pieces, ref, isn)).stream == ref[start..Position(pieces)];
  }

  lemma RunNext(front: seq<Piece>, last: Piece, ref: seq<byte>, isn: u32, st: State)
    requires InRange(front + [last], ref) && InRange(front, ref)
    requires Run(WireAll(front, ref, isn)) == st
    ensures Run(WireAll(front + [last], ref, isn)) == Accept(st, Wire(last, ref, isn))
  {
    WireAppend(front, last, ref, isn);
  }

  /** An exact run also expects the number of the next byte. */
  lemma {:induction false} ExactState(pieces: seq<Piece>, ref: seq<byte>, isn: u32)
    requires pieces != [] && InRange(pieces, ref) && Exact(pieces, ref, isn)
    ensures Run(WireAll(pieces, ref, isn))
         == State(ref[pieces[0].offset..Position(pieces)], (isn + Position(pieces)) % TWO_32, true)
  {
    var segs, start, pos := WireAll(pieces, ref, isn), pieces[0].offset, Position(pieces);
    NextSeqTracksStream(segs);
    var st := Run(segs);
    assert segs[0] == Wire(pieces[0], ref, isn);
    assert |st.stream| == pos - start;
    NumberAt(isn, start, pos);
    assert st.nextSeq == (isn + pos) % TWO_32;
  }

  lemma NumberAt(isn: u32, start: nat, pos: nat)
    requires start <= pos
    ensures ((isn + start) % TWO_32 + (pos - start)) % TWO_32 == (isn + pos) % TWO_32
  {
    AddModulo(isn + start, pos - start);
  }

  lemma WireAppend(front: seq<Piece>, last: Piece, ref: seq<byte>, isn: u32)
    requires InRange(front + [last], ref)
    ensures InRange(front, ref) && last.offset + last.len <= |ref|
    ensures WireAll(front + [last], ref, isn) == WireAll(front, ref, isn) + [Wire(last, ref, isn)]
    ensures Run(WireAll(front + [last], ref, isn)) == Accept(Run(WireAll(front, ref, isn)), Wire(last, ref, isn))
  {
    assert (front + [last])[|front|] == last;
    assert forall i :: 0 <= i < |front| ==> front[i] == (front + [last])[i];
    RunAppend(WireAll(front, ref, isn), Wire(last, ref, isn));
  }

  lemma AcceptPiece(st: State, start: nat, pos: nat, last: Piece, ref: seq<byte>, isn: u32)
    requires start <= pos <= |ref| < TWO_32 && last.offset + last.len <= |ref|
    requires st == State(ref[start..pos], (isn + pos) % TWO_32, true)
    ensures Accept(st, Wire(last, ref, isn)).stream
         == ref[start..if last.offset == pos then pos + last.len else pos]
  {
    OffsetsDistinct(isn, pos, last.offset);
    if last.offset == pos {
      JoinSlices(ref, start, pos, pos + last.len);
    }
  }

  lemma JoinSlices<T>(s: seq<T>, a: nat, b: nat, c: nat)
    requires a <= b <= c <= |s|
    ensures s[a..b] + s[b..c] == s[a..c]
  {}

  // The limit of the sequence space

  function InOrder(n: nat): seq<Piece> {
    seq(n, (i: nat) => Piece(i, 1))
  }

  lemma {:induction false} InOrderPosition(n: nat)
    requires n > 0
    ensures Position(InOrder(n)) == n
  {
    if n == 1 {
    } else {
      InOrderPosition(n - 1);
      assert InOrder(n)[..n - 1] == InOrder(n - 1);
    }
  }

  lemma {:induction false} InOrderRun(ref: seq<byte>, isn: u32, n: nat)
    requires 0 < n <= |ref|
    ensures InRange(InOrder(n), ref)
    ensures Run(WireAll(InOrder(n), ref, isn)) == State(ref[..n], (isn + n) % TWO_32, true)
  {
    var front, last := InOrder(n - 1), Piece(n - 1, 1);
    assert InOrder(n) == front + [last];
    if n == 1 {
      RunNext(front, last, ref, isn, FRESH);
      AcceptFirst(ref, isn);
    } else {
      var st := State(ref[..n - 1], (isn + (n - 1)) % TWO_32, true);
      InOrderRun(ref, isn, n - 1);
      RunNext(front, last, ref, isn, st);
      AcceptNext(st, ref, isn, n - 1);
    }
  }

  lemma AcceptFirst(ref: seq<byte>, isn: u32)
    requires ref != []
    ensures Accept(FRESH, Wire(Piece(0, 1), ref, isn)) == State(ref[..1], (isn + 1) % TWO_32, true)
  {}

  lemma AcceptNext(st: State, ref: seq<byte>, isn: u32, pos: nat)
    requires pos < |ref| && st == State(ref[..pos], (isn + pos) % TWO_32, true)
    ensures Accept(st, Wire(Piece(pos, 1), ref, isn)) == State(ref[..pos + 1], (isn + pos + 1) % TWO_32, true)
  {
    AddModulo(isn + pos, 1);
    JoinSlices(ref, 0, pos, pos + 1);
  }

  /** Once the whole space is used up, an old byte is taken for the next one. */
  lemma WrapAccepted(front: seq<Piece>, ref: seq<byte>, isn: u32)
    requires |ref| >= TWO_32 && front != [] && InRange(front, ref)
    requires Position(front) == |ref|
    requires Run(WireAll(front, ref, isn)) == State(ref[..|ref|], (isn + |ref|) % TWO_32, true)
    ensures var pieces := front + [Piece(|ref| % TWO_32, 1)];
            InRange(pieces, ref) && !Exact(pieces, ref, isn)
  {
    var last := Piece(|ref| % TWO_32, 1);
    WireAppend(front, last, ref, isn);
    AcceptWrapped(ref, isn);
    PositionAppend(front, last);
  }

  lemma AcceptWrapped(ref: seq<byte>, isn: u32)
    requires |ref| >= TWO_32
    ensures var st := State(ref[..|ref|], (isn + |ref|) % TWO_32, true);
            |Accept(st, Wire(Piece(|ref| % TWO_32, 1), ref, isn)).stream| == |ref| + 1
  {
    AddModulo(|ref|, isn);
  }

  lemma PositionAppend(front: seq<Piece>, last: Piece)
    requires front != []
    ensures Position(front + [last])
         == if last.offset == Position(front) then Position(front) + last.len else Position(front)
  {
    assert (front + [last])[..|front|] == front;
  }

  /** Reassembly is exact on every run exactly for streams shorter than the sequence space. */
  lemma ExactOnEveryRunWhen(ref: seq<byte>, isn: u32)
    ensures (forall pieces :: pieces != [] && InRange(pieces, ref) ==> Exact(pieces, ref, isn))
       <==> |ref| < TWO_32
  {
    if |ref| < TWO_32 {
      forall pieces | pieces != [] && InRange(pieces, ref) ensures Exact(pieces, ref, isn) {
        ReassemblyIsExact(pieces, ref, isn);
      }
    } else {
      InOrderPosition(|ref|);
      InOrderRun(ref, isn, |ref|);
      WrapAccepted(InOrder(|ref|), ref, isn);
    }
  }

  lemma {:induction false} PositionFromStart(pieces: seq<Piece>)
    requires pieces != []
    ensures pieces[0].offset <= Position(pieces)
  {
    if |pieces| == 1 {
    } else {
      PositionFromStart(pieces[..|pieces| - 1]);
    }
  }

  /** No data carries the number the capture starts at. */
  ghost predicate NoDataAtStart(pieces: seq<Piece>)
    requires pieces != []
  {
    forall i :: 0 <= i < |pieces| && pieces[i].len > 0 ==> pieces[i].offset != pieces[0].offset
  }

  /** Nothing is ever accepted exactly when no data has the number the capture starts at. */
  lemma {:induction false} NothingAcceptedWhen(pieces: seq<Piece>)
    requires pieces != []
    ensures Position(pieces) == pieces[0].offset <==> NoDataAtStart(pieces)
  {
    if |pieces| == 1 {
    } else {
      var front, last := pieces[..|pieces| - 1], pieces[|pieces| - 1];
      NothingAcceptedWhen(front);
      PositionFromStart(front);
      assert NoDataAtStart(pieces) <==> NoDataAtStart(front) && (last.len > 0 ==> last.offset != front[0].offset);
    }
  }

  // Complete deliveries

  /** The bytes of the stream from start up to end, each further piece either continuing where the data
      sent so far ends, or repeating bytes already sent, or empty as a bare acknowledgment is. */
  ghost predicate Delivers(pieces: seq<Piece>, start: nat, end: nat) {
    && pieces != []
    && var front, last := pieces[..|pieces| - 1], pieces[|pieces| - 1];
       || (front == [] && last.offset == start && start + last.len == end)
       || (last.len > 0 && last.offset + last.len == end && Delivers(front, start, last.offset))
       || (last.len > 0 && last.offset + last.len <= end && Delivers(front, start, end))
       || (last.len == 0 && Delivers(front, start, end))
  }

  /** Any segmentation with any retransmissions and acknowledgments mixed in is accepted in full. */
  lemma {:induction false} DeliveryIsComplete(pieces: seq<Piece>, start: nat, end: nat)
    requires Delivers(pieces, start, end)
    ensures pieces[0].offset == start && Position(pieces) == end
  {
    var front, last := pieces[..|pieces| - 1], pieces[|pieces| - 1];
    if front == [] {
    } else if last.len > 0 && last.offset + last.len == end && Delivers(front, start, last.offset) {
      DeliveryIsComplete(front, start, last.offset);
    } else {
      DeliveryIsComplete(front, start, end);
    }
  }

  lemma DeliveryGrows(pieces: seq<Piece>, start: nat, end: nat, len: nat)
    requires Delivers(pieces, start, end) && len > 0
    ensures Delivers(pieces + [Piece(end, len)], start, end + len)
  {
    assert (pieces + [Piece(end, len)])[..|pieces|] == pieces;
  }

  function Total(lens: seq<nat>): nat {
    if lens == [] then 0 else Total(lens[..|lens| - 1]) + lens[|lens| - 1]
  }

  /** Consecutive pieces of these lengths. */
  function CutInto(start: nat, lens: seq<nat>): seq<Piece> {
    if lens == [] then [] else
    var front := lens[..|lens| - 1];
    CutInto(start, front) + [Piece(start + Total(front), lens[|lens| - 1])]
  }

  /** However a stretch of the stream is cut into non-empty segments, sending them in order delivers it. */
  lemma {:induction false} CutsAreDeliveries(start: nat, lens: seq<nat>)
    requires lens != [] && forall i :: 0 <= i < |lens| ==> lens[i] > 0
    ensures Delivers(CutInto(start, lens), start, start + Total(lens))
  {
    var front, last := lens[..|lens| - 1], lens[|lens| - 1];
    if front == [] {
      assert CutInto(start, lens) == [Piece(start, last)];
    } else {
      CutsAreDeliveries(start, front);
      DeliveryGrows(CutInto(start, front), start, start + Total(front), last);
    }
  }
}
