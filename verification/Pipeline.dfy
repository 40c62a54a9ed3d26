/** From captured frames to the timeline. */
module Pipeline {
  import opened Bytes
  import opened Schema
  import opened Wrappers
  import opened Packets
  import opened PacketParser
  import opened FrameCodec
  import opened Flows
  import opened FlowTheory
  import opened Timeline

  datatype Captured = Captured(timestampUs: u64, data: seq<byte>)

  ghost predicate HeadersCaptured(capture: seq<Captured>) {
    forall i :: 0 <= i < |capture| ==> IpHeaderCaptured(capture[i].data)
  }

  /** The packet of one captured frame, stamped with its capture time. */
  function Stamped(c: Captured): Option<Packet>
    requires IpHeaderCaptured(c.data)
  {
    match ParseFrame(c.data)
    case None => None
    case Some(p) => Some(p.(timestampUs := c.timestampUs))
  }

  function AppendSome(packets: seq<Packet>, packet: Option<Packet>): seq<Packet> {
    match packet
    case None => packets
    case Some(p) => packets + [p]
  }

  /** The packets a capture yields, one for every frame that parses. */
  function PacketsFrom(capture: seq<Captured>): seq<Packet>
    requires HeadersCaptured(capture)
  {
    if capture == [] then [] else
    AppendSome(PacketsFrom(capture[..|capture| - 1]), Stamped(capture[|capture| - 1]))
  }

  lemma PacketsAppend(capture: seq<Captured>, i: nat)
    requires HeadersCaptured(capture) && i < |capture|
    ensures PacketsFrom(capture[..i + 1]) == AppendSome(PacketsFrom(capture[..i]), Stamped(capture[i]))
  {
    assert capture[..i + 1][..i] == capture[..i];
  }

  // Which packets a capture yields

  /** A frame yields nothing if the parser rejects it, and otherwise its packet at its capture time. */
  lemma OneFrameYields(c: Captured)
    requires IpHeaderCaptured(c.data)
    ensures PacketsFrom([c]) == [] <==> ParseFrame(c.data).None?
    ensures ParseFrame(c.data).Some? ==> PacketsFrom([c]) == [ParseFrame(c.data).value.(timestampUs := c.timestampUs)]
  {
    assert [c][..0] == [];
    assert PacketsFrom([c][..0]) == [];
  }

  lemma LastFrameYields(front: seq<Captured>, c: Captured)
    requires HeadersCaptured(front) && IpHeaderCaptured(c.data)
    ensures HeadersCaptured(front + [c])
    ensures PacketsFrom(front + [c]) == PacketsFrom(front) + PacketsFrom([c])
  {
    assert (front + [c])[..|front|] == front;
    OneFrameYields(c);
  }

  lemma HeadersSplit(a: seq<Captured>, b: seq<Captured>)
    ensures HeadersCaptured(a + b) <==> HeadersCaptured(a) && HeadersCaptured(b)
  {
    if HeadersCaptured(a + b) {
      assert forall i :: 0 <= i < |a| ==> a[i] == (a + b)[i];
      assert forall i :: 0 <= i < |b| ==> b[i] == (a + b)[|a| + i];
    }
  }

  /** Captures one after the other yield their packets one after the other. */
  lemma {:induction false} PacketsFromConcat(a: seq<Captured>, b: seq<Captured>)
    requires HeadersCaptured(a) && HeadersCaptured(b)
    ensures HeadersCaptured(a + b)
    ensures PacketsFrom(a + b) == PacketsFrom(a) + PacketsFrom(b)
  {
    if b == [] {
      assert a + b == a;
    } else {
      var front, last := b[..|b| - 1], b[|b| - 1];
      assert b == front + [last] && a + b == (a + front) + [last];
      HeadersSplit(front, [last]);
      PacketsFromConcat(a, front);
      AppendedFrame(a, front, last);
    }
  }

  lemma AppendedFrame(a: seq<Captured>, front: seq<Captured>, last: Captured)
    requires HeadersCaptured(a) && HeadersCaptured(front) && HeadersCaptured(a + front) && IpHeaderCaptured(last.data)
    requires PacketsFrom(a + front) == PacketsFrom(a) + PacketsFrom(front)
    ensures HeadersCaptured(a + front + [last]) && HeadersCaptured(front + [last])
    ensures PacketsFrom(a + front + [last]) == PacketsFrom(a) + PacketsFrom(front + [last])
  {
    LastFrameYields(a + front, last);
    LastFrameYields(front, last);
  }

  lemma TrackerAppend(packets: seq<Packet>, packet: Packet)
    ensures TrackerRun(packets + [packet]) == TrackerStep(TrackerRun(packets), packet)
  {
    assert (packets + [packet])[..|packets|] == packets;
  }

  method ParseStamped(c: Captured) returns (packet: Option<Packet>)
    requires IpHeaderCaptured(c.data)
    ensures packet == Stamped(c) && (packet.Some? ==> packet.value.protocol != UNKNOWN)
  {
    var parsed := Parse(c.data);
    match parsed
    case None => packet := None;
    case Some(p) => packet := Some(p.(timestampUs := c.timestampUs));
  }

  method TrackPacket(tracker: FlowTracker, packet: Option<Packet>, ghost packets: seq<Packet>)
    requires tracker.Valid() && (packet.Some? ==> packet.value.protocol != UNKNOWN)
    requires tracker.View() == TrackerRun(packets)
    modifies tracker, tracker.footprint
    ensures tracker.Valid() && fresh(tracker.footprint - old(tracker.footprint))
    ensures tracker.View() == TrackerRun(AppendSome(packets, packet))
  {
    if packet.Some? && packet.value.protocol != UNKNOWN {
      TrackerAppend(packets, packet.value);
      tracker.OnPacket(packet.value);
    }
  }

  /** Feeds every frame of the capture that parses to a new tracker. */
  method TrackCapture(capture: seq<Captured>) returns (tracker: FlowTracker)
    requires HeadersCaptured(capture)
    ensures fresh(tracker) && fresh(tracker.footprint)
    ensures tracker.Valid() && tracker.View() == TrackerRun(PacketsFrom(capture))
  {
    tracker := new FlowTracker();
    ghost var packets := [];
    for i := 0 to |capture|
      invariant fresh(tracker) && fresh(tracker.footprint)
      invariant tracker.Valid() && tracker.View() == TrackerRun(packets)
      invariant packets == PacketsFrom(capture[..i])
    {
      var packet := ParseStamped(capture[i]);
      TrackPacket(tracker, packet, packets);
      PacketsAppend(capture, i);
      packets := AppendSome(packets, packet);
    }
    assert capture[..|capture|] == capture;
  }

  /** Decodes a whole capture: the events are the messages of all flows, ordered by time. */
  method DecodeCapture(capture: seq<Captured>, s: ProtocolSchema) returns (events: seq<Event>)
    requires HeadersCaptured(capture) && AllTerminate(s, TrackerRun(PacketsFrom(capture)))
    ensures SortedByTime(events)
    ensures multiset(events) == TimelineOf(s, TrackerRun(PacketsFrom(capture)))
  {
    var tracker := TrackCapture(capture);
    var builder := new TimelineBuilder(tracker, s);
    builder.Build(TrackerRun(PacketsFrom(capture)));
    events := builder.events;
  }

  /** Captures that agree flow by flow give the same timeline, as a multiset. */
  lemma InterleavingGivesSameTimeline(s: ProtocolSchema, ps: seq<Packet>, qs: seq<Packet>)
    requires forall key :: PacketsOf(ps, key) == PacketsOf(qs, key)
    requires AllTerminate(s, TrackerRun(ps))
    ensures AllTerminate(s, TrackerRun(qs)) && TimelineOf(s, TrackerRun(ps)) == TimelineOf(s, TrackerRun(qs))
  {
    InterleavingIrrelevant(ps, qs);
  }

  // Frames on the wire

  /** What a captured frame is: the serialization of a frame some sender built, or anything else, with the
      packet the parser makes of it if it accepts it. */
  datatype Shown = Serialized(frame: IpFrame) | Accepted(packet: Packet) | Rejected

  ghost predicate Shows(capture: seq<Captured>, frames: seq<Shown>) {
    && |capture| == |frames|
    && forall i :: 0 <= i < |frames| ==> ShowsFrame(capture[i], frames[i])
  }

  ghost predicate ShowsFrame(c: Captured, shown: Shown) {
    match shown
    case Serialized(f) => ValidFrame(f) && c.data == Serialize(f)
    case Accepted(p) => IpHeaderCaptured(c.data) && ParseFrame(c.data) == Some(p)
    case Rejected => IpHeaderCaptured(c.data) && ParseFrame(c.data).None?
  }

  /** The packet of a captured frame, if there is one, stamped with its capture time. */
  function PacketsOfFrame(shown: Shown, timestampUs: u64): seq<Packet>
    requires shown.Serialized? ==> ValidFrame(shown.frame)
  {
    match shown
    case Serialized(f) => [PacketOf(f).(timestampUs := timestampUs)]
    case Accepted(p) => [p.(timestampUs := timestampUs)]
    case Rejected => []
  }

  /** The packets of the frames shown by a capture. */
  ghost function PacketsShown(capture: seq<Captured>, frames: seq<Shown>): seq<Packet>
    requires Shows(capture, frames)
  {
    if capture == [] then [] else
    var n := |capture| - 1;
    PacketsShown(capture[..n], frames[..n]) + PacketsOfFrame(frames[n], capture[n].timestampUs)
  }

  lemma FrameParses(f: IpFrame)
    requires ValidFrame(f)
    ensures IpHeaderCaptured(Serialize(f)) && ParseFrame(Serialize(f)) == Some(PacketOf(f))
  {
    PayloadExactWhen(f, []);
    assert Serialize(f) + [] == Serialize(f);
  }

  lemma FrameStamped(c: Captured, shown: Shown, packets: seq<Packet>)
    requires ShowsFrame(c, shown)
    ensures IpHeaderCaptured(c.data)
    ensures AppendSome(packets, Stamped(c)) == packets + PacketsOfFrame(shown, c.timestampUs)
  {
    if shown.Serialized? {
      FrameParses(shown.frame);
    }
  }

  lemma HeadersAreCaptured(capture: seq<Captured>, frames: seq<Shown>)
    requires Shows(capture, frames)
    ensures HeadersCaptured(capture)
  {
    forall i | 0 <= i < |capture| ensures IpHeaderCaptured(capture[i].data) {
      FrameStamped(capture[i], frames[i], []);
    }
  }

  /** A capture yields exactly the packets of the frames it shows, whatever else it holds. */
  lemma {:induction false} CapturedFramesParse(capture: seq<Captured>, frames: seq<Shown>)
    requires Shows(capture, frames)
    ensures HeadersCaptured(capture) && PacketsFrom(capture) == PacketsShown(capture, frames)
  {
    HeadersAreCaptured(capture, frames);
    if capture == [] {
    } else {
      var n := |capture| - 1;
      CapturedFramesParse(capture[..n], frames[..n]);
      FrameStamped(capture[n], frames[n], PacketsShown(capture[..n], frames[..n]));
    }
  }

  predicate AllSerialized(frames: seq<Shown>) {
    forall i :: 0 <= i < |frames| ==> frames[i].Serialized?
  }

  /** When everything captured was built by senders, there is one packet for each frame, in order, with the
      frame's addresses, ports, numbers and payload and its capture time. */
  lemma SerializedFramesYield(capture: seq<Captured>, frames: seq<Shown>, i: nat)
    requires Shows(capture, frames) && AllSerialized(frames)
    ensures HeadersCaptured(capture) && |PacketsFrom(capture)| == |capture|
    ensures i < |capture| ==>
              ValidFrame(frames[i].frame)
              && PacketsFrom(capture)[i] == PacketOf(frames[i].frame).(timestampUs := capture[i].timestampUs)
  {
    CapturedFramesParse(capture, frames);
    OnePacketEach(capture, frames);
    if i < |capture| {
      PacketShownAt(capture, frames, i);
    }
  }

  lemma {:induction false} OnePacketEach(capture: seq<Captured>, frames: seq<Shown>)
    requires Shows(capture, frames) && AllSerialized(frames)
    ensures |PacketsShown(capture, frames)| == |capture|
  {
    if capture == [] {
    } else {
      OnePacketEach(capture[..|capture| - 1], frames[..|capture| - 1]);
    }
  }

  lemma {:induction false} PacketShownAt(capture: seq<Captured>, frames: seq<Shown>, i: nat)
    requires Shows(capture, frames) && AllSerialized(frames) && i < |capture|
    ensures |PacketsShown(capture, frames)| == |capture| && ShowsFrame(capture[i], frames[i])
    ensures PacketsShown(capture, frames)[i] == PacketsOfFrame(frames[i], capture[i].timestampUs)[0]
  {
    var n := |capture| - 1;
    OnePacketEach(capture, frames);
    OnePacketEach(capture[..n], frames[..n]);
    if i == n {
    } else {
      PacketShownAt(capture[..n], frames[..n], i);
    }
  }
}
