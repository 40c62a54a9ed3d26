/** What conversations look like at the end of the pipeline. */
module Conversations {
  import opened Bytes
  import opened Schema
  import opened MessageCodec
  import opened Framing
  import opened WireCodec
  import opened Packets
  import opened PacketParser
  import opened FrameCodec
  import opened FlowKeys
  import opened Flows
  import opened FlowTheory
  import opened Timeline
  import opened Pipeline
  import Reassembly = TcpReassembly

  // One direction of a TCP conversation

  /** The messages one side sends after some earlier bytes, the pieces of that stream the capture shows,
      and the initial sequence number. */
  datatype Talk = Talk(earlier: seq<byte>, messages: seq<WireMessage>, pieces: seq<Reassembly.Piece>, isn: u32)

  function Sent(s: ProtocolSchema, talk: Talk): seq<byte>
    requires forall i :: 0 <= i < |talk.messages| ==> Covers(s.fields, talk.messages[i].fields)
  {
    talk.earlier + EncodeAll(s, talk.messages)
  }

  /** A stream within one turn of the sequence space, captured with any loss, duplication, overlap and
      reordering. The capture starts where the messages do, or else at a number no data ever has, as when it
      starts with a connection request. */
  ghost predicate ValidTalk(s: ProtocolSchema, talk: Talk)
    requires WellFormed(s)
  {
    && AllValid(s, talk.messages)
    && |Sent(s, talk)| < TWO_32
    && Reassembly.InRange(talk.pieces, Sent(s, talk))
    && (talk.pieces != [] ==>
          talk.pieces[0].offset == |talk.earlier| || Reassembly.NoDataAtStart(talk.pieces))
  }

  ghost function SegmentsOf(s: ProtocolSchema, talk: Talk): seq<Reassembly.Segment>
    requires WellFormed(s) && ValidTalk(s, talk)
  {
    Reassembly.WireAll(talk.pieces, Sent(s, talk), talk.isn)
  }

  /** These segments carry the talk. Empty ones after the first may have any number: acknowledgments,
      repeated connection requests, or a final acknowledgment past the end of the stream. */
  ghost predicate Carries(s: ProtocolSchema, segs: seq<Reassembly.Segment>, talk: Talk)
    requires WellFormed(s) && ValidTalk(s, talk)
  {
    Reassembly.Kept(segs) == SegmentsOf(s, talk)
  }

  /** The messages received in full. */
  ghost function Received(s: ProtocolSchema, talk: Talk): seq<Fields>
    requires WellFormed(s) && ValidTalk(s, talk)
  {
    if talk.pieces == [] || Reassembly.NoDataAtStart(talk.pieces) then [] else
    Reassembly.PositionFromStart(talk.pieces);
    FieldsOf(talk.messages[..Complete(s, talk.messages, Reassembly.Position(talk.pieces) - |talk.earlier|)])
  }

  /** The bytes reassembled: none, when no data has the number the capture starts at, or else the messages'
      own bytes up to the accepted position. */
  ghost predicate ShowsBytes(s: ProtocolSchema, talk: Talk, stream: seq<byte>)
    requires WellFormed(s) && ValidTalk(s, talk)
  {
    if talk.pieces == [] || Reassembly.NoDataAtStart(talk.pieces) then stream == []
    else
      && stream != []
      && |talk.earlier| <= Reassembly.Position(talk.pieces) <= |Sent(s, talk)|
      && stream == EncodeAll(s, talk.messages)[..Reassembly.Position(talk.pieces) - |talk.earlier|]
  }

  /** Reassembling and decoding one direction yields exactly the leading messages received in full:
      nothing is misread, however the stream was cut. */
  lemma TalkDecodes(s: ProtocolSchema, talk: Talk, segs: seq<Reassembly.Segment>)
    requires WellFormed(s) && ValidTalk(s, talk) && Carries(s, segs, talk)
    ensures var stream := Reassembly.Run(segs).stream;
            Terminates(s, stream) && DecodeAll(s, stream) == Received(s, talk)
  {
    Reassembly.EmptySegmentsIgnored(segs);
    StreamReceived(s, talk);
    BytesDecode(s, talk, Reassembly.Run(segs).stream);
  }

  lemma BytesDecode(s: ProtocolSchema, talk: Talk, stream: seq<byte>)
    requires WellFormed(s) && ValidTalk(s, talk) && ShowsBytes(s, talk, stream)
    ensures Terminates(s, stream) && DecodeAll(s, stream) == Received(s, talk)
  {
    if talk.pieces == [] || Reassembly.NoDataAtStart(talk.pieces) {
      NothingDecoded(s);
    } else {
      ReceivedDecodes(s, talk.messages, Reassembly.Position(talk.pieces) - |talk.earlier|);
    }
  }

  lemma ReceivedDecodes(s: ProtocolSchema, messages: seq<WireMessage>, n: nat)
    requires WellFormed(s) && AllValid(s, messages) && n <= |EncodeAll(s, messages)|
    ensures var stream := EncodeAll(s, messages)[..n];
            Terminates(s, stream) && DecodeAll(s, stream) == FieldsOf(messages[..Complete(s, messages, n)])
  {
    CutStreamDecodes(s, messages, n);
  }

  lemma NothingDecoded(s: ProtocolSchema)
    requires WellFormed(s)
    ensures Terminates(s, []) && DecodeAll(s, []) == []
  {}

  lemma StreamReceived(s: ProtocolSchema, talk: Talk)
    requires WellFormed(s) && ValidTalk(s, talk)
    ensures ShowsBytes(s, talk, Reassembly.Run(SegmentsOf(s, talk)).stream)
  {
    if talk.pieces == [] {
    } else {
      Reassembly.ReassemblyIsExact(talk.pieces, Sent(s, talk), talk.isn);
      Reassembly.NothingAcceptedWhen(talk.pieces);
      if !Reassembly.NoDataAtStart(talk.pieces) {
        SentAfter(s, talk, Reassembly.Position(talk.pieces));
      }
    }
  }

  lemma SentAfter(s: ProtocolSchema, talk: Talk, end: nat)
    requires forall i :: 0 <= i < |talk.messages| ==> Covers(s.fields, talk.messages[i].fields)
    requires |talk.earlier| <= end <= |Sent(s, talk)|
    ensures Sent(s, talk)[|talk.earlier|..end] == EncodeAll(s, talk.messages)[..end - |talk.earlier|]
  {}

  /** When the whole stream is delivered, in any segmentation and with any retransmissions and
      acknowledgments mixed in, every message is received. */
  lemma DeliveredTalkIsReceived(s: ProtocolSchema, talk: Talk)
    requires WellFormed(s) && ValidTalk(s, talk)
    requires Reassembly.Delivers(talk.pieces, |talk.earlier|, |Sent(s, talk)|)
    ensures Received(s, talk) == FieldsOf(talk.messages)
  {
    Reassembly.DeliveryIsComplete(talk.pieces, |talk.earlier|, |Sent(s, talk)|);
    Reassembly.NothingAcceptedWhen(talk.pieces);
    AllComplete(s, talk.messages);
    assert talk.messages[..|talk.messages|] == talk.messages;
    NothingSent(s, talk.messages);
  }

  lemma NothingSent(s: ProtocolSchema, messages: seq<WireMessage>)
    requires WellFormed(s) && AllValid(s, messages)
    ensures messages != [] ==> EncodeAll(s, messages) != []
  {
    if messages != [] {
      assert Encode(s, messages[0]) != [];
    }
  }

  // TCP conversations

  /** Both directions of a TCP conversation. */
  datatype Conversation = Conversation(client: Talk, server: Talk)

  /** These packets carry this conversation under this key. */
  ghost predicate CarriedBy(s: ProtocolSchema, c: Conversation, key: FlowKey, packets: seq<Packet>)
    requires WellFormed(s)
  {
    && ValidTalk(s, c.client) && ValidTalk(s, c.server)
    && Carries(s, DirectionOf(key, packets, true), c.client)
    && Carries(s, DirectionOf(key, packets, false), c.server)
  }

  /** The event a message should show: its type field's value if it has one, and every field but the magic
      number. */
  function Presented(d: Fields, timestampUs: u64, transport: TransportProtocol, src: Endpoint, dst: Endpoint): Event {
    Event(timestampUs, transport, src, dst, if "msg_type" in d then MessageType.Declared(d["msg_type"]) else Data,
          map name | name in d && name != "magic" :: d[name])
  }

  function PresentedAll(messages: seq<Fields>, timestampUs: u64, src: Endpoint, dst: Endpoint): seq<Event> {
    seq(|messages|, i requires 0 <= i < |messages| => Presented(messages[i], timestampUs, TCP, src, dst))
  }

  lemma PresentedAreEvents(messages: seq<Fields>, timestampUs: u64, src: Endpoint, dst: Endpoint)
    ensures PresentedAll(messages, timestampUs, src, dst) == EventsFrom(messages, timestampUs, TCP, src, dst)
  {
    forall i | 0 <= i < |messages|
      ensures EventsFrom(messages, timestampUs, TCP, src, dst)[i] == Presented(messages[i], timestampUs, TCP, src, dst)
    {
      DescribedBy(Presented(messages[i], timestampUs, TCP, src, dst).messageType,
                  Presented(messages[i], timestampUs, TCP, src, dst).details, messages[i]);
    }
  }

  /** The events a conversation should show. */
  ghost function ExpectedEvents(s: ProtocolSchema, c: Conversation, key: FlowKey, start: u64): seq<Event>
    requires WellFormed(s) && ValidTalk(s, c.client) && ValidTalk(s, c.server)
  {
    PresentedAll(Received(s, c.client), start, key.Src(), key.Dst())
    + PresentedAll(Received(s, c.server), start, key.Dst(), key.Src())
  }

  /** In any capture, whatever its other flows are, a conversation's flow shows exactly its messages. */
  lemma FlowShowsConversation(s: ProtocolSchema, packets: seq<Packet>, key: FlowKey, c: Conversation)
    requires WellFormed(s) && key.protocol == TCP && PacketsOf(packets, key) != []
    requires CarriedBy(s, c, key, PacketsOf(packets, key))
    ensures key in TrackerRun(packets)
    ensures ShowsList(s, TrackerRun(packets)[key],
                      ExpectedEvents(s, c, key, PacketsOf(packets, key)[0].timestampUs))
  {
    var own := PacketsOf(packets, key);
    Demultiplexing(packets, key);
    DirectionsAreIndependent(key, own);
    TalkDecodes(s, c.client, DirectionOf(key, own, true));
    TalkDecodes(s, c.server, DirectionOf(key, own, false));
    PresentedAreEvents(Received(s, c.client), own[0].timestampUs, key.Src(), key.Dst());
    PresentedAreEvents(Received(s, c.server), own[0].timestampUs, key.Dst(), key.Src());
  }

  /** The flows under these keys are TCP conversations under this schema; other flows may be anything. */
  ghost predicate CarriesConversations(s: ProtocolSchema, packets: seq<Packet>, talks: map<FlowKey, Conversation>)
    requires WellFormed(s)
  {
    forall key :: key in talks ==>
      key.protocol == TCP && PacketsOf(packets, key) != [] && CarriedBy(s, talks[key], key, PacketsOf(packets, key))
  }

  /** What the timeline should hold of them, conversation by conversation. */
  ghost function ExpectedLists(s: ProtocolSchema, packets: seq<Packet>, talks: map<FlowKey, Conversation>)
    : (lists: map<FlowKey, seq<Event>>)
    requires WellFormed(s) && CarriesConversations(s, packets, talks)
    ensures lists.Keys == talks.Keys
  {
    map key | key in talks :: ExpectedEvents(s, talks[key], key, PacketsOf(packets, key)[0].timestampUs)
  }

  /** However many conversations are interleaved with whatever other flows in a capture, and whatever each
      one lost, repeated or reordered, the timeline holds exactly the messages each side sent and the
      capture shows in full, besides the events of the other flows. */
  lemma TimelineShowsTheConversations(s: ProtocolSchema, packets: seq<Packet>,
                                      talks: map<FlowKey, Conversation>)
    requires WellFormed(s) && CarriesConversations(s, packets, talks)
    requires AllTerminate(s, TrackerRun(packets) - talks.Keys)
    ensures AllTerminate(s, TrackerRun(packets))
    ensures TimelineOf(s, TrackerRun(packets))
         == Union(ExpectedLists(s, packets, talks)) + TimelineOf(s, TrackerRun(packets) - talks.Keys)
  {
    ConversationsAreShown(s, packets, talks);
    var flows := TrackerRun(packets);
    ShownListsSplitTimeline(s, flows, ExpectedLists(s, packets, talks), flows - talks.Keys);
  }

  lemma ConversationsAreShown(s: ProtocolSchema, packets: seq<Packet>, talks: map<FlowKey, Conversation>)
    requires WellFormed(s) && CarriesConversations(s, packets, talks)
    ensures AllShown(s, TrackerRun(packets), ExpectedLists(s, packets, talks))
  {
    forall key | key in talks
      ensures key in TrackerRun(packets)
      ensures ShowsList(s, TrackerRun(packets)[key], ExpectedLists(s, packets, talks)[key])
    {
      FlowShowsConversation(s, packets, key, talks[key]);
    }
  }

  /** From frames on the wire to the timeline: decoding a capture that shows the frames of any interleaved
      conversations, among any other frames, shows exactly the messages sent and captured in full. */
  lemma CaptureShowsTheConversations(s: ProtocolSchema, capture: seq<Captured>, frames: seq<Shown>,
                                     talks: map<FlowKey, Conversation>)
    requires Shows(capture, frames)
    requires WellFormed(s) && CarriesConversations(s, PacketsShown(capture, frames), talks)
    requires AllTerminate(s, TrackerRun(PacketsShown(capture, frames)) - talks.Keys)
    ensures HeadersCaptured(capture)
    ensures var flows := TrackerRun(PacketsFrom(capture));
            && AllTerminate(s, flows)
            && TimelineOf(s, flows)
            == Union(ExpectedLists(s, PacketsShown(capture, frames), talks)) + TimelineOf(s, flows - talks.Keys)
  {
    CapturedFramesParse(capture, frames);
    TimelineShowsTheConversations(s, PacketsShown(capture, frames), talks);
  }

  // Datagram flows

  /** A message that is one datagram. */
  ghost predicate ValidDatagram(s: ProtocolSchema, w: WireMessage) {
    && Covers(s.fields, w.fields) && w.fields.Keys == Names(s.fields)
    && Conforms(s.fields, w.fields, Remainder, w.extra)
    && Encode(s, w) != []
  }

  /** These packets carry these messages, one each. */
  ghost predicate CarriesDatagrams(s: ProtocolSchema, packets: seq<Packet>, messages: seq<WireMessage>) {
    && |packets| == |messages|
    && forall i :: 0 <= i < |packets| ==>
         ValidDatagram(s, messages[i]) && packets[i].payload == Encode(s, messages[i])
  }

  function DatagramEvent(p: Packet, fields: Fields): Event {
    Presented(fields, p.timestampUs, UDP, Endpoint(p.srcIp, p.srcPort), Endpoint(p.dstIp, p.dstPort))
  }

  /** One event per datagram, at its own time and between its own endpoints. */
  function ExpectedDatagrams(packets: seq<Packet>, messages: seq<WireMessage>): seq<Event>
    requires |packets| == |messages|
  {
    seq(|packets|, i requires 0 <= i < |packets| => DatagramEvent(packets[i], messages[i].fields))
  }

  lemma {:induction false} DatagramsDecode(s: ProtocolSchema, packets: seq<Packet>, messages: seq<WireMessage>)
    requires s.transport == "udp" && CarriesDatagrams(s, packets, messages)
    ensures forall i :: 0 <= i < |packets| ==> Terminates(s, packets[i].payload)
    ensures AllDatagramEvents(s, packets) == ExpectedDatagrams(packets, messages)
  {
    assert "udp"[0] != "tcp"[0];
    if packets == [] {
    } else {
      var n := |packets| - 1;
      DatagramsDecode(s, packets[..n], messages[..n]);
      DatagramDecodes(s, packets[n], messages[n]);
      LastDatagram(packets, messages);
    }
  }

  lemma DatagramDecodes(s: ProtocolSchema, packet: Packet, message: WireMessage)
    requires s.transport == "udp" && ValidDatagram(s, message) && packet.payload == Encode(s, message)
    ensures Terminates(s, packet.payload) && DatagramEvents(s, packet) == [DatagramEvent(packet, message.fields)]
  {
    assert "udp"[0] != "tcp"[0];
    DatagramRoundTrip(s, message);
    var e := DatagramEvent(packet, message.fields);
    DescribedBy(e.messageType, e.details, message.fields);
  }

  lemma LastDatagram(packets: seq<Packet>, messages: seq<WireMessage>)
    requires |packets| == |messages| > 0
    ensures var n := |packets| - 1;
            ExpectedDatagrams(packets, messages)
            == ExpectedDatagrams(packets[..n], messages[..n]) + [DatagramEvent(packets[n], messages[n].fields)]
  {}

  /** In any capture, whatever its other flows are, a datagram flow shows exactly its messages. */
  lemma FlowShowsDatagrams(s: ProtocolSchema, packets: seq<Packet>, key: FlowKey, messages: seq<WireMessage>)
    requires s.transport == "udp" && key.protocol == UDP && PacketsOf(packets, key) != []
    requires CarriesDatagrams(s, PacketsOf(packets, key), messages)
    ensures key in TrackerRun(packets)
    ensures ShowsList(s, TrackerRun(packets)[key], ExpectedDatagrams(PacketsOf(packets, key), messages))
  {
    Demultiplexing(packets, key);
    UdpFlowKeepsDatagrams(key, PacketsOf(packets, key));
    DatagramsDecode(s, PacketsOf(packets, key), messages);
  }

  ghost predicate CarriesDatagramFlows(s: ProtocolSchema, packets: seq<Packet>, sent: map<FlowKey, seq<WireMessage>>) {
    forall key :: key in sent ==>
      key.protocol == UDP && PacketsOf(packets, key) != [] && CarriesDatagrams(s, PacketsOf(packets, key), sent[key])
  }

  ghost function ExpectedDatagramLists(s: ProtocolSchema, packets: seq<Packet>, sent: map<FlowKey, seq<WireMessage>>)
    : (lists: map<FlowKey, seq<Event>>)
    requires CarriesDatagramFlows(s, packets, sent)
    ensures lists.Keys == sent.Keys
  {
    map key | key in sent :: ExpectedDatagrams(PacketsOf(packets, key), sent[key])
  }

  /** However many datagram flows are interleaved with whatever other flows in a capture, the timeline holds
      exactly one event per datagram with the message it was encoded from, besides the events of the other
      flows. */
  lemma TimelineShowsTheDatagrams(s: ProtocolSchema, packets: seq<Packet>,
                                  sent: map<FlowKey, seq<WireMessage>>)
    requires s.transport == "udp" && CarriesDatagramFlows(s, packets, sent)
    requires AllTerminate(s, TrackerRun(packets) - sent.Keys)
    ensures AllTerminate(s, TrackerRun(packets))
    ensures TimelineOf(s, TrackerRun(packets))
         == Union(ExpectedDatagramLists(s, packets, sent)) + TimelineOf(s, TrackerRun(packets) - sent.Keys)
  {
    DatagramFlowsAreShown(s, packets, sent);
    var flows := TrackerRun(packets);
    ShownListsSplitTimeline(s, flows, ExpectedDatagramLists(s, packets, sent), flows - sent.Keys);
  }

  /** The same from frames on the wire. */
  lemma CaptureShowsTheDatagrams(s: ProtocolSchema, capture: seq<Captured>, frames: seq<Shown>,
                                 sent: map<FlowKey, seq<WireMessage>>)
    requires Shows(capture, frames)
    requires s.transport == "udp" && CarriesDatagramFlows(s, PacketsShown(capture, frames), sent)
    ensures HeadersCaptured(capture)
    ensures var flows := TrackerRun(PacketsFrom(capture));
            && AllTerminate(s, flows)
            && TimelineOf(s, flows)
            == Union(ExpectedDatagramLists(s, PacketsShown(capture, frames), sent)) + TimelineOf(s, flows - sent.Keys)
  {
    assert "udp"[0] != "tcp"[0];
    CapturedFramesParse(capture, frames);
    TimelineShowsTheDatagrams(s, PacketsShown(capture, frames), sent);
  }

  lemma DatagramFlowsAreShown(s: ProtocolSchema, packets: seq<Packet>, sent: map<FlowKey, seq<WireMessage>>)
    requires s.transport == "udp" && CarriesDatagramFlows(s, packets, sent)
    ensures AllShown(s, TrackerRun(packets), ExpectedDatagramLists(s, packets, sent))
  {
    forall key | key in sent
      ensures key in TrackerRun(packets)
      ensures ShowsList(s, TrackerRun(packets)[key], ExpectedDatagramLists(s, packets, sent)[key])
    {
      FlowShowsDatagrams(s, packets, key, sent[key]);
    }
  }

  // Shown lists and the timeline

  ghost predicate ShowsList(s: ProtocolSchema, flow: FlowState, list: seq<Event>) {
    FlowTerminates(s, flow) && FlowEvents(s, flow) == list
  }

  ghost predicate AllShown(s: ProtocolSchema, flows: map<FlowKey, FlowState>, lists: map<FlowKey, seq<Event>>) {
    forall key :: key in lists ==> key in flows && ShowsList(s, flows[key], lists[key])
  }

  /** Lists that some flows show split the timeline into their union and the events of the other flows. */
  lemma ShownListsSplitTimeline(s: ProtocolSchema, flows: map<FlowKey, FlowState>,
                                lists: map<FlowKey, seq<Event>>, others: map<FlowKey, FlowState>)
    requires AllShown(s, flows, lists) && others == flows - lists.Keys && AllTerminate(s, others)
    ensures AllTerminate(s, flows)
    ensures TimelineOf(s, flows) == Union(lists) + TimelineOf(s, others)
  {
    ShownFlowsTerminate(s, flows, lists, others);
    ListsSplit(s, flows, lists, others);
    UnionAdd(lists, EventLists(s, others));
  }

  lemma ShownFlowsTerminate(s: ProtocolSchema, flows: map<FlowKey, FlowState>,
                            lists: map<FlowKey, seq<Event>>, others: map<FlowKey, FlowState>)
    requires AllShown(s, flows, lists) && others == flows - lists.Keys && AllTerminate(s, others)
    ensures AllTerminate(s, flows)
  {
    forall k | k in flows ensures FlowTerminates(s, flows[k]) {
      if k in lists {
        assert ShowsList(s, flows[k], lists[k]);
      } else {
        assert k in others;
      }
    }
  }

  lemma ListsSplit(s: ProtocolSchema, flows: map<FlowKey, FlowState>, lists: map<FlowKey, seq<Event>>,
                   others: map<FlowKey, FlowState>)
    requires AllShown(s, flows, lists) && others == flows - lists.Keys
    requires AllTerminate(s, flows) && AllTerminate(s, others)
    ensures EventLists(s, flows) == lists + EventLists(s, others)
  {
    var all, rest := EventLists(s, flows), EventLists(s, others);
    assert all.Keys == lists.Keys + rest.Keys;
    forall k | k in all ensures all[k] == (lists + rest)[k] {
      if k in lists {
        assert ShowsList(s, flows[k], lists[k]);
      } else {
        assert k in others;
      }
    }
  }

  // What reassembly sees of a frame

  /** A TCP frame reaches reassembly with its own sequence number and all its payload, whatever its flags. */
  lemma FrameSegment(f: IpFrame, timestampUs: u64)
    requires ValidFrame(f) && f.body.TcpSegment?
    ensures Reassembly.SegmentOf(PacketOf(f).(timestampUs := timestampUs))
         == Reassembly.Segment(f.body.seqNo, f.body.payload)
  {}

  // Bytes captured behind a packet

  /** A bare acknowledgment captured with padding behind it, as minimum-size Ethernet frames have, puts the
      padding into the stream when its number is the expected one. */
  lemma PaddingEntersStream(f: IpFrame, padding: seq<byte>, st: Reassembly.State)
    requires ValidFrame(f) && f.body.TcpSegment? && f.body.payload == [] && padding != []
    requires st.initialized && st.nextSeq == f.body.seqNo
    ensures IpHeaderCaptured(Serialize(f) + padding) && ParseFrame(Serialize(f) + padding).Some?
    ensures var packet := ParseFrame(Serialize(f) + padding).value;
            Reassembly.Accept(st, Reassembly.SegmentOf(packet)).stream == st.stream + padding
  {
    ParseInvertsSerialize(f, padding);
    assert [] + padding == padding;
  }
}
