/** What whole packet runs leave in the tracker. */
module FlowTheory {
  import opened Packets
  import opened FlowKeys
  import opened Flows
  import Reassembly = TcpReassembly

  // Runs

  ghost predicate NoUnknown(packets: seq<Packet>) {
    forall i :: 0 <= i < |packets| ==> packets[i].protocol != UNKNOWN
  }

  /** The tracker's contents after a run. */
  function TrackerRun(packets: seq<Packet>): map<FlowKey, FlowState> {
    if packets == [] then map[]
    else TrackerStep(TrackerRun(packets[..|packets| - 1]), packets[|packets| - 1])
  }

  /** A fresh flow fed these packets and no others. */
  function FlowRun(key: FlowKey, packets: seq<Packet>): FlowState {
    if packets == [] then FreshFlow(key)
    else FlowStep(FlowRun(key, packets[..|packets| - 1]), packets[|packets| - 1])
  }

  /** The packets of one flow, in order. */
  function PacketsOf(packets: seq<Packet>, key: FlowKey): seq<Packet> {
    if packets == [] then [] else
    var front, last := PacketsOf(packets[..|packets| - 1], key), packets[|packets| - 1];
    if MakeKey(last) == key then front + [last] else front
  }

  lemma FlowRunAppend(key: FlowKey, packets: seq<Packet>, last: Packet)
    ensures FlowRun(key, packets + [last]) == FlowStep(FlowRun(key, packets), last)
  {
    assert (packets + [last])[..|packets|] == packets;
  }

  /** Each flow ends up as if it alone had seen its own packets, whatever else was captured in between. */
  lemma {:induction false} Demultiplexing(packets: seq<Packet>, key: FlowKey)
    ensures key in TrackerRun(packets) <==> PacketsOf(packets, key) != []
    ensures key in TrackerRun(packets) ==> TrackerRun(packets)[key] == FlowRun(key, PacketsOf(packets, key))
  {
    if packets == [] {
    } else {
      var front, last := packets[..|packets| - 1], packets[|packets| - 1];
      Demultiplexing(front, key);
      if MakeKey(last) == key {
        FlowRunAppend(key, PacketsOf(front, key), last);
      }
    }
  }

  /** Captures that agree flow by flow leave the same tracker, however they interleave. */
  lemma InterleavingIrrelevant(ps: seq<Packet>, qs: seq<Packet>)
    requires forall key :: PacketsOf(ps, key) == PacketsOf(qs, key)
    ensures TrackerRun(ps) == TrackerRun(qs)
  {
    forall key
      ensures key in TrackerRun(ps) <==> key in TrackerRun(qs)
      ensures key in TrackerRun(ps) ==> TrackerRun(ps)[key] == TrackerRun(qs)[key]
    {
      Demultiplexing(ps, key);
      Demultiplexing(qs, key);
    }
  }

  // The two directions of a TCP flow

  /** The segments a TCP flow receives from its first endpoint, or with client false from the other one. */
  function DirectionOf(key: FlowKey, packets: seq<Packet>, client: bool): seq<Reassembly.Segment> {
    if packets == [] then [] else
    var front, last := DirectionOf(key, packets[..|packets| - 1], client), packets[|packets| - 1];
    if (Endpoint(last.srcIp, last.srcPort) == key.Src()) == client then front + [Reassembly.SegmentOf(last)] else front
  }

  /** Each direction's stream is that of a reassembler run on that direction's segments alone, and the
      counters and timestamps are those of the flow's packets. */
  lemma {:induction false} DirectionsAreIndependent(key: FlowKey, packets: seq<Packet>)
    requires key.protocol == TCP
    ensures FlowRun(key, packets) == TcpState(
              key,
              Reassembly.Run(DirectionOf(key, packets, true)),
              Reassembly.Run(DirectionOf(key, packets, false)),
              |packets|,
              if packets == [] then 0 else packets[0].timestampUs,
              if packets == [] then 0 else packets[|packets| - 1].timestampUs)
  {
    if packets == [] {
    } else {
      var front, last := packets[..|packets| - 1], packets[|packets| - 1];
      var client := IsClientSide(key, last);
      var sent := DirectionOf(key, front, client);
      DirectionsAreIndependent(key, front);
      assert DirectionOf(key, packets, client) == sent + [Reassembly.SegmentOf(last)];
      assert DirectionOf(key, packets, !client) == DirectionOf(key, front, !client);
      Reassembly.RunAppend(sent, Reassembly.SegmentOf(last));
    }
  }

  /** A TCP flow's byte count is the bytes of both directions. */
  lemma TcpFlowBytes(key: FlowKey, packets: seq<Packet>)
    requires key.protocol == TCP
    ensures FlowRun(key, packets).ByteCount()
         == |Reassembly.Run(DirectionOf(key, packets, true)).stream|
            + |Reassembly.Run(DirectionOf(key, packets, false)).stream|
    ensures FlowRun(key, packets).PacketCount() == |packets|
  {
    DirectionsAreIndependent(key, packets);
  }

  /** Within its flow a packet counts as client side exactly when its sender is the key's first endpoint,
      and otherwise its sender is the second one. */
  lemma SenderSide(packet: Packet)
    ensures var key, sender, receiver :=
              MakeKey(packet), Endpoint(packet.srcIp, packet.srcPort), Endpoint(packet.dstIp, packet.dstPort);
            && (IsClientSide(key, packet) <==> sender == key.Src())
            && (IsClientSide(key, packet) ==> receiver == key.Dst())
            && (!IsClientSide(key, packet) ==> sender == key.Dst() && receiver == key.Src())
  {
    KeyHasBothEndpoints(packet);
  }

  lemma {:induction false} UdpFlowKeepsDatagrams(key: FlowKey, packets: seq<Packet>)
    requires key.protocol != TCP
    ensures FlowRun(key, packets) == UdpState(
              key, packets,
              if packets == [] then 0 else packets[0].timestampUs,
              if packets == [] then 0 else packets[|packets| - 1].timestampUs)
  {
    if packets == [] {
    } else {
      UdpFlowKeepsDatagrams(key, packets[..|packets| - 1]);
      assert packets == packets[..|packets| - 1] + [packets[|packets| - 1]];
    }
  }

  // Conservation

  /** Every flow sits under its own normalized key and is of that key's protocol. */
  ghost predicate WellKeyed(flows: map<FlowKey, FlowState>) {
    forall k :: k in flows ==>
      && k.Normalized() == k && flows[k].key == k
      && k.protocol != UNKNOWN && (flows[k].TcpState? <==> k.protocol == TCP)
  }

  lemma {:induction false} FlowsAreWellKeyed(packets: seq<Packet>)
    requires NoUnknown(packets)
    ensures WellKeyed(TrackerRun(packets))
  {
    if packets == [] {
    } else {
      FlowsAreWellKeyed(packets[..|packets| - 1]);
      NormalizedIdempotent(PacketKey(packets[|packets| - 1]));
    }
  }

  ghost function Pick<V>(flows: map<FlowKey, V>): (k: FlowKey)
    requires flows != map[]
    ensures k in flows
  {
    var k :| k in flows;
    k
  }

  /** A quantity summed over all flows. */
  ghost function Sum(flows: map<FlowKey, FlowState>, f: FlowState -> nat): nat
    decreases |flows|
  {
    if flows == map[] then 0 else
    var k := Pick(flows);
    f(flows[k]) + Sum(flows - {k}, f)
  }

  /** The sum does not depend on the order of the flows. */
  lemma {:induction false} SumOut(flows: map<FlowKey, FlowState>, f: FlowState -> nat, k: FlowKey)
    requires k in flows
    ensures Sum(flows, f) == f(flows[k]) + Sum(flows - {k}, f)
    decreases |flows|
  {
    var j := Pick(flows);
    if j == k {
    } else {
      SumOut(flows - {j}, f, k);
      SumOut(flows - {k}, f, j);
      assert flows - {j} - {k} == flows - {k} - {j};
    }
  }

  lemma SumUpdate(flows: map<FlowKey, FlowState>, f: FlowState -> nat, k: FlowKey, st: FlowState)
    ensures Sum(flows[k := st], f) == f(st) + Sum(flows - {k}, f)
    ensures k !in flows ==> Sum(flows - {k}, f) == Sum(flows, f)
    ensures k in flows ==> Sum(flows, f) == f(flows[k]) + Sum(flows - {k}, f)
  {
    SumOut(flows[k := st], f, k);
    assert flows[k := st] - {k} == flows - {k};
    if k in flows {
      SumOut(flows, f, k);
    } else {
      assert flows - {k} == flows;
    }
  }

  const PACKETS: FlowState -> nat := (st: FlowState) => st.PacketCount()

  const TCP_BYTES: FlowState -> nat := (st: FlowState) => if st.TcpState? then st.ByteCount() else 0

  const UDP_BYTES: FlowState -> nat := (st: FlowState) => if st.UdpState? then st.ByteCount() else 0

  /** All payload bytes carried under one protocol. */
  function PayloadOver(packets: seq<Packet>, protocol: TransportProtocol): nat {
    if packets == [] then 0 else
    var last := packets[|packets| - 1];
    PayloadOver(packets[..|packets| - 1], protocol) + if last.protocol == protocol then |last.payload| else 0
  }

  /** What one packet adds to its flow's counters. */
  lemma StepCounts(st: FlowState, packet: Packet)
    ensures FlowStep(st, packet).PacketCount() == st.PacketCount() + 1
    ensures FlowStep(st, packet).TcpState? == st.TcpState?
    ensures st.TcpState? ==> FlowStep(st, packet).ByteCount() <= st.ByteCount() + |packet.payload|
    ensures st.UdpState? ==> FlowStep(st, packet).ByteCount() == st.ByteCount() + |packet.payload|
  {
    if st.UdpState? {
      assert (st.datagrams + [packet])[..|st.datagrams|] == st.datagrams;
    }
  }

  /** No packet is lost or counted twice; datagram bytes are all kept, and stream bytes never exceed the
      payload carried. */
  lemma {:induction false} Conservation(packets: seq<Packet>)
    requires NoUnknown(packets)
    ensures Sum(TrackerRun(packets), PACKETS) == |packets|
    ensures Sum(TrackerRun(packets), UDP_BYTES) == PayloadOver(packets, UDP)
    ensures Sum(TrackerRun(packets), TCP_BYTES) <= PayloadOver(packets, TCP)
  {
    if packets == [] {
    } else {
      var front, last := packets[..|packets| - 1], packets[|packets| - 1];
      Conservation(front);
      FlowsAreWellKeyed(front);
      StepConserves(TrackerRun(front), last);
    }
  }

  lemma StepConserves(flows: map<FlowKey, FlowState>, packet: Packet)
    requires WellKeyed(flows) && packet.protocol != UNKNOWN
    ensures var after := TrackerStep(flows, packet);
            && Sum(after, PACKETS) == Sum(flows, PACKETS) + 1
            && Sum(after, UDP_BYTES) == Sum(flows, UDP_BYTES)
                    + (if packet.protocol == UDP then |packet.payload| else 0)
            && Sum(after, TCP_BYTES) <= Sum(flows, TCP_BYTES)
                    + (if packet.protocol == TCP then |packet.payload| else 0)
  {
    var key := MakeKey(packet);
    var before := if key in flows then flows[key] else FreshFlow(key);
    var after := FlowStep(before, packet);
    assert before.TcpState? <==> packet.protocol == TCP;
    StepCounts(before, packet);
    SumUpdate(flows, PACKETS, key, after);
    SumUpdate(flows, UDP_BYTES, key, after);
    SumUpdate(flows, TCP_BYTES, key, after);
  }

  /** There is one flow per conversation seen. */
  lemma {:induction false} FlowsAreTheConversations(packets: seq<Packet>)
    ensures TrackerRun(packets).Keys == set p | p in packets :: MakeKey(p)
  {
    if packets == [] {
    } else {
      var front, last := packets[..|packets| - 1], packets[|packets| - 1];
      FlowsAreTheConversations(front);
      assert packets == front + [last];
    }
  }

  /** The keys of the flows the tracker counts under a protocol. */
  ghost function FlowsOver(flows: map<FlowKey, FlowState>, tcp: bool): set<FlowKey> {
    set k | k in flows && flows[k].TcpState? == tcp
  }

  /** The conversations under one protocol that have packets among these. */
  ghost function ConversationsOver(packets: seq<Packet>, protocol: TransportProtocol): set<FlowKey> {
    set p | p in packets && p.protocol == protocol :: MakeKey(p)
  }

  lemma FlowsOverAre(flows: map<FlowKey, FlowState>, packets: seq<Packet>, protocol: TransportProtocol)
    requires protocol != UNKNOWN && WellKeyed(flows)
    requires flows.Keys == set p | p in packets :: MakeKey(p)
    ensures FlowsOver(flows, protocol == TCP) == ConversationsOver(packets, protocol)
  {
    forall k | k in FlowsOver(flows, protocol == TCP) ensures k in ConversationsOver(packets, protocol) {
      var p :| p in packets && MakeKey(p) == k;
      assert p.protocol == protocol;
    }
  }

  /** After any run the tracker's TCP and UDP counts are the numbers of distinct TCP and UDP conversations
      among the packets, and together they are all flows. */
  lemma FlowCountsAddUp(packets: seq<Packet>)
    requires NoUnknown(packets)
    ensures FlowsOver(TrackerRun(packets), true) == ConversationsOver(packets, TCP)
    ensures FlowsOver(TrackerRun(packets), false) == ConversationsOver(packets, UDP)
    ensures |ConversationsOver(packets, TCP)| + |ConversationsOver(packets, UDP)| == |TrackerRun(packets)|
  {
    var flows := TrackerRun(packets);
    FlowsAreTheConversations(packets);
    FlowsAreWellKeyed(packets);
    FlowsOverAre(flows, packets, TCP);
    FlowsOverAre(flows, packets, UDP);
    assert FlowsOver(flows, true) + FlowsOver(flows, false) == flows.Keys;
  }
}
