/** Per-conversation state and the tracker that routes packets to it. */
module Flows {
  import opened Bytes
  import opened Packets
  import opened FlowKeys
  import Reassembly = TcpReassembly

  // What a flow holds, as a value

  datatype FlowState =
    | TcpState(key: FlowKey, clientToServer: Reassembly.State, serverToClient: Reassembly.State,
               packetCount: nat, firstSeen: u64, lastSeen: u64)
    | UdpState(key: FlowKey, datagrams: seq<Packet>, firstSeen: u64, lastSeen: u64)
  {
    function PacketCount(): nat {
      if TcpState? then packetCount else |datagrams|
    }

    function ByteCount(): nat {
      if TcpState? then |clientToServer.stream| + |serverToClient.stream| else PayloadTotal(datagrams)
    }
  }

  function PayloadTotal(packets: seq<Packet>): nat {
    if packets == [] then 0
    else PayloadTotal(packets[..|packets| - 1]) + |packets[|packets| - 1].payload|
  }

  predicate IsClientSide(key: FlowKey, packet: Packet) {
    packet.srcIp == key.srcIp && packet.srcPort == key.srcPort
  }

  /** A flow before its first packet; no key ever has the unknown protocol. */
  function FreshFlow(key: FlowKey): FlowState {
    if key.protocol.TCP? then TcpState(key, Reassembly.FRESH, Reassembly.FRESH, 0, 0, 0)
    else UdpState(key, [], 0, 0)
  }

  /** One packet reaches a flow. */
  function FlowStep(st: FlowState, packet: Packet): FlowState {
    var first := if st.PacketCount() == 0 then packet.timestampUs else st.firstSeen;
    match st
    case TcpState(key, c2s, s2c, count, _, _) =>
      var seg := Reassembly.SegmentOf(packet);
      if IsClientSide(key, packet)
      then TcpState(key, Reassembly.Accept(c2s, seg), s2c, count + 1, first, packet.timestampUs)
      else TcpState(key, c2s, Reassembly.Accept(s2c, seg), count + 1, first, packet.timestampUs)
    case UdpState(key, datagrams, _, _) =>
      UdpState(key, datagrams + [packet], first, packet.timestampUs)
  }

  /** One packet reaches the tracker. */
  function TrackerStep(flows: map<FlowKey, FlowState>, packet: Packet): map<FlowKey, FlowState> {
    var key := MakeKey(packet);
    flows[key := FlowStep(if key in flows then flows[key] else FreshFlow(key), packet)]
  }

  // The objects

  class TcpFlow {
    const key: FlowKey
    const clientToServer: Reassembly.TcpReassembler
    const serverToClient: Reassembly.TcpReassembler
    var packetCount: nat
    var firstSeen: u64
    var lastSeen: u64

    ghost predicate Valid() {
      clientToServer != serverToClient
    }

    ghost function Repr(): set<object> {
      {this, clientToServer, serverToClient}
    }

    ghost function View(): FlowState
      reads Repr()
    {
      TcpState(key, clientToServer.View(), serverToClient.View(), packetCount, firstSeen, lastSeen)
    }

    constructor (key: FlowKey)
      requires key.protocol == TCP
      ensures Valid() && fresh(Repr()) && View() == FreshFlow(key)
    {
      this.key := key;
      clientToServer := new Reassembly.TcpReassembler();
      serverToClient := new Reassembly.TcpReassembler();
      packetCount, firstSeen, lastSeen := 0, 0, 0;
    }

    method OnPacket(packet: Packet)
      requires Valid()
      modifies Repr()
      ensures View() == FlowStep(old(View()), packet)
    {
      if packetCount == 0 {
        firstSeen := packet.timestampUs;
      }
      lastSeen := packet.timestampUs;
      packetCount := packetCount + 1;
      if IsClientSide(key, packet) {
        clientToServer.AddSegment(packet);
      } else {
        serverToClient.AddSegment(packet);
      }
    }
  }

  class UdpDatagramTracker {
    var datagrams: seq<Packet>

    constructor ()
      ensures datagrams == []
    {
      datagrams := [];
    }

    method AddDatagram(packet: Packet)
      modifies this
      ensures datagrams == old(datagrams) + [packet]
    {
      datagrams := datagrams + [packet];
    }

    method ByteCount() returns (total: nat)
      ensures total == PayloadTotal(datagrams)
    {
      total := 0;
      for i := 0 to |datagrams|
        invariant total == PayloadTotal(datagrams[..i])
      {
        assert datagrams[..i + 1][..i] == datagrams[..i];
        total := total + |datagrams[i].payload|;
      }
      assert datagrams[..|datagrams|] == datagrams;
    }
  }

  class UdpFlow {
    const key: FlowKey
    const tracker: UdpDatagramTracker
    var firstSeen: u64
    var lastSeen: u64

    ghost function Repr(): set<object> {
      {this, tracker}
    }

    ghost function View(): FlowState
      reads Repr()
    {
      UdpState(key, tracker.datagrams, firstSeen, lastSeen)
    }

    constructor (key: FlowKey)
      requires key.protocol == UDP
      ensures fresh(Repr()) && View() == FreshFlow(key)
    {
      this.key := key;
      tracker := new UdpDatagramTracker();
      firstSeen, lastSeen := 0, 0;
    }

    method OnPacket(packet: Packet)
      modifies Repr()
      ensures View() == FlowStep(old(View()), packet)
    {
      if |tracker.datagrams| == 0 {
        firstSeen := packet.timestampUs;
      }
      lastSeen := packet.timestampUs;
      tracker.AddDatagram(packet);
    }
  }

  datatype Flow = Tcp(tcp: TcpFlow) | Udp(udp: UdpFlow) {
    ghost predicate Valid() {
      Tcp? ==> tcp.Valid()
    }

    ghost function Repr(): set<object> {
      if Tcp? then tcp.Repr() else udp.Repr()
    }

    ghost function View(): FlowState
      reads Repr()
    {
      if Tcp? then tcp.View() else udp.View()
    }

    method OnPacket(packet: Packet)
      requires Valid()
      modifies Repr()
      ensures View() == FlowStep(old(View()), packet)
    {
      match this
      case Tcp(tcp) => tcp.OnPacket(packet);
      case Udp(udp) => udp.OnPacket(packet);
    }

    /** A copy of what the flow holds, as its accessors return it. */
    method Contents() returns (st: FlowState)
      ensures st == View()
    {
      match this
      case Tcp(tcp) =>
        var c2s, s2c := tcp.clientToServer, tcp.serverToClient;
        st := TcpState(tcp.key,
                       Reassembly.State(c2s.stream, c2s.nextSeq, c2s.initialized),
                       Reassembly.State(s2c.stream, s2c.nextSeq, s2c.initialized),
                       tcp.packetCount, tcp.firstSeen, tcp.lastSeen);
      case Udp(udp) =>
        st := UdpState(udp.key, udp.tracker.datagrams, udp.firstSeen, udp.lastSeen);
    }
  }

  class FlowTracker {
    var flows: map<FlowKey, Flow>
    ghost var footprint: set<object>

    /** Flows are separate objects. */
    ghost predicate Valid()
      reads this
    {
      && this !in footprint
      && (forall k :: k in flows ==> flows[k].Valid() && flows[k].Repr() <= footprint)
      && (forall k, l :: k in flows && l in flows && k != l ==> flows[k].Repr() !! flows[l].Repr())
    }

    ghost function View(): map<FlowKey, FlowState>
      requires Valid()
      reads this, footprint
    {
      map k | k in flows :: flows[k].View()
    }

    constructor ()
      ensures Valid() && footprint == {} && View() == map[]
    {
      flows, footprint := map[], {};
    }

    /** The caller never passes a packet of an unknown protocol. */
    method OnPacket(packet: Packet)
      requires Valid() && packet.protocol != UNKNOWN
      modifies this, footprint
      ensures Valid() && fresh(footprint - old(footprint))
      ensures View() == TrackerStep(old(View()), packet)
    {
      var key := MakeKey(packet);
      ghost var before := View();
      FindOrInsert(key);
      ghost var found := View();
      Route(key, packet);
      assert View() == TrackerStep(before, packet) by {
        InsertThenStep(before, found, packet);
      }
    }

    method FindOrInsert(key: FlowKey)
      requires Valid() && key.protocol != UNKNOWN
      modifies this
      ensures Valid() && key in flows && old(footprint) <= footprint && fresh(footprint - old(footprint))
      ensures View() == if key in old(flows) then old(View()) else old(View())[key := FreshFlow(key)]
    {
      if key !in flows {
        var flow := NewFlow(key);
        Insert(key, flow);
      }
    }

    static method NewFlow(key: FlowKey) returns (flow: Flow)
      requires key.protocol != UNKNOWN
      ensures flow.Valid() && fresh(flow.Repr()) && flow.View() == FreshFlow(key)
    {
      if key.protocol == TCP {
        var tcp := new TcpFlow(key);
        flow := Tcp(tcp);
      } else {
        var udp := new UdpFlow(key);
        flow := Udp(udp);
      }
    }

    method Insert(key: FlowKey, flow: Flow)
      requires Valid() && key !in flows && flow.Valid() && flow.Repr() !! footprint && this !in flow.Repr()
      modifies this
      ensures Valid() && key in flows && footprint == old(footprint) + flow.Repr()
      ensures View() == old(View())[key := flow.View()]
    {
      ghost var before := View();
      ghost var flowView := flow.View();
      flows := flows[key := flow];
      footprint := footprint + flow.Repr();
      assert forall k :: k in before ==> flows[k].View() == before[k];
      assert flows[key].View() == flowView;
    }

    method Route(key: FlowKey, packet: Packet)
      requires Valid() && key in flows
      modifies flows[key].Repr()
      ensures Valid()
      ensures View() == old(View())[key := FlowStep(old(View())[key], packet)]
    {
      ghost var before := View();
      flows[key].OnPacket(packet);
      assert forall k :: k in before && k != key ==> flows[k].View() == before[k];
      assert View().Keys == before.Keys && View()[key] == FlowStep(before[key], packet);
    }

    /** The flows in some order, each once. */
    method GetFlows() returns (result: seq<Flow>, ghost order: seq<FlowKey>)
      ensures Enumerates(order, flows.Keys) && |result| == |order| && |result| == |flows|
      ensures forall i :: 0 <= i < |order| ==> order[i] in flows && result[i] == flows[order[i]]
    {
      result, order := [], [];
      var left := flows.Keys;
      while left != {}
        invariant left <= flows.Keys && |result| == |order| && |result| + |left| == |flows|
        invariant Enumerates(order, flows.Keys - left)
        invariant forall i :: 0 <= i < |order| ==> order[i] in flows && result[i] == flows[order[i]]
        decreases |left|
      {
        var k :| k in left;
        EnumerateOne(order, flows.Keys - left, k);
        result := result + [flows[k]];
        order := order + [k];
        assert flows.Keys - (left - {k}) == flows.Keys - left + {k};
        left := left - {k};
      }
    }

    method TcpFlowCount() returns (count: nat)
      requires Valid()
      ensures count == |set k | k in View() && View()[k].TcpState?|
    {
      count := 0;
      var left := flows.Keys;
      ghost var seen: set<FlowKey> := {};
      while left != {}
        invariant left <= flows.Keys && count == |seen|
        invariant forall k :: k in seen <==> k in flows && k !in left && flows[k].Tcp?
        decreases |left|
      {
        var k :| k in left;
        if flows[k].Tcp? {
          count := count + 1;
          seen := seen + {k};
        }
        left := left - {k};
      }
      assert seen == set k | k in View() && View()[k].TcpState?;
    }

    method UdpFlowCount() returns (count: nat)
      requires Valid()
      ensures count == |set k | k in View() && View()[k].UdpState?|
    {
      count := 0;
      var left := flows.Keys;
      ghost var seen: set<FlowKey> := {};
      while left != {}
        invariant left <= flows.Keys && count == |seen|
        invariant forall k :: k in seen <==> k in flows && k !in left && flows[k].Udp?
        decreases |left|
      {
        var k :| k in left;
        if flows[k].Udp? {
          count := count + 1;
          seen := seen + {k};
        }
        left := left - {k};
      }
      assert seen == set k | k in View() && View()[k].UdpState?;
    }
  }

  lemma InsertThenStep(flows: map<FlowKey, FlowState>, found: map<FlowKey, FlowState>, packet: Packet)
    requires found == if MakeKey(packet) in flows then flows else flows[MakeKey(packet) := FreshFlow(MakeKey(packet))]
    ensures found[MakeKey(packet) := FlowStep(found[MakeKey(packet)], packet)] == TrackerStep(flows, packet)
  {}

  /** order lists every key once. */
  ghost predicate Enumerates(order: seq<FlowKey>, keys: set<FlowKey>) {
    && (forall k :: k in order <==> k in keys)
    && (forall i, j :: 0 <= i < j < |order| ==> order[i] != order[j])
  }

  lemma EnumerateOne(order: seq<FlowKey>, keys: set<FlowKey>, k: FlowKey)
    requires Enumerates(order, keys) && k !in keys
    ensures Enumerates(order + [k], keys + {k})
  {}
}
