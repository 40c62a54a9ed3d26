/** How the timeline of a capture relates to the timeline of a longer one. */
module TimelineGrowth {
  import opened Bytes
  import opened Schema
  import opened Framing
  import opened FramingTheory
  import opened Packets
  import opened FlowKeys
  import opened Flows
  import opened FlowTheory
  import opened Timeline
  import Reassembly = TcpReassembly

  /** Schemas under which half-received messages are handled on every stream. */
  predicate Resumable(s: ProtocolSchema) {
    UsesLengthFraming(s) && AlwaysProgresses(s) && LengthInHeader(s)
  }

  lemma EverythingTerminates(s: ProtocolSchema, flows: map<FlowKey, FlowState>)
    requires UsesLengthFraming(s) ==> AlwaysProgresses(s)
    ensures AllTerminate(s, flows)
  {
    forall k | k in flows ensures FlowTerminates(s, flows[k]) {
      FlowAlwaysTerminates(s, flows[k]);
    }
  }

  lemma FlowAlwaysTerminates(s: ProtocolSchema, flow: FlowState)
    requires UsesLengthFraming(s) ==> AlwaysProgresses(s)
    ensures FlowTerminates(s, flow)
  {
    match flow
    case TcpState(_, c2s, s2c, _, _, _) =>
      DecodingEnds(s, c2s.stream);
      DecodingEnds(s, s2c.stream);
    case UdpState(_, datagrams, _, _) =>
      forall i | 0 <= i < |datagrams| ensures Terminates(s, datagrams[i].payload) {
        DecodingEnds(s, datagrams[i].payload);
      }
  }

  lemma DecodingEnds(s: ProtocolSchema, data: seq<byte>)
    requires UsesLengthFraming(s) ==> AlwaysProgresses(s)
    ensures Terminates(s, data)
  {
    if UsesLengthFraming(s) {
      ProgressHolds(s, data);
    }
  }

  /** Decoding a longer stream only adds messages at the end. */
  lemma DecodedPrefix(s: ProtocolSchema, a: seq<byte>, b: seq<byte>)
    requires Resumable(s)
    ensures Terminates(s, a) && Terminates(s, a + b) && DecodeAll(s, a) <= DecodeAll(s, a + b)
  {
    ProgressHolds(s, a);
    ProgressHolds(s, a + b);
    DecodingResumes(s, a, b);
  }

  lemma PrefixBag<T>(a: seq<T>, b: seq<T>)
    requires a <= b
    ensures multiset(a) <= multiset(b)
  {
    assert b == a + b[|a|..];
  }

  lemma EventsPrefix(a: seq<Fields>, b: seq<Fields>, timestampUs: u64, src: Endpoint, dst: Endpoint)
    requires a <= b
    ensures multiset(EventsFrom(a, timestampUs, TCP, src, dst)) <= multiset(EventsFrom(b, timestampUs, TCP, src, dst))
  {
    PrefixBag(EventsFrom(a, timestampUs, TCP, src, dst), EventsFrom(b, timestampUs, TCP, src, dst));
  }

  // One flow

  /** Every event the earlier state shows is one of the later state's. */
  ghost predicate Keeps(s: ProtocolSchema, before: FlowState, after: FlowState) {
    && FlowTerminates(s, before) && FlowTerminates(s, after)
    && multiset(FlowEvents(s, before)) <= multiset(FlowEvents(s, after))
  }

  lemma {:induction false} PacketsOfAppend(packets: seq<Packet>, more: seq<Packet>, key: FlowKey)
    ensures PacketsOf(packets + more, key) == PacketsOf(packets, key) + PacketsOf(more, key)
  {
    if more == [] {
      assert packets + more == packets;
    } else {
      var front, last := more[..|more| - 1], more[|more| - 1];
      PacketsOfAppend(packets, front, key);
      assert packets + more == (packets + front) + [last];
    }
  }

  lemma {:induction false} DirectionAppend(key: FlowKey, packets: seq<Packet>, more: seq<Packet>, client: bool)
    ensures DirectionOf(key, packets + more, client)
         == DirectionOf(key, packets, client) + DirectionOf(key, more, client)
  {
    if more == [] {
      assert packets + more == packets;
    } else {
      var front, last := more[..|more| - 1], more[|more| - 1];
      DirectionAppend(key, packets, front, client);
      assert packets + more == (packets + front) + [last];
    }
  }

  /** In each direction the later stream decodes to the earlier messages and more. */
  lemma DirectionKeeps(s: ProtocolSchema, key: FlowKey, own: seq<Packet>, more: seq<Packet>, client: bool)
    requires Resumable(s)
    ensures var before := Reassembly.Run(DirectionOf(key, own, client)).stream;
            var after := Reassembly.Run(DirectionOf(key, own + more, client)).stream;
            Terminates(s, before) && Terminates(s, after) && DecodeAll(s, before) <= DecodeAll(s, after)
  {
    var before := Reassembly.Run(DirectionOf(key, own, client)).stream;
    var after := Reassembly.Run(DirectionOf(key, own + more, client)).stream;
    DirectionAppend(key, own, more, client);
    Reassembly.StreamGrows(DirectionOf(key, own, client), DirectionOf(key, more, client));
    assert after == before + after[|before|..];
    DecodedPrefix(s, before, after[|before|..]);
  }

  lemma TcpFlowKeeps(s: ProtocolSchema, key: FlowKey, own: seq<Packet>, more: seq<Packet>)
    requires Resumable(s) && key.protocol == TCP && own != []
    ensures Keeps(s, FlowRun(key, own), FlowRun(key, own + more))
  {
    DirectionsAreIndependent(key, own);
    DirectionsAreIndependent(key, own + more);
    DirectionKeeps(s, key, own, more, true);
    DirectionKeeps(s, key, own, more, false);
    StatesKeep(s, FlowRun(key, own), FlowRun(key, own + more));
  }

  lemma StatesKeep(s: ProtocolSchema, before: FlowState, after: FlowState)
    requires before.TcpState? && after.TcpState? && before.key == after.key && before.firstSeen == after.firstSeen
    requires FlowTerminates(s, before) && FlowTerminates(s, after)
    requires DecodeAll(s, before.clientToServer.stream) <= DecodeAll(s, after.clientToServer.stream)
    requires DecodeAll(s, before.serverToClient.stream) <= DecodeAll(s, after.serverToClient.stream)
    ensures Keeps(s, before, after)
  {
    var key, first := before.key, before.firstSeen;
    EventsPrefix(DecodeAll(s, before.clientToServer.stream), DecodeAll(s, after.clientToServer.stream), first,
                 key.Src(), key.Dst());
    EventsPrefix(DecodeAll(s, before.serverToClient.stream), DecodeAll(s, after.serverToClient.stream), first,
                 key.Dst(), key.Src());
  }

  lemma {:induction false} DatagramsKeep(s: ProtocolSchema, own: seq<Packet>, more: seq<Packet>)
    requires forall i :: 0 <= i < |own + more| ==> Terminates(s, (own + more)[i].payload)
    ensures forall i :: 0 <= i < |own| ==> Terminates(s, own[i].payload)
    ensures AllDatagramEvents(s, own) <= AllDatagramEvents(s, own + more)
  {
    assert forall i :: 0 <= i < |own| ==> own[i] == (own + more)[i];
    if more == [] {
      assert own + more == own;
    } else {
      var front, last := more[..|more| - 1], more[|more| - 1];
      assert own + more == (own + front) + [last];
      assert forall i :: 0 <= i < |own + front| ==> (own + front)[i] == (own + more)[i];
      DatagramsKeep(s, own, front);
    }
  }

  lemma DatagramFlowKeeps(s: ProtocolSchema, key: FlowKey, own: seq<Packet>, more: seq<Packet>)
    requires key.protocol != TCP && FlowTerminates(s, FlowRun(key, own + more))
    ensures Keeps(s, FlowRun(key, own), FlowRun(key, own + more))
  {
    UdpFlowKeepsDatagrams(key, own);
    UdpFlowKeepsDatagrams(key, own + more);
    DatagramsKeep(s, own, more);
    PrefixBag(AllDatagramEvents(s, own), AllDatagramEvents(s, own + more));
  }

  // The whole tracker

  /** Replacing events by more of them, flow by flow, gives more events in all. */
  lemma {:induction false} UnionGrows(a: map<FlowKey, seq<Event>>, b: map<FlowKey, seq<Event>>)
    requires a.Keys <= b.Keys && forall k :: k in a ==> multiset(a[k]) <= multiset(b[k])
    ensures Union(a) <= Union(b)
    decreases |a|
  {
    if a == map[] {
    } else {
      var k := Pick(a);
      UnionOut(b, k);
      UnionGrows(a - {k}, b - {k});
    }
  }

  ghost predicate NoTcp(packets: seq<Packet>) {
    forall i :: 0 <= i < |packets| ==> packets[i].protocol != TCP
  }

  lemma {:induction false} NoTcpFlow(packets: seq<Packet>, key: FlowKey)
    requires NoTcp(packets) && PacketsOf(packets, key) != []
    ensures key.protocol != TCP
  {
    var front, last := packets[..|packets| - 1], packets[|packets| - 1];
    if PacketsOf(front, key) != [] {
      NoTcpFlow(front, key);
    } else {
      assert MakeKey(last) == key;
    }
  }

  lemma FlowKept(s: ProtocolSchema, packets: seq<Packet>, more: seq<Packet>, key: FlowKey)
    requires AllTerminate(s, TrackerRun(packets + more)) && (Resumable(s) || NoTcp(packets))
    requires key in TrackerRun(packets)
    ensures key in TrackerRun(packets + more)
    ensures Keeps(s, TrackerRun(packets)[key], TrackerRun(packets + more)[key])
  {
    Demultiplexing(packets, key);
    Demultiplexing(packets + more, key);
    PacketsOfAppend(packets, more, key);
    if key.protocol == TCP {
      if NoTcp(packets) {
        NoTcpFlow(packets, key);
      }
      TcpFlowKeeps(s, key, PacketsOf(packets, key), PacketsOf(more, key));
    } else {
      DatagramFlowKeeps(s, key, PacketsOf(packets, key), PacketsOf(more, key));
    }
  }

  lemma EventsKept(s: ProtocolSchema, packets: seq<Packet>, more: seq<Packet>)
    requires AllTerminate(s, TrackerRun(packets + more)) && (Resumable(s) || NoTcp(packets))
    ensures AllTerminate(s, TrackerRun(packets))
    ensures TimelineOf(s, TrackerRun(packets)) <= TimelineOf(s, TrackerRun(packets + more))
  {
    var before, after := TrackerRun(packets), TrackerRun(packets + more);
    forall key | key in before ensures key in after && Keeps(s, before[key], after[key]) {
      FlowKept(s, packets, more, key);
    }
    ListsGrow(s, before, after);
  }

  lemma ListsGrow(s: ProtocolSchema, before: map<FlowKey, FlowState>, after: map<FlowKey, FlowState>)
    requires AllTerminate(s, after)
    requires forall key :: key in before ==> key in after && Keeps(s, before[key], after[key])
    ensures AllTerminate(s, before) && TimelineOf(s, before) <= TimelineOf(s, after)
  {
    UnionGrows(EventLists(s, before), EventLists(s, after));
  }

  /** Whatever packets a capture is continued with, every event it showed is still shown: no message, once
      decoded, is lost or changed by what arrives later in any flow. */
  lemma LongerCaptureKeepsEvents(s: ProtocolSchema, packets: seq<Packet>, more: seq<Packet>)
    requires Resumable(s)
    ensures AllTerminate(s, TrackerRun(packets)) && AllTerminate(s, TrackerRun(packets + more))
    ensures TimelineOf(s, TrackerRun(packets)) <= TimelineOf(s, TrackerRun(packets + more))
  {
    EverythingTerminates(s, TrackerRun(packets + more));
    EventsKept(s, packets, more);
  }

  /** The same for captures without TCP packets under every other schema on which decoding ends, datagram
      schemas among them; the packets that follow may be of any kind. */
  lemma LongerDatagramCaptureKeepsEvents(s: ProtocolSchema, packets: seq<Packet>, more: seq<Packet>)
    requires NoTcp(packets) && (UsesLengthFraming(s) ==> AlwaysProgresses(s))
    ensures AllTerminate(s, TrackerRun(packets)) && AllTerminate(s, TrackerRun(packets + more))
    ensures TimelineOf(s, TrackerRun(packets)) <= TimelineOf(s, TrackerRun(packets + more))
  {
    EverythingTerminates(s, TrackerRun(packets + more));
    EventsKept(s, packets, more);
  }
}
