/** Decoding every flow into one list of events ordered by time. */
module Timeline {
  import opened Bytes
  import opened Schema
  import opened Framing
  import opened Packets
  import opened FlowKeys
  import opened Flows
  import opened FlowTheory
  import BinaryDecoder

  datatype Direction = ClientToServer | ServerToClient | Between(src: Endpoint, dst: Endpoint)

  /** The message's own type field, when it has one. */
  datatype MessageType = Declared(value: FieldValue) | Data

  datatype Message = Message(timestampUs: u64, direction: Direction, messageType: MessageType, summary: Fields)

  datatype Event = Event(timestampUs: u64, transport: TransportProtocol, src: Endpoint, dst: Endpoint,
                         messageType: MessageType, details: Fields)

  function TypeOf(fields: Fields): MessageType {
    if "msg_type" in fields then Declared(fields["msg_type"]) else Data
  }

  /** The summary names every field but the magic number. */
  function Summary(fields: Fields): Fields {
    fields - {"magic"}
  }

  /** The type is the message's own type field if it has one, and the details are its other fields' values,
      all but the magic number. */
  ghost predicate Describes(messageType: MessageType, details: Fields, d: Fields) {
    && ("msg_type" in d ==> messageType == Declared(d["msg_type"]))
    && ("msg_type" !in d ==> messageType == Data)
    && details.Keys == d.Keys - {"magic"}
    && forall name :: name in details ==> details[name] == d[name]
  }

  lemma DescribedBy(messageType: MessageType, details: Fields, d: Fields)
    ensures Describes(messageType, details, d) <==> messageType == TypeOf(d) && details == Summary(d)
  {
    if Describes(messageType, details, d) {
      assert details.Keys == Summary(d).Keys;
    }
  }

  method DecodeToMessages(s: ProtocolSchema, data: seq<byte>, timestampUs: u64, direction: Direction)
    returns (messages: seq<Message>)
    requires Terminates(s, data)
    ensures |messages| == |DecodeAll(s, data)|
    ensures forall i :: 0 <= i < |messages| ==>
              && messages[i].timestampUs == timestampUs && messages[i].direction == direction
              && Describes(messages[i].messageType, messages[i].summary, DecodeAll(s, data)[i])
  {
    var decoded := BinaryDecoder.Decode(s, data);
    messages := [];
    for i := 0 to |decoded|
      invariant |messages| == i
      invariant forall j :: 0 <= j < i ==>
                  && messages[j].timestampUs == timestampUs && messages[j].direction == direction
                  && Describes(messages[j].messageType, messages[j].summary, decoded[j])
    {
      var messageType := Data;
      if "msg_type" in decoded[i] {
        messageType := Declared(decoded[i]["msg_type"]);
      }
      var summary := map name | name in decoded[i] && name != "magic" :: decoded[i][name];
      messages := messages + [Message(timestampUs, direction, messageType, summary)];
    }
  }

  function FromMessage(msg: Message, transport: TransportProtocol, src: Endpoint, dst: Endpoint): Event {
    Event(msg.timestampUs, transport, src, dst, msg.messageType, msg.summary)
  }

  // What the timeline must hold

  /** The events of one decoded buffer. */
  function EventsFrom(decoded: seq<Fields>, timestampUs: u64, transport: TransportProtocol,
                      src: Endpoint, dst: Endpoint): (events: seq<Event>)
    ensures |events| == |decoded|
    ensures forall i :: 0 <= i < |decoded| ==>
              && events[i].timestampUs == timestampUs && events[i].transport == transport
              && events[i].src == src && events[i].dst == dst
              && Describes(events[i].messageType, events[i].details, decoded[i])
  {
    seq(|decoded|, i requires 0 <= i < |decoded| =>
      Event(timestampUs, transport, src, dst, TypeOf(decoded[i]), Summary(decoded[i])))
  }

  /** Messages that describe decoded fields give exactly their events. */
  lemma SameEvents(messages: seq<Message>, events: seq<Event>, decoded: seq<Fields>, timestampUs: u64,
                   transport: TransportProtocol, src: Endpoint, dst: Endpoint)
    requires |messages| == |events| == |decoded|
    requires forall i :: 0 <= i < |messages| ==>
               messages[i].timestampUs == timestampUs
               && Describes(messages[i].messageType, messages[i].summary, decoded[i])
    requires forall i :: 0 <= i < |messages| ==> events[i] == FromMessage(messages[i], transport, src, dst)
    ensures events == EventsFrom(decoded, timestampUs, transport, src, dst)
  {
    forall i | 0 <= i < |events| ensures events[i] == EventsFrom(decoded, timestampUs, transport, src, dst)[i] {
      DescribedBy(messages[i].messageType, messages[i].summary, decoded[i]);
    }
  }

  function DatagramEvents(s: ProtocolSchema, d: Packet): seq<Event>
    requires Terminates(s, d.payload)
  {
    EventsFrom(DecodeAll(s, d.payload), d.timestampUs, UDP, Endpoint(d.srcIp, d.srcPort), Endpoint(d.dstIp, d.dstPort))
  }

  function AllDatagramEvents(s: ProtocolSchema, datagrams: seq<Packet>): seq<Event>
    requires forall i :: 0 <= i < |datagrams| ==> Terminates(s, datagrams[i].payload)
  {
    if datagrams == [] then [] else
    AllDatagramEvents(s, datagrams[..|datagrams| - 1]) + DatagramEvents(s, datagrams[|datagrams| - 1])
  }

  ghost predicate FlowTerminates(s: ProtocolSchema, st: FlowState) {
    match st
    case TcpState(_, c2s, s2c, _, _, _) => Terminates(s, c2s.stream) && Terminates(s, s2c.stream)
    case UdpState(_, datagrams, _, _) => forall i :: 0 <= i < |datagrams| ==> Terminates(s, datagrams[i].payload)
  }

  /** Both directions of a TCP flow, stamped with the flow's first packet; each datagram by itself. */
  function FlowEvents(s: ProtocolSchema, st: FlowState): seq<Event>
    requires FlowTerminates(s, st)
  {
    match st
    case TcpState(key, c2s, s2c, _, first, _) =>
      EventsFrom(DecodeAll(s, c2s.stream), first, TCP, key.Src(), key.Dst())
      + EventsFrom(DecodeAll(s, s2c.stream), first, TCP, key.Dst(), key.Src())
    case UdpState(_, datagrams, _, _) => AllDatagramEvents(s, datagrams)
  }

  ghost predicate AllTerminate(s: ProtocolSchema, flows: map<FlowKey, FlowState>) {
    forall k :: k in flows ==> FlowTerminates(s, flows[k])
  }

  /** Each flow's events. */
  function EventLists(s: ProtocolSchema, flows: map<FlowKey, FlowState>): (lists: map<FlowKey, seq<Event>>)
    requires AllTerminate(s, flows)
    ensures lists.Keys == flows.Keys
  {
    map k | k in flows :: FlowEvents(s, flows[k])
  }

  /** Everything in these lists, without order. */
  ghost function Union(lists: map<FlowKey, seq<Event>>): multiset<Event>
    decreases |lists|
  {
    if lists == map[] then multiset{} else
    var k := Pick(lists);
    multiset(lists[k]) + Union(lists - {k})
  }

  /** The events of all flows, without order. */
  ghost function TimelineOf(s: ProtocolSchema, flows: map<FlowKey, FlowState>): multiset<Event>
    requires AllTerminate(s, flows)
  {
    Union(EventLists(s, flows))
  }

  lemma {:induction false} UnionOut(lists: map<FlowKey, seq<Event>>, k: FlowKey)
    requires k in lists
    ensures Union(lists) == multiset(lists[k]) + Union(lists - {k})
    decreases |lists|
  {
    var j := Pick(lists);
    if j == k {
    } else {
      UnionOut(lists - {j}, k);
      UnionOut(lists - {k}, j);
      assert lists - {j} - {k} == lists - {k} - {j};
      SwapBags(multiset(lists[j]), multiset(lists[k]), Union(lists - {j} - {k}));
    }
  }

  /** The timeline is the events of each flow once, and nothing else. */
  lemma TimelineIsAllFlows(s: ProtocolSchema, flows: map<FlowKey, FlowState>, k: FlowKey)
    requires AllTerminate(s, flows)
    ensures flows == map[] ==> TimelineOf(s, flows) == multiset{}
    ensures k in flows ==>
              AllTerminate(s, flows - {k})
              && TimelineOf(s, flows) == multiset(FlowEvents(s, flows[k])) + TimelineOf(s, flows - {k})
  {
    if k in flows {
      UnionOut(EventLists(s, flows), k);
      assert EventLists(s, flows) - {k} == EventLists(s, flows - {k});
    }
  }

  /** A TCP flow shows each message of its two streams once, at the flow's first time, from sender to
      receiver; under a datagram schema that is one for each direction with data. */
  lemma TcpFlowShows(s: ProtocolSchema, st: FlowState)
    requires st.TcpState? && FlowTerminates(s, st)
    ensures var there, back := DecodeAll(s, st.clientToServer.stream), DecodeAll(s, st.serverToClient.stream);
            && |FlowEvents(s, st)| == |there| + |back|
            && (forall i :: 0 <= i < |FlowEvents(s, st)| ==>
                  var e := FlowEvents(s, st)[i];
                  && e.timestampUs == st.firstSeen && e.transport == TCP
                  && (i < |there| ==>
                        && e.src == Endpoint(st.key.srcIp, st.key.srcPort)
                        && e.dst == Endpoint(st.key.dstIp, st.key.dstPort)
                        && Describes(e.messageType, e.details, there[i]))
                  && (i >= |there| ==>
                        && e.src == Endpoint(st.key.dstIp, st.key.dstPort)
                        && e.dst == Endpoint(st.key.srcIp, st.key.srcPort)
                        && Describes(e.messageType, e.details, back[i - |there|])))
    ensures s.transport == "udp" ==>
              |FlowEvents(s, st)| == (if st.clientToServer.stream == [] then 0 else 1)
                                     + (if st.serverToClient.stream == [] then 0 else 1)
  {
    assert "udp"[0] != "tcp"[0];
  }

  /** A datagram adds its own messages to its flow, at its own time, from its sender to its receiver. */
  lemma DatagramAdds(s: ProtocolSchema, st: FlowState, d: Packet)
    requires st.UdpState? && FlowTerminates(s, st) && Terminates(s, d.payload)
    ensures FlowTerminates(s, st.(datagrams := st.datagrams + [d]))
    ensures st.datagrams == [] ==> FlowEvents(s, st) == []
    ensures var before, after := FlowEvents(s, st), FlowEvents(s, st.(datagrams := st.datagrams + [d]));
            && |after| == |before| + |DecodeAll(s, d.payload)| && before <= after
            && (forall i :: |before| <= i < |after| ==>
                  && after[i].timestampUs == d.timestampUs && after[i].transport == UDP
                  && after[i].src == Endpoint(d.srcIp, d.srcPort) && after[i].dst == Endpoint(d.dstIp, d.dstPort)
                  && Describes(after[i].messageType, after[i].details, DecodeAll(s, d.payload)[i - |before|]))
  {
    assert (st.datagrams + [d])[..|st.datagrams|] == st.datagrams;
  }

  lemma SwapBags<T>(a: multiset<T>, b: multiset<T>, rest: multiset<T>)
    ensures a + (b + rest) == b + (a + rest)
  {}

  lemma {:induction false} UnionAdd(a: map<FlowKey, seq<Event>>, b: map<FlowKey, seq<Event>>)
    requires a.Keys !! b.Keys
    ensures Union(a + b) == Union(a) + Union(b)
    decreases |a|
  {
    if a == map[] {
      assert a + b == b;
    } else {
      var k := Pick(a);
      WithoutOne(a, b, k);
      UnionAdd(a - {k}, b);
      UnionOut(a + b, k);
      GroupBags(multiset(a[k]), Union(a - {k}), Union(b));
    }
  }

  lemma WithoutOne<K, V>(a: map<K, V>, b: map<K, V>, k: K)
    requires k in a && a.Keys !! b.Keys
    ensures (a + b)[k] == a[k] && (a + b) - {k} == (a - {k}) + b && (a - {k}).Keys !! b.Keys
  {}

  lemma GroupBags<T>(a: multiset<T>, b: multiset<T>, c: multiset<T>)
    ensures a + (b + c) == (a + b) + c
  {}

  /** The events met when visiting the flows in a given order. */
  function InOrder(lists: map<FlowKey, seq<Event>>, order: seq<FlowKey>): seq<Event>
    requires forall i :: 0 <= i < |order| ==> order[i] in lists
  {
    if order == [] then [] else
    InOrder(lists, order[..|order| - 1]) + lists[order[|order| - 1]]
  }

  lemma NextList(lists: map<FlowKey, seq<Event>>, order: seq<FlowKey>, i: nat)
    requires (forall i :: 0 <= i < |order| ==> order[i] in lists) && i < |order|
    ensures InOrder(lists, order[..i + 1]) == InOrder(lists, order[..i]) + lists[order[i]]
  {
    assert order[..i + 1][..i] == order[..i];
  }

  /** Whatever order the flows are visited in, the same events are met, each as often. */
  lemma {:induction false} VisitingOrderIrrelevant(lists: map<FlowKey, seq<Event>>, order: seq<FlowKey>)
    requires Enumerates(order, lists.Keys)
    ensures multiset(InOrder(lists, order)) == Union(lists)
    decreases |order|
  {
    if order == [] {
      assert lists.Keys == {} by {
        assert forall k :: k in lists.Keys ==> k in order;
      }
    } else {
      var front, k := order[..|order| - 1], order[|order| - 1];
      EnumerateFront(order, lists.Keys);
      assert (lists - {k}).Keys == lists.Keys - {k};
      VisitingOrderIrrelevant(lists - {k}, front);
      UnionOut(lists, k);
      SameLists(lists, lists - {k}, front);
    }
  }

  lemma EnumerateFront(order: seq<FlowKey>, keys: set<FlowKey>)
    requires order != [] && Enumerates(order, keys)
    ensures var front, k := order[..|order| - 1], order[|order| - 1];
            k in keys && Enumerates(front, keys - {k})
  {
    var front, k := order[..|order| - 1], order[|order| - 1];
    assert order == front + [k];
  }

  lemma {:induction false} SameLists(lists: map<FlowKey, seq<Event>>, fewer: map<FlowKey, seq<Event>>,
                                     order: seq<FlowKey>)
    requires forall i :: 0 <= i < |order| ==>
               order[i] in lists && order[i] in fewer && lists[order[i]] == fewer[order[i]]
    ensures InOrder(lists, order) == InOrder(fewer, order)
  {
    if order == [] {
    } else {
      SameLists(lists, fewer, order[..|order| - 1]);
    }
  }

  ghost predicate SortedByTime(events: seq<Event>) {
    forall i, j :: 0 <= i < j < |events| ==> events[i].timestampUs <= events[j].timestampUs
  }

  /** Stands for the library sort: callers may rely on order and contents, not on stability. */
  method SortByTime(events: seq<Event>) returns (sorted: seq<Event>)
    ensures SortedByTime(sorted) && multiset(sorted) == multiset(events)
  {
    sorted := [];
    for n := 0 to |events|
      invariant SortedByTime(sorted) && multiset(sorted) == multiset(events[..n])
    {
      sorted := InsertByTime(sorted, events[n]);
      NextBag(events, n);
    }
    assert events[..|events|] == events;
  }

  method InsertByTime(events: seq<Event>, e: Event) returns (sorted: seq<Event>)
    requires SortedByTime(events)
    ensures SortedByTime(sorted) && multiset(sorted) == multiset(events) + multiset{e}
  {
    var i := |events|;
    while i > 0 && e.timestampUs < events[i - 1].timestampUs
      invariant 0 <= i <= |events|
      invariant forall j :: i <= j < |events| ==> e.timestampUs < events[j].timestampUs
    {
      i := i - 1;
    }
    InsertSorted(events, i, e);
    InsertBag(events, i, e);
    sorted := events[..i] + [e] + events[i..];
  }

  lemma InsertSorted(events: seq<Event>, i: nat, e: Event)
    requires SortedByTime(events) && i <= |events|
    requires i > 0 ==> events[i - 1].timestampUs <= e.timestampUs
    requires forall j :: i <= j < |events| ==> e.timestampUs < events[j].timestampUs
    ensures SortedByTime(events[..i] + [e] + events[i..])
  {
    assert forall j :: 0 <= j < i ==> events[j].timestampUs <= events[i - 1].timestampUs;
  }

  lemma NextBag<T>(s: seq<T>, n: nat)
    requires n < |s|
    ensures multiset(s[..n + 1]) == multiset(s[..n]) + multiset{s[n]}
  {
    assert s[..n + 1] == s[..n] + [s[n]];
  }

  lemma InsertBag(events: seq<Event>, i: nat, e: Event)
    requires i <= |events|
    ensures multiset(events[..i] + [e] + events[i..]) == multiset(events) + multiset{e}
  {
    assert events == events[..i] + events[i..];
  }

  class TimelineBuilder {
    const tracker: FlowTracker
    const schema: ProtocolSchema
    var events: seq<Event>

    constructor (tracker: FlowTracker, schema: ProtocolSchema)
      ensures this.tracker == tracker && this.schema == schema && events == []
    {
      this.tracker, this.schema, events := tracker, schema, [];
    }

    /** The events become a time-ordered permutation of all messages decoded from all flows; view is
        what the tracker holds, which building leaves as it is. */
    method Build(ghost view: map<FlowKey, FlowState>)
      requires tracker.Valid() && this !in tracker.footprint && view == tracker.View()
      requires AllTerminate(schema, view)
      modifies this
      ensures SortedByTime(events) && multiset(events) == TimelineOf(schema, view)
    {
      events := [];
      var states, order := Visit(view);
      events := Assemble(states, order, view);
    }

    method Assemble(states: seq<FlowState>, ghost order: seq<FlowKey>, ghost view: map<FlowKey, FlowState>)
      returns (sorted: seq<Event>)
      requires |states| == |order| && AllTerminate(schema, view) && Enumerates(order, view.Keys)
      requires forall i :: 0 <= i < |order| ==> order[i] in view && states[i] == view[order[i]]
      ensures SortedByTime(sorted) && multiset(sorted) == TimelineOf(schema, view)
    {
      var decoded := DecodeFlows(states, order, view);
      VisitingOrderIrrelevant(EventLists(schema, view), order);
      sorted := SortByTime(decoded);
    }

    /** The contents of every flow, in some order. */
    method Visit(ghost view: map<FlowKey, FlowState>) returns (states: seq<FlowState>, ghost order: seq<FlowKey>)
      requires tracker.Valid() && view == tracker.View()
      ensures Enumerates(order, view.Keys) && |states| == |order|
      ensures forall i :: 0 <= i < |order| ==> order[i] in view && states[i] == view[order[i]]
    {
      var flows;
      flows, order := tracker.GetFlows();
      states := [];
      for i := 0 to |flows|
        invariant |states| == i && forall j :: 0 <= j < i ==> states[j] == flows[j].View()
      {
        var st := flows[i].Contents();
        states := states + [st];
      }
    }

    method DecodeFlows(states: seq<FlowState>, ghost order: seq<FlowKey>, ghost view: map<FlowKey, FlowState>)
      returns (decoded: seq<Event>)
      requires |states| == |order| && AllTerminate(schema, view)
      requires forall i :: 0 <= i < |order| ==> order[i] in view && states[i] == view[order[i]]
      ensures decoded == InOrder(EventLists(schema, view), order)
    {
      ghost var lists := EventLists(schema, view);
      decoded := [];
      for i := 0 to |states|
        invariant decoded == InOrder(lists, order[..i])
      {
        var more := EventsOfFlow(states[i]);
        NextList(lists, order, i);
        decoded := decoded + more;
      }
      assert order[..|states|] == order;
    }

    method EventsOfFlow(flow: FlowState) returns (decoded: seq<Event>)
      requires FlowTerminates(schema, flow)
      ensures decoded == FlowEvents(schema, flow)
    {
      match flow
      case TcpState(key, c2s, s2c, _, first, _) =>
        decoded := DirectionEvents(c2s.stream, first, ClientToServer, key.Src(), key.Dst());
        var back := DirectionEvents(s2c.stream, first, ServerToClient, key.Dst(), key.Src());
        decoded := decoded + back;
      case UdpState(_, datagrams, _, _) =>
        decoded := [];
        for i := 0 to |datagrams|
          invariant decoded == AllDatagramEvents(schema, datagrams[..i])
        {
          var d := datagrams[i];
          var src, dst := Endpoint(d.srcIp, d.srcPort), Endpoint(d.dstIp, d.dstPort);
          var messages := DecodeToMessages(schema, d.payload, d.timestampUs, Between(src, dst));
          var more := AppendEvents(messages, UDP, src, dst);
          SameEvents(messages, more, DecodeAll(schema, d.payload), d.timestampUs, UDP, src, dst);
          assert datagrams[..i + 1][..i] == datagrams[..i];
          decoded := decoded + more;
        }
        assert datagrams[..|datagrams|] == datagrams;
    }

    /** An empty stream is not decoded. */
    method DirectionEvents(stream: seq<byte>, timestampUs: u64, direction: Direction, src: Endpoint, dst: Endpoint)
      returns (decoded: seq<Event>)
      requires Terminates(schema, stream)
      ensures decoded == EventsFrom(DecodeAll(schema, stream), timestampUs, TCP, src, dst)
    {
      decoded := [];
      if stream != [] {
        var messages := DecodeToMessages(schema, stream, timestampUs, direction);
        decoded := AppendEvents(messages, TCP, src, dst);
        SameEvents(messages, decoded, DecodeAll(schema, stream), timestampUs, TCP, src, dst);
      }
    }

    method AppendEvents(messages: seq<Message>, transport: TransportProtocol, src: Endpoint, dst: Endpoint)
      returns (decoded: seq<Event>)
      ensures |decoded| == |messages|
      ensures forall i :: 0 <= i < |messages| ==> decoded[i] == FromMessage(messages[i], transport, src, dst)
    {
      decoded := [];
      for i := 0 to |messages|
        invariant |decoded| == i
        invariant forall j :: 0 <= j < i ==> decoded[j] == FromMessage(messages[j], transport, src, dst)
      {
        decoded := decoded + [FromMessage(messages[i], transport, src, dst)];
      }
    }
  }
}
