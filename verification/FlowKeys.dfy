/** The canonical key both directions of a conversation share. */
module FlowKeys {
  import opened Bytes
  import opened Packets

  datatype Endpoint = Endpoint(ip: string, port: u16)

  datatype FlowKey = FlowKey(srcIp: string, srcPort: u16, dstIp: string, dstPort: u16,
                             protocol: TransportProtocol) {
    /** The smaller endpoint first, addresses compared as strings. */
    function Normalized(): FlowKey {
      if StringLess(dstIp, srcIp) || (srcIp == dstIp && srcPort > dstPort)
      then Swapped()
      else this
    }

    function Swapped(): FlowKey {
      FlowKey(dstIp, dstPort, srcIp, srcPort, protocol)
    }

    function Src(): Endpoint {
      Endpoint(srcIp, srcPort)
    }

    function Dst(): Endpoint {
      Endpoint(dstIp, dstPort)
    }
  }

  /** Lexicographic order; a proper prefix is smaller. */
  predicate StringLess(a: string, b: string) {
    b != [] && (a == [] || a[0] < b[0] || (a[0] == b[0] && StringLess(a[1..], b[1..])))
  }

  lemma {:induction false} StringLessAsymmetric(a: string, b: string)
    requires StringLess(a, b)
    ensures !StringLess(b, a)
  {
    if a == [] || a[0] != b[0] {
    } else {
      StringLessAsymmetric(a[1..], b[1..]);
    }
  }

  lemma {:induction false} StringLessTotal(a: string, b: string)
    ensures a == b || StringLess(a, b) || StringLess(b, a)
  {
    if a == [] || b == [] || a[0] != b[0] {
    } else {
      StringLessTotal(a[1..], b[1..]);
      assert a == [a[0]] + a[1..] && b == [b[0]] + b[1..];
    }
  }

  lemma StringLessIrreflexive(a: string)
    ensures !StringLess(a, a)
  {
    if StringLess(a, a) {
      StringLessAsymmetric(a, a);
    }
  }

  /** The first difference decides; a proper prefix comes first. */
  ghost predicate DiffersAt(a: string, b: string, i: int) {
    && 0 <= i <= |a| && i < |b| && a[..i] == b[..i]
    && (i == |a| || a[i] < b[i])
  }

  lemma {:induction false} StringLessMeaning(a: string, b: string)
    ensures StringLess(a, b) <==> exists i :: DiffersAt(a, b, i)
  {
    if StringLess(a, b) {
      if a == [] || a[0] < b[0] {
        assert DiffersAt(a, b, 0);
      } else {
        StringLessMeaning(a[1..], b[1..]);
        var i :| DiffersAt(a[1..], b[1..], i);
        assert a[..i + 1] == [a[0]] + a[1..][..i] && b[..i + 1] == [b[0]] + b[1..][..i];
        assert DiffersAt(a, b, i + 1);
      }
    }
    if i :| DiffersAt(a, b, i) {
      if i > 0 {
        assert a[0] == a[..i][0] && b[0] == b[..i][0];
        assert a[1..][..i - 1] == a[..i][1..] && b[1..][..i - 1] == b[..i][1..];
        assert DiffersAt(a[1..], b[1..], i - 1);
        StringLessMeaning(a[1..], b[1..]);
      }
    }
  }

  /** A normalized key has its smaller endpoint first. */
  lemma NormalizedIsOrdered(k: FlowKey)
    ensures var n := k.Normalized();
            !StringLess(n.dstIp, n.srcIp) && (n.srcIp == n.dstIp ==> n.srcPort <= n.dstPort)
  {
    StringLessIrreflexive(k.srcIp);
    if StringLess(k.dstIp, k.srcIp) {
      StringLessAsymmetric(k.dstIp, k.srcIp);
    }
  }

  lemma NormalizedIdempotent(k: FlowKey)
    ensures k.Normalized().Normalized() == k.Normalized()
  {
    StringLessIrreflexive(k.srcIp);
    if StringLess(k.dstIp, k.srcIp) {
      StringLessAsymmetric(k.dstIp, k.srcIp);
    }
  }

  /** Normalizing forgets the direction and nothing else. */
  lemma SameNormalizedKey(a: FlowKey, b: FlowKey)
    ensures a.Normalized() == b.Normalized() <==> (a == b || a == b.Swapped())
  {
    StringLessTotal(b.srcIp, b.dstIp);
    StringLessIrreflexive(b.srcIp);
    if StringLess(b.srcIp, b.dstIp) {
      StringLessAsymmetric(b.srcIp, b.dstIp);
    }
    if StringLess(b.dstIp, b.srcIp) {
      StringLessAsymmetric(b.dstIp, b.srcIp);
    }
  }

  function PacketKey(packet: Packet): FlowKey {
    FlowKey(packet.srcIp, packet.srcPort, packet.dstIp, packet.dstPort, packet.protocol)
  }

  function MakeKey(packet: Packet): FlowKey {
    PacketKey(packet).Normalized()
  }

  /** Two packets share a flow exactly when they belong to one conversation, in either direction. */
  lemma SameFlowIffSameConversation(p: Packet, q: Packet)
    ensures MakeKey(p) == MakeKey(q)
       <==> p.protocol == q.protocol
            && (   (p.srcIp == q.srcIp && p.srcPort == q.srcPort && p.dstIp == q.dstIp && p.dstPort == q.dstPort)
                || (p.srcIp == q.dstIp && p.srcPort == q.dstPort && p.dstIp == q.srcIp && p.dstPort == q.srcPort))
  {
    SameNormalizedKey(PacketKey(p), PacketKey(q));
  }

  /** Every packet's sender is one of its flow's two endpoints, and its receiver the other. */
  lemma KeyHasBothEndpoints(p: Packet)
    ensures var k := MakeKey(p);
            && k.protocol == p.protocol
            && (   (k.Src() == Endpoint(p.srcIp, p.srcPort) && k.Dst() == Endpoint(p.dstIp, p.dstPort))
                || (k.Dst() == Endpoint(p.srcIp, p.srcPort) && k.Src() == Endpoint(p.dstIp, p.dstPort)))
  {}
}
