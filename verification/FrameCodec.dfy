/** Frames as senders build them, and the proof that the parser inverts their serialization. */
module FrameCodec {
  import opened Bytes
  import opened Wrappers
  import opened Packets
  import opened FlowKeys
  import opened DottedQuads
  import opened PacketParser

  /** An Ethernet II frame holding one IPv4 packet (section 3.1 of RFC 791). The parts the parser never
      consults are kept as raw bytes. */
  datatype IpFrame = IpFrame(
    link: seq<byte>,      // both MAC addresses and the ethertype
    head: seq<byte>,      // from the second byte of the IP header up to the time to live
    checksum: seq<byte>,
    src: seq<byte>,
    dst: seq<byte>,
    options: seq<byte>,
    body: Transport)

  /** A TCP segment (section 3.1 of RFC 9293) or a UDP datagram (RFC 768). */
  datatype Transport =
    | TcpSegment(srcPort: u16, dstPort: u16, seqNo: u32, ack: u32, reserved: nat, flags: byte,
                 window: seq<byte>, tcpOptions: seq<byte>, payload: seq<byte>)
    | UdpDatagram(srcPort: u16, dstPort: u16, lengthAndChecksum: seq<byte>, payload: seq<byte>)

  /** Options fill whole 32-bit words, at most ten of them. */
  predicate ValidOptions(options: seq<byte>) {
    |options| % 4 == 0 && |options| <= 40
  }

  predicate ValidTransport(t: Transport) {
    match t
    case TcpSegment(_, _, _, _, reserved, _, window, tcpOptions, _) =>
      reserved < 16 && |window| == 6 && ValidOptions(tcpOptions)
    case UdpDatagram(_, _, lengthAndChecksum, _) => |lengthAndChecksum| == 4
  }

  predicate ValidFrame(f: IpFrame) {
    && |f.link| == 14 && |f.head| == 8 && |f.checksum| == 2 && |f.src| == 4 && |f.dst| == 4
    && ValidOptions(f.options) && ValidTransport(f.body)
  }

  /** The header length in 32-bit words, and the reserved bits. */
  function OffsetAndReserved(options: seq<byte>, reserved: nat): byte
    requires ValidOptions(options) && reserved < 16
  {
    (5 + |options| / 4) * 16 + reserved
  }

  function SerializeTransport(t: Transport): seq<byte>
    requires ValidTransport(t)
  {
    match t
    case TcpSegment(srcPort, dstPort, seqNo, ack, reserved, flags, window, tcpOptions, payload) =>
      ToBigEndian(srcPort, 2) + ToBigEndian(dstPort, 2) + ToBigEndian(seqNo, 4) + ToBigEndian(ack, 4)
      + [OffsetAndReserved(tcpOptions, reserved)] + [flags] + window + tcpOptions + payload
    case UdpDatagram(srcPort, dstPort, lengthAndChecksum, payload) =>
      ToBigEndian(srcPort, 2) + ToBigEndian(dstPort, 2) + lengthAndChecksum + payload
  }

  /** The protocol numbers of RFC 9293 and RFC 768. */
  function Protocol(t: Transport): byte {
    if t.TcpSegment? then 6 else 17
  }

  function SerializeHeader(f: IpFrame): (bs: seq<byte>)
    requires ValidFrame(f)
    ensures |bs| == 34
  {
    f.link + [0x40 + 5 + |f.options| / 4] + f.head + [Protocol(f.body)] + f.checksum + f.src + f.dst
  }

  function Serialize(f: IpFrame): seq<byte>
    requires ValidFrame(f)
  {
    SerializeHeader(f) + f.options + SerializeTransport(f.body)
  }

  /** The packet a frame stands for. */
  function PacketOf(f: IpFrame): Packet
    requires ValidFrame(f)
  {
    var src, dst := DottedQuad(f.src), DottedQuad(f.dst);
    match f.body
    case TcpSegment(srcPort, dstPort, seqNo, ack, _, flags, _, _, payload) =>
      Packet(0, src, dst, srcPort, dstPort, TCP, payload, seqNo, ack, flags)
    case UdpDatagram(srcPort, dstPort, _, payload) =>
      Packet(0, src, dst, srcPort, dstPort, UDP, payload, 0, 0, 0)
  }

  // Reading back what was written

  lemma ReadBack16(v: u16)
    ensures BigEndian(ToBigEndian(v, 2)) == v
  {
    PowValues();
    BigEndianRoundTrip(v, 2);
  }

  lemma ReadBack32(v: u32)
    ensures BigEndian(ToBigEndian(v, 4)) == v
  {
    PowValues();
    BigEndianRoundTrip(v, 4);
  }

  lemma TcpParts(t: Transport, more: seq<byte>)
    requires t.TcpSegment? && ValidTransport(t)
    ensures var data := SerializeTransport(t) + more;
            && |data| >= 20
            && data[0..2] == ToBigEndian(t.srcPort, 2) && data[2..4] == ToBigEndian(t.dstPort, 2)
            && data[4..8] == ToBigEndian(t.seqNo, 4) && data[8..12] == ToBigEndian(t.ack, 4)
            && data[12] == OffsetAndReserved(t.tcpOptions, t.reserved) && data[13] == t.flags
            && From(data, 20 + |t.tcpOptions|) == t.payload + more
  {
    NinePieces(ToBigEndian(t.srcPort, 2), ToBigEndian(t.dstPort, 2), ToBigEndian(t.seqNo, 4), ToBigEndian(t.ack, 4),
               [OffsetAndReserved(t.tcpOptions, t.reserved)], [t.flags], t.window, t.tcpOptions, t.payload, more);
  }

  lemma NinePieces(a: seq<byte>, b: seq<byte>, c: seq<byte>, d: seq<byte>, e: seq<byte>, f: seq<byte>,
                   w: seq<byte>, o: seq<byte>, p: seq<byte>, more: seq<byte>)
    requires |a| == |b| == 2 && |c| == |d| == 4 && |e| == |f| == 1 && |w| == 6
    ensures var data := a + b + c + d + e + f + w + o + p + more;
            && |data| >= 20
            && data[0..2] == a && data[2..4] == b && data[4..8] == c && data[8..12] == d
            && data[12] == e[0] && data[13] == f[0] && From(data, 20 + |o|) == p + more
  {
    var data := a + b + c + d + e + f + w + o + p + more;
    if 20 + |o| < |data| {
      assert data[20 + |o|..] == p + more;
    }
  }

  lemma OffsetWords(options: seq<byte>, reserved: nat)
    requires ValidOptions(options) && reserved < 16
    ensures OffsetAndReserved(options, reserved) / 16 * 4 == 20 + |options|
  {}

  lemma ParsesTcp(t: Transport, src: string, dst: string, more: seq<byte>)
    requires t.TcpSegment? && ValidTransport(t)
    ensures ParseTransport(PROTO_TCP, src, dst, SerializeTransport(t) + more)
         == Some(Packet(0, src, dst, t.srcPort, t.dstPort, TCP, t.payload + more, t.seqNo, t.ack, t.flags))
  {
    var data := SerializeTransport(t) + more;
    TcpParts(t, more);
    OffsetWords(t.tcpOptions, t.reserved);
    assert Big16(data, 0) == t.srcPort by { ReadBack16(t.srcPort); }
    assert Big16(data, 2) == t.dstPort by { ReadBack16(t.dstPort); }
    assert Big32(data, 4) == t.seqNo by { ReadBack32(t.seqNo); }
    assert Big32(data, 8) == t.ack by { ReadBack32(t.ack); }
  }

  lemma ParsesUdp(t: Transport, src: string, dst: string, more: seq<byte>)
    requires t.UdpDatagram? && ValidTransport(t)
    ensures ParseTransport(PROTO_UDP, src, dst, SerializeTransport(t) + more)
         == Some(Packet(0, src, dst, t.srcPort, t.dstPort, UDP, t.payload + more, 0, 0, 0))
  {
    var data := SerializeTransport(t) + more;
    FourPieces(ToBigEndian(t.srcPort, 2), ToBigEndian(t.dstPort, 2), t.lengthAndChecksum, t.payload, more);
    assert Big16(data, 0) == t.srcPort by { ReadBack16(t.srcPort); }
    assert Big16(data, 2) == t.dstPort by { ReadBack16(t.dstPort); }
  }

  lemma FourPieces(a: seq<byte>, b: seq<byte>, c: seq<byte>, p: seq<byte>, more: seq<byte>)
    requires |a| == |b| == 2 && |c| == 4
    ensures var data := a + b + c + p + more;
            |data| >= 8 && data[0..2] == a && data[2..4] == b && From(data, 8) == p + more
  {
    var data := a + b + c + p + more;
    if 8 < |data| {
      assert data[8..] == p + more;
    }
  }

  lemma HeaderParts(f: IpFrame, more: seq<byte>)
    requires ValidFrame(f)
    ensures var data := SerializeHeader(f) + f.options + more;
            && data[14] / 16 == 4 && 14 + data[14] % 16 * 4 == 34 + |f.options|
            && data[23] == Protocol(f.body) && data[26..30] == f.src && data[30..34] == f.dst
            && data[34 + |f.options|..] == more
  {
    var data := SerializeHeader(f) + f.options + more;
    assert data[14] == 0x40 + 5 + |f.options| / 4;
  }

  /** Parsing recovers addresses, ports, numbers, flags and payload. Nothing tells the parser where the
      IP packet ends, so bytes captured after it are taken for payload as well. */
  lemma ParseInvertsSerialize(f: IpFrame, trailer: seq<byte>)
    requires ValidFrame(f)
    ensures var data := Serialize(f) + trailer;
            && IpHeaderCaptured(data)
            && ParseFrame(data) == Some(PacketOf(f).(payload := PacketOf(f).payload + trailer))
  {
    var more := SerializeTransport(f.body) + trailer;
    assert Serialize(f) + trailer == SerializeHeader(f) + f.options + more;
    HeaderParts(f, more);
    if f.body.TcpSegment? {
      ParsesTcp(f.body, DottedQuad(f.src), DottedQuad(f.dst), trailer);
    } else {
      ParsesUdp(f.body, DottedQuad(f.src), DottedQuad(f.dst), trailer);
    }
  }

  /** The payload is exact exactly when the capture ends with the IP packet. */
  lemma PayloadExactWhen(f: IpFrame, trailer: seq<byte>)
    requires ValidFrame(f)
    ensures IpHeaderCaptured(Serialize(f) + trailer)
    ensures ParseFrame(Serialize(f) + trailer) == Some(PacketOf(f)) <==> trailer == []
  {
    ParseInvertsSerialize(f, trailer);
    var p := PacketOf(f);
    assert p.payload + trailer == p.payload <==> trailer == [] by {
      assert |p.payload + trailer| == |p.payload| + |trailer|;
    }
    assert p.(payload := p.payload + trailer) == p <==> p.payload + trailer == p.payload;
  }

  // What the IP total length says (section 3.1 of RFC 791), which the parser never consults

  function TotalLength(data: seq<byte>): u16
    requires |data| >= 18
  {
    Big16(data, 16)
  }

  /** The frame ends where its own total length says. */
  predicate LengthRight(f: IpFrame)
    requires ValidFrame(f)
  {
    14 + Big16(f.head, 1) == |Serialize(f)|
  }

  lemma TotalLengthInHead(f: IpFrame, trailer: seq<byte>)
    requires ValidFrame(f)
    ensures |Serialize(f)| >= 34 && TotalLength(Serialize(f) + trailer) == Big16(f.head, 1)
  {
    var data := Serialize(f) + trailer;
    assert data[15..23] == f.head;
    SliceOfTail(data, 15, 1, 3);
    assert data[15..23][1..3] == data[16..18];
  }

  /** For frames whose total length is right, the captured bytes alone tell whether the payload is exact. */
  lemma PayloadExactByLength(f: IpFrame, trailer: seq<byte>)
    requires ValidFrame(f) && LengthRight(f)
    ensures var data := Serialize(f) + trailer;
            && IpHeaderCaptured(data) && |data| >= 18
            && (ParseFrame(data) == Some(PacketOf(f)) <==> |data| == 14 + TotalLength(data))
  {
    PayloadExactWhen(f, trailer);
    TotalLengthInHead(f, trailer);
  }

  // Every accepted frame is a serialization

  /** The header lengths the frame declares are at least the minimum, and captured. */
  predicate SaneOffsets(data: seq<byte>) {
    && |data| >= 34 && data[14] % 16 >= 5
    && var start := 14 + data[14] % 16 * 4;
       && start <= |data|
       && (data[23] == PROTO_TCP ==>
             |data| >= start + 20 && data[start + 12] / 16 >= 5 && start + data[start + 12] / 16 * 4 <= |data|)
  }

  function TransportFrom(protocol: byte, data: seq<byte>): Transport
    requires |data| >= if protocol == PROTO_TCP then 20 else 8
    requires protocol == PROTO_TCP ==> 20 <= data[12] / 16 * 4 <= |data|
  {
    if protocol == PROTO_TCP then
      TcpSegment(Big16(data, 0), Big16(data, 2), Big32(data, 4), Big32(data, 8), data[12] % 16, data[13],
                 data[14..20], data[20..data[12] / 16 * 4], data[data[12] / 16 * 4..])
    else UdpDatagram(Big16(data, 0), Big16(data, 2), data[4..8], data[8..])
  }

  lemma TransportBack(protocol: byte, data: seq<byte>)
    requires |data| >= if protocol == PROTO_TCP then 20 else 8
    requires protocol == PROTO_TCP ==> 20 <= data[12] / 16 * 4 <= |data|
    ensures ValidTransport(TransportFrom(protocol, data))
    ensures SerializeTransport(TransportFrom(protocol, data)) == data
  {
    if protocol == PROTO_TCP {
      TcpBack(data, data[12] / 16 * 4);
    } else {
      BigEndianInverse(data[0..2]);
      BigEndianInverse(data[2..4]);
      UdpPieces(data);
    }
  }

  lemma TcpBack(data: seq<byte>, n: nat)
    requires |data| >= 20 && n == data[12] / 16 * 4 && 20 <= n <= |data|
    ensures var t := TransportFrom(PROTO_TCP, data);
            ValidTransport(t) && SerializeTransport(t) == data
  {
    BigEndianInverse(data[0..2]);
    BigEndianInverse(data[2..4]);
    BigEndianInverse(data[4..8]);
    BigEndianInverse(data[8..12]);
    TcpRejoined(TransportFrom(PROTO_TCP, data), data, n);
  }

  lemma TcpRejoined(t: Transport, data: seq<byte>, n: nat)
    requires |data| >= 20 && n == data[12] / 16 * 4 && 20 <= n <= |data|
    requires t.TcpSegment? && t.reserved == data[12] % 16 && t.flags == data[13]
    requires t.window == data[14..20] && t.tcpOptions == data[20..n] && t.payload == data[n..]
    requires ToBigEndian(t.srcPort, 2) == data[0..2] && ToBigEndian(t.dstPort, 2) == data[2..4]
    requires ToBigEndian(t.seqNo, 4) == data[4..8] && ToBigEndian(t.ack, 4) == data[8..12]
    ensures ValidTransport(t) && SerializeTransport(t) == data
  {
    assert |t.tcpOptions| == n - 20;
    OffsetByte(data[12]);
    TcpPieces(data, n);
  }

  lemma OffsetByte(b: byte)
    requires b / 16 * 4 >= 20
    ensures (b / 16 * 4 - 20) % 4 == 0 && b / 16 * 4 - 20 <= 40 && b % 16 < 16
    ensures (5 + (b / 16 * 4 - 20) / 4) * 16 + b % 16 == b
  {}

  lemma UdpPieces(data: seq<byte>)
    requires |data| >= 8
    ensures data[0..2] + data[2..4] + data[4..8] + data[8..] == data
  {}

  lemma TcpPieces(data: seq<byte>, n: nat)
    requires 20 <= n <= |data|
    ensures data[0..2] + data[2..4] + data[4..8] + data[8..12] + [data[12]] + [data[13]]
            + data[14..20] + data[20..n] + data[n..] == data
  {}

  /** Version 4, a protocol the parser knows, and room for its header. */
  predicate Recognized(data: seq<byte>)
    requires SaneOffsets(data)
  {
    && data[14] / 16 == 4
    && (data[23] == PROTO_TCP || (data[23] == PROTO_UDP && |data| >= 14 + data[14] % 16 * 4 + 8))
  }

  lemma AcceptedWhenRecognized(data: seq<byte>)
    requires SaneOffsets(data) && IpHeaderCaptured(data)
    ensures ParseFrame(data).Some? <==> Recognized(data)
  {}

  function FrameFrom(data: seq<byte>): IpFrame
    requires SaneOffsets(data) && Recognized(data)
  {
    var start := 14 + data[14] % 16 * 4;
    IpFrame(data[..14], data[15..23], data[24..26], data[26..30], data[30..34], data[34..start],
            TransportFrom(data[23], data[start..]))
  }

  lemma SerializeInvertsParse(data: seq<byte>)
    requires SaneOffsets(data) && Recognized(data)
    ensures ValidFrame(FrameFrom(data)) && Serialize(FrameFrom(data)) == data
  {
    var start := 14 + data[14] % 16 * 4;
    TransportBack(data[23], data[start..]);
    PartsBack(FrameFrom(data), data, start);
  }

  lemma PartsBack(f: IpFrame, data: seq<byte>, start: nat)
    requires |data| >= 34 && 34 <= start == 14 + data[14] % 16 * 4 <= |data| && data[14] / 16 == 4
    requires f == IpFrame(data[..14], data[15..23], data[24..26], data[26..30], data[30..34], data[34..start], f.body)
    requires Protocol(f.body) == data[23]
    requires ValidTransport(f.body) && SerializeTransport(f.body) == data[start..]
    ensures ValidFrame(f) && Serialize(f) == data
  {
    assert |f.options| == start - 34;
    HeaderBack(f, data);
    RejoinThree(data, 34, start);
  }

  lemma RejoinThree<T>(s: seq<T>, a: nat, b: nat)
    requires a <= b <= |s|
    ensures s[..a] + s[a..b] + s[b..] == s
  {}

  lemma HeaderBack(f: IpFrame, data: seq<byte>)
    requires ValidFrame(f) && |data| >= 34 && data[14] / 16 == 4
    requires 34 + |f.options| == 14 + data[14] % 16 * 4 && data[23] == Protocol(f.body)
    requires f.link == data[..14] && f.head == data[15..23] && f.checksum == data[24..26]
    requires f.src == data[26..30] && f.dst == data[30..34]
    ensures SerializeHeader(f) == data[..34]
  {
    assert 0x40 + 5 + |f.options| / 4 == data[14];
    HeaderPieces(data);
  }

  lemma HeaderPieces(data: seq<byte>)
    requires |data| >= 34
    ensures data[..14] + [data[14]] + data[15..23] + [data[23]] + data[24..26] + data[26..30] + data[30..34]
         == data[..34]
  {}

  /** The same from captured bytes: whenever the packet they declare is there, with header lengths that make
      sense, its payload is exact exactly when nothing else was captured. */
  lemma PayloadExactByCapture(data: seq<byte>)
    requires |data| >= 18 && 14 + TotalLength(data) <= |data|
    requires var declared := data[..14 + TotalLength(data)];
             SaneOffsets(declared) && Recognized(declared)
    ensures var f := FrameFrom(data[..14 + TotalLength(data)]);
            && ValidFrame(f) && LengthRight(f) && Serialize(f) <= data && IpHeaderCaptured(data)
            && (ParseFrame(data) == Some(PacketOf(f)) <==> |data| == 14 + TotalLength(data))
  {
    var n := 14 + TotalLength(data);
    SerializeInvertsParse(data[..n]);
    var f := FrameFrom(data[..n]);
    assert data == Serialize(f) + data[n..];
    TotalLengthInHead(f, data[n..]);
    PayloadExactByLength(f, data[n..]);
  }

  lemma SerializedIsSane(f: IpFrame)
    requires ValidFrame(f)
    ensures SaneOffsets(Serialize(f))
  {
    var more := SerializeTransport(f.body);
    HeaderParts(f, more);
    var data := Serialize(f);
    var start := 34 + |f.options|;
    if f.body.TcpSegment? {
      TcpParts(f.body, []);
      assert more + [] == more;
      OffsetWords(f.body.tcpOptions, f.body.reserved);
      assert data[start..][12] == data[start + 12];
    }
  }

  /** The frames the parser accepts with sane header lengths are exactly the serializations. */
  lemma AcceptsExactlySerializations(data: seq<byte>)
    requires IpHeaderCaptured(data)
    ensures ParseFrame(data).Some? && SaneOffsets(data) <==> exists f :: ValidFrame(f) && Serialize(f) == data
  {
    if ParseFrame(data).Some? && SaneOffsets(data) {
      AcceptedWhenRecognized(data);
      SerializeInvertsParse(data);
    }
    forall f | ValidFrame(f) && Serialize(f) == data ensures ParseFrame(data).Some? && SaneOffsets(data) {
      assert Serialize(f) + [] == data;
      ParseInvertsSerialize(f, []);
      SerializedIsSane(f);
    }
  }

  // Conversations on the wire

  function SrcEnd(f: IpFrame): (seq<byte>, u16) {
    (f.src, f.body.srcPort)
  }

  function DstEnd(f: IpFrame): (seq<byte>, u16) {
    (f.dst, f.body.dstPort)
  }

  /** Two frames reach the same flow exactly when protocol and address-port pairs agree, up to direction. */
  lemma FramesShareFlowWhen(f: IpFrame, g: IpFrame)
    requires ValidFrame(f) && ValidFrame(g)
    ensures MakeKey(PacketOf(f)) == MakeKey(PacketOf(g))
       <==> Protocol(f.body) == Protocol(g.body)
            && (   (SrcEnd(f) == SrcEnd(g) && DstEnd(f) == DstEnd(g))
                || (SrcEnd(f) == DstEnd(g) && DstEnd(f) == SrcEnd(g)))
  {
    SameFlowIffSameConversation(PacketOf(f), PacketOf(g));
    DottedQuadInjective(f.src, g.src);
    DottedQuadInjective(f.src, g.dst);
    DottedQuadInjective(f.dst, g.src);
    DottedQuadInjective(f.dst, g.dst);
  }
}
