/** Ethernet II + IPv4 + TCP or UDP frames: the offset-advancing parser, proved to read what a frame means. */
module PacketParser {
  import opened Bytes
  import opened Wrappers
  import opened Packets
  import opened DottedQuads

  const PROTO_TCP: byte := 6
  const PROTO_UDP: byte := 17

  // The parser, advancing an offset over the headers

  /** The header fields the parser consults, as copied into a little-endian host's structs. */
  datatype Ipv4Header = Ipv4Header(versionIhl: byte, protocol: byte, srcIp: u32, dstIp: u32)
  datatype TcpHeader = TcpHeader(srcPort: u16, dstPort: u16, seqNo: u32, ack: u32, dataOffsetReserved: byte,
                                 flags: byte)
  datatype UdpHeader = UdpHeader(srcPort: u16, dstPort: u16)

  function LoadU16(data: seq<byte>, offset: nat): u16
    requires offset + 2 <= |data|
  {
    NtohsOfLoad(data[offset..offset + 2]);
    LittleEndian(data[offset..offset + 2])
  }

  function LoadU32(data: seq<byte>, offset: nat): u32
    requires offset + 4 <= |data|
  {
    NtohlOfLoad(data[offset..offset + 4]);
    LittleEndian(data[offset..offset + 4])
  }

  function ParseIpv4(data: seq<byte>): Option<Ipv4Header> {
    if |data| < 20 || data[0] / 16 != 4 then None
    else Some(Ipv4Header(data[0], data[9], LoadU32(data, 12), LoadU32(data, 16)))
  }

  function ParseTcp(data: seq<byte>): Option<TcpHeader> {
    if |data| < 20 then None
    else Some(TcpHeader(LoadU16(data, 0), LoadU16(data, 2), LoadU32(data, 4), LoadU32(data, 8), data[12], data[13]))
  }

  function ParseUdp(data: seq<byte>): Option<UdpHeader> {
    if |data| < 8 then None else Some(UdpHeader(LoadU16(data, 0), LoadU16(data, 2)))
  }

  /** The IP header the frame declares does not run past the capture. */
  predicate IpHeaderCaptured(data: seq<byte>) {
    |data| >= 34 && data[14] / 16 == 4 ==> 14 + data[14] % 16 * 4 <= |data|
  }

  lemma Ipv4Values(data: seq<byte>)
    requires |data| >= 34
    ensures var ip := ParseIpv4(data[14..]);
            && (ip.Some? <==> data[14] / 16 == 4)
            && (ip.Some? ==>
                  && ip.value.versionIhl == data[14] && ip.value.protocol == data[23]
                  && IpToString(ip.value.srcIp) == DottedQuad(data[26..30])
                  && IpToString(ip.value.dstIp) == DottedQuad(data[30..34]))
  {
    IpToStringOfLoad(data[26..30]);
    IpToStringOfLoad(data[30..34]);
    SliceOfTail(data, 14, 12, 16);
    SliceOfTail(data, 14, 16, 20);
  }

  lemma PortValues(data: seq<byte>)
    requires |data| >= 4
    ensures Ntohs(LoadU16(data, 0)) == Big16(data, 0) && Ntohs(LoadU16(data, 2)) == Big16(data, 2)
  {
    NtohsOfLoad(data[0..2]);
    NtohsOfLoad(data[2..4]);
  }

  lemma NumberValues(data: seq<byte>)
    requires |data| >= 12
    ensures Ntohl(LoadU32(data, 4)) == Big32(data, 4) && Ntohl(LoadU32(data, 8)) == Big32(data, 8)
  {
    NtohlOfLoad(data[4..8]);
    NtohlOfLoad(data[8..12]);
  }

  lemma FromTail(data: seq<byte>, start: nat, n: nat)
    requires start <= |data|
    ensures From(data[start..], n) == From(data, start + n)
  {}

  method Parse(data: seq<byte>) returns (packet: Option<Packet>)
    requires IpHeaderCaptured(data)
    ensures packet == ParseFrame(data)
  {
    if |data| == 0 { return None; }
    var offset := 0;
    if |data| < 14 { return None; }
    offset := offset + 14;
    var ip := ParseIpv4(data[offset..]);
    if ip.None? { return None; }
    Ipv4Values(data);
    offset := offset + ip.value.versionIhl % 16 * 4;
    var p := Packet(0, IpToString(ip.value.srcIp), IpToString(ip.value.dstIp), 0, 0, UNKNOWN, [], 0, 0, 0);
    packet := ParseRest(data, offset, ip.value.protocol, p);
  }

  method ParseRest(data: seq<byte>, start: nat, protocol: byte, packet: Packet) returns (r: Option<Packet>)
    requires start <= |data|
    requires packet == Packet(0, packet.srcIp, packet.dstIp, 0, 0, UNKNOWN, [], 0, 0, 0)
    ensures r == ParseTransport(protocol, packet.srcIp, packet.dstIp, data[start..])
  {
    var p, offset := packet, start;
    if protocol == PROTO_TCP {
      var tcp := ParseTcp(data[offset..]);
      if tcp.None? { return None; }
      p := SetTcp(p, tcp.value, data[offset..]);
      offset := offset + tcp.value.dataOffsetReserved / 16 * 4;
    } else if protocol == PROTO_UDP {
      var udp := ParseUdp(data[offset..]);
      if udp.None? { return None; }
      p := SetUdp(p, udp.value, data[offset..]);
      offset := offset + 8;
    } else {
      return None;
    }
    FromTail(data, start, offset - start);
    if offset < |data| {
      p := p.(payload := data[offset..]);
    }
    return Some(p);
  }

  method SetTcp(packet: Packet, tcp: TcpHeader, ghost data: seq<byte>) returns (p: Packet)
    requires ParseTcp(data) == Some(tcp)
    ensures p == packet.(protocol := TCP, srcPort := Big16(data, 0), dstPort := Big16(data, 2),
                         tcpSeq := Big32(data, 4), tcpAck := Big32(data, 8), tcpFlags := data[13])
  {
    PortValues(data);
    NumberValues(data);
    p := packet.(protocol := TCP, srcPort := Ntohs(tcp.srcPort), dstPort := Ntohs(tcp.dstPort),
                 tcpSeq := Ntohl(tcp.seqNo), tcpAck := Ntohl(tcp.ack), tcpFlags := tcp.flags);
  }

  method SetUdp(packet: Packet, udp: UdpHeader, ghost data: seq<byte>) returns (p: Packet)
    requires ParseUdp(data) == Some(udp)
    ensures p == packet.(protocol := UDP, srcPort := Big16(data, 0), dstPort := Big16(data, 2))
  {
    PortValues(data);
    p := packet.(protocol := UDP, srcPort := Ntohs(udp.srcPort), dstPort := Ntohs(udp.dstPort));
  }

  // What a frame means

  function Big16(data: seq<byte>, offset: nat): u16
    requires offset + 2 <= |data|
  {
    PowValues();
    BigEndian(data[offset..offset + 2])
  }

  function Big32(data: seq<byte>, offset: nat): u32
    requires offset + 4 <= |data|
  {
    PowValues();
    BigEndian(data[offset..offset + 4])
  }

  function From(data: seq<byte>, offset: nat): seq<byte> {
    if offset < |data| then data[offset..] else []
  }

  /** Addresses, ports and numbers in network order; whatever follows the transport header is payload. */
  function ParseFrame(data: seq<byte>): Option<Packet>
    requires IpHeaderCaptured(data)
  {
    if |data| < 34 || data[14] / 16 != 4 then None
    else ParseTransport(data[23], DottedQuad(data[26..30]), DottedQuad(data[30..34]), data[14 + data[14] % 16 * 4..])
  }

  /** On bytes: IPv4, and room for the header of the transport the protocol number names, 6 for TCP and 17
      for UDP, at the place the IP header length says. */
  lemma AcceptedWhen(data: seq<byte>)
    requires IpHeaderCaptured(data)
    ensures var start := if |data| >= 34 then 14 + data[14] % 16 * 4 else 0;
            && (ParseFrame(data).Some? <==>
                  && |data| >= 34 && data[14] / 16 == 4
                  && ((data[23] == 6 && |data| >= start + 20) || (data[23] == 17 && |data| >= start + 8)))
            && (ParseFrame(data).Some? ==>
                  var p := ParseFrame(data).value;
                  && p.protocol == (if data[23] == 6 then TCP else UDP) && p.timestampUs == 0
                  && p.srcPort as int == 0x100 * data[start] as int + data[start + 1] as int
                  && p.dstPort as int == 0x100 * data[start + 2] as int + data[start + 3] as int)
  {
    if |data| >= 34 && data[14] / 16 == 4 {
      var rest := data[14 + data[14] % 16 * 4..];
      if |rest| >= 8 {
        PortBytes(rest);
      }
    }
  }

  lemma PortBytes(data: seq<byte>)
    requires |data| >= 4
    ensures Big16(data, 0) as int == 0x100 * data[0] as int + data[1] as int
    ensures Big16(data, 2) as int == 0x100 * data[2] as int + data[3] as int
  {
    BigEndian2(data[0..2]);
    BigEndian2(data[2..4]);
  }

  /** What an accepted frame's packet holds, in terms of the bytes from the transport header on. The payload
      starts behind the UDP header, or where the TCP data offset says, wherever that is. */
  lemma AcceptedHolds(data: seq<byte>)
    requires IpHeaderCaptured(data) && ParseFrame(data).Some?
    ensures |data| >= 34 && 14 + data[14] % 16 * 4 <= |data|
    ensures var rest, p := data[14 + data[14] % 16 * 4..], ParseFrame(data).value;
            && p.srcIp == DottedQuad(data[26..30]) && p.dstIp == DottedQuad(data[30..34])
            && (data[23] == 6 ==>
                  && |rest| >= 20 && p.tcpFlags == rest[13]
                  && p.tcpSeq == BigEndian(rest[4..8]) && p.tcpAck == BigEndian(rest[8..12])
                  && p.payload == if rest[12] / 16 * 4 < |rest| then rest[rest[12] / 16 * 4..] else [])
            && (data[23] == 17 ==> |rest| >= 8 && p.payload == rest[8..])
  {}

  function ParseTransport(protocol: byte, src: string, dst: string, data: seq<byte>): Option<Packet> {
    if protocol == PROTO_TCP && |data| >= 20 then
      Some(Packet(0, src, dst, Big16(data, 0), Big16(data, 2), TCP, From(data, data[12] / 16 * 4),
                  Big32(data, 4), Big32(data, 8), data[13]))
    else if protocol == PROTO_UDP && |data| >= 8 then
      Some(Packet(0, src, dst, Big16(data, 0), Big16(data, 2), UDP, From(data, 8), 0, 0, 0))
    else None
  }
}
