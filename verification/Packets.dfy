/** A captured packet after header parsing. An absent payload is the empty one. */
module Packets {
  import opened Bytes

  datatype TransportProtocol = TCP | UDP | UNKNOWN

  datatype Packet = Packet(timestampUs: u64, srcIp: string, dstIp: string, srcPort: u16, dstPort: u16,
                           protocol: TransportProtocol, payload: seq<byte>,
                           tcpSeq: u32, tcpAck: u32, tcpFlags: byte)
}
