# GatewayForge decode pipeline: a verified model

GatewayForge turns captured Ethernet frames into a timeline of decoded application messages: frames are
parsed, packets are routed to flows, TCP payloads are reassembled, streams are cut into length-prefixed
messages by a user-supplied schema, and the decoded messages are sorted by time. This project models that
chain and proves what it computes, on all inputs.

| file | part of the program |
|---|---|
| `Bytes.dfy` | bytes, machine integers, byte orders |
| `Schema.dfy` | protocol schemas and field values |
| `FieldCodec.dfy`, `MessageCodec.dfy` | meaning of one field and of one message, with the inverse encoders |
| `Framing.dfy` | recursive specification of frame splitting and stream decoding |
| `BinaryDecoder.dfy` | the decoder's loops, proved to compute that specification for every schema |
| `FramingTheory.dfy` | tiling, termination, resumption |
| `WireCodec.dfy` | message streams and datagrams: round trips, cuts, agreement of the two branches |
| `ByteOrder.dfy`, `StreamOrder.dfy` | the byte order schemas declare, and when decoding honours it on messages, datagrams and streams |
| `VehicleSchemas.dfy` | the shipped TCP and UDP schemas as instances |
| `TcpReassembly.dfy` | the reassembler class and its runs over wrapping sequence numbers |
| `FlowKeys.dfy`, `Flows.dfy`, `FlowTheory.dfy` | canonical keys, the flow objects, the tracker, whole packet runs |
| `Timeline.dfy` | decoding all flows and sorting the events |
| `DottedQuads.dfy`, `PacketParser.dfy`, `FrameCodec.dfy` | the header parser, a serializer, both inverse directions |
| `TimelineGrowth.dfy` | the timeline of a capture against that of a longer one |
| `Pipeline.dfy` | a whole capture, from frames to the timeline |
| `Conversations.dfy` | the end-to-end theorems: what senders sent against what the timeline shows |

The code that changes state (the decoder's loops over an offset, the reassembler, the flows, the tracker, the
timeline builder, the parser) is written as classes and methods, each equated with a function of its input or
its old state; the theorems are about those functions. `Flow` is a datatype over the two flow classes where the
program uses a base class. Recursive lemmas state their induction explicitly and switch Dafny's automatic
induction off.

## Findings

Some promises hold only under a condition. Each is proved with its exact condition.

- Declared byte order. The schema language offers `endian: big|little` (docs/protocol-dsl.md:10), but the decoder
  never looks at it: 16- and 32-bit fields are big-endian and 64-bit fields little-endian (on a little-endian
  host). A schema's declaration is honoured on all messages exactly when no field that can be decoded has a
  width whose built-in order is the other one: `ByteOrder.MessageOrderHonouredWhen` for one message,
  `ByteOrder.DatagramOrderHonouredWhen` for all datagrams, and `StreamOrder.StreamOrderHonouredWhen` for all
  streams, where fields too far back for any frame do not matter. The shipped UDP schema
  (examples/schemas/vehicle-udp.yaml:3,19-20) fails it: its device 10001 is decoded as another device,
  `VehicleSchemas.SampleDeviceMisread`.
- Half-received frames. They are handled correctly on every stream and every cut exactly when lengths exclude a
  non-empty header, so that decoding ends, and each length field lies inside that header:
  `FramingTheory.ResumesExactlyWhen`.
- Termination. Decoding ends on every stream exactly when lengths exclude a non-empty header:
  `FramingTheory.TerminatesOnEveryStream`.
- Sequence space. Reassembly is exact on every run exactly for streams shorter than 2^32 bytes:
  `TcpReassembly.ExactOnEveryRunWhen`.
- Connection requests. A SYN takes up a sequence number but does not advance the expected one, so a direction
  captured from its SYN on reassembles nothing: `TcpReassembly.HandshakeHidesStream`. Anything is reassembled
  exactly when some non-empty segment has the first captured segment's number:
  `TcpReassembly.StreamStartsWhen`. The end-to-end theorems cover both captures that start at a message and
  captures that start at a number no data has, which show no message of that direction:
  `TcpReassembly.NothingAcceptedWhen`.
- Trailing bytes. The parser ignores the IP total length, so the payload is exact exactly when nothing follows
  the IP packet in the captured frame: `FrameCodec.PayloadExactWhen`, or, from the captured bytes alone, when their
  number is what the total length says: `FrameCodec.PayloadExactByCapture`. The padding of a minimum-size frame can so
  enter a stream: `Conversations.PaddingEntersStream`.

## Model

| member | source | states |
|---|---|---|
| `Conversations.CaptureShowsTheConversations` | src/cli/Commands.cpp:80-95 | End to end: decoding a capture that holds the frames of any number of interleaved TCP conversations, among any other frames whose IP header is captured, parsed or not, and other flows of any kind on which decoding ends, yields exactly the messages each side sent that were captured in full, besides the other flows' events; whatever was lost, repeated, overlapped, reordered or acknowledged |
| `Conversations.TimelineShowsTheConversations` | src/timeline/TimelineBuilder.cpp:13-47 | The same from parsed packets: the timeline is the union over conversations of both directions' received messages, stamped with each flow's first packet and attributed to the right endpoints, plus the timeline of the other flows |
| `Conversations.FlowShowsConversation` | src/timeline/TimelineBuilder.cpp:17-47 | One conversation's flow shows exactly its messages whatever else the capture holds |
| `Conversations.TalkDecodes` | src/timeline/TimelineBuilder.cpp:19-23 | One direction of less than 2^32 bytes, captured from any message boundary on or from a connection request on, with empty segments of any number mixed in, decodes to exactly the leading messages received in full; nothing is misread |
| `Conversations.DeliveredTalkIsReceived` | src/flow/TcpReassembler.cpp:19-26 | Segmentation invariance: any segmentation with any retransmissions and acknowledgments mixed in delivers every message |
| `Conversations.TimelineShowsTheDatagrams` | src/timeline/TimelineBuilder.cpp:48-64 | The UDP counterpart: the timeline holds exactly one event per datagram, with the message it was encoded from, its own time and endpoints, plus the timeline of the other flows |
| `Conversations.CaptureShowsTheDatagrams` | src/cli/Commands.cpp:80-95 | The same from captured frames, among any other frames whose IP header is captured |
| `Conversations.FlowShowsDatagrams` | src/timeline/TimelineBuilder.cpp:48-64 | One datagram flow shows exactly its messages whatever else the capture holds |
| `Conversations.FrameSegment` | src/flow/TcpReassembler.cpp:7-19 | A TCP frame reaches reassembly with its own sequence number and all its payload, whatever its flags |
| `Conversations.PaddingEntersStream` | src/pcap/PacketParser.cpp:50-53 | Padding captured behind a bare acknowledgment with the expected number becomes part of the reassembled stream |
| `TimelineGrowth.LongerCaptureKeepsEvents` | src/cli/Commands.cpp:80-95 | Continuing a capture with any packets keeps every event it showed, for TCP schemas with length framing whose lengths exclude a non-empty header and lie within it |
| `TimelineGrowth.LongerDatagramCaptureKeepsEvents` | src/cli/Commands.cpp:80-95 | The same for captures without TCP packets, under datagram schemas and every other schema on which decoding ends |
| `Pipeline.InterleavingGivesSameTimeline` | src/flow/FlowTracker.cpp:18-29 | Captures that agree flow by flow give the same timeline as a multiset, however their packets interleave |
| `Pipeline.CapturedFramesParse` | src/pcap/PcapReader.cpp:44-53 | A capture of serialized frames, among frames the parser rejects or makes some other packet of, yields exactly their packets, in order, with their capture times |
| `Pipeline.OneFrameYields` | src/cli/Commands.cpp:80-85 | A captured frame yields nothing if and only if the parser rejects it, and otherwise its packet at its capture time |
| `Pipeline.PacketsFromConcat` | src/cli/Commands.cpp:80-85 | Captures one after the other yield their packets one after the other |
| `Pipeline.SerializedFramesYield` | src/cli/Commands.cpp:80-85 | A capture of senders' frames alone yields one packet for each, in order, with its contents and time: none is dropped |
| `Pipeline.DecodeCapture` | src/cli/Commands.cpp:80-95 | The whole program: the events are sorted by time and are, as a multiset, the messages of all flows of all parsed packets |
| `BinaryDecoder.Decode` | src/protocol/BinaryDecoder.cpp:13-179 | The offset-mutating, two-pass decoder computes the recursive frame splitter followed by field decoding, for every schema and every buffer on which it ends |
| `BinaryDecoder.DecodeFramed` | src/protocol/BinaryDecoder.cpp:23-120 | The stream loop, including both early breaks, yields the messages of exactly the frames the splitter finds |
| `BinaryDecoder.ScanForLength` | src/protocol/BinaryDecoder.cpp:31-45 | The first pass finds the last 16-bit field of the configured name among the fields that fit, variable fields counting as empty, and moves the offset past exactly those fields |
| `BinaryDecoder.DecodeFrameAt` | src/protocol/BinaryDecoder.cpp:59-116 | The second pass decodes the longest run of fields inside the frame, the body length sizing variable fields |
| `BinaryDecoder.DecodeDatagram` | src/protocol/BinaryDecoder.cpp:121-176 | The datagram branch decodes the longest run of fields that fits, a variable field taking the remainder |
| `BinaryDecoder.ReadValue` | src/protocol/BinaryDecoder.cpp:70-114 | Copying on a little-endian host and swapping gives network order for 16 and 32 bits, host order for 64, two's complement for signed types |
| `FieldCodec.UnsignedValues` | src/protocol/BinaryDecoder.cpp:71-87 | Unsigned values in numbers: 8 bits as they are, 16 and 32 bits in network order, 64 bits little-endian |
| `FieldCodec.SignedValues` | src/protocol/BinaryDecoder.cpp:88-105 | Signed values are two's complement: within the type's range, equal to the bytes' number or below it by the whole range |
| `FieldCodec.DecodeInvertsEncodeValue` | src/protocol/BinaryDecoder.cpp:70-114 | Every value of every field type survives being written and read back |
| `FieldCodec.EncodeInvertsDecodeValue` | src/protocol/BinaryDecoder.cpp:70-114 | A decoded value determines every byte it was read from |
| `FieldCodec.DeclaredOrderHonoured` | src/protocol/BinaryDecoder.cpp:83-87 | A decoded value is the one in the schema's declared byte order if and only if the field has no byte order, the declared order is the built-in one for its width, or its bytes are a palindrome |
| `ByteOrder.FieldOrderHonouredWhen` | src/protocol/BinaryDecoder.cpp:83-104 | A field type is read in the declared order on all bytes if and only if it has no byte order or the declared order is the built-in one for its width |
| `ByteOrder.MessageOrderHonouredWhen` | src/protocol/BinaryDecoder.cpp:59-116 | A schema's fields are read in the declared order in every message if and only if each field that can be decoded has its built-in order |
| `ByteOrder.DatagramOrderHonouredWhen` | src/protocol/BinaryDecoder.cpp:121-176 | The same for whole datagrams: nothing after a field that takes the remainder matters |
| `StreamOrder.StreamOrderHonouredWhen` | src/protocol/BinaryDecoder.cpp:23-120 | For schemas with distinct field names, decoding ends and every message is read in the declared order, on every stream, if and only if lengths exclude a non-empty header and each field that some frame of some stream holds has its built-in order: before any variable-length field those that end within the header and, given a length field, 65535 bytes more; behind one those within the header; the length field only when it can hold two different bytes |
| `StreamOrder.HonouredFieldByField` | src/protocol/BinaryDecoder.cpp:59-116 | A message is read in the declared order if and only if each of its decoded fields is |
| `VehicleSchemas.VehicleTcpOrderHonoured` | examples/schemas/vehicle-tcp.yaml:3-25 | The shipped TCP schema's big-endian order is honoured on every frame |
| `VehicleSchemas.VehicleStreamOrderHonoured` | examples/schemas/vehicle-tcp.yaml:3-25 | And so on every stream |
| `VehicleSchemas.VehicleDeviceId` | examples/schemas/vehicle-udp.yaml:3-20 | The shipped UDP schema's device number is the declared one if and only if its eight bytes are a palindrome |
| `VehicleSchemas.SampleDeviceMisread` | tests/it/test_integration.cpp:130-131 | The datagram of device 10001 is decoded as device 0x1127000000000000 |
| `MessageCodec.DecodeInvertsEncode` | src/protocol/BinaryDecoder.cpp:59-116 | Decoding laid-out fields gives their values back whatever bytes follow, in either branch |
| `MessageCodec.EncodeInvertsDecode` | src/protocol/BinaryDecoder.cpp:59-116 | When all fields fit, re-encoding the decoded fields and appending the uncovered bytes restores the frame |
| `MessageCodec.DecodesLongestFittingPrefix` | src/protocol/BinaryDecoder.cpp:62-67 | The decoded names are those of the leading fields that fit |
| `MessageCodec.NextDoesNotFit` | src/protocol/BinaryDecoder.cpp:67 | The first field left out needs more room than is left |
| `MessageCodec.DecodedValueAt` | src/protocol/BinaryDecoder.cpp:69-115 | Each decoded value is read from the bytes right after the earlier fields |
| `FramingTheory.FramesTile` | src/protocol/BinaryDecoder.cpp:25-119 | Frames followed by the remainder are the input, without gap or overlap, and of the remainder either the header or the declared frame does not fit |
| `FramingTheory.FrameSizes` | src/protocol/BinaryDecoder.cpp:50-55 | A frame is as long as its declared length says, the header added unless the length includes it |
| `FramingTheory.StreamIsFrameByFrame` | src/protocol/BinaryDecoder.cpp:118 | One message per frame, in order |
| `FramingTheory.FramesAreSelfContained` | src/protocol/BinaryDecoder.cpp:31-45 | With length fields in the header, a frame's declared length is read from its own bytes |
| `FramingTheory.LengthAccounting` | src/protocol/BinaryDecoder.cpp:49-55 | Consumed bytes are the declared lengths, plus one header per message when lengths exclude it, which bounds the message count |
| `FramingTheory.TerminatesOnEveryStream` | src/protocol/BinaryDecoder.cpp:25-119 | Every stream is decoded in finitely many steps if and only if lengths exclude a non-empty header |
| `FramingTheory.DecodingResumes` | src/protocol/BinaryDecoder.cpp:25-58 | Decoding a ++ b equals decoding a and then decoding what a left followed by b: complete frames never change and partial ones are never misread |
| `FramingTheory.ResumesExactlyWhen` | src/protocol/BinaryDecoder.cpp:32-45 | Decoding ends and resumes correctly for all streams and cuts if and only if lengths exclude a non-empty header and each length field lies within it |
| `StreamOrder.BodyLenMeaning` | src/protocol/BinaryDecoder.cpp:29-45 | The declared length is the big-endian number at the fixed-layout place of the last 16-bit length field that fits in the buffer, or 0 when there is none |
| `WireCodec.StreamMessages` | src/protocol/BinaryDecoder.cpp:59-118 | Each message of any stream is decoded from its own frame: the longest schema prefix that fits, each value read right after the earlier ones, a variable field taking the declared length |
| `WireCodec.TransportDecides` | src/protocol/BinaryDecoder.cpp:17-122 | Only length-framed TCP schemas split streams, UDP schemas give one message for any data, all other schemas none |
| `WireCodec.StreamRoundTrip` | src/protocol/BinaryDecoder.cpp:23-120 | Decoding the encodings of any messages followed by any incomplete frame gives back every field of every message and leaves the tail |
| `WireCodec.PartialIsIncomplete` | src/protocol/BinaryDecoder.cpp:26-57 | No proper prefix of a message is taken for a frame |
| `WireCodec.CutStreamDecodes` | src/protocol/BinaryDecoder.cpp:23-120 | Cutting a message stream at any byte, exactly the messages received in full are decoded |
| `WireCodec.CompleteIsMaximal` | src/protocol/BinaryDecoder.cpp:57 | The number of messages received in full is the largest whose encodings fit in the bytes received |
| `WireCodec.DatagramRoundTrip` | src/protocol/BinaryDecoder.cpp:121-175 | A datagram decodes to the message it was encoded from |
| `WireCodec.DatagramIsOneMessage` | src/protocol/BinaryDecoder.cpp:121-175 | A non-empty datagram is exactly one message, the longest schema prefix that fits, each value read right after the earlier ones |
| `WireCodec.BranchesAgree` | src/protocol/BinaryDecoder.cpp:60-175 | The duplicated decoding branches agree frame by frame when at most the last field is variable and the fixed ones then fill the header |
| `VehicleSchemas.VehicleTcpIsWellFormed` | examples/schemas/vehicle-tcp.yaml:5-25 | The shipped TCP schema meets the conditions for termination, resumption and the round trip |
| `VehicleSchemas.VehicleMessageIsValid` | examples/schemas/vehicle-tcp.yaml:11-28 | Every header with any body up to 65535 bytes is a message the stream theorems apply to |
| `TcpReassembly.TcpReassembler.AddSegment` | src/flow/TcpReassembler.cpp:7-27 | The new state is the acceptance function of the old one: the first segment fixes the expected number, and only exact matches are appended |
| `TcpReassembly.NextSeqTracksStream` | src/flow/TcpReassembler.cpp:9-25 | In every reachable state the expected number is the first number seen plus the stream length, modulo 2^32 |
| `TcpReassembly.StreamGrows` | src/flow/TcpReassembler.cpp:21-25 | Whatever segments follow, the stream so far stays a prefix of the later one |
| `TcpReassembly.StaleSegmentIgnored` | src/flow/TcpReassembler.cpp:21-26 | While the stream is shorter than 2^32 bytes, a non-empty segment starting behind the accepted position changes nothing |
| `TcpReassembly.StreamStartsWhen` | src/flow/TcpReassembler.cpp:9-25 | On any run something is reassembled if and only if some non-empty segment has exactly the first segment's number |
| `TcpReassembly.HandshakeHidesStream` | src/flow/TcpReassembler.cpp:9-21 | After an empty first segment that used up a sequence number, as a SYN does, no data is ever accepted, whatever empty segments, such as repeated SYNs, are mixed in |
| `TcpReassembly.ReassemblyIsExact` | src/flow/TcpReassembler.cpp:7-27 | For segments of one reference stream, with loss, duplication, overlap and reordering, the result is the contiguous slice that acceptance by unwrapped offsets gives: no byte wrong, repeated or skipped |
| `TcpReassembly.ExactOnEveryRunWhen` | src/flow/TcpReassembler.cpp:21-24 | That holds on every run if and only if the reference stream is shorter than 2^32 bytes |
| `TcpReassembly.DeliveryIsComplete` | src/flow/TcpReassembler.cpp:19-26 | Any segmentation with retransmissions of bytes already sent and empty segments mixed in is accepted to the end |
| `TcpReassembly.NothingAcceptedWhen` | src/flow/TcpReassembler.cpp:9-25 | Nothing is ever accepted if and only if no data has the number the capture starts at |
| `TcpReassembly.CutsAreDeliveries` | src/flow/TcpReassembler.cpp:19-26 | Every way of cutting a stretch of a stream into non-empty segments delivers it |
| `TcpReassembly.EmptySegmentsIgnored` | src/flow/TcpReassembler.cpp:17 | Empty segments after the first never matter, whatever their numbers |
| `FlowKeys.StringLessMeaning` | src/flow/FlowKey.cpp:8 | The address comparison is lexicographic order |
| `FlowKeys.NormalizedIsOrdered` | src/flow/FlowKey.cpp:6-13 | A normalized key has its smaller endpoint first |
| `FlowKeys.NormalizedIdempotent` | src/flow/FlowKey.cpp:6-13 | Normalizing twice is normalizing once |
| `FlowKeys.SameNormalizedKey` | src/flow/FlowKey.cpp:6-13 | Two keys normalize alike if and only if they are equal or endpoint-swapped |
| `FlowKeys.SameFlowIffSameConversation` | src/flow/FlowTracker.cpp:8-16 | Two packets share a flow if and only if they belong to one conversation, in either direction |
| `Flows.TcpFlow.OnPacket` | src/flow/TcpFlow.cpp:13-25 | The flow's new contents are the step function of the old ones |
| `Flows.UdpFlow.OnPacket` | src/flow/UdpFlow.cpp:13-19 | The flow's new contents are the step function of the old ones |
| `Flows.UdpDatagramTracker.ByteCount` | src/flow/UdpDatagramTracker.cpp:10-16 | The loop adds up the payloads of all datagrams |
| `Flows.FlowTracker.OnPacket` | src/flow/FlowTracker.cpp:18-29 | Only the packet's own flow changes, being created first if missing; the flows stay separate objects |
| `Flows.FlowTracker.GetFlows` | src/flow/FlowTracker.cpp:31-37 | Every flow is listed once, in an unspecified order |
| `Flows.FlowTracker.TcpFlowCount` | src/flow/FlowTracker.cpp:39-45 | The number of TCP flows |
| `Flows.FlowTracker.UdpFlowCount` | src/flow/FlowTracker.cpp:47-53 | The number of UDP flows |
| `FlowTheory.Demultiplexing` | src/flow/FlowTracker.cpp:18-29 | After any run the flow under a key is a fresh flow fed only that key's packets, in order, and exists if and only if there are any |
| `FlowTheory.InterleavingIrrelevant` | src/flow/FlowTracker.cpp:18-29 | Captures that agree flow by flow leave the same tracker |
| `FlowTheory.DirectionsAreIndependent` | src/flow/TcpFlow.cpp:13-25 | Each direction is a reassembler run on the segments from one endpoint alone; counters and timestamps are those of the flow's packets |
| `FlowTheory.TcpFlowBytes` | include/gatewayforge/flow/TcpFlow.h:20 | A TCP flow's byte count is the bytes reassembled in both directions |
| `FlowTheory.SenderSide` | src/flow/TcpFlow.cpp:38-40 | Client side means sent by the key's first endpoint to its second, otherwise the reverse |
| `FlowTheory.UdpFlowKeepsDatagrams` | src/flow/UdpFlow.cpp:13-19 | A UDP flow holds its packets in order with the first and last timestamps |
| `FlowTheory.FlowsAreWellKeyed` | src/flow/FlowTracker.cpp:19-27 | Every key is normalized and is its flow's own key, and the flow is of the key's protocol |
| `FlowTheory.Conservation` | src/flow/TcpFlow.cpp:18-24 | Packet counts over all flows sum to the packets processed; datagram bytes are all kept; stream bytes never exceed the payload carried |
| `FlowTheory.FlowsAreTheConversations` | src/flow/FlowTracker.cpp:18-29 | After any run the keys are exactly those of the packets seen |
| `FlowTheory.FlowCountsAddUp` | src/flow/FlowTracker.cpp:39-53 | After any run the flows counted as TCP and as UDP are the distinct TCP and UDP conversations among the packets, and together they are all flows |
| `Timeline.DecodeToMessages` | src/protocol/BinaryDecoder.cpp:181-216 | One message per decoded frame, in order, with the given time and direction, the value of `msg_type` as its type when there is one, and exactly the fields but `magic` with their values |
| `Timeline.TcpFlowShows` | src/timeline/TimelineBuilder.cpp:17-47 | A TCP flow shows every message of both streams once, at its first packet's time, from sender to receiver; under a datagram schema one for each direction with data |
| `Timeline.DatagramAdds` | src/timeline/TimelineBuilder.cpp:48-64 | A datagram adds its own messages to its flow's events, at its own time and between its own endpoints |
| `Timeline.TimelineIsAllFlows` | src/timeline/TimelineBuilder.cpp:16-65 | The timeline is the events of every flow once and nothing else |
| `VehicleSchemas.VehicleEventShown` | examples/schemas/vehicle-tcp.yaml:11-25 | A vehicle message shows as its message type with the four other fields but the magic number |
| `Timeline.VisitingOrderIrrelevant` | src/timeline/TimelineBuilder.cpp:16-65 | Whatever order the map is iterated in, the same events are collected, each as often |
| `Timeline.TimelineBuilder.Build` | src/timeline/TimelineBuilder.cpp:13-72 | The events become a time-sorted permutation of all messages decoded from all flows, so that rebuilding gives the same multiset |
| `Timeline.SortByTime` | src/timeline/TimelineBuilder.cpp:67-71 | Sorted by timestamp and a permutation of the input |
| `PacketParser.Parse` | src/pcap/PacketParser.cpp:8-56 | The offset-advancing parser reads addresses, ports and numbers in network order and takes all that follows the transport header as payload |
| `PacketParser.AcceptedWhen` | src/pcap/PacketParser.cpp:8-48 | On bytes: a frame is accepted if and only if it is IPv4 and holds the header of protocol 6, then TCP, or 17, then UDP; its ports are the first two network-order numbers there |
| `PacketParser.AcceptedHolds` | src/pcap/PacketParser.cpp:19-53 | An accepted frame's packet has the addresses, sequence numbers and flags of its header bytes, and as payload all that follows the transport header, whatever offset it declares |
| `FrameCodec.ParseInvertsSerialize` | src/pcap/PacketParser.cpp:8-56 | Parsing a serialized frame with any options recovers addresses, ports, numbers, flags and payload, any trailing bytes being added to the payload |
| `FrameCodec.PayloadExactWhen` | src/pcap/PacketParser.cpp:50-53 | The packet is recovered exactly if and only if nothing follows the IP packet in the frame |
| `FrameCodec.PayloadExactByLength` | src/pcap/PacketParser.cpp:50-53 | For frames whose IP total length is right, the packet is recovered exactly if and only if as many bytes were captured as that length says |
| `FrameCodec.PayloadExactByCapture` | src/pcap/PacketParser.cpp:50-53 | The same as a test on captured bytes: whenever they hold the packet their total length declares, with sane header lengths |
| `FrameCodec.SerializeInvertsParse` | src/pcap/PacketParser.cpp:8-86 | An accepted frame with sane header lengths is the serialization of what its headers say |
| `FrameCodec.AcceptsExactlySerializations` | src/pcap/PacketParser.cpp:8-86 | The frames accepted with sane header lengths are exactly the serializations |
| `FrameCodec.FramesShareFlowWhen` | src/pcap/PacketParser.cpp:82-86 | Two frames reach one flow if and only if protocol and raw address-port pairs agree up to direction |
| `DottedQuads.IpToStringOfLoad` | src/pcap/PacketParser.cpp:82-86 | The address word as copied from the frame prints as its bytes in network order |
| `DottedQuads.AddressText` | src/pcap/PacketParser.cpp:82-86 | An address prints as the decimal texts of its four bytes in network order, separated by dots |
| `DottedQuads.DecimalIsCanonical` | src/pcap/PacketParser.cpp:82-86 | A byte's text is decimal digits of its value, without leading zeros |
| `DottedQuads.DottedQuadInjective` | src/pcap/PacketParser.cpp:82-86 | Different addresses print differently |

## Left out

- BinaryDecoder.Decode: buffers on which some frame has size zero are excluded (the loop never leaves such a frame); sums of offsets are taken without wrap-around, which agrees with the program while the buffer length plus `header_len` plus 65535 stays below 2^64
- BinaryDecoder.ReadValue: the host is little-endian, as the byte-order tests assume
- PacketParser.Parse: frames whose declared IP header runs past the capture are excluded; the caller's length is the captured length
- Flows.FlowTracker.OnPacket: packets of unknown protocol are excluded, as the caller filters them out
- Flows.FlowTracker.GetFlows: the hash function and the iteration order of the map; any order is covered
- Timeline.SortByTime: stands for the library sort; only order and contents are promised, not which of two simultaneous events comes first
- Timeline.DecodeToMessages: the summary is kept as the map of named fields instead of its text, endpoints as address and port instead of formatted strings
- Timeline.TimelineBuilder.Build: flows are copied before they are decoded, where the program decodes through references to unchanging flows
- Schema loading from YAML and the constant, payload and analysis entries of schemas, which decoding never consults
- Capture files: the reader is the sequence of frames it yields, with times in microseconds
- Buffers and packets as allocated memory: payloads are byte sequences, an absent payload is the empty one
- Flow and reassembler message texts, console printing and logging
- Replay over sockets, with its clock and speed control
- UDP loss and reordering rates, whose counters the program never updates
- Out-of-order buffering and merging of overlapping retransmissions, which the program does not do
