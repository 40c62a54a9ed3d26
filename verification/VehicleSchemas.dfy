/** The schemas shipped with the tool, as instances of the general theorems. */
module VehicleSchemas {
  import opened Bytes
  import opened Schema
  import opened FieldCodec
  import opened MessageCodec
  import opened Framing
  import opened FramingTheory
  import opened WireCodec
  import opened ByteOrder
  import opened Packets
  import opened FlowKeys
  import opened Timeline
  import opened StreamOrder

  const VEHICLE_TCP := ProtocolSchema(
    "tcp", "big", FramingConfig(LENGTH_FIELD, "payload_len", 10, false),
    [FieldDef("magic", U16), FieldDef("version", U8), FieldDef("msg_type", U8),
     FieldDef("seq", U32), FieldDef("payload_len", U16)])

  /** The header of a vehicle message carrying this body. */
  function VehicleFields(version: byte, msgType: byte, seqNo: u32, bodyLen: u16): Fields {
    map["magic" := UInt16(0xCAFE), "version" := UInt8(version), "msg_type" := UInt8(msgType),
        "seq" := UInt32(seqNo), "payload_len" := UInt16(bodyLen)]
  }

  /** The shipped TCP schema meets the conditions for termination, resumption and the round trip. */
  lemma VehicleTcpIsWellFormed()
    ensures WellFormed(VEHICLE_TCP) && AlwaysProgresses(VEHICLE_TCP)
  {
    assert |"magic"| == 5 && |"version"| == 7 && |"msg_type"| == 8 && |"seq"| == 3 && |"payload_len"| == 11;
    var fields := VEHICLE_TCP.fields;
    assert fields[1..][0] == fields[1] && fields[1..][1..] == fields[2..];
    assert fields[2..][0] == fields[2] && fields[2..][1..] == fields[3..];
    assert fields[3..][0] == fields[3] && fields[3..][1..] == fields[4..];
    assert fields[4..][0] == fields[4] && fields[4..][1..] == [];
    assert LengthPlaced(fields[3..], "payload_len");
    assert LengthPlaced(fields[1..], "payload_len");
    assert LengthWithin(fields[4..], "payload_len", 2);
    assert LengthWithin(fields[3..], "payload_len", 6);
    assert LengthWithin(fields[2..], "payload_len", 7);
    assert LengthWithin(fields[1..], "payload_len", 8);
  }

  lemma VehicleLayout()
    ensures FixedTotal(VEHICLE_TCP.fields) == 10 && !HasVariable(VEHICLE_TCP.fields)
    ensures Names(VEHICLE_TCP.fields) == {"magic", "version", "msg_type", "seq", "payload_len"}
  {
    var fields := VEHICLE_TCP.fields;
    assert fields[1..][0] == fields[1] && fields[1..][1..] == fields[2..];
    assert fields[2..][0] == fields[2] && fields[2..][1..] == fields[3..];
    assert fields[3..][0] == fields[3] && fields[3..][1..] == fields[4..];
    assert fields[4..][0] == fields[4] && fields[4..][1..] == [];
    assert FixedTotal(fields[4..]) == 2;
    assert FixedTotal(fields[3..]) == 6;
    assert FixedTotal(fields[1..]) == 8;
    assert FirstNames(fields[4..], 1) == {"payload_len"};
    assert FirstNames(fields[3..], 2) == {"seq", "payload_len"};
    assert FirstNames(fields[2..], 3) == {"msg_type", "seq", "payload_len"};
    assert FirstNames(fields[1..], 4) == {"version", "msg_type", "seq", "payload_len"};
  }

  /** Every vehicle header with any body of up to 65535 bytes is a valid message, so that streams of them
      decode to exactly these headers. */
  lemma VehicleMessageIsValid(version: byte, msgType: byte, seqNo: u32, body: seq<byte>)
    requires |body| < 0x1_0000
    ensures WellFormed(VEHICLE_TCP)
    ensures Valid(VEHICLE_TCP, WireMessage(VehicleFields(version, msgType, seqNo, |body|), body))
  {
    VehicleTcpIsWellFormed();
    VehicleLayout();
    var w := WireMessage(VehicleFields(version, msgType, seqNo, |body|), body);
    VehicleCovered(version, msgType, seqNo, |body|);
    FixedLayout(VEHICLE_TCP.fields, w.fields, Extent.Declared(|body|), body);
    assert DeclaredLen(VEHICLE_TCP, w) == |body|;
  }

  lemma VehicleCovered(version: byte, msgType: byte, seqNo: u32, bodyLen: u16)
    ensures Covers(VEHICLE_TCP.fields, VehicleFields(version, msgType, seqNo, bodyLen))
    ensures VehicleFields(version, msgType, seqNo, bodyLen)["payload_len"] == UInt16(bodyLen)
  {
    assert |"magic"| == 5 && |"version"| == 7 && |"msg_type"| == 8 && |"seq"| == 3 && |"payload_len"| == 11;
  }

  /** The shipped TCP schema has no 64-bit field, so that its declared order is honoured on every frame. */
  lemma VehicleTcpOrderHonoured(frame: Frame)
    ensures DecodeFrame(VEHICLE_TCP, frame) == DeclaredFrame(VEHICLE_TCP, frame)
  {
    VehicleTcpOrderBuiltIn();
    AllBuiltIn("big", VEHICLE_TCP.fields, Extent.Declared(frame.bodyLen));
    SafeOrderHonoured("big", VEHICLE_TCP.fields, frame.bytes, Extent.Declared(frame.bodyLen));
  }

  lemma VehicleTcpOrderBuiltIn()
    ensures forall i :: 0 <= i < |VEHICLE_TCP.fields| ==> OrderBuiltIn("big", VEHICLE_TCP.fields[i].ftype)
  {
    assert "big"[0] != "little"[0];
  }

  /** Every stream of the shipped TCP schema is read in its declared order. */
  lemma VehicleStreamOrderHonoured(data: seq<byte>)
    ensures StreamHonoured(VEHICLE_TCP, data)
  {
    VehicleTcpIsWellFormed();
    VehicleTcpOrderBuiltIn();
    StreamOrderHonouredWhen(VEHICLE_TCP);
  }

  // What the timeline shows of a vehicle message

  /** Its message type, and the four other fields but the magic number, with their values. */
  lemma VehicleEventShown(version: byte, msgType: byte, seqNo: u32, bodyLen: u16, timestampUs: u64,
                          src: Endpoint, dst: Endpoint)
    ensures EventsFrom([VehicleFields(version, msgType, seqNo, bodyLen)], timestampUs, TCP, src, dst)
         == [Event(timestampUs, TCP, src, dst, MessageType.Declared(UInt8(msgType)),
                   map["version" := UInt8(version), "msg_type" := UInt8(msgType), "seq" := UInt32(seqNo),
                       "payload_len" := UInt16(bodyLen)])]
  {
    assert |"magic"| == 5 && |"version"| == 7 && |"msg_type"| == 8 && |"seq"| == 3 && |"payload_len"| == 11;
    var d := VehicleFields(version, msgType, seqNo, bodyLen);
    assert d["msg_type"] == UInt8(msgType) && d["version"] == UInt8(version) && d["seq"] == UInt32(seqNo);
    assert d["payload_len"] == UInt16(bodyLen);
    var details := map["version" := UInt8(version), "msg_type" := UInt8(msgType), "seq" := UInt32(seqNo),
                       "payload_len" := UInt16(bodyLen)];
    assert details.Keys == d.Keys - {"magic"};
    DescribedBy(MessageType.Declared(UInt8(msgType)), details, d);
  }

  // The UDP schema

  const VEHICLE_UDP := ProtocolSchema(
    "udp", "big", FramingConfig(DATAGRAM, "", 0, false),
    [FieldDef("magic", U16), FieldDef("version", U8), FieldDef("msg_type", U8), FieldDef("device_id", U64),
     FieldDef("seq", U32), FieldDef("timestamp", U64), FieldDef("payload_len", U16)])

  const SAMPLE_DEVICE: seq<byte> := [0, 0, 0, 0, 0, 0, 0x27, 0x11]

  /** A datagram of device 10001, as the integration tests build it. */
  const SAMPLE_DATAGRAM: seq<byte> :=
    [0xCA, 0xFE, 1, 1] + SAMPLE_DEVICE + [0, 0, 0, 1, 0, 0, 0x01, 0x8D, 0, 0, 0x27, 0x10, 0, 0]

  lemma VehicleUdpNames()
    ensures UniqueNames(VEHICLE_UDP.fields)
  {
    assert |"magic"| == 5 && |"version"| == 7 && |"msg_type"| == 8 && |"device_id"| == 9;
    assert |"seq"| == 3 && |"timestamp"| == 9 && |"payload_len"| == 11;
    assert "device_id"[0] != "timestamp"[0];
  }

  /** Where the device number of a datagram lies. */
  lemma DeviceIdBytes(data: seq<byte>)
    requires |data| >= 12
    ensures 3 < FitCount(VEHICLE_UDP.fields, |data|, Remainder)
    ensures FieldBytes(VEHICLE_UDP.fields, data, 3, Remainder) == data[4..12]
  {
    var fields := VEHICLE_UDP.fields;
    DeviceIdOffset();
    FixedFieldBytes(fields, data, 3, Remainder);
  }

  lemma DeviceIdOffset()
    ensures FixedOffset(VEHICLE_UDP.fields, 3) == 4 && FixedOffset(VEHICLE_UDP.fields, 4) == 12
  {
    var fields := VEHICLE_UDP.fields;
    assert fields[1..][0] == fields[1] && fields[1..][1..] == fields[2..];
    assert fields[2..][0] == fields[2] && fields[2..][1..] == fields[3..];
    assert fields[3..][0] == fields[3];
    assert FixedOffset(fields[3..], 1) == 8 && FixedOffset(fields[3..], 0) == 0;
    assert FixedOffset(fields[2..], 2) == 9 && FixedOffset(fields[2..], 1) == 1;
  }

  /** The shipped UDP schema declares big-endian fields, but its device number is read the other way round:
      the declared value is decoded exactly when the eight bytes are a palindrome. */
  lemma VehicleDeviceId(data: seq<byte>)
    requires |data| >= 12
    ensures Terminates(VEHICLE_UDP, data) && |DecodeAll(VEHICLE_UDP, data)| == 1
    ensures var m := DecodeAll(VEHICLE_UDP, data)[0];
            && "device_id" in m && m["device_id"] == DecodeValue(U64, data[4..12])
            && (m["device_id"] == DeclaredValue("big", U64, data[4..12]) <==> data[4..12] == Reversed(data[4..12]))
  {
    VehicleUdpNames();
    DeviceIdBytes(data);
    DatagramIsOneMessage(VEHICLE_UDP, data);
    DecodedValueAt(VEHICLE_UDP.fields, data, Remainder, 3);
    DeclaredOrderHonoured("big", U64, data[4..12]);
    assert "big"[0] != "little"[0];
  }

  /** The sample datagram's device 10001 is decoded as another device. */
  lemma SampleDeviceMisread()
    ensures DeclaredValue("big", U64, SAMPLE_DATAGRAM[4..12]) == UInt64(10001)
    ensures Terminates(VEHICLE_UDP, SAMPLE_DATAGRAM) && |DecodeAll(VEHICLE_UDP, SAMPLE_DATAGRAM)| == 1
    ensures var m := DecodeAll(VEHICLE_UDP, SAMPLE_DATAGRAM)[0];
            "device_id" in m && m["device_id"] == UInt64(0x1127_0000_0000_0000)
  {
    VehicleDeviceId(SAMPLE_DATAGRAM);
    SampleBytes();
    SampleLittleEndian();
    SampleBigEndian();
    SampleValues(SAMPLE_DATAGRAM[4..12]);
  }

  lemma SampleBytes()
    ensures SAMPLE_DATAGRAM[4..12] == SAMPLE_DEVICE
  {}

  lemma SampleValues(bs: seq<byte>)
    requires |bs| == 8 && LittleEndian(bs) == 0x1127_0000_0000_0000 && BigEndian(bs) == 10001
    ensures DecodeValue(U64, bs) == UInt64(0x1127_0000_0000_0000)
    ensures DeclaredValue("big", U64, bs) == UInt64(10001)
  {
    assert "big"[0] != "little"[0];
    PowValues();
    assert FieldTypeSize(U64) == 8 && InWidth(10001, U64);
  }

  lemma {:induction false} LittleEndianOfZeros(n: nat, bs: seq<byte>)
    ensures LittleEndian(Zeros(n) + bs) == Pow256(n) * LittleEndian(bs)
  {
    if n == 0 {
      assert Zeros(0) + bs == bs;
    } else {
      assert (Zeros(n) + bs)[1..] == Zeros(n - 1) + bs;
      LittleEndianOfZeros(n - 1, bs);
      Regroup(Pow256(n - 1), LittleEndian(bs));
    }
  }

  lemma Regroup(a: nat, b: nat)
    ensures 256 * (a * b) == (256 * a) * b
  {}

  lemma SampleLittleEndian()
    ensures LittleEndian(SAMPLE_DEVICE) == 0x1127_0000_0000_0000
  {
    var low: seq<byte> := [0x27, 0x11];
    assert Zeros(6) + low == SAMPLE_DEVICE;
    LittleEndianOfZeros(6, low);
    LittleEndian2(low);
    PowValues();
    assert Pow256(6) == 256 * Pow256(5) == 256 * 256 * Pow256(4);
  }

  lemma SampleBigEndian()
    ensures BigEndian(SAMPLE_DEVICE) == 10001
  {
    var bs: seq<byte> := [0x11, 0x27, 0, 0, 0, 0, 0, 0];
    BigEndianIsReversed(SAMPLE_DEVICE);
    assert Reversed(SAMPLE_DEVICE) == bs;
    assert bs[1..][1..] == Zeros(6) + [];
    LittleEndianOfZeros(6, []);
    assert LittleEndian(bs[1..]) == 0x27 + 256 * LittleEndian(bs[1..][1..]);
  }
}
