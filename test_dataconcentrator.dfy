/**
 * The simulated data concentrators: the 9-byte payload each device packs
 * with struct.pack('!3sH i', b"V01", device_id, q_value), and the device
 * configuration (port and identifier per device).
 */
module TestDataConcentrator {
  import opened Wrappers
  import opened Numerals
  import opened Bytes
  import MetricPacketServer

  /** b"V01", hex 56 30 31 */
  const ProtocolCode: seq<byte> := [0x56, 0x30, 0x31]

  /** struct.error; device_worker's `except` catches it and sends nothing. */
  datatype PackError = StructError

  /** The '3s' field: the tag cut or zero-padded to exactly three bytes. */
  function Field3s(tag: seq<byte>): (r: seq<byte>)
    ensures |r| == 3
    ensures forall i :: 0 <= i < 3 ==> r[i] == (if i < |tag| then tag[i] else 0)
  {
    if |tag| >= 3 then tag[..3] else tag + seq(3 - |tag|, _ => 0)
  }

  /**
   * struct.pack('!3sH i', tag, device_id, q_value): network byte order and
   * no padding, so 3 + 2 + 4 bytes; 'H' needs 0 <= device_id <= 65535 and
   * 'i' needs -2^31 <= q_value < 2^31, otherwise struct.error.
   */
  function Pack(tag: seq<byte>, deviceId: int, qValue: int): (r: Result<seq<byte>, PackError>)
    ensures r.Ok? <==> 0 <= deviceId < 0x1_0000 && -Two31 <= qValue < Two31
    ensures r.Ok? ==> |r.value| == 9
    ensures r.Ok? ==> forall i :: 0 <= i < 3 ==> r.value[i] == (if i < |tag| then tag[i] else 0)
    ensures r.Ok? ==> BigEndian(r.value[3..5]) == deviceId
    ensures r.Ok? ==> Int32BigEndian(r.value[5..9]) == qValue
  {
    if !(0 <= deviceId < 0x1_0000) then Err(StructError)
    else if !(-Two31 <= qValue < Two31) then Err(StructError)
    else
      assert Pow(256, 2) == 0x1_0000;
      assert Pow(256, 4) == Two32 by {
        assert Pow(256, 4) == 256 * (256 * Pow(256, 2));
      }
      var head, id, value := Field3s(tag), BigEndianBytes(deviceId, 2), BigEndianBytes(Mask32(qValue), 4);
      var payload := head + id + value;
      assert payload[..3] == head && payload[3..5] == id && payload[5..9] == value;
      Ok(payload)
  }

  /** With the tag b"V01" the payload starts with 56 30 31. */
  lemma PackTag(deviceId: int, qValue: int)
    requires Pack(ProtocolCode, deviceId, qValue).Ok?
    ensures Pack(ProtocolCode, deviceId, qValue).value[..3] == [0x56, 0x30, 0x31]
  {
    var payload := Pack(ProtocolCode, deviceId, qValue).value;
    assert payload[..3][0] == 0x56 && payload[..3][1] == 0x30 && payload[..3][2] == 0x31;
  }

  /**
   * The server decodes what a device sends: tag "V01", the device id as four
   * lower-case hex digits, and the reading q_value / 1024.
   */
  lemma PackParseRoundTrip(deviceId: int, qValue: int)
    requires 0 <= deviceId < 0x1_0000 && -Two31 <= qValue < Two31
    ensures Pack(ProtocolCode, deviceId, qValue).Ok?
    ensures var p := MetricPacketServer.ParsePacket(Pack(ProtocolCode, deviceId, qValue).value);
      && p.Some? && p.value.protocol == "V01"
      && |p.value.identifier| == 4 && IsLowerHexString(p.value.identifier)
      && HexValue(p.value.identifier) == deviceId
      && p.value.value == qValue as real / 1024.0
  {
    var payload := Pack(ProtocolCode, deviceId, qValue).value;
    PackTag(deviceId, qValue);
    BigEndianTwo(payload[3..5]);
  }

  /**
   * Two devices' packets land in the same series exactly when their ids are
   * equal: the identifier string is a canonical encoding of the id.
   */
  lemma SameSeriesIffSameId(id1: int, q1: int, id2: int, q2: int)
    requires 0 <= id1 < 0x1_0000 && -Two31 <= q1 < Two31
    requires 0 <= id2 < 0x1_0000 && -Two31 <= q2 < Two31
    ensures Pack(ProtocolCode, id1, q1).Ok? && Pack(ProtocolCode, id2, q2).Ok?
    ensures var p1 := MetricPacketServer.ParsePacket(Pack(ProtocolCode, id1, q1).value);
      var p2 := MetricPacketServer.ParsePacket(Pack(ProtocolCode, id2, q2).value);
      p1.Some? && p2.Some? && (p1.value.identifier == p2.value.identifier <==> id1 == id2)
  {
    PackParseRoundTrip(id1, q1);
    PackParseRoundTrip(id2, q2);
    var p1 := MetricPacketServer.ParsePacket(Pack(ProtocolCode, id1, q1).value);
    var p2 := MetricPacketServer.ParsePacket(Pack(ProtocolCode, id2, q2).value);
    if id1 == id2 {
      LowerHexCanonical(p1.value.identifier, p2.value.identifier);
    }
  }

  // ------------------------------------------------------ configuration

  /**
   * One entry of DEVICES. Its mean and deviation feed random.gauss and its
   * interval feeds time.sleep, both in the send loop, which is not modelled.
   */
  datatype Device = Device(port: int, deviceId: int)

  const Devices: seq<Device> := [
    Device(9217, 101), Device(9218, 102), Device(9219, 103), Device(9220, 104),
    Device(9221, 105), Device(9222, 106), Device(9223, 107), Device(9224, 108)
  ]

  /**
   * The devices use the server's ports 9217..9224 in order, each once, with
   * the distinct ids 101..108, all of which fit the 'H' field.
   */
  lemma DevicesMatchServerPorts()
    ensures |Devices| == |MetricPacketServer.UdpPorts|
    ensures forall i :: 0 <= i < |Devices| ==>
      Devices[i].port == MetricPacketServer.UdpPorts[i] && Devices[i].deviceId == 101 + i
    ensures forall i, j :: 0 <= i < j < |Devices| ==>
      Devices[i].port != Devices[j].port && Devices[i].deviceId != Devices[j].deviceId
    ensures forall i :: 0 <= i < |Devices| ==> 0 <= Devices[i].deviceId < 0x1_0000
  {
  }
}
