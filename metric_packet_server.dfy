/**
 * The UDP metrics server: the 9-byte packet decoder, the Q(M).10 fixed-point
 * conversion, and the registry that each received datagram updates (the
 * `metrics` dict, the data_concentrator_0 gauge's label values and the
 * last_interlock_assertion gauge's label values).
 */
module MetricPacketServer {
  import opened Wrappers
  import opened Numerals
  import opened Bytes

  const PacketSize: nat := 9
  /** b'V01' */
  const ProtocolVersion: seq<byte> := [0x56, 0x30, 0x31]
  /** b'INTERLOCK', the heartbeat datagram; also nine bytes long. */
  const Interlock: seq<byte> := [0x49, 0x4E, 0x54, 0x45, 0x52, 0x4C, 0x4F, 0x43, 0x4B]
  /** range(9217, 9225) */
  const UdpPorts: seq<int> := seq(8, i => 9217 + i)
  /** The one metric family every decoded reading goes to. */
  const MetricName: string := "data_concentrator_0"

  // ------------------------------------------------------- fixed point

  /**
   * from_q_format_32: a Q(M).10 integer to its reading, dividing by
   * SCALE = 1 << 10. When bit 31 is set the value is rebuilt as
   * -((~qval & 0xFFFFFFFF) + 1); for the range struct.unpack('>i') yields this
   * changes nothing, and an unsigned 32-bit word is read as two's complement.
   */
  function FromQFormat32(qval: int): (r: real)
    ensures -Two31 <= qval < Two31 ==> r == qval as real / 1024.0
    ensures Two31 <= qval < Two32 ==> r == (qval - Two32) as real / 1024.0
  {
    var signed := if Bit31Set(qval) then -(Mask32(-qval - 1) + 1) else qval;
    signed as real / 1024.0
  }

  // ----------------------------------------------------------- decoder

  /** What parse_packet returns: (protocol, identifier hex string, reading). */
  datatype Packet = Packet(protocol: string, identifier: string, value: real)

  /**
   * parse_packet: None unless the datagram is exactly nine bytes starting
   * with b'V01'; otherwise the tag, bytes 3-4 as four lower-case hex digits
   * and bytes 5-8 as a signed big-endian Q(M).10 reading.
   */
  function ParsePacket(data: seq<byte>): (r: Option<Packet>)
    ensures r.Some? <==> |data| == PacketSize && data[..3] == ProtocolVersion
    ensures r.Some? ==> r.value.protocol == "V01"
    ensures r.Some? ==>
      && |r.value.identifier| == 4
      && IsLowerHexString(r.value.identifier)
      && HexValue(r.value.identifier) == data[3] as int * 256 + data[4] as int
    ensures r.Some? ==> r.value.value == Int32BigEndian(data[5..9]) as real / 1024.0
  {
    if |data| != PacketSize then None
    else
      var protocol, identifier, valueBytes := data[0..3], data[3..5], data[5..9];
      if protocol != ProtocolVersion then None
      else
        BigEndianTwo(identifier);
        var value := Int32BigEndian(valueBytes);
        // protocol == b'V01' here, so protocol.decode('ascii') is "V01"
        Some(Packet("V01", Hex(identifier), FromQFormat32(value)))
  }

  /** The heartbeat datagram is nine bytes long but never decodes as a metric packet. */
  lemma InterlockIsNotAPacket()
    ensures |Interlock| == PacketSize && ParsePacket(Interlock).None?
  {
    assert Interlock[..3] != ProtocolVersion by {
      assert Interlock[..3][0] == 0x49;
    }
  }

  /** The test vector b"V01P10000": identifier "5031", reading 0x30303030 / 1024. */
  lemma ParseTestVector()
    ensures ParsePacket([0x56, 0x30, 0x31, 0x50, 0x31, 0x30, 0x30, 0x30, 0x30])
         == Some(Packet("V01", "5031", 0x3030_3030 as real / 1024.0))
  {
    var data: seq<byte> := [0x56, 0x30, 0x31, 0x50, 0x31, 0x30, 0x30, 0x30, 0x30];
    assert data[3..5] == [0x50, 0x31];
    HexTwo(0x50, 0x31);
    assert Hex(data[3..5]) == "5031";
    BigEndianFour(data[5..9]);
  }

  /** Identifier 0x0065 with reading 0x00000C80 / 1024 = 3.125. */
  lemma ParsePositiveExample()
    ensures ParsePacket([0x56, 0x30, 0x31, 0x00, 0x65, 0x00, 0x00, 0x0C, 0x80])
         == Some(Packet("V01", "0065", 3.125))
  {
    var data: seq<byte> := [0x56, 0x30, 0x31, 0x00, 0x65, 0x00, 0x00, 0x0C, 0x80];
    assert data[3..5] == [0x00, 0x65];
    HexTwo(0x00, 0x65);
    BigEndianFour(data[5..9]);
  }

  /** The same identifier with bytes FF FF F3 80, the two's complement of -0x0C80: -3.125. */
  lemma ParseNegativeExample()
    ensures ParsePacket([0x56, 0x30, 0x31, 0x00, 0x65, 0xFF, 0xFF, 0xF3, 0x80])
         == Some(Packet("V01", "0065", -3.125))
  {
    var data: seq<byte> := [0x56, 0x30, 0x31, 0x00, 0x65, 0xFF, 0xFF, 0xF3, 0x80];
    assert data[3..5] == [0x00, 0x65];
    HexTwo(0x00, 0x65);
    BigEndianFour(data[5..9]);
  }

  // ---------------------------------------------------------- registry

  /** A Prometheus gauge family as the registry knows it: its name and label names. */
  datatype Gauge = Gauge(name: string, labelNames: seq<string>)

  const DataConcentratorGauge: Gauge := Gauge(MetricName, ["identifier", "port"])

  /**
   * The `metrics` dict after get_or_create_metric: data_concentrator_0 is
   * added when absent and an existing entry is never replaced.
   */
  function WithMetric(metrics: map<string, Gauge>): (m: map<string, Gauge>)
    ensures m.Keys == metrics.Keys + {MetricName}
    ensures forall k :: k in metrics ==> m[k] == metrics[k]
    ensures MetricName !in metrics ==> m[MetricName] == DataConcentratorGauge
  {
    if MetricName in metrics then metrics else metrics[MetricName := DataConcentratorGauge]
  }

  /** get_or_create_metric is idempotent: a second call changes nothing. */
  lemma WithMetricIdempotent(metrics: map<string, Gauge>)
    ensures WithMetric(WithMetric(metrics)) == WithMetric(metrics)
  {
  }

  /** The registry's whole state. */
  datatype RegistryState = RegistryState(
    metrics: map<string, Gauge>,           // the module-level `metrics` dict
    values: map<(string, string), real>,   // data_concentrator_0: (identifier, str(port)) -> reading
    lastInterlock: map<string, real>)      // last_interlock_assertion: str(port) -> timestamp

  /** The shape every reachable registry has: at most the one family, and it exists once a value does. */
  predicate Consistent(s: RegistryState) {
    && s.metrics.Keys <= {MetricName}
    && (forall k :: k in s.metrics ==> s.metrics[k] == DataConcentratorGauge)
    && (s.values != map[] ==> MetricName in s.metrics)
  }

  /**
   * One pass of udp_listener's loop for a datagram `data` received on `port`
   * at wall-clock time `now`.
   */
  function Next(s: RegistryState, data: seq<byte>, port: int, now: real): (t: RegistryState)
    ensures s.metrics.Keys <= t.metrics.Keys && s.values.Keys <= t.values.Keys
    ensures s.lastInterlock.Keys <= t.lastInterlock.Keys
    ensures data != Interlock && ParsePacket(data).None? ==> t == s
  {
    if data == Interlock then
      s.(lastInterlock := s.lastInterlock[IntToString(port) := now])
    else
      match ParsePacket(data)
      case None => s
      case Some(p) =>
        s.(metrics := WithMetric(s.metrics),
           values := s.values[(p.identifier, IntToString(port)) := p.value])
  }

  /** An INTERLOCK datagram sets only its port's heartbeat entry. */
  lemma NextInterlock(s: RegistryState, port: int, now: real)
    ensures var t := Next(s, Interlock, port, now);
      && t.metrics == s.metrics && t.values == s.values
      && t.lastInterlock.Keys == s.lastInterlock.Keys + {IntToString(port)}
      && t.lastInterlock[IntToString(port)] == now
      && forall k :: k in s.lastInterlock && k != IntToString(port) ==> t.lastInterlock[k] == s.lastInterlock[k]
  {
  }

  /**
   * A valid packet overwrites exactly the (identifier, str(port)) entry with
   * its reading; no entry is removed and the heartbeats stay the same.
   */
  lemma NextMetric(s: RegistryState, data: seq<byte>, port: int, now: real)
    requires ParsePacket(data).Some?
    ensures var p, t := ParsePacket(data).value, Next(s, data, port, now);
      var key := (p.identifier, IntToString(port));
      && t.values.Keys == s.values.Keys + {key}
      && t.values[key] == p.value
      && (forall k :: k in s.values && k != key ==> t.values[k] == s.values[k])
      && t.lastInterlock == s.lastInterlock
      && t.metrics == WithMetric(s.metrics)
  {
    InterlockIsNotAPacket();
  }

  /** A datagram that is neither the heartbeat nor a valid packet changes nothing. */
  lemma NextInvalid(s: RegistryState, data: seq<byte>, port: int, now: real)
    requires data != Interlock
    requires |data| != PacketSize || data[..3] != ProtocolVersion
    ensures Next(s, data, port, now) == s
  {
  }

  /**
   * Listeners on different ports never touch each other's entries: a datagram
   * on `port` keeps every series and the heartbeat of any `other` port.
   */
  lemma NextOtherPort(s: RegistryState, data: seq<byte>, port: int, now: real, other: int)
    requires other != port
    ensures var t, key := Next(s, data, port, now), IntToString(other);
      && (forall id :: (id, key) in s.values ==> (id, key) in t.values && t.values[(id, key)] == s.values[(id, key)])
      && (key in t.lastInterlock <==> key in s.lastInterlock)
      && (key in s.lastInterlock ==> t.lastInterlock[key] == s.lastInterlock[key])
  {
    assert IntToString(other) != IntToString(port) by {
      if IntToString(other) == IntToString(port) {
        IntToStringInjective(other, port);
      }
    }
    if data == Interlock {
      NextInterlock(s, port, now);
    } else if ParsePacket(data).Some? {
      NextMetric(s, data, port, now);
    }
  }

  lemma NextConsistent(s: RegistryState, data: seq<byte>, port: int, now: real)
    requires Consistent(s)
    ensures Consistent(Next(s, data, port, now))
  {
  }

  /** A datagram as one of the listeners received it. */
  datatype Datagram = Datagram(data: seq<byte>, port: int, at: real)

  /** The registry after the datagrams of all listeners, in the order they were handled. */
  function Run(s: RegistryState, trace: seq<Datagram>): RegistryState {
    if trace == [] then s
    else
      var d := trace[|trace| - 1];
      Next(Run(s, trace[..|trace| - 1]), d.data, d.port, d.at)
  }

  /** The reading of the last datagram in the trace that decodes to a packet for `key`. */
  function LastWrite(trace: seq<Datagram>, key: (string, string)): Option<real> {
    if trace == [] then None
    else
      var d := trace[|trace| - 1];
      var p := ParsePacket(d.data);
      if p.Some? && (p.value.identifier, IntToString(d.port)) == key then Some(p.value.value)
      else LastWrite(trace[..|trace| - 1], key)
  }

  /** The timestamp of the last INTERLOCK datagram in the trace on the port labelled `port`. */
  function LastHeartbeat(trace: seq<Datagram>, port: string): Option<real> {
    if trace == [] then None
    else
      var d := trace[|trace| - 1];
      if d.data == Interlock && IntToString(d.port) == port then Some(d.at)
      else LastHeartbeat(trace[..|trace| - 1], port)
  }

  /**
   * Last write wins: after a trace, each series holds the reading of the last
   * packet for it, or what it held before when there was none; a series exists
   * afterwards exactly when it existed before or some packet wrote it.
   */
  lemma {:induction false} RunLastWriteWins(s: RegistryState, trace: seq<Datagram>, key: (string, string))
    ensures key in Run(s, trace).values <==> key in s.values || LastWrite(trace, key).Some?
    ensures LastWrite(trace, key).Some? ==> Run(s, trace).values[key] == LastWrite(trace, key).value
    ensures LastWrite(trace, key).None? && key in s.values ==> Run(s, trace).values[key] == s.values[key]
  {
    if trace != [] {
      var d, rest := trace[|trace| - 1], trace[..|trace| - 1];
      RunLastWriteWins(s, rest, key);
      InterlockIsNotAPacket();
    }
  }

  /** The same for heartbeats: each port's entry is the time of its last INTERLOCK. */
  lemma {:induction false} RunLastHeartbeat(s: RegistryState, trace: seq<Datagram>, port: string)
    ensures port in Run(s, trace).lastInterlock <==> port in s.lastInterlock || LastHeartbeat(trace, port).Some?
    ensures LastHeartbeat(trace, port).Some? ==> Run(s, trace).lastInterlock[port] == LastHeartbeat(trace, port).value
    ensures LastHeartbeat(trace, port).None? && port in s.lastInterlock ==> Run(s, trace).lastInterlock[port] == s.lastInterlock[port]
  {
    if trace != [] {
      RunLastHeartbeat(s, trace[..|trace| - 1], port);
    }
  }

  /**
   * Whatever the datagrams, the `metrics` dict holds at most the one family
   * data_concentrator_0, created once (as soon as any value exists) and never replaced.
   */
  lemma {:induction false} RunConsistent(s: RegistryState, trace: seq<Datagram>)
    requires Consistent(s)
    ensures Consistent(Run(s, trace))
    ensures MetricName in s.metrics ==> Run(s, trace).metrics == s.metrics
  {
    if trace != [] {
      var d := trace[|trace| - 1];
      RunConsistent(s, trace[..|trace| - 1]);
      NextConsistent(Run(s, trace[..|trace| - 1]), d.data, d.port, d.at);
    }
  }

  /**
   * The registry as an object: the three maps that the listener threads
   * update in place, one datagram at a time.
   */
  class Registry {
    var metrics: map<string, Gauge>
    var values: map<(string, string), real>
    var lastInterlock: map<string, real>

    function State(): RegistryState
      reads this
    {
      RegistryState(metrics, values, lastInterlock)
    }

    ghost predicate Valid()
      reads this
    {
      Consistent(State())
    }

    constructor ()
      ensures Valid()
      ensures State() == RegistryState(map[], map[], map[])
    {
      metrics, values, lastInterlock := map[], map[], map[];
    }

    /**
     * get_or_create_metric: the family is data_concentrator_0 whatever the
     * identifier and port (they only appear in its help text).
     */
    method GetOrCreateMetric(identifier: string, port: int) returns (metric: Gauge)
      requires Valid()
      modifies this
      ensures Valid()
      ensures metrics == WithMetric(old(metrics))
      ensures metric == metrics[MetricName] && metric == DataConcentratorGauge
      ensures values == old(values) && lastInterlock == old(lastInterlock)
    {
      if MetricName !in metrics {
        metrics := metrics[MetricName := DataConcentratorGauge];
      }
      metric := metrics[MetricName];
    }

    /** One datagram: the body of udp_listener's loop. */
    method Step(data: seq<byte>, port: int, now: real)
      requires Valid()
      modifies this
      ensures Valid()
      ensures State() == Next(old(State()), data, port, now)
    {
      if data == Interlock {
        lastInterlock := lastInterlock[IntToString(port) := now];
        return;
      }
      var result := ParsePacket(data);
      if result.Some? {
        var packet := result.value;
        var metric := GetOrCreateMetric(packet.identifier, port);
        values := values[(packet.identifier, IntToString(port)) := packet.value];
      }
    }

    /** The listeners' loops over a finite run of received datagrams. */
    method Listen(trace: seq<Datagram>)
      requires Valid()
      modifies this
      ensures Valid()
      ensures State() == Run(old(State()), trace)
    {
      var i := 0;
      while i < |trace|
        invariant 0 <= i <= |trace|
        invariant Valid()
        invariant State() == Run(old(State()), trace[..i])
      {
        assert trace[..i + 1][..i] == trace[..i];
        Step(trace[i].data, trace[i].port, trace[i].at);
        i := i + 1;
      }
      assert trace[..|trace|] == trace;
    }
  }
}
