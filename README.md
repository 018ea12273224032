# SCIS data concentrator: packet decoding, registry and threshold addresses

This project models the integer, byte and string logic of three parts of the
data-concentrator telemetry system and proves properties about it.

- **The UDP metrics server** (`metric_packet_server.dfy`).
  - Field devices send 9-byte packets: the tag `V01`, a 2-byte identifier and a
    signed big-endian 32-bit Q(M).10 reading.
  - `ParsePacket` checks the length and the tag, renders the identifier as four
    lower-case hex digits and divides the reading by 1024.
  - Every received datagram updates a registry, modelled as the class
    `Registry` with three map fields:
    - `metrics`: the module-level dict of gauge families;
    - `values`: the `data_concentrator_0` gauge's values, keyed by
      `(identifier, str(port))`;
    - `lastInterlock`: the `last_interlock_assertion` gauge's values, keyed by
      `str(port)`.
  - `Registry.Step` is one pass of the listener loop. Its new state is the pure
    function `Next` of the old state. `Registry.Listen` runs a finite sequence of
    datagrams and ends in `Run`.
  - The lemmas about `Next` and `Run` state the registry's guarantees:
    - a heartbeat touches only its port;
    - a valid packet overwrites only its own series;
    - an invalid datagram changes nothing;
    - the last write wins;
    - exactly one gauge family, `data_concentrator_0`, is ever created.
- **The device simulator's encoder** (`test_dataconcentrator.dfy`).
  - `Pack` is `struct.pack('!3sH i', tag, device_id, q_value)`, including its
    `struct.error` cases.
  - It is proved to round-trip through `ParsePacket`.
  - The device list is proved to match the server's ports.
- **The threshold-address calculator** (`threshold_address_generator.dfy`).
  - 32-bit masking and its signed reading, proved to agree with the server's
    decoder.
  - The `x"XXXXXXXX"` hex literal.
  - The `parse_two_bytes` input parser.
  - The address arithmetic in `main`: the top ten bits of the 16-bit
    identifier, shifted left, give an even/odd pair of addresses.

The shared modules are:

- `wrappers.dfy`: `Option` and `Result`.
- `numerals.dfy`: hex and decimal numerals, `format(n, 'X')` and `str(int)`.
- `bytes.dfy`: the `byte` type, big-endian values, `bytes.hex()` and Python's
  bit operators.

Python's bit operators work on unbounded two's-complement integers, and the
model writes each one out exactly:

| Python | model |
|---|---|
| `x & 0xFFFFFFFF` | `x % 2^32` (Euclidean) |
| `x & 0x80000000` is non-zero | `x % 2^32 >= 2^31` |
| `~x` | `-x - 1` |
| `x >> k` | floor division by `2^k` |
| `x` or `y` (bitwise) | the recursive `Bytes.BitOr` |

Fixed-point readings are `real`. Dividing a 32-bit integer by 1024 is exact in
double precision.

## Model

| member | source | states |
|---|---|---|
| MetricPacketServer.FromQFormat32 | software_infrastructure/MetricPacketServer/metric_packet_server.py:47-56 | For q in [-2^31, 2^31) the sign branch changes nothing and the reading is q/1024. For q in [2^31, 2^32) it is (q - 2^32)/1024. |
| MetricPacketServer.ParsePacket | software_infrastructure/MetricPacketServer/metric_packet_server.py:73-95 | A packet comes back exactly when the input is 9 bytes long and starts with b'V01', so any other length or tag gives None. On success the protocol is "V01", the identifier is 4 lower-case hex digits worth 256·byte3 + byte4, and the value is the signed big-endian value of bytes 5-8 divided by 1024. |
| MetricPacketServer.InterlockIsNotAPacket | software_infrastructure/MetricPacketServer/metric_packet_server.py:79-86 | b'INTERLOCK' is 9 bytes long but never decodes as a packet, so the heartbeat path and the metric path are disjoint. |
| MetricPacketServer.ParseTestVector | software_infrastructure/testing_scripts/random_port_test.py:28 | The test message b"V01P10000" decodes to ("V01", "5031", 0x30303030/1024). |
| MetricPacketServer.ParsePositiveExample | software_infrastructure/MetricPacketServer/metric_packet_server.py:88-95 | Identifier bytes 00 65 with value bytes 00 00 0C 80 decode to ("V01", "0065", 3.125). |
| MetricPacketServer.ParseNegativeExample | software_infrastructure/MetricPacketServer/metric_packet_server.py:91-93 | Value bytes FF FF F3 80 are read as two's complement and give -3.125. |
| MetricPacketServer.WithMetric | software_infrastructure/MetricPacketServer/metric_packet_server.py:58-70 | The dict afterwards has the old keys plus data_concentrator_0. An existing entry is never replaced, and a missing one is created as the gauge with labels (identifier, port). |
| MetricPacketServer.WithMetricIdempotent | software_infrastructure/MetricPacketServer/metric_packet_server.py:61-63 | A second get_or_create_metric changes nothing. |
| MetricPacketServer.Next | software_infrastructure/MetricPacketServer/metric_packet_server.py:106-122 | One pass of the listener loop never removes a dict entry, a metric value or a heartbeat. A datagram that is neither INTERLOCK nor a valid packet changes nothing. |
| MetricPacketServer.NextInterlock | software_infrastructure/MetricPacketServer/metric_packet_server.py:108-114 | An INTERLOCK datagram on port p sets the heartbeat entry str(p) to the given time. It keeps every other heartbeat and leaves the metric values and the dict unchanged. |
| MetricPacketServer.NextOtherPort | software_infrastructure/MetricPacketServer/metric_packet_server.py:108-122 | A datagram on one port keeps every series and the heartbeat of every other port, because different ports have different str(port) keys. |
| MetricPacketServer.NextMetric | software_infrastructure/MetricPacketServer/metric_packet_server.py:116-122 | A valid packet on port p writes its reading to exactly the (identifier, str(p)) entry. It keeps every other entry and removes none, and it leaves the heartbeats unchanged. |
| MetricPacketServer.NextInvalid | software_infrastructure/MetricPacketServer/metric_packet_server.py:116-117 | A datagram that is neither INTERLOCK nor 9 bytes starting with V01 leaves the whole registry unchanged. |
| MetricPacketServer.NextConsistent | software_infrastructure/MetricPacketServer/metric_packet_server.py:58-70 | One step keeps this invariant: the dict holds at most data_concentrator_0, always the same gauge, and it is present once any value is. |
| MetricPacketServer.RunLastWriteWins | software_infrastructure/MetricPacketServer/metric_packet_server.py:104-122 | After any run of datagrams, a series holds the reading of the last packet for it, or its old value if no packet wrote it. A series exists exactly when it existed before or a packet wrote it. |
| MetricPacketServer.RunLastHeartbeat | software_infrastructure/MetricPacketServer/metric_packet_server.py:104-114 | After any run of datagrams, each port's heartbeat is the time of its last INTERLOCK, or its old value if there was none. |
| MetricPacketServer.RunConsistent | software_infrastructure/MetricPacketServer/metric_packet_server.py:58-70 | The invariant holds after any run of datagrams, and once the family exists the dict never changes again. |
| MetricPacketServer.Registry.constructor | software_infrastructure/MetricPacketServer/metric_packet_server.py:40-42 | The registry starts with all three maps empty. |
| MetricPacketServer.Registry.GetOrCreateMetric | software_infrastructure/MetricPacketServer/metric_packet_server.py:58-70 | The dict becomes WithMetric of the old dict, the result is the data_concentrator_0 gauge whatever the identifier and port, and the values and heartbeats are unchanged. |
| MetricPacketServer.Registry.Step | software_infrastructure/MetricPacketServer/metric_packet_server.py:106-122 | The new state is Next of the old state for this datagram, port and time, and the invariant is kept. |
| MetricPacketServer.Registry.Listen | software_infrastructure/MetricPacketServer/metric_packet_server.py:104-125 | Handling a sequence of datagrams one at a time ends in Run of the old state. |
| Bytes.Int32BigEndian | software_infrastructure/MetricPacketServer/metric_packet_server.py:91-92 | struct.unpack('>i') of 4 bytes gives a value in [-2^31, 2^31) that is congruent to the unsigned big-endian value mod 2^32. It is negative exactly when the first byte is at least 128. |
| Bytes.Hex | software_infrastructure/MetricPacketServer/metric_packet_server.py:88-89 | bytes.hex() gives two lower-case hex digits per byte, whose value is the big-endian value of the bytes. |
| Bytes.BigEndianBytes | software_infrastructure/testing_scripts/test_dataconcentrator.py:25-27 | Writing n below 256^w as w big-endian bytes gives w bytes whose value is n. |
| Bytes.BigEndianBytesOfValue | software_infrastructure/testing_scripts/test_dataconcentrator.py:25-27 | Writing a byte string's value back at its own width gives the same bytes. |
| Bytes.BitOr | threshold_address_generator.py:91 | Python's bitwise or on two's-complement integers of any sign. The result is negative exactly when an operand is. |
| Bytes.BitOrDisjoint | threshold_address_generator.py:91 | Or-ing a non-negative y below 2^k into a multiple of 2^k is addition. |
| Numerals.LowerHexCanonical | software_infrastructure/MetricPacketServer/metric_packet_server.py:89 | Two lower-case hex strings of the same length and value are equal. |
| Numerals.IntToString | software_infrastructure/MetricPacketServer/metric_packet_server.py:112 | str(port) is the decimal numeral of the port, with a '-' sign first when the port is negative. The first digit is '0' only for the port 0 itself, and then the numeral is the single digit "0", so there are no leading zeros. |
| Numerals.Decimal | software_infrastructure/MetricPacketServer/metric_packet_server.py:112 | The decimal numeral of n, whose value is n. It starts with '0' exactly when n is 0, and a numeral longer than one digit never starts with '0', so 0 is printed as "0". |
| Numerals.IntToStringInjective | software_infrastructure/MetricPacketServer/metric_packet_server.py:112 | Different ports have different str(port) keys. |
| Numerals.UpperHex | threshold_address_generator.py:32 | format(n, 'X') is a non-empty upper-case hex numeral with no leading zero whose value is n. |
| Numerals.UpperHexLength | threshold_address_generator.py:32 | A number below 16^k has a numeral of at most k digits. |
| TestDataConcentrator.Field3s | software_infrastructure/testing_scripts/test_dataconcentrator.py:27 | The '3s' field is exactly 3 bytes: the tag cut off or padded with zero bytes. |
| TestDataConcentrator.Pack | software_infrastructure/testing_scripts/test_dataconcentrator.py:24-33 | Packing succeeds exactly when 0 <= device_id <= 65535 and -2^31 <= q_value < 2^31, and otherwise raises struct.error. On success the payload is 9 bytes: the 3-byte tag field, device_id as unsigned big-endian in bytes 3-4, and q_value as signed big-endian in bytes 5-8. |
| TestDataConcentrator.PackTag | software_infrastructure/testing_scripts/test_dataconcentrator.py:8 | With PROTOCOL_CODE the payload starts 56 30 31. |
| TestDataConcentrator.PackParseRoundTrip | software_infrastructure/testing_scripts/test_dataconcentrator.py:27 | For every in-range id and q, parse_packet of the packed payload is ("V01", 4 lower-case hex digits worth id, q/1024). |
| TestDataConcentrator.SameSeriesIffSameId | software_infrastructure/testing_scripts/test_dataconcentrator.py:27 | Two devices' readings go to the same identifier label exactly when their ids are equal. |
| TestDataConcentrator.DevicesMatchServerPorts | software_infrastructure/testing_scripts/test_dataconcentrator.py:40-49 | The devices use the server's ports 9217..9224 in order, each once, with the distinct ids 101..108, which all fit the 'H' field. |
| ThresholdAddressGenerator.ToQFormat32 | threshold_address_generator.py:18-22 | The rounded integer n becomes the one 32-bit word congruent to n mod 2^32. There is no clamping, and n is unchanged on [0, 2^32). |
| ThresholdAddressGenerator.ToSigned32 | threshold_address_generator.py:24-28 | The identity below 2^31, minus 2^32 from 2^31 on, so [0, 2^32) maps onto [-2^31, 2^31). |
| ThresholdAddressGenerator.SignedRoundTrip | threshold_address_generator.py:18-28 | to_signed_32(n & 0xFFFFFFFF) == n for n in [-2^31, 2^31). |
| ThresholdAddressGenerator.UnsignedRoundTrip | threshold_address_generator.py:18-28 | Masking to_signed_32(v) gives back v for v in [0, 2^32). |
| ThresholdAddressGenerator.ServerReadsBack | threshold_address_generator.py:100-101 | The server's from_q_format_32 reads both n and its 32-bit word as n/1024, the value the tool prints, to four decimals, as the threshold. |
| ThresholdAddressGenerator.ZeroPad | threshold_address_generator.py:32 | Zero padding to a width keeps the numeral's value, reaches the width exactly, and leaves a numeral that is already that wide unchanged. |
| ThresholdAddressGenerator.Format08X | threshold_address_generator.py:32 | format(v, '08X') has at least 8 characters. It is an upper-case hex numeral of v, or '-' then one of -v. It is never padded beyond the width: a longer result has no leading '0', after the '-' when there is one. |
| ThresholdAddressGenerator.ToHexString32 | threshold_address_generator.py:30-32 | For every integer, the literal is x" then the hex numeral of the value (after '-' when negative) then ", at least 11 characters. The numeral is never padded beyond 8 digits: a longer literal has no "0" right after x", or right after the "-" when there is one. |
| ThresholdAddressGenerator.HexString32Shape | threshold_address_generator.py:30-32 | For v in [0, 2^32) the literal is x" then 8 zero-padded upper-case hex digits then ", 11 characters, and the digits read back as v. |
| ThresholdAddressGenerator.RemoveAll | threshold_address_generator.py:36 | str.replace(pat, "") scans left to right and never lengthens the string. |
| ThresholdAddressGenerator.RemoveAllShortensIffOccurs | threshold_address_generator.py:36 | The removal shortens the string exactly when the pattern occurs in it. |
| ThresholdAddressGenerator.Normalize | threshold_address_generator.py:36 | The removal of "0x" and then "\x" never lengthens the input. |
| ThresholdAddressGenerator.NormalizeNoPrefixChars | threshold_address_generator.py:36 | An input with no '0' and no backslash in it goes through the normalisation unchanged. |
| ThresholdAddressGenerator.RemoveAllAbsent | threshold_address_generator.py:36 | Removing a pattern that does not occur leaves the string as it was. |
| ThresholdAddressGenerator.NormalizeUnchanged | threshold_address_generator.py:36 | An input with neither "0x" nor "\x" in it goes through the normalisation unchanged. |
| ThresholdAddressGenerator.IntBase16Of2 | threshold_address_generator.py:45-49 | int(h, 16) of a two-character half succeeds exactly for two hex digits, a sign or white space followed by a digit, or a digit followed by white space. White space here means space, tab, LF, VT, FF or CR. Two digits give their hex value and '+' or white space gives the digit. '-' gives the digit negated, and a trailing space gives the first digit. Every result lies in (-16, 256). |
| ThresholdAddressGenerator.IntBase16Of2RejectsSeparators | threshold_address_generator.py:45-49 | The separators U+001C..U+001F are not white space to int(). A half holding one beside a digit, in either order, is a ValueError. |
| ThresholdAddressGenerator.ParseTwoBytesCases | threshold_address_generator.py:34-51 | After the removal of "0x" and then "\x": two characters below 256 give their code points, both in [0, 255]. Two characters with one at or above 256 give ValueError. A 4-character string succeeds exactly when int(…, 16) accepts both halves, and it then gives their two values. So four hex digits give the values of their halves, in [0, 255]. Any other length gives ValueError. Every result lies in (-16, 256). |
| ThresholdAddressGenerator.ParseTwoBytes | threshold_address_generator.py:34-51 | parse_two_bytes succeeds only when the normalised input has 2 or 4 characters, and each returned value lies in (-16, 256). |
| ThresholdAddressGenerator.ParseTwoBytesRejectsNonHex | threshold_address_generator.py:43-51 | "zzzz" has 4 characters, but int() rejects its halves, so it raises ValueError. |
| ThresholdAddressGenerator.ParseTwoBytesSignedHalf | threshold_address_generator.py:43-47 | "-1ff" gives (-1, 255): a half with a sign is read with it. |
| ThresholdAddressGenerator.ParseTwoBytesOfHex | threshold_address_generator.py:42-47 | The four hex digits of two bytes parse back to those two bytes. |
| ThresholdAddressGenerator.ParseTwoBytesOfChars | threshold_address_generator.py:38-40 | Two characters below 256, other than "0x" and "\x", parse back to their code points. |
| ThresholdAddressGenerator.ParseTwoBytesRejectsRawPrefix | threshold_address_generator.py:36-51 | The raw input "0x" is erased by the normalisation and rejected. |
| ThresholdAddressGenerator.ThresholdAddresses | threshold_address_generator.py:90-98 | For whatever two integers the parser returns, the lower address is twice msb10, hence even and in [0, 2046], and the upper address is the next odd number. |
| ThresholdAddressGenerator.Msb10 | threshold_address_generator.py:90-94 | The ten bits extracted from (b1 << 8) or b2 lie in [0, 1023]; for two bytes they are the top ten bits of the 16-bit identifier, (b1·256 + b2) div 64. |
| ThresholdAddressGenerator.ShiftInOne | threshold_address_generator.py:98 | Or-ing 1 into m << 1 gives 2m + 1. |
| ThresholdAddressGenerator.OrInByte | threshold_address_generator.py:91 | Or-ing a byte b2 into b1 << 8 gives 256·b1 + b2. |
| ThresholdAddressGenerator.SpacedRejected | threshold_address_generator.py:34-51 | As written, every input of the form "0xXY 0xZW" with hex digits of either case is rejected with ValueError. |
| ThresholdAddressGenerator.HelpExampleRejected | threshold_address_generator.py:58 | As written, the help text's own example "0x41 0x42" is rejected with ValueError. |
| ThresholdAddressGenerator.ParseTwoBytesCorrected | threshold_address_generator.py:34-51 | The corrected parser agrees with parse_two_bytes wherever parse_two_bytes succeeds. |
| ThresholdAddressGenerator.SpacedAccepted | threshold_address_generator.py:58 | The corrected parser reads "0xXY 0xZW", with hex digits of either case, as the bytes XY and ZW. |
| ThresholdAddressGenerator.HelpExampleAccepted | threshold_address_generator.py:58 | The corrected parser reads "0x41 0x42" as (0x41, 0x42). |
| ThresholdAddressGenerator.AddressesOfInput | threshold_address_generator.py:88-98 | main's address pair for an input: ValueError exactly when the corrected parser fails. Otherwise the lower address is even and in [0, 2046] and the upper one is the next odd number, and every input parse_two_bytes accepts gets the pair main computes from it. |

## Left out

- Sockets, the listener threads, `threading.Lock` and `main`'s thread start and join are left out because they are I/O and concurrency. The model handles datagrams one at a time, in the order they were handled.
- `recvfrom(1024)`'s truncation of longer datagrams is left out. Every truncated datagram is longer than nine bytes, so it is rejected either way.
- The Prometheus client library is not part of this model.
  - A gauge family is the `Gauge` datatype.
  - Its label values are maps.
  - `start_http_server` and the HTTP endpoint are left out.
- `time.time()` is the `now` parameter of `Registry.Step`, so wall-clock time is an input.
- Logging, the gauge's help text and the printed output are text only, and are left out.
- The `except Exception` handler of the listener loop is left out because no step of the model can fail.
- `Registry.Listen` runs a finite sequence of datagrams. The source's `while True` never ends, and the model covers every finite prefix of it.
- Floating point is left out: `to_float32`, `round(value * SCALE)` in `to_q_format_32`, `float_to_q22_10` and `random.gauss`. `ThresholdAddressGenerator.ToQFormat32` starts from the rounded integer, and `TestDataConcentrator.Pack` takes the integer q_value.
- `argparse` and the threshold command line are left out; `main`'s arithmetic is `AddressesOfInput`.
- `device_worker`'s send-and-sleep loop is left out, because it is network I/O and timing. So are each device's mean and deviation, which feed `random.gauss`, and its interval, which feeds `time.sleep`.
- The other test scripts are left out because they measure the network. Only their test vector `b"V01P10000"` is used, in `ParseTestVector`.
- ThresholdAddressGenerator.IntBase16Of2: models `int(h, 16)` for ASCII only. It covers two hex digits, a sign followed by a digit, and a digit with white space (space, tab, LF, VT, FF or CR) before or after it. Python also accepts non-ASCII Unicode digits and white space, and those are left out.
- ThresholdAddressGenerator.AddressesOfInput: uses the corrected parser (see Findings). On every input that parse_two_bytes accepts, it computes exactly what `main` computes.

## Findings

| source | as written | input that shows it | evidently intended | confidence | as-written member | corrected member |
|---|---|---|---|---|---|---|
| threshold_address_generator.py:58 | The help text offers `0x41 0x42` as an input. parse_two_bytes removes "0x" and "\x" but keeps the space, leaves the 5-character "41 42" and raises ValueError. | `0x41 0x42` | the bytes 0x41 and 0x42, the same as `4142`; `ParseTwoBytesCorrected` retries with the spaces removed and reads every `0xXY 0xZW`, with hex digits of either case, as the bytes XY and ZW | not executed | ThresholdAddressGenerator.HelpExampleRejected | ThresholdAddressGenerator.SpacedAccepted |
