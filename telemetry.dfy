/** The telemetry payload of a type-1 frame (app3.py, parse_telemetry):
    `struct.unpack("<Ii", payload)`, an unsigned then a signed 32-bit
    little-endian integer. */
module Telemetry {
  import opened Common

  /** The frame type that carries telemetry (TYPE_TELEMETRY). */
  const TypeTelemetry: byte := 0x01

  /** Size of a telemetry payload: `struct.calcsize("<Ii")`. */
  const PayloadSize: nat := 8

  const Two32: nat := 0x1_0000_0000
  const Two31: nat := 0x8000_0000

  /** A decoded reading: the sender's counter and the raw weight in grams. */
  datatype Reading = Reading(counter: nat, weightG: int)

  /** The unsigned little-endian value of the four bytes at `i`. */
  function Le32(bs: seq<byte>, i: nat): (n: nat)
    requires i + 4 <= |bs|
    ensures n < Two32
  {
    bs[i] as int + 256 * (bs[i + 1] as int + 256 * (bs[i + 2] as int + 256 * bs[i + 3] as int))
  }

  /** The four little-endian bytes of a 32-bit value. */
  function Le32Bytes(n: nat): (bs: seq<byte>)
    requires n < Two32
    ensures |bs| == 4
  {
    var q1 := n / 256;
    var q2 := q1 / 256;
    var q3 := q2 / 256;
    [n % 256, q1 % 256, q2 % 256, q3]
  }

  /** Splitting off the low byte of `r + 256 * q`. */
  lemma LowByte(r: int, q: int)
    requires 0 <= r < 256
    ensures (r + 256 * q) % 256 == r && (r + 256 * q) / 256 == q
  {
  }

  lemma Le32OfBytes(n: nat)
    requires n < Two32
    ensures Le32(Le32Bytes(n), 0) == n
  {
  }

  lemma BytesOfLe32(bs: seq<byte>, i: nat)
    requires i + 4 <= |bs|
    ensures Le32Bytes(Le32(bs, i)) == bs[i..i + 4]
  {
    var n := Le32(bs, i);
    var q2 := bs[i + 2] as int + 256 * bs[i + 3] as int;
    var q1 := bs[i + 1] as int + 256 * q2;
    LowByte(bs[i], q1);
    LowByte(bs[i + 1], q2);
    LowByte(bs[i + 2], bs[i + 3]);
  }

  /** Two's complement reading of a 32-bit unsigned value (`i`): the
      signed 32-bit value congruent to `u` modulo 2^32, negative exactly
      when the top bit is set. */
  function Signed32(u: nat): (r: int)
    requires u < Two32
    ensures -(Two31 as int) <= r < Two31
    ensures r % Two32 == u
    ensures r < 0 <==> u >= Two31
  {
    if u < Two31 then u else u - Two32
  }

  /** `parse_telemetry`: nothing unless the payload is exactly 8 bytes;
      otherwise the counter from bytes 0..3 and the weight from bytes 4..7. */
  function ParseTelemetry(payload: seq<byte>): (r: Option<Reading>)
    ensures r.Some? <==> |payload| == PayloadSize
    ensures r.Some? ==> r.value.counter < Two32
    ensures r.Some? ==> -(Two31 as int) <= r.value.weightG < Two31
  {
    if |payload| != PayloadSize then None
    else Some(Reading(Le32(payload, 0), Signed32(Le32(payload, 4))))
  }

  /** A reading a sender can put on the wire. */
  predicate Representable(r: Reading)
  {
    r.counter < Two32 && -(Two31 as int) <= r.weightG < Two31
  }

  /** What the sender does: `struct.pack("<Ii", counter, weight_g)`. */
  function EncodeTelemetry(r: Reading): (payload: seq<byte>)
    requires Representable(r)
    ensures |payload| == PayloadSize
  {
    Le32Bytes(r.counter) + Le32Bytes((r.weightG + Two32) % Two32)
  }

  /** Every representable reading survives the wire unchanged. */
  lemma ParseEncoded(r: Reading)
    requires Representable(r)
    ensures ParseTelemetry(EncodeTelemetry(r)) == Some(r)
  {
    var u := (r.weightG + Two32) % Two32;
    Le32OfBytes(r.counter);
    Le32OfBytes(u);
    var p := EncodeTelemetry(r);
    assert Le32(p, 0) == Le32(Le32Bytes(r.counter), 0);
    assert Le32(p, 4) == Le32(Le32Bytes(u), 0);
  }

  /** Every 8-byte payload is the encoding of the reading parsed from it:
      parsing loses nothing. */
  lemma EncodeParsed(payload: seq<byte>)
    requires |payload| == PayloadSize
    ensures ParseTelemetry(payload).Some?
    ensures Representable(ParseTelemetry(payload).value)
    ensures EncodeTelemetry(ParseTelemetry(payload).value) == payload
  {
    var w := Signed32(Le32(payload, 4));
    assert (w + Two32) % Two32 == Le32(payload, 4);
    BytesOfLe32(payload, 0);
    BytesOfLe32(payload, 4);
    assert payload[0..4] + payload[4..8] == payload;
  }
}
