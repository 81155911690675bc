/** RTCM3 frames: preamble, ten-bit length, payload, CRC-24Q. */
module Rtcm3 {
  import opened Basics
  import opened Framing
  import Crc24q

  const PREAMBLE: byte := 0xD3

  predicate IsPreamble(b: byte) { b == PREAMBLE }

  /** The two low bits of a byte. */
  function TwoBits(b: byte): (n: nat)
    ensures n < 4
  {
    if b & 3 == 0 then 0 else if b & 3 == 1 then 1 else if b & 3 == 2 then 2 else 3
  }

  /** The length field: the two low bits of one byte and all of the next. */
  function PayloadLength(a: byte, b: byte): (n: nat)
    ensures n < 1024
  {
    TwoBits(a) * 256 + (b as nat)
  }

  /** The check value in the last three bytes is that of the bytes before them. */
  predicate Intact(frame: seq<byte>) {
    |frame| >= FOOTER_LENGTH && Crc24q.TrailerOk(frame)
  }

  function Transport(): (p: Protocol)
    ensures p.Valid()
  {
    var p := Protocol(IsPreamble, PayloadLength, Intact);
    assert forall a, b :: p.Fits(a, b);
    p
  }
}
