/** RTCM3 frames built from payloads, and what the write path makes of streams of them. */
module Rtcm3Streams {
  import opened Basics
  import opened Framing
  import opened EndpointAdapter
  import opened CleanStreams
  import opened Stranding
  import opened Rtcm3
  import Crc24q
  import Remainders

  // ---------------------------------------------------------------------------
  // Building frames
  // ---------------------------------------------------------------------------

  const PAYLOAD_MAX := 1023

  function HighBits(n: nat): byte
    requires n < 4
  {
    if n == 0 then 0 else if n == 1 then 1 else if n == 2 then 2 else 3
  }

  lemma NextByte(b: byte)
    requires b as nat < 255
    ensures (b + 1) as nat == b as nat + 1
  {
    assert b < 255;
  }

  function ByteOf(n: nat): (b: byte)
    requires n < 256
    ensures b as nat == n
  {
    if n == 0 then 0 else
      NextByte(ByteOf(n - 1));
      ByteOf(n - 1) + 1
  }

  /** Header with any values in the six reserved bits, and payload. */
  function Body(payload: seq<byte>, reserved: byte): seq<byte>
    requires |payload| <= PAYLOAD_MAX
  {
    [PREAMBLE, reserved | HighBits(|payload| / 256), ByteOf(|payload| % 256)] + payload
  }

  function Trailer(crc: Crc24q.Register): seq<byte> {
    [(crc >> 16) as byte, ((crc >> 8) & 0xFF) as byte, (crc & 0xFF) as byte]
  }

  function Encode(payload: seq<byte>, reserved: byte): seq<byte>
    requires |payload| <= PAYLOAD_MAX
  {
    var body := Body(payload, reserved);
    body + Trailer(Crc24q.Crc(body, 0))
  }

  function Decode(frame: seq<byte>): seq<byte>
    requires |frame| >= HEADER_LENGTH + FOOTER_LENGTH
  {
    frame[HEADER_LENGTH..|frame| - FOOTER_LENGTH]
  }

  lemma ReservedIgnored(reserved: byte, n: nat)
    requires reserved & 3 == 0 && n < 4
    ensures TwoBits(reserved | HighBits(n)) == n
  {
  }

  lemma TrailerRoundTrip(crc: Crc24q.Register)
    ensures var t := Trailer(crc); Crc24q.TrailerValue(t[0], t[1], t[2]) == crc
  {
  }

  lemma EncodedLength(payload: seq<byte>, reserved: byte)
    requires |payload| <= PAYLOAD_MAX && reserved & 3 == 0
    ensures PayloadLength(Body(payload, reserved)[1], Body(payload, reserved)[2]) == |payload|
  {
    var n := |payload|;
    ReservedIgnored(reserved, n / 256);
  }

  lemma AppendedIsIntact(body: seq<byte>)
    ensures Intact(body + Trailer(Crc24q.Crc(body, 0)))
  {
    hide Crc24q.Crc, Crc24q.TrailerValue;
    var crc := Crc24q.Crc(body, 0);
    var frame := body + Trailer(crc);
    assert frame[..|frame| - 3] == body;
    TrailerRoundTrip(crc);
  }

  /** What Encode builds is a frame, and its payload can be read back. */
  lemma EncodeIsFrame(payload: seq<byte>, reserved: byte)
    requires |payload| <= PAYLOAD_MAX && reserved & 3 == 0
    ensures IsFrame(Transport(), Encode(payload, reserved))
    ensures Decode(Encode(payload, reserved)) == payload
  {
    hide Crc24q.Crc, Intact, PayloadLength;
    var body, frame := Body(payload, reserved), Encode(payload, reserved);
    EncodedLength(payload, reserved);
    AppendedIsIntact(body);
    assert frame[0] == body[0] && frame[1] == body[1] && frame[2] == body[2];
  }

  // ---------------------------------------------------------------------------
  // Streams
  // ---------------------------------------------------------------------------

  datatype Message = Message(payload: seq<byte>, reserved: byte)

  ghost predicate Encodes(m: Message, frame: seq<byte>) {
    |m.payload| <= PAYLOAD_MAX && m.reserved & 3 == 0 && frame == Encode(m.payload, m.reserved)
  }

  ghost predicate EncodesAll(messages: seq<Message>, frames: seq<seq<byte>>) {
    |frames| == |messages| && forall i :: 0 <= i < |messages| ==> Encodes(messages[i], frames[i])
  }

  ghost predicate FreeOfPreambles(gaps: seq<seq<byte>>) {
    forall i :: 0 <= i < |gaps| ==> PREAMBLE !in gaps[i]
  }

  lemma EncodedStreamIsClean(messages: seq<Message>, frames: seq<seq<byte>>, gaps: seq<seq<byte>>)
    requires EncodesAll(messages, frames) && FreeOfPreambles(gaps) && |gaps| == |messages| + 1
    ensures Clean(Transport(), gaps, frames)
  {
    hide Encode, IsFrame;
    forall i | 0 <= i < |frames|
      ensures IsFrame(Transport(), frames[i])
    {
      assert Encodes(messages[i], frames[i]);
      EncodeIsFrame(messages[i].payload, messages[i].reserved);
    }
  }

  /** Payloads framed, put into a stream with garbage between them and fed to a fresh framer
      in any chunks come out as exactly those frames, in order; the filter alone decides
      which of them are written. */
  lemma RoundTrip<S>(p: Protocol, filter: Filter<S>, taken: seq<byte>, w: Window, f: S, messages: seq<Message>,
                     frames: seq<seq<byte>>, gaps: seq<seq<byte>>, chunks: seq<seq<byte>>)
    requires p == Transport() && JustCreated(taken, w)
    requires EncodesAll(messages, frames) && FreeOfPreambles(gaps) && |gaps| == |messages| + 1
    requires chunks != [] && chunks[|chunks| - 1] != []
    requires Flatten(chunks) == Weave(gaps, frames)
    ensures var d := DrainAll(p, filter, taken, w, f, chunks);
            && d.candidates == frames
            && Filtered(filter, f, frames) == (d.written, d.filter)
  {
    hide DrainAll, Drain, Filtered, Weave, EncodesAll, Clean, Flatten, FreeOfPreambles;
    EncodedStreamIsClean(messages, frames, gaps);
    DeliveredExactly(p, filter, taken, w, f, gaps, frames, chunks);
    ChunkIndependence(p, filter, taken, w, f, chunks);
    DrainFilters(p, filter, taken + Flatten(chunks), w, f);
  }

  /** Each of those frames is there once the chunk with its last byte has been fed. */
  lemma RoundTripInTime<S>(p: Protocol, filter: Filter<S>, taken: seq<byte>, w: Window, f: S, messages: seq<Message>,
                           frames: seq<seq<byte>>, gaps: seq<seq<byte>>, chunks: seq<seq<byte>>, k: nat)
    returns (candidates: seq<seq<byte>>)
    requires p == Transport() && JustCreated(taken, w)
    requires EncodesAll(messages, frames) && FreeOfPreambles(gaps) && |gaps| == |messages| + 1
    requires chunks != [] && chunks[|chunks| - 1] != []
    requires Flatten(chunks) <= Weave(gaps, frames)
    requires k < |frames| && |UpTo(gaps, frames, k)| <= |Flatten(chunks)|
    ensures candidates == DrainAll(p, filter, taken, w, f, chunks).candidates
    ensures frames[..k + 1] <= candidates <= frames
  {
    hide DrainAll, Weave, EncodesAll, Clean, Flatten, UpTo, FreeOfPreambles;
    EncodedStreamIsClean(messages, frames, gaps);
    candidates := DeliveredInTime(p, filter, taken, w, f, gaps, frames, chunks, k);
  }

  // ---------------------------------------------------------------------------
  // Damage
  // ---------------------------------------------------------------------------

  /** A frame damaged behind its header within 24 consecutive bits is not handed out: the
      framer, with the damaged frame at the start of its buffer, drops its first byte. */
  lemma DamagedFrameDropped(frame: seq<byte>, damaged: seq<byte>, start: nat, width: nat)
    requires IsFrame(Transport(), frame)
    requires |damaged| == |frame| && damaged != frame
    requires HEADER_LENGTH * 8 <= start && width <= 24 && start + width <= 8 * |frame|
    requires Remainders.Bits(frame)[..start] == Remainders.Bits(damaged)[..start]
    requires Remainders.Bits(frame)[start + width..] == Remainders.Bits(damaged)[start + width..]
    ensures Decide(Transport(), damaged, 0, |damaged|) == Drop
  {
    hide Crc24q.TrailerOk, Remainders.Bits, PayloadLength;
    assert Intact(frame);
    Crc24q.BurstDetected(frame, damaged, start, width);
    SameHeader(frame, damaged, start);
    assert damaged[0..0 + |damaged|] == damaged;
  }

  lemma SameHeader(a: seq<byte>, b: seq<byte>, start: nat)
    requires |a| == |b| >= HEADER_LENGTH && HEADER_LENGTH * 8 <= start <= 8 * |a|
    requires Remainders.Bits(a)[..start] == Remainders.Bits(b)[..start]
    ensures a[0] == b[0] && a[1] == b[1] && a[2] == b[2]
  {
    hide Remainders.Bits;
    var p, q := Remainders.Bits(a), Remainders.Bits(b);
    assert p[..24] == p[..start][..24] == q[..start][..24] == q[..24];
    SplitHeader(a);
    SplitHeader(b);
    Crc24q.BitsInjective(a[..3], b[..3]);
    assert a[..3][0] == b[..3][0] && a[..3][1] == b[..3][1] && a[..3][2] == b[..3][2];
  }

  lemma SplitHeader(a: seq<byte>)
    requires |a| >= HEADER_LENGTH
    ensures Remainders.Bits(a)[..24] == Remainders.Bits(a[..3])
  {
    hide Remainders.Bits;
    assert a == a[..3] + a[3..];
    Remainders.BitsAppend(a[..3], a[3..]);
  }

  // ---------------------------------------------------------------------------
  // Frames can stay behind
  // ---------------------------------------------------------------------------

  /** The frame with an empty payload. */
  const EmptyFrame: seq<byte> := [0xD3, 0x00, 0x00, 0x47, 0xEA, 0x4B]

  lemma EmptyFrameSteps()
    ensures Crc24q.TableStep(0, 0xD3) == 0xE33309
    ensures Crc24q.TableStep(0xE33309, 0x00) == 0x19A569
    ensures Crc24q.TableStep(0x19A569, 0x00) == 0x47EA4B
  {
  }

  lemma EmptyFrameIntact()
    ensures Intact(EmptyFrame)
  {
    EmptyFrameSteps();
    hide Crc24q.TableStep;
    var body := EmptyFrame[..3];
    assert body[1..][1..] == [0x00] && body[1..] == [0x00, 0x00] && body[0] == 0xD3;
    Crc24q.CrcOne(0x00, 0x19A569);
    assert Crc24q.Crc(body, 0) == 0x47EA4B;
  }

  function DecoyChunk(last: byte): (s: seq<byte>)
    ensures |s| == 18
  {
    [0xD3, 0x00, 0x0C] + EmptyFrame + EmptyFrame + [0x00, 0x00, last]
  }

  lemma AtMostOneIntact()
    ensures !Intact(DecoyChunk(0)) || !Intact(DecoyChunk(1))
  {
    hide Crc24q.Crc;
    var a, b := DecoyChunk(0), DecoyChunk(1);
    assert a[..15] == b[..15];
    assert Crc24q.TrailerValue(a[15], a[16], a[17]) == 0;
    assert Crc24q.TrailerValue(b[15], b[16], b[17]) == 1;
  }

  lemma DecoyLength()
    ensures PayloadLength(0x00, 0x0C) == 12 && PayloadLength(0x00, 0x00) == 0
  {
  }

  /** An eighteen-byte RTCM3 chunk holds two frames of which one stays behind, whatever the
      filter, as long as it passes the first. */
  lemma ChunkStrands<S>(p: Protocol, filter: Filter<S>, w: Window, f: S) returns (s: seq<byte>)
    requires p == Transport() && w == Fresh && filter(f, EmptyFrame).0
    ensures |s| == 18 && StaysBehind(p, s, Drain(p, filter, s, w, f))
  {
    hide Drain, Scan, Intact, PayloadLength, Decide;
    AtMostOneIntact();
    EmptyFrameIntact();
    DecoyLength();
    s := if Intact(DecoyChunk(0)) then DecoyChunk(1) else DecoyChunk(0);
    DecoyChunkIsDecoy(s[17]);
    DecoyStrands(p, filter, s, EmptyFrame, w, f);
  }

  lemma DecoyChunkIsDecoy(last: byte)
    requires last != PREAMBLE && !Intact(DecoyChunk(last))
    ensures Decoy(Transport(), DecoyChunk(last), EmptyFrame)
  {
    EmptyFrameIntact();
    DecoyLength();
    hide Intact, PayloadLength;
    var s := DecoyChunk(last);
    assert s[3..9] == EmptyFrame && s[9..15] == EmptyFrame;
  }
}
