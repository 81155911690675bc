/** framer_rtcm3_in.c as it works: a buffer, its length, and the two pending counts, updated
    in place. The ghost history `taken` is everything ever copied into the buffer. */
module Rtcm3Framer {
  import opened Basics
  import opened Framing
  import opened Rtcm3
  import Crc24q

  class Framer {
    const buffer: array<byte>
    var bufferLength: nat
    var refillCount: nat
    var removeCount: nat
    ghost var taken: seq<byte>

    ghost function Window(): Window
      reads this
      requires bufferLength <= |taken|
    {
      Framing.Window(|taken| - bufferLength, |taken|, refillCount, removeCount)
    }

    ghost function Contents(): seq<byte>
      reads this, buffer
      requires bufferLength <= buffer.Length
    {
      buffer[..bufferLength]
    }

    /** The buffer holds the end of the history, and the counts fit it. */
    ghost predicate Consistent()
      reads this, buffer
    {
      && buffer.Length == FRAME_SIZE_MAX
      && bufferLength <= |taken| && bufferLength <= FRAME_SIZE_MAX
      && Contents() == taken[|taken| - bufferLength..]
      && Window().Valid()
    }

    ghost predicate Valid()
      reads this, buffer
    {
      Consistent() && Waiting(Transport(), taken, Window())
    }

    constructor ()
      ensures Valid() && fresh(buffer)
      ensures taken == [] && Window() == Fresh
    {
      buffer := new byte[FRAME_SIZE_MAX];
      bufferLength, refillCount, removeCount := 0, 0, 0;
      taken := [];
    }

    // -------------------------------------------------------------------------
    // The buffer
    // -------------------------------------------------------------------------

    /** Searches for a preamble behind the bytes to be removed. */
    method NextPreamble() returns (offset: nat)
      requires removeCount <= bufferLength <= buffer.Length
      ensures offset == FirstPreamble(Transport(), Contents(), removeCount, bufferLength)
    {
      offset := removeCount;
      while offset < bufferLength && buffer[offset] != PREAMBLE
        invariant removeCount <= offset <= bufferLength
        invariant FirstPreamble(Transport(), Contents(), offset, bufferLength)
               == FirstPreamble(Transport(), Contents(), removeCount, bufferLength)
      {
        assert Contents()[offset] == buffer[offset];
        offset := offset + 1;
      }
      assert offset < bufferLength ==> Contents()[offset] == buffer[offset];
    }

    /** Moves the bytes from `offset` on to the start of the buffer. */
    method ShiftDown(offset: nat)
      requires offset <= bufferLength <= buffer.Length
      modifies this`bufferLength, buffer
      ensures bufferLength == old(bufferLength) - offset
      ensures Contents() == old(Contents())[offset..]
    {
      if offset < bufferLength {
        forall i | 0 <= i < bufferLength - offset {
          buffer[i] := buffer[offset + i];
        }
        bufferLength := bufferLength - offset;
      } else {
        bufferLength := 0;
      }
    }

    /** Appends `count` bytes of the input. */
    method Append(data: seq<byte>, offset: nat, count: nat)
      requires offset + count <= |data| && bufferLength + count <= buffer.Length
      modifies this`bufferLength, buffer
      ensures bufferLength == old(bufferLength) + count
      ensures Contents() == old(Contents()) + data[offset..offset + count]
    {
      forall i | 0 <= i < count {
        buffer[bufferLength + i] := data[offset + i];
      }
      bufferLength := bufferLength + count;
    }

    /** Recomputes the check value of the first `total` bytes and compares. */
    method CheckCrc(total: nat) returns (ok: bool)
      requires HEADER_LENGTH + FOOTER_LENGTH <= total <= buffer.Length
      ensures ok == Intact(buffer[..total])
    {
      var computed := Crc24q.Compute(buffer, total - FOOTER_LENGTH, 0);
      var received := Crc24q.TrailerValue(buffer[total - 3], buffer[total - 2], buffer[total - 1]);
      assert buffer[..total][..total - 3] == buffer[..total - 3];
      ok := received == computed;
    }

    /** What to do with the buffer when nothing is pending. */
    method Examine() returns (d: Decision)
      requires bufferLength <= buffer.Length
      ensures d == Decide(Transport(), Contents(), 0, bufferLength)
    {
      if bufferLength < HEADER_LENGTH {
        return Need(HEADER_LENGTH - bufferLength);
      }
      assert Contents()[0] == buffer[0] && Contents()[1] == buffer[1] && Contents()[2] == buffer[2];
      if buffer[0] != PREAMBLE {
        return Drop;
      }
      var messageLength := PayloadLength(buffer[1], buffer[2]);
      var total := HEADER_LENGTH + messageLength + FOOTER_LENGTH;
      assert total == Transport().Total(Contents(), 0);
      if bufferLength < total {
        return Need(total - bufferLength);
      }
      var ok := CheckCrc(total);
      assert buffer[..total] == Contents()[0..0 + total];
      return if ok then Emit(total) else Drop;
    }

    // -------------------------------------------------------------------------
    // The counts
    // -------------------------------------------------------------------------

    /** Carries out a pending removal. */
    method RemoveFront()
      requires Consistent() && removeCount != 0
      modifies this`bufferLength, this`removeCount, buffer
      ensures Consistent() && removeCount == 0
      ensures Window() == old(Window()).(low := Removed(Transport(), taken, old(Window())), remove := 0)
    {
      hide Transport;
      ghost var low := |taken| - bufferLength;
      FirstPreambleInBuffer(Transport(), taken, low, Contents(), removeCount);
      var offset := NextPreamble();
      TailOfTail(taken, low, offset);
      ShiftDown(offset);
      removeCount := 0;
    }

    /** Copies as much of the wanted bytes as there are. */
    method Refill(data: seq<byte>, offset: nat) returns (count: nat)
      requires Consistent() && removeCount == 0
      requires offset <= |data|
      modifies this`bufferLength, this`refillCount, this`taken, buffer
      ensures Consistent() && removeCount == 0
      ensures count == if old(refillCount) <= |data| - offset then old(refillCount) else |data| - offset
      ensures taken == old(taken) + data[offset..offset + count]
      ensures bufferLength == old(bufferLength) + count && refillCount == old(refillCount) - count
    {
      count := refillCount;
      var available := |data| - offset;
      if count > available {
        count := available;
      }
      Append(data, offset, count);
      refillCount := refillCount - count;
      taken := taken + data[offset..offset + count];
    }

    /** framer_process on the input from position `from`. */
    method Process(data: seq<byte>, from: nat) returns (consumed: nat, frame: Option<seq<byte>>)
      requires Valid() && from <= |data|
      modifies this, buffer
      ensures Valid()
      ensures var s := old(taken) + data[from..];
              var o := Framing.Process(Transport(), s, old(Window()));
              && Window() == o.window && frame == o.frame
              && consumed == o.window.high - |old(taken)|
              && taken == s[..o.window.high]
    {
      hide Framing.Process, Settle, Transport, FirstPreamble;
      consumed, frame := Passes(data, from);
      ghost var s := old(taken) + data[from..];
      assert taken == s[..|taken|];
      DecideSame(Transport(), old(taken), s, old(Window().low), old(Window().high));
      ProcessWaits(Transport(), s, old(Window()));
      DecideSame(Transport(), taken, s, Window().low, Window().high);
    }

    /** Does what is pending; `s` is the stream up to the end of the input. */
    method Prepare(data: seq<byte>, at: nat, ghost s: seq<byte>) returns (count: nat)
      requires Consistent() && at <= |data| && s == taken + data[at..]
      modifies this, buffer
      ensures Consistent() && removeCount == 0
      ensures count <= |data| - at && |taken| == |old(taken)| + count && s == taken + data[at + count..]
      ensures var o := Framing.Process(Transport(), s, old(Window()));
              o == if refillCount != 0 then Outcome(Window(), None)
                   else Settle(Transport(), s, Window().low, Window().high)
      ensures old(Window().Live()) <= Window().low
      ensures refillCount == 0 ==> count == old(refillCount)
    {
      hide Framing.Process, Settle, Transport, FirstPreamble;
      ghost var w := Window();
      count := DoPending(data, at);
      assert s == taken + data[at + count..];
      if refillCount != 0 {
        PendingRemains(Transport(), s, w, refillCount);
      } else {
        RemovedSame(Transport(), old(taken), s, w);
        PendingDone(Transport(), s, w, Window().low, Window().high);
      }
    }

    method DoPending(data: seq<byte>, at: nat) returns (count: nat)
      requires Consistent() && at <= |data|
      modifies this, buffer
      ensures Consistent() && removeCount == 0
      ensures count == if old(refillCount) <= |data| - at then old(refillCount) else |data| - at
      ensures refillCount == old(refillCount) - count
      ensures taken == old(taken) + data[at..at + count]
      ensures Window().low == Removed(Transport(), old(taken), old(Window()))
    {
      count := 0;
      if removeCount != 0 {
        RemoveFront();
      }
      if refillCount != 0 {
        count := Refill(data, at);
      }
    }

    /** Looks at the buffer and records what is to be done next. */
    method Decided(ghost s: seq<byte>) returns (frame: Option<seq<byte>>)
      requires Consistent() && refillCount == 0 && removeCount == 0 && taken <= s
      modifies this`refillCount, this`removeCount
      ensures Consistent()
      ensures var o := Settle(Transport(), s, old(Window().low), old(Window().high));
              o == if frame.Some? then Outcome(Window(), frame) else Framing.Process(Transport(), s, Window())
      ensures refillCount != 0 || removeCount != 0
    {
      hide Framing.Process, Settle, Decide, Transport;
      ghost var low, high := Window().low, Window().high;
      ghost var d := Decide(Transport(), s, low, high);
      InStream(s);
      RecordedIsPending(Transport(), s, low, high, d);
      frame := Record();
    }

    method Record() returns (frame: Option<seq<byte>>)
      requires bufferLength <= |taken| && bufferLength <= buffer.Length
      requires refillCount == 0 && removeCount == 0
      modifies this`refillCount, this`removeCount
      ensures var d := Decide(Transport(), Contents(), 0, bufferLength);
              && Window() == Recorded(d, Window().low, Window().high)
              && frame == if d.Emit? then Some(Contents()[..d.length]) else None
    {
      var d := Examine();
      frame := None;
      match d
      case Need(n) =>
        refillCount := n;
      case Drop =>
        removeCount := 1;
      case Emit(total) =>
        assert buffer[..total] == Contents()[..total];
        removeCount := total;
        frame := Some(buffer[..total]);
    }

    lemma InStream(s: seq<byte>)
      requires Consistent() && taken <= s
      ensures Decide(Transport(), s, Window().low, Window().high) == Decide(Transport(), Contents(), 0, bufferLength)
      ensures var d := Decide(Transport(), s, Window().low, Window().high);
              d.Emit? ==> Contents()[..d.length] == s[Window().low..Window().low + d.length]
    {
      var low, high := Window().low, Window().high;
      assert Contents() == s[low..high];
      DecideInBuffer(Transport(), s, low, Contents());
      var d := Decide(Transport(), s, low, high);
      if d.Emit? { StartOfSlice(s, low, high, d.length); }
    }

    ghost predicate Pending()
      reads this
    {
      refillCount != 0 || removeCount != 0
    }

    /** One pass of the loop; it ends the call or leaves the outcome as it was. */
    method Pass(data: seq<byte>, at: nat, ghost s: seq<byte>) returns (count: nat, done: bool, frame: Option<seq<byte>>)
      requires Consistent() && at <= |data| && s == taken + data[at..]
      modifies this, buffer
      ensures Consistent()
      ensures count <= |data| - at && |taken| == |old(taken)| + count && s == taken + data[at + count..]
      ensures Framing.Process(Transport(), s, old(Window()))
           == if done then Outcome(Window(), frame) else Framing.Process(Transport(), s, Window())
      ensures !done ==> Pending() && bufferLength <= old(bufferLength) + count - old(removeCount)
      ensures !done ==> count == old(refillCount)
    {
      hide Framing.Process, Settle, Decide, Transport;
      count := Prepare(data, at, s);
      if refillCount != 0 {
        done, frame := true, None;
      } else {
        frame := Decided(s);
        done := frame.Some?;
      }
    }

    method Passes(data: seq<byte>, from: nat) returns (consumed: nat, frame: Option<seq<byte>>)
      requires Consistent() && from <= |data|
      modifies this, buffer
      ensures Consistent()
      ensures var s := old(taken) + data[from..];
              Framing.Process(Transport(), s, old(Window())) == Outcome(Window(), frame)
              && consumed == |taken| - |old(taken)| && taken <= s
    {
      hide Framing.Process, Settle, Decide, Transport;
      ghost var s := taken + data[from..];
      ghost var outcome := Framing.Process(Transport(), s, Window());
      consumed := 0;
      while true
        invariant Consistent() && consumed <= |data| - from && |taken| == |old(taken)| + consumed
        invariant s == taken + data[from + consumed..]
        invariant Framing.Process(Transport(), s, Window()) == outcome
        decreases |s| - |taken| + bufferLength, |s| - |taken|, if Pending() then 0 else 1
      {
        var count, done;
        count, done, frame := Pass(data, from + consumed, s);
        consumed := consumed + count;
        if done {
          return;
        }
      }
    }
  }
}
