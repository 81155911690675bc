/** The resumable framer of framer_rtcm3_in.c as a function of its state and its input,
    and the whole-stream scanner it refines. What a frame looks like is a parameter. */
module Framing {
  import opened Basics

  const HEADER_LENGTH := 3
  const FOOTER_LENGTH := 3
  const FRAME_SIZE_MAX := 1029

  /** `payload` reads the length field from the two bytes after the preamble; `intact` is
      the comparison of the check value of a whole frame. */
  datatype Protocol = Protocol(
    preamble: byte -> bool,
    payload: (byte, byte) -> nat,
    intact: seq<byte> -> bool)
  {
    ghost predicate Fits(a: byte, b: byte) {
      HEADER_LENGTH + payload(a, b) + FOOTER_LENGTH <= FRAME_SIZE_MAX
    }

    ghost predicate Valid() {
      forall a, b :: Fits(a, b)
    }

    /** The length of the frame whose header stands at position `at`. */
    function Total(s: seq<byte>, at: nat): (n: nat)
      requires at + HEADER_LENGTH <= |s|
      ensures HEADER_LENGTH + FOOTER_LENGTH <= n
      ensures Valid() ==> n <= FRAME_SIZE_MAX
    {
      assert Valid() ==> Fits(s[at + 1], s[at + 2]);
      HEADER_LENGTH + payload(s[at + 1], s[at + 2]) + FOOTER_LENGTH
    }
  }

  // ---------------------------------------------------------------------------
  // The scanner
  // ---------------------------------------------------------------------------

  /** The frames found, and the position from which on nothing can be decided yet. */
  datatype Scanned = Scanned(frames: seq<seq<byte>>, rest: nat)

  /** Skip to a preamble, read the length, check, then emit or move on by one byte. */
  function Scan(p: Protocol, s: seq<byte>, at: nat): (r: Scanned)
    requires at <= |s|
    ensures at <= r.rest <= |s|
    decreases |s| - at
  {
    if at == |s| then Scanned([], at)
    else if !p.preamble(s[at]) then Scan(p, s, at + 1)
    else if |s| - at < HEADER_LENGTH || |s| - at < p.Total(s, at) then Scanned([], at)
    else if p.intact(s[at..at + p.Total(s, at)]) then
      Prepend(s[at..at + p.Total(s, at)], Scan(p, s, at + p.Total(s, at)))
    else Scan(p, s, at + 1)
  }

  function Prepend(frame: seq<byte>, later: Scanned): Scanned {
    later.(frames := [frame] + later.frames)
  }

  /** One step of the scanner. */
  lemma ScanStep(p: Protocol, s: seq<byte>, at: nat)
    requires at < |s|
    ensures !p.preamble(s[at]) ==> Scan(p, s, at) == Scan(p, s, at + 1)
    ensures p.preamble(s[at]) ==>
              if |s| - at < HEADER_LENGTH || |s| - at < p.Total(s, at) then Scan(p, s, at) == Scanned([], at)
              else
                var n := p.Total(s, at);
                Scan(p, s, at) == if p.intact(s[at..at + n]) then Prepend(s[at..at + n], Scan(p, s, at + n))
                                  else Scan(p, s, at + 1)
  {
  }

  /** Scanning `s` and then going on in `t` is scanning `t`. */
  ghost predicate Resumes(p: Protocol, s: seq<byte>, t: seq<byte>, at: nat)
    requires at <= |s| <= |t|
  {
    Scan(p, t, at) == Append(Scan(p, s, at).frames, Scan(p, t, Scan(p, s, at).rest))
  }

  /** The scanner can stop at the end of a prefix and go on from its rest. */
  lemma {:induction false} ScanResumes(p: Protocol, s: seq<byte>, t: seq<byte>, at: nat)
    requires at <= |s| && s <= t
    ensures var first := Scan(p, s, at);
            Scan(p, t, at) == Append(first.frames, Scan(p, t, first.rest))
    decreases |s| - at
  {
    hide Scan, Append, Prepend;
    assert Resumes(p, s, t, at) by {
      hide Resumes;
      if at == |s| || (p.preamble(s[at]) && (|s| - at < HEADER_LENGTH || |s| - at < p.Total(s, at))) {
        ResumesAtRest(p, s, t, at);
      } else if p.preamble(s[at]) && p.intact(s[at..at + p.Total(s, at)]) {
        ScanResumes(p, s, t, at + p.Total(s, at));
        ResumesAfterFrame(p, s, t, at, p.Total(s, at));
      } else {
        ScanResumes(p, s, t, at + 1);
        ResumesAfterByte(p, s, t, at);
      }
    }
  }

  lemma ResumesAtRest(p: Protocol, s: seq<byte>, t: seq<byte>, at: nat)
    requires at <= |s| && s <= t
    requires at == |s| || (p.preamble(s[at]) && (|s| - at < HEADER_LENGTH || |s| - at < p.Total(s, at)))
    ensures Resumes(p, s, t, at)
  {
    AppendNone(Scan(p, t, at));
  }

  lemma SameSlice(p: Protocol, s: seq<byte>, t: seq<byte>, at: nat)
    requires s <= t && at + HEADER_LENGTH <= |s| && at + p.Total(s, at) <= |s|
    ensures p.Total(t, at) == p.Total(s, at) && t[at..at + p.Total(s, at)] == s[at..at + p.Total(s, at)]
  {
  }

  lemma ResumesAfterFrame(p: Protocol, s: seq<byte>, t: seq<byte>, at: nat, n: nat)
    requires s <= t && at + HEADER_LENGTH <= |s| && p.preamble(s[at]) && n == p.Total(s, at) && at + n <= |s|
    requires p.intact(s[at..at + n])
    requires Scan(p, t, at + n) == Append(Scan(p, s, at + n).frames, Scan(p, t, Scan(p, s, at + n).rest))
    ensures Resumes(p, s, t, at)
  {
    hide Scan, Append, Prepend;
    SameSlice(p, s, t, at);
    ScanStep(p, s, at);
    ScanStep(p, t, at);
    var first := Scan(p, s, at + n);
    PrependAppend(s[at..at + n], first.frames, Scan(p, t, first.rest));
    PrependParts(s[at..at + n], first);
  }

  lemma ResumesAfterByte(p: Protocol, s: seq<byte>, t: seq<byte>, at: nat)
    requires at < |s| && s <= t
    requires p.preamble(s[at]) ==>
               && at + HEADER_LENGTH <= |s| && at + p.Total(s, at) <= |s| && !p.intact(s[at..at + p.Total(s, at)])
    requires Scan(p, t, at + 1) == Append(Scan(p, s, at + 1).frames, Scan(p, t, Scan(p, s, at + 1).rest))
    ensures Resumes(p, s, t, at)
  {
    hide Scan, Append;
    if p.preamble(s[at]) { SameSlice(p, s, t, at); }
    ScanStep(p, s, at);
    ScanStep(p, t, at);
  }

  lemma PrependParts(frame: seq<byte>, later: Scanned)
    ensures Prepend(frame, later) == Scanned([frame] + later.frames, later.rest)
  {
  }

  function Append(frames: seq<seq<byte>>, later: Scanned): Scanned {
    later.(frames := frames + later.frames)
  }

  lemma AppendNone(later: Scanned)
    ensures Append([], later) == later
  {
  }

  lemma PrependAppend(frame: seq<byte>, frames: seq<seq<byte>>, later: Scanned)
    ensures Prepend(frame, Append(frames, later)) == Append([frame] + frames, later)
  {
    assert [frame] + (frames + later.frames) == [frame] + frames + later.frames;
  }

  // ---------------------------------------------------------------------------
  // The framer
  // ---------------------------------------------------------------------------

  /** The state of the framer relative to the stream fed to it: the buffer holds the bytes
      from `low` to `high`, `refill` more are wanted, or the first `remove` of the buffer
      are to be dropped. */
  datatype Window = Window(low: nat, high: nat, refill: nat, remove: nat)
  {
    predicate Valid() {
      && low + remove <= high
      && high - low + refill <= FRAME_SIZE_MAX
      && (refill == 0 || remove == 0)
    }

    /** Everything before this position is done with. */
    function Live(): nat { low + remove }
  }

  const Fresh := Window(0, 0, 0, 0)

  datatype Outcome = Outcome(window: Window, frame: Option<seq<byte>>)

  /** The position of the first preamble from `at` up to `high`, or `high`. */
  function FirstPreamble(p: Protocol, s: seq<byte>, at: nat, high: nat): (k: nat)
    requires at <= high <= |s|
    ensures at <= k <= high
    decreases high - at
  {
    if at == high || p.preamble(s[at]) then at else FirstPreamble(p, s, at + 1, high)
  }

  datatype Decision = Need(count: nat) | Drop | Emit(length: nat)

  /** What a pass of the loop does with the buffer once nothing is pending. */
  function Decide(p: Protocol, s: seq<byte>, low: nat, high: nat): (d: Decision)
    requires low <= high <= |s|
    ensures d.Drop? ==> low < high
    ensures d.Emit? ==> HEADER_LENGTH + FOOTER_LENGTH <= d.length <= high - low
    ensures d.Need? ==> 0 < d.count && (p.Valid() ==> high - low + d.count <= FRAME_SIZE_MAX)
  {
    if high - low < HEADER_LENGTH then Need(HEADER_LENGTH - (high - low))
    else if !p.preamble(s[low]) then Drop
    else if high - low < p.Total(s, low) then Need(p.Total(s, low) - (high - low))
    else if !p.intact(s[low..low + p.Total(s, low)]) then Drop
    else Emit(p.Total(s, low))
  }

  /** The loop once nothing is pending: passes until a frame is found or the stream, as far
      as it is known, is used up. */
  function Settle(p: Protocol, s: seq<byte>, low: nat, high: nat): (o: Outcome)
    requires p.Valid() && low <= high <= |s| && high - low <= FRAME_SIZE_MAX
    ensures o.window.Valid() && high <= o.window.high <= |s|
    ensures o.frame.None? ==> o.window.high == |s|
    ensures low <= o.window.low && (o.frame.Some? ==> low < o.window.Live())
    decreases |s| - low, |s| - high
  {
    match Decide(p, s, low, high)
    case Need(n) =>
      if |s| - high < n then Outcome(Window(low, |s|, n - (|s| - high), 0), None)
      else Settle(p, s, low, high + n)
    case Drop => Settle(p, s, FirstPreamble(p, s, low + 1, high), high)
    case Emit(n) => Outcome(Window(low, high, 0, n), Some(s[low..low + n]))
  }

  /** The start of the buffer once a pending removal has been carried out. */
  function Removed(p: Protocol, s: seq<byte>, w: Window): (low: nat)
    requires w.Valid() && w.high <= |s|
    ensures w.Live() <= low <= w.high
  {
    if w.remove == 0 then w.low else FirstPreamble(p, s, w.Live(), w.high)
  }

  /** framer_process when the stream is known up to the end of `s`: a pending removal and a
      pending refill come first. */
  function Process(p: Protocol, s: seq<byte>, w: Window): (o: Outcome)
    requires p.Valid() && w.Valid() && w.high <= |s|
    ensures o.window.Valid() && w.high <= o.window.high <= |s|
    ensures o.frame.None? ==> o.window.high == |s|
    ensures w.Live() <= o.window.low && (o.frame.Some? ==> w.Live() < o.window.Live())
  {
    if |s| - w.high < w.refill then
      Outcome(Window(w.low, |s|, w.refill - (|s| - w.high), 0), None)
    else
      Settle(p, s, Removed(p, s, w), w.high + w.refill)
  }

  // ---------------------------------------------------------------------------
  // What every state has
  // ---------------------------------------------------------------------------

  /** In a reachable state a pending refill is exactly what the buffer is waiting for. */
  predicate Waiting(p: Protocol, s: seq<byte>, w: Window)
    requires w.Valid() && w.high <= |s|
  {
    w.refill > 0 ==> Decide(p, s, w.low, w.high) == Need(w.refill)
  }

  lemma {:induction false} SettleWaits(p: Protocol, s: seq<byte>, low: nat, high: nat)
    requires p.Valid() && low <= high <= |s| && high - low <= FRAME_SIZE_MAX
    ensures var o := Settle(p, s, low, high);
            Waiting(p, s, o.window) && (o.frame.None? <==> o.window.refill > 0)
    decreases |s| - low, |s| - high
  {
    hide FirstPreamble;
    match Decide(p, s, low, high)
    case Need(n) => if |s| - high >= n { SettleWaits(p, s, low, high + n); }
    case Drop => SettleWaits(p, s, FirstPreamble(p, s, low + 1, high), high);
    case Emit(n) =>
  }

  lemma ProcessWaits(p: Protocol, s: seq<byte>, w: Window)
    requires p.Valid() && w.Valid() && w.high <= |s| && Waiting(p, s, w)
    ensures var o := Process(p, s, w);
            Waiting(p, s, o.window) && (o.frame.None? <==> o.window.refill > 0)
  {
    hide Settle, FirstPreamble;
    if |s| - w.high >= w.refill {
      SettleWaits(p, s, Removed(p, s, w), w.high + w.refill);
    }
  }

  /** A frame is handed out in place: it is the part of the buffer marked for removal. */
  predicate Handed(p: Protocol, s: seq<byte>, o: Outcome)
    requires o.window.Valid() && o.window.high <= |s|
    requires o.frame.Some?
  {
    var w, frame := o.window, o.frame.value;
    && w.refill == 0 && w.remove >= HEADER_LENGTH + FOOTER_LENGTH
    && frame == s[w.low..w.low + w.remove]
    && w.remove == p.Total(s, w.low) && p.preamble(s[w.low]) && p.intact(frame)
  }

  lemma {:induction false} SettleEmits(p: Protocol, s: seq<byte>, low: nat, high: nat)
    requires p.Valid() && low <= high <= |s| && high - low <= FRAME_SIZE_MAX
    requires Settle(p, s, low, high).frame.Some?
    ensures Handed(p, s, Settle(p, s, low, high))
    decreases |s| - low, |s| - high
  {
    hide FirstPreamble;
    match Decide(p, s, low, high)
    case Need(n) => SettleEmits(p, s, low, high + n);
    case Drop => SettleEmits(p, s, FirstPreamble(p, s, low + 1, high), high);
    case Emit(n) =>
  }

  lemma ProcessEmits(p: Protocol, s: seq<byte>, w: Window)
    requires p.Valid() && w.Valid() && w.high <= |s|
    requires Process(p, s, w).frame.Some?
    ensures Handed(p, s, Process(p, s, w))
  {
    hide Settle, FirstPreamble, Decide;
    SettleEmits(p, s, Removed(p, s, w), w.high + w.refill);
  }

  // ---------------------------------------------------------------------------
  // Passes of the loop
  // ---------------------------------------------------------------------------

  lemma NeedIsPending(p: Protocol, s: seq<byte>, low: nat, high: nat)
    requires p.Valid() && low <= high <= |s| && high - low <= FRAME_SIZE_MAX
    requires Decide(p, s, low, high).Need?
    ensures Settle(p, s, low, high) == Process(p, s, Window(low, high, Decide(p, s, low, high).count, 0))
  {
  }

  lemma DropIsPending(p: Protocol, s: seq<byte>, low: nat, high: nat)
    requires p.Valid() && low <= high <= |s| && high - low <= FRAME_SIZE_MAX
    requires Decide(p, s, low, high).Drop?
    ensures Settle(p, s, low, high) == Process(p, s, Window(low, high, 0, 1))
  {
  }

  /** The window and the frame a pass of the loop leaves behind. */
  function Recorded(d: Decision, low: nat, high: nat): Window {
    match d
    case Need(n) => Window(low, high, n, 0)
    case Drop => Window(low, high, 0, 1)
    case Emit(n) => Window(low, high, 0, n)
  }

  lemma RecordedIsPending(p: Protocol, s: seq<byte>, low: nat, high: nat, d: Decision)
    requires p.Valid() && low <= high <= |s| && high - low <= FRAME_SIZE_MAX
    requires d == Decide(p, s, low, high)
    ensures Recorded(d, low, high).Valid()
    ensures !d.Emit? ==> Settle(p, s, low, high) == Process(p, s, Recorded(d, low, high))
    ensures d.Emit? ==> Settle(p, s, low, high) == Outcome(Recorded(d, low, high), Some(s[low..low + d.length]))
  {
    hide Process, FirstPreamble;
    match d
    case Need(n) => NeedIsPending(p, s, low, high);
    case Drop => DropIsPending(p, s, low, high);
    case Emit(n) =>
  }

  lemma PendingDone(p: Protocol, s: seq<byte>, w: Window, low: nat, high: nat)
    requires p.Valid() && w.Valid() && w.high <= |s|
    requires low == Removed(p, s, w) && high == w.high + w.refill <= |s|
    ensures low <= high && high - low <= FRAME_SIZE_MAX
    ensures Process(p, s, w) == Settle(p, s, low, high)
  {
  }

  lemma PendingRemains(p: Protocol, s: seq<byte>, w: Window, missing: nat)
    requires p.Valid() && w.Valid() && w.high <= |s|
    requires 0 < missing && w.high + w.refill == |s| + missing
    ensures Process(p, s, w) == Outcome(Window(w.low, |s|, missing, 0), None)
  {
  }

  // ---------------------------------------------------------------------------
  // A stream known only in part: s is a prefix of t
  // ---------------------------------------------------------------------------

  lemma DecideSame(p: Protocol, s: seq<byte>, t: seq<byte>, low: nat, high: nat)
    requires low <= high <= |s| && s <= t
    ensures Decide(p, s, low, high) == Decide(p, t, low, high)
  {
    if high - low >= HEADER_LENGTH && high - low >= p.Total(s, low) {
      assert s[low..low + p.Total(s, low)] == t[low..low + p.Total(s, low)];
    }
  }

  lemma {:induction false} FirstPreambleSame(p: Protocol, s: seq<byte>, t: seq<byte>, at: nat, high: nat)
    requires at <= high <= |s| && s <= t
    ensures FirstPreamble(p, s, at, high) == FirstPreamble(p, t, at, high)
    decreases high - at
  {
    if at < high && !p.preamble(s[at]) { FirstPreambleSame(p, s, t, at + 1, high); }
  }

  lemma {:induction false} SettledFrameIgnoresLater(p: Protocol, s: seq<byte>, t: seq<byte>, low: nat, high: nat)
    requires p.Valid() && low <= high <= |s| && high - low <= FRAME_SIZE_MAX && s <= t
    requires Settle(p, s, low, high).frame.Some?
    ensures Settle(p, t, low, high) == Settle(p, s, low, high)
    decreases |s| - low, |s| - high
  {
    hide Decide, FirstPreamble;
    DecideSame(p, s, t, low, high);
    match Decide(p, s, low, high)
    case Need(n) => SettledFrameIgnoresLater(p, s, t, low, high + n);
    case Drop =>
      FirstPreambleSame(p, s, t, low + 1, high);
      SettledFrameIgnoresLater(p, s, t, FirstPreamble(p, s, low + 1, high), high);
    case Emit(n) =>
      assert s[low..low + n] == t[low..low + n];
  }

  lemma RemovedSame(p: Protocol, s: seq<byte>, t: seq<byte>, w: Window)
    requires w.Valid() && w.high <= |s| && s <= t
    ensures Removed(p, s, w) == Removed(p, t, w)
  {
    FirstPreambleSame(p, s, t, w.Live(), w.high);
  }

  /** A frame found in what is known does not depend on what follows. */
  lemma FrameIgnoresLater(p: Protocol, s: seq<byte>, t: seq<byte>, w: Window)
    requires p.Valid() && w.Valid() && w.high <= |s| && s <= t
    requires Process(p, s, w).frame.Some?
    ensures Process(p, t, w) == Process(p, s, w)
  {
    hide Settle, FirstPreamble;
    RemovedSame(p, s, t, w);
    SettledFrameIgnoresLater(p, s, t, Removed(p, s, w), w.high + w.refill);
  }

  /** A refill that arrives in two parts fills the buffer as one that arrives whole. */
  lemma SplitRefill(p: Protocol, s: seq<byte>, t: seq<byte>, w: Window)
    requires p.Valid() && w.Valid() && w.high <= |s| < w.high + w.refill && s <= t
    ensures Process(p, t, w) == Process(p, t, Window(w.low, |s|, w.refill - (|s| - w.high), 0))
  {
  }

  lemma {:induction false} SettledNoFrameResumes(p: Protocol, s: seq<byte>, t: seq<byte>, low: nat, high: nat)
    requires p.Valid() && low <= high <= |s| && high - low <= FRAME_SIZE_MAX && s <= t
    requires Settle(p, s, low, high).frame.None?
    ensures Settle(p, t, low, high) == Process(p, t, Settle(p, s, low, high).window)
    decreases |s| - low, |s| - high
  {
    hide Decide, FirstPreamble;
    DecideSame(p, s, t, low, high);
    match Decide(p, s, low, high)
    case Need(n) =>
      if |s| - high < n {
        NeedIsPending(p, t, low, high);
        SplitRefill(p, s, t, Window(low, high, n, 0));
      } else {
        SettledNoFrameResumes(p, s, t, low, high + n);
      }
    case Drop =>
      FirstPreambleSame(p, s, t, low + 1, high);
      SettledNoFrameResumes(p, s, t, FirstPreamble(p, s, low + 1, high), high);
    case Emit(n) =>
  }

  /** A call that ends without a frame is resumed by the next one where it stopped. */
  lemma NoFrameResumes(p: Protocol, s: seq<byte>, t: seq<byte>, w: Window)
    requires p.Valid() && w.Valid() && w.high <= |s| && s <= t
    requires Process(p, s, w).frame.None?
    ensures Process(p, t, w) == Process(p, t, Process(p, s, w).window)
  {
    hide Settle, FirstPreamble;
    if |s| - w.high < w.refill {
      SplitRefill(p, s, t, w);
    } else {
      RemovedSame(p, s, t, w);
      SettledNoFrameResumes(p, s, t, Removed(p, s, w), w.high + w.refill);
    }
  }

  // ---------------------------------------------------------------------------
  // Refinement of the scanner
  // ---------------------------------------------------------------------------

  lemma {:induction false} ScanSkips(p: Protocol, s: seq<byte>, at: nat, high: nat)
    requires at <= high <= |s|
    ensures Scan(p, s, at) == Scan(p, s, FirstPreamble(p, s, at, high))
    decreases high - at
  {
    if at < high && !p.preamble(s[at]) { ScanSkips(p, s, at + 1, high); }
  }

  /** What the scanner makes of the stream from `at` on, told by one call of the framer. */
  ghost predicate OneStep(p: Protocol, s: seq<byte>, at: nat, o: Outcome)
    requires at <= |s| && o.window.Valid() && o.window.high <= |s|
  {
    Scan(p, s, at) ==
    match o.frame
    case Some(frame) => Prepend(frame, Scan(p, s, o.window.Live()))
    case None => Scan(p, s, o.window.Live())
  }

  lemma {:induction false} SettleScans(p: Protocol, s: seq<byte>, low: nat, high: nat)
    requires p.Valid() && low <= high <= |s| && high - low <= FRAME_SIZE_MAX
    ensures OneStep(p, s, low, Settle(p, s, low, high))
    decreases |s| - low, |s| - high
  {
    hide FirstPreamble;
    match Decide(p, s, low, high)
    case Need(n) => if |s| - high >= n { SettleScans(p, s, low, high + n); }
    case Drop =>
      ScanSkips(p, s, low + 1, high);
      SettleScans(p, s, FirstPreamble(p, s, low + 1, high), high);
    case Emit(n) =>
  }

  /** One call of the framer is one step of the scanner. */
  lemma ProcessScans(p: Protocol, s: seq<byte>, w: Window)
    requires p.Valid() && w.Valid() && w.high <= |s|
    ensures OneStep(p, s, w.Live(), Process(p, s, w))
  {
    hide Settle, Scan, FirstPreamble;
    if |s| - w.high >= w.refill {
      ScanSkips(p, s, w.Live(), w.high);
      SettleScans(p, s, Removed(p, s, w), w.high + w.refill);
    }
  }

  /** Without a frame, nothing decidable is left in the buffer. */
  lemma NoFrameLeavesNone(p: Protocol, s: seq<byte>, w: Window)
    requires p.Valid() && w.Valid() && w.high <= |s| && Waiting(p, s, w)
    requires Process(p, s, w).frame.None?
    ensures Scan(p, s, w.Live()).frames == []
  {
    var w' := Process(p, s, w).window;
    ProcessWaits(p, s, w);
    ProcessScans(p, s, w);
    if |s| - w'.low < HEADER_LENGTH {
      TooShort(p, s, w'.low);
    }
  }

  lemma {:induction false} TooShort(p: Protocol, s: seq<byte>, at: nat)
    requires at <= |s| < at + HEADER_LENGTH
    ensures Scan(p, s, at).frames == []
    decreases |s| - at
  {
    if at < |s| { TooShort(p, s, at + 1); }
  }

  // ---------------------------------------------------------------------------
  // Streams in which every candidate is a frame
  // ---------------------------------------------------------------------------

  /** The scanner never has to give up a candidate whose length it has read. */
  predicate NoReject(p: Protocol, s: seq<byte>, at: nat)
    requires at <= |s|
    decreases |s| - at
  {
    if at == |s| then true
    else if !p.preamble(s[at]) then NoReject(p, s, at + 1)
    else if |s| - at < HEADER_LENGTH || |s| - at < p.Total(s, at) then true
    else p.intact(s[at..at + p.Total(s, at)]) && NoReject(p, s, at + p.Total(s, at))
  }

  lemma {:induction false} NoRejectSkips(p: Protocol, s: seq<byte>, at: nat, high: nat)
    requires at <= high <= |s| && NoReject(p, s, at)
    ensures NoReject(p, s, FirstPreamble(p, s, at, high))
    decreases high - at
  {
    if at < high && !p.preamble(s[at]) { NoRejectSkips(p, s, at + 1, high); }
  }

  /** The buffer holds no more than its first candidate. */
  predicate Tight(p: Protocol, s: seq<byte>, low: nat, high: nat)
    requires low <= high <= |s|
  {
    high - low <= HEADER_LENGTH || (p.preamble(s[low]) && high - low <= p.Total(s, low))
  }

  predicate TightWindow(p: Protocol, s: seq<byte>, w: Window)
    requires w.Valid() && w.high <= |s|
  {
    w.Live() == w.high || (w.remove == 0 && Tight(p, s, w.low, w.high))
  }

  /** The state a call ends in. */
  ghost predicate EndsTight(p: Protocol, s: seq<byte>, o: Outcome)
    requires o.window.Valid() && o.window.high <= |s|
  {
    && TightWindow(p, s, o.window)
    && (o.frame.Some? ==> o.window.Live() == o.window.high)
    && NoReject(p, s, o.window.Live())
  }

  lemma {:induction false} SettleTight(p: Protocol, s: seq<byte>, low: nat, high: nat)
    requires p.Valid() && low <= high <= |s| && high - low <= FRAME_SIZE_MAX
    requires Tight(p, s, low, high) && NoReject(p, s, low)
    ensures EndsTight(p, s, Settle(p, s, low, high))
    decreases |s| - low, |s| - high
  {
    hide FirstPreamble;
    match Decide(p, s, low, high)
    case Need(n) => if |s| - high >= n { SettleTight(p, s, low, high + n); }
    case Drop =>
      NoRejectSkips(p, s, low + 1, high);
      SettleTight(p, s, FirstPreamble(p, s, low + 1, high), high);
    case Emit(n) =>
  }

  /** Then a frame is handed out with nothing behind it in the buffer. */
  lemma ProcessTight(p: Protocol, s: seq<byte>, w: Window)
    requires p.Valid() && w.Valid() && w.high <= |s| && Waiting(p, s, w)
    requires TightWindow(p, s, w) && NoReject(p, s, w.Live())
    ensures EndsTight(p, s, Process(p, s, w))
  {
    hide Settle, FirstPreamble, NoReject, Tight, TightWindow, EndsTight, Waiting;
    if |s| - w.high >= w.refill {
      RefilledTight(p, s, w);
      SettleTight(p, s, Removed(p, s, w), w.high + w.refill);
    } else {
      StarvedTight(p, s, w);
    }
  }

  /** The stream ends before the refill does. */
  lemma StarvedTight(p: Protocol, s: seq<byte>, w: Window)
    requires p.Valid() && w.Valid() && w.high <= |s| < w.high + w.refill && Waiting(p, s, w)
    requires TightWindow(p, s, w) && NoReject(p, s, w.Live())
    ensures EndsTight(p, s, Process(p, s, w))
  {
    hide NoReject;
  }

  lemma RefilledTight(p: Protocol, s: seq<byte>, w: Window)
    requires w.Valid() && w.high + w.refill <= |s| && Waiting(p, s, w)
    requires TightWindow(p, s, w) && NoReject(p, s, w.Live())
    ensures Tight(p, s, Removed(p, s, w), w.high + w.refill)
    ensures NoReject(p, s, Removed(p, s, w))
  {
    NoRejectSkips(p, s, w.Live(), w.high);
  }

  // ---------------------------------------------------------------------------
  // The buffer on its own
  // ---------------------------------------------------------------------------

  lemma {:induction false} FirstPreambleInBuffer(p: Protocol, s: seq<byte>, low: nat, buffer: seq<byte>, at: nat)
    requires low + |buffer| <= |s| && buffer == s[low..low + |buffer|] && at <= |buffer|
    ensures FirstPreamble(p, s, low + at, low + |buffer|) == low + FirstPreamble(p, buffer, at, |buffer|)
    decreases |buffer| - at
  {
    if at < |buffer| {
      assert buffer[at] == s[low + at];
      if !p.preamble(buffer[at]) { FirstPreambleInBuffer(p, s, low, buffer, at + 1); }
    }
  }

  lemma DecideInBuffer(p: Protocol, s: seq<byte>, low: nat, buffer: seq<byte>)
    requires low + |buffer| <= |s| && buffer == s[low..low + |buffer|]
    ensures Decide(p, s, low, low + |buffer|) == Decide(p, buffer, 0, |buffer|)
  {
    if |buffer| >= HEADER_LENGTH {
      assert buffer[0] == s[low] && buffer[1] == s[low + 1] && buffer[2] == s[low + 2];
      var n := p.Total(buffer, 0);
      if n <= |buffer| {
        assert buffer[0..0 + n] == s[low..low + n];
      }
    }
  }

  lemma StartOfSlice<T>(s: seq<T>, i: nat, j: nat, n: nat)
    requires i <= i + n <= j <= |s|
    ensures s[i..j][..n] == s[i..i + n]
  {
  }

  lemma TailOfTail<T>(s: seq<T>, i: nat, j: nat)
    requires i + j <= |s|
    ensures s[i..][j..] == s[i + j..]
  {
  }
}
