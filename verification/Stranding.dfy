/** Exactly when a chunk leaves complete frames behind in the framer. The write path stops
    as soon as a frame has been written and the chunk is used up, so frames stay behind when
    the last byte of the chunk was taken into the buffer for a candidate that turned out to
    be none, and frames inside that candidate follow the first one written. */
module Stranding {
  import opened Basics
  import opened Framing
  import opened EndpointAdapter

  /** The scanner's frames before and after the first candidate that ends with the stream
      and is given up. */
  datatype Bite = Whole | Bitten(before: seq<seq<byte>>, inside: seq<seq<byte>>)

  function FirstBite(p: Protocol, s: seq<byte>, at: nat): Bite
    requires at <= |s|
    decreases |s| - at
  {
    if at == |s| then Whole
    else if !p.preamble(s[at]) then FirstBite(p, s, at + 1)
    else if |s| - at < HEADER_LENGTH || |s| - at < p.Total(s, at) then Whole
    else
      var n := p.Total(s, at);
      if p.intact(s[at..at + n]) then Behind(s[at..at + n], FirstBite(p, s, at + n))
      else if at + n == |s| then Bitten([], Scan(p, s, at + 1).frames)
      else FirstBite(p, s, at + 1)
  }

  function Behind(frame: seq<byte>, b: Bite): Bite {
    match b
    case Whole => Whole
    case Bitten(before, inside) => Bitten([frame] + before, inside)
  }

  /** The first frame the filter passes is not the last one. */
  predicate StopsEarly<S>(filter: Filter<S>, f: S, frames: seq<seq<byte>>)
    decreases |frames|
  {
    if frames == [] then false
    else
      var (pass, f') := filter(f, frames[0]);
      if pass then |frames| > 1 else StopsEarly(filter, f', frames[1..])
  }

  /** The condition on the input. */
  predicate Strands<S>(p: Protocol, filter: Filter<S>, s: seq<byte>, at: nat, f: S)
    requires at <= |s|
  {
    match FirstBite(p, s, at)
    case Whole => false
    case Bitten(before, inside) => StopsEarly(filter, Filtered(filter, f, before).1, inside)
  }

  lemma {:induction false} BiteSplits(p: Protocol, s: seq<byte>, at: nat)
    requires at <= |s|
    ensures match FirstBite(p, s, at)
            case Whole => true
            case Bitten(before, inside) => Scan(p, s, at).frames == before + inside
    decreases |s| - at
  {
    if at < |s| {
      if !p.preamble(s[at]) {
        BiteSplits(p, s, at + 1);
      } else if |s| - at >= HEADER_LENGTH && |s| - at >= p.Total(s, at) {
        var n := p.Total(s, at);
        if p.intact(s[at..at + n]) {
          BiteSplits(p, s, at + n);
          match FirstBite(p, s, at + n)
          case Whole =>
          case Bitten(before, inside) => AppendAssociative([s[at..at + n]], before, inside);
        } else if at + n < |s| {
          BiteSplits(p, s, at + 1);
        }
      }
    }
  }

  lemma {:induction false} BiteSkips(p: Protocol, s: seq<byte>, at: nat, high: nat)
    requires at <= high <= |s|
    ensures FirstBite(p, s, at) == FirstBite(p, s, FirstPreamble(p, s, at, high))
    decreases high - at
  {
    if at < high && !p.preamble(s[at]) { BiteSkips(p, s, at + 1, high); }
  }

  /** What a call that finds a frame says about the first bite. */
  ghost predicate FrameAndBite(p: Protocol, s: seq<byte>, at: nat, o: Outcome)
    requires at <= |s| && o.window.Valid() && o.window.high <= |s| && o.frame.Some?
  {
    if o.window.high < |s| then
      FirstBite(p, s, at) == Behind(o.frame.value, FirstBite(p, s, o.window.Live()))
    else
      || FirstBite(p, s, at) == Bitten([], Scan(p, s, at).frames)
      || (FirstBite(p, s, at) == Whole && o.window.Live() == |s|)
  }

  /** With the whole stream in the buffer and no header in it that fits, no frame comes. */
  lemma {:induction false} ShortBuffer(p: Protocol, s: seq<byte>, low: nat)
    requires p.Valid() && low <= |s| <= low + HEADER_LENGTH
    ensures Settle(p, s, low, |s|).frame.None?
    decreases |s| - low
  {
    if Decide(p, s, low, |s|).Drop? {
      ShortBuffer(p, s, FirstPreamble(p, s, low + 1, |s|));
    }
  }

  lemma {:induction false} SettleBites(p: Protocol, s: seq<byte>, low: nat, high: nat)
    requires p.Valid() && low <= high < |s| && high - low <= FRAME_SIZE_MAX
    requires Settle(p, s, low, high).frame.Some?
    ensures FrameAndBite(p, s, low, Settle(p, s, low, high))
    decreases |s| - low, |s| - high
  {
    match Decide(p, s, low, high)
    case Need(n) =>
      if high + n < |s| {
        SettleBites(p, s, low, high + n);
      } else {
        LastBytes(p, s, low, high);
      }
    case Drop =>
      DropBites(p, s, low, high);
      SettleBites(p, s, FirstPreamble(p, s, low + 1, high), high);
    case Emit(n) =>
  }

  /** Dropping a candidate that ends before the stream does. */
  lemma DropBites(p: Protocol, s: seq<byte>, low: nat, high: nat)
    requires low <= high < |s| && Decide(p, s, low, high).Drop?
    ensures var k := FirstPreamble(p, s, low + 1, high);
            FirstBite(p, s, low) == FirstBite(p, s, k) && Scan(p, s, low) == Scan(p, s, k)
  {
    BiteSkips(p, s, low + 1, high);
    ScanSkips(p, s, low + 1, high);
  }

  /** Taking the last bytes of the stream for a header or for a candidate. */
  lemma LastBytes(p: Protocol, s: seq<byte>, low: nat, high: nat)
    requires p.Valid() && low <= high < |s| && high - low <= FRAME_SIZE_MAX
    requires Decide(p, s, low, high) == Need(|s| - high)
    requires Settle(p, s, low, high).frame.Some?
    ensures FrameAndBite(p, s, low, Settle(p, s, low, high))
  {
    if |s| - low <= HEADER_LENGTH {
      ShortBuffer(p, s, low);
    } else {
      SettleEmits(p, s, low, |s|);
      assert s[low..low + p.Total(s, low)] == s[low..|s|];
    }
  }

  lemma ProcessBites(p: Protocol, s: seq<byte>, w: Window)
    requires p.Valid() && w.Valid() && w.high < |s| && Waiting(p, s, w)
    requires Process(p, s, w).frame.Some?
    ensures FrameAndBite(p, s, w.Live(), Process(p, s, w))
  {
    hide Settle, FirstBite, Scan, FirstPreamble;
    var low := Removed(p, s, w);
    if w.refill > 0 {
      NeedIsPending(p, s, w.low, w.high);
      SettleBites(p, s, w.low, w.high);
    } else {
      BiteSkips(p, s, w.Live(), w.high);
      ScanSkips(p, s, w.Live(), w.high);
      SettleBites(p, s, low, w.high);
    }
  }

  /** A frame still sits complete in the buffer. */
  ghost predicate StaysBehind<S>(p: Protocol, s: seq<byte>, d: Drained<S>)
    requires d.window.Valid() && d.window.high <= |s|
  {
    Scan(p, s, d.window.Live()).frames != []
  }

  /** Once the chunk is used up, the first frame that passes the filter ends the call. */
  lemma {:induction false} StaysBehindInside<S>(p: Protocol, filter: Filter<S>, s: seq<byte>, w: Window, f: S)
    requires p.Valid() && w.Valid() && w.high == |s| && Waiting(p, s, w)
    ensures StaysBehind(p, s, Drain(p, filter, s, w, f)) <==> StopsEarly(filter, f, Scan(p, s, w.Live()).frames)
    decreases |s| - w.Live()
  {
    hide Process, Scan;
    var o := Process(p, s, w);
    ProcessScans(p, s, w);
    ProcessWaits(p, s, w);
    match o.frame
    case None => NoFrameLeavesNone(p, s, w);
    case Some(frame) =>
      var later := Scan(p, s, o.window.Live()).frames;
      var (pass, f') := filter(f, frame);
      assert ([frame] + later)[1..] == later;
      if !pass { StaysBehindInside(p, filter, s, o.window, f'); }
  }

  lemma StaysBehindNone<S>(p: Protocol, filter: Filter<S>, s: seq<byte>, w: Window, f: S)
    requires p.Valid() && w.Valid() && w.high <= |s| && Waiting(p, s, w)
    requires Process(p, s, w).frame.None?
    ensures !StaysBehind(p, s, Drain(p, filter, s, w, f)) && !Strands(p, filter, s, w.Live(), f)
  {
    hide Process, Scan, FirstBite;
    ProcessScans(p, s, w);
    NoFrameLeavesNone(p, s, w);
    BiteSplits(p, s, w.Live());
  }

  lemma StrandsBehind<S>(p: Protocol, filter: Filter<S>, s: seq<byte>, at: nat, f: S, frame: seq<byte>, later: nat)
    requires at <= |s| && later <= |s|
    requires FirstBite(p, s, at) == Behind(frame, FirstBite(p, s, later))
    ensures Strands(p, filter, s, at, f) == Strands(p, filter, s, later, filter(f, frame).1)
  {
    hide FirstBite;
    match FirstBite(p, s, later)
    case Whole =>
    case Bitten(before, inside) => assert ([frame] + before)[1..] == before;
  }

  /** Complete frames stay behind after a chunk exactly when its bytes say so. */
  lemma {:induction false} StaysBehindIff<S>(p: Protocol, filter: Filter<S>, s: seq<byte>, w: Window, f: S)
    requires p.Valid() && w.Valid() && w.high < |s| && Waiting(p, s, w)
    ensures StaysBehind(p, s, Drain(p, filter, s, w, f)) <==> Strands(p, filter, s, w.Live(), f)
    decreases |s| - w.Live()
  {
    hide Process, Scan, FirstBite;
    var o := Process(p, s, w);
    match o.frame
    case None => StaysBehindNone(p, filter, s, w, f);
    case Some(frame) =>
      ProcessBites(p, s, w);
      ProcessWaits(p, s, w);
      var (pass, f') := filter(f, frame);
      if o.window.high < |s| {
        StaysBehindIff(p, filter, s, o.window, f');
        StrandsBehind(p, filter, s, w.Live(), f, frame, o.window.Live());
      } else {
        StaysBehindAtEnd(p, filter, s, w, f);
      }
  }

  lemma StaysBehindAtEnd<S>(p: Protocol, filter: Filter<S>, s: seq<byte>, w: Window, f: S)
    requires p.Valid() && w.Valid() && w.high < |s| && Waiting(p, s, w)
    requires Process(p, s, w).frame.Some? && Process(p, s, w).window.high == |s|
    ensures StaysBehind(p, s, Drain(p, filter, s, w, f)) <==> Strands(p, filter, s, w.Live(), f)
  {
    hide Process, FirstBite;
    var o := Process(p, s, w);
    var frame := o.frame.value;
    var (pass, f') := filter(f, frame);
    var later := Scan(p, s, o.window.Live()).frames;
    ProcessScans(p, s, w);
    ProcessBites(p, s, w);
    ProcessWaits(p, s, w);
    if !pass { StaysBehindInside(p, filter, s, o.window, f'); }
    assert ([frame] + later)[1..] == later;
    if FirstBite(p, s, w.Live()) == Whole {
      assert later == [];
    } else {
      assert Filtered(filter, f, []).1 == f;
    }
  }

  /** So the filter has seen all the scanner's frames at the end of a chunk exactly when
      that condition fails. */
  lemma AllSeenIff<S>(p: Protocol, filter: Filter<S>, s: seq<byte>, w: Window, f: S)
    requires p.Valid() && w.Valid() && w.high < |s| && Waiting(p, s, w)
    ensures Drain(p, filter, s, w, f).candidates == Scan(p, s, w.Live()).frames
       <==> !Strands(p, filter, s, w.Live(), f)
  {
    hide Drain, Scan, Strands;
    var d := Drain(p, filter, s, w, f);
    DrainScans(p, filter, s, w, f);
    StaysBehindIff(p, filter, s, w, f);
    var left := Scan(p, s, d.window.Live()).frames;
    assert |d.candidates + left| == |d.candidates| + |left|;
  }

  // ---------------------------------------------------------------------------
  // It happens
  // ---------------------------------------------------------------------------

  /** Two frames of six bytes inside a candidate of eighteen that is no frame. */
  ghost predicate Decoy(p: Protocol, s: seq<byte>, frame: seq<byte>) {
    && |frame| == 6 && |s| == 18 && s[3..9] == frame && s[9..15] == frame
    && p.preamble(s[0]) && p.Total(s, 0) == 18 && !p.intact(s)
    && p.preamble(frame[0]) && p.Total(frame, 0) == 6 && p.intact(frame)
    && !p.preamble(s[1]) && !p.preamble(s[2])
    && !p.preamble(s[15]) && !p.preamble(s[16]) && !p.preamble(s[17])
  }

  lemma DecoyScanned(p: Protocol, s: seq<byte>, frame: seq<byte>)
    requires Decoy(p, s, frame)
    ensures Scan(p, s, 3).frames == [frame, frame]
    ensures FirstBite(p, s, 0) == Bitten([], [frame, frame])
  {
    assert s[0..18] == s;
    assert s[3] == s[3..9][0] && s[4] == s[3..9][1] && s[5] == s[3..9][2];
    assert s[9] == s[9..15][0] && s[10] == s[9..15][1] && s[11] == s[9..15][2];
    assert Scan(p, s, 18).frames == [];
    assert Scan(p, s, 16) == Scan(p, s, 17) == Scan(p, s, 18);
    assert Scan(p, s, 15) == Scan(p, s, 16);
    assert Scan(p, s, 9) == Prepend(frame, Scan(p, s, 15));
    assert Scan(p, s, 3) == Prepend(frame, Scan(p, s, 9));
    assert Scan(p, s, 1) == Scan(p, s, 2) == Scan(p, s, 3);
  }

  /** With a filter that passes everything such a chunk leaves its second frame behind. */
  lemma DecoyStrands<S>(p: Protocol, filter: Filter<S>, s: seq<byte>, frame: seq<byte>, w: Window, f: S)
    requires p.Valid() && w == Fresh && Decoy(p, s, frame)
    requires filter(f, frame).0
    ensures StaysBehind(p, s, Drain(p, filter, s, w, f))
  {
    hide *;
    FreshWaits(p, s, w);
    DecoySize(p, s, frame);
    DecoyCondition(p, filter, s, w.Live(), frame, f);
    StaysBehindIff(p, filter, s, w, f);
  }

  lemma FreshWaits(p: Protocol, s: seq<byte>, w: Window)
    requires w == Fresh
    ensures w.Valid() && w.high == w.Live() == 0 && Waiting(p, s, w)
  {
  }

  lemma DecoySize(p: Protocol, s: seq<byte>, frame: seq<byte>)
    requires Decoy(p, s, frame)
    ensures |s| == 18
  {
  }

  lemma DecoyCondition<S>(p: Protocol, filter: Filter<S>, s: seq<byte>, at: nat, frame: seq<byte>, f: S)
    requires Decoy(p, s, frame) && at == 0 && filter(f, frame).0
    ensures at <= |s| && Strands(p, filter, s, at, f)
  {
    DecoyScanned(p, s, frame);
    hide Scan, FirstBite, Decoy;
    var two := [frame, frame];
    assert StopsEarly(filter, f, two);
  }
}
