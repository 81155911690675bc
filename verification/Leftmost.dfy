/** The frames that the scanner finds, said by positions in the stream: at each point the leftmost
    intact frame, up to the first place that cannot be decided yet. */
module Leftmost {
  import opened Basics
  import opened Framing

  /** The length that the header at position `i` gives. */
  function Length(p: Protocol, s: seq<byte>, i: nat): nat
    requires i + 3 <= |s|
  {
    3 + p.payload(s[i + 1], s[i + 2]) + 3
  }

  /** An intact frame starts at position `i`. */
  predicate FrameAt(p: Protocol, s: seq<byte>, i: nat) {
    && i + 3 <= |s| && p.preamble(s[i])
    && i + Length(p, s, i) <= |s| && p.intact(s[i..i + Length(p, s, i)])
  }

  /** A preamble is at position `i`, and the stream ends before the frame that it may start. */
  predicate Undecided(p: Protocol, s: seq<byte>, i: nat) {
    i < |s| && p.preamble(s[i]) && (i + 3 > |s| || i + Length(p, s, i) > |s|)
  }

  ghost predicate NoneWithin(p: Protocol, s: seq<byte>, at: nat, end: nat) {
    forall i :: at <= i < end ==> !FrameAt(p, s, i) && !Undecided(p, s, i)
  }

  /** From `at` on, `starts` are the leftmost frames, each behind the one before, and `rest` is the first
      place behind them that is undecided, or the end. */
  ghost predicate AreLeftmost(p: Protocol, s: seq<byte>, at: nat, starts: seq<nat>, rest: nat)
    decreases |starts|
  {
    if starts == [] then
      at <= rest <= |s| && NoneWithin(p, s, at, rest) && (rest == |s| || Undecided(p, s, rest))
    else
      && at <= starts[0] && NoneWithin(p, s, at, starts[0]) && FrameAt(p, s, starts[0])
      && AreLeftmost(p, s, starts[0] + Length(p, s, starts[0]), starts[1..], rest)
  }

  /** The bytes of the frames at these positions. */
  function FramesAt(p: Protocol, s: seq<byte>, starts: seq<nat>): seq<seq<byte>> {
    if starts == [] then []
    else if FrameAt(p, s, starts[0]) then
      [s[starts[0]..starts[0] + Length(p, s, starts[0])]] + FramesAt(p, s, starts[1..])
    else FramesAt(p, s, starts[1..])
  }

  /** One step of the scanner at a position. */
  lemma ScanAt(p: Protocol, s: seq<byte>, at: nat)
    requires at < |s|
    ensures Undecided(p, s, at) ==> Scan(p, s, at) == Scanned([], at)
    ensures FrameAt(p, s, at) ==>
              var n := Length(p, s, at); Scan(p, s, at) == Prepend(s[at..at + n], Scan(p, s, at + n))
    ensures !Undecided(p, s, at) && !FrameAt(p, s, at) ==> Scan(p, s, at) == Scan(p, s, at + 1)
  {
    if at + 3 <= |s| {
      assert p.Total(s, at) == Length(p, s, at);
    }
  }

  lemma {:induction false} ScanSkips(p: Protocol, s: seq<byte>, at: nat, end: nat)
    requires at <= end <= |s| && NoneWithin(p, s, at, end)
    ensures Scan(p, s, at) == Scan(p, s, end)
    decreases end - at
  {
    hide Scan, FrameAt, Undecided;
    if at < end {
      ScanAt(p, s, at);
      ScanSkips(p, s, at + 1, end);
    }
  }

  /** The scanner finds the leftmost frames, whatever the stream. */
  lemma {:induction false} ScanIsLeftmost(p: Protocol, s: seq<byte>, at: nat, starts: seq<nat>, rest: nat)
    requires at <= |s| && AreLeftmost(p, s, at, starts, rest)
    ensures Scan(p, s, at) == Scanned(FramesAt(p, s, starts), rest)
    decreases |starts|
  {
    hide Scan, FrameAt, Undecided;
    if starts == [] {
      ScanSkips(p, s, at, rest);
      ScanEnds(p, s, rest);
    } else {
      var i := starts[0];
      Within(p, s, i);
      ScanSkips(p, s, at, i);
      ScanAt(p, s, i);
      ScanIsLeftmost(p, s, i + Length(p, s, i), starts[1..], rest);
    }
  }

  lemma Within(p: Protocol, s: seq<byte>, i: nat)
    requires FrameAt(p, s, i)
    ensures i + 3 <= |s| && i + Length(p, s, i) <= |s|
  {
  }

  lemma ScanEnds(p: Protocol, s: seq<byte>, rest: nat)
    requires rest <= |s| && (rest == |s| || Undecided(p, s, rest))
    ensures Scan(p, s, rest) == Scanned([], rest)
  {
    if rest < |s| { ScanAt(p, s, rest); }
  }

  /** And there always are such frames. */
  lemma {:induction false} LeftmostExist(p: Protocol, s: seq<byte>, at: nat) returns (starts: seq<nat>, rest: nat)
    requires at <= |s|
    ensures AreLeftmost(p, s, at, starts, rest)
    decreases |s| - at
  {
    hide FrameAt, Undecided;
    if at == |s| || Undecided(p, s, at) {
      starts, rest := [], at;
    } else if FrameAt(p, s, at) {
      Within(p, s, at);
      var later;
      later, rest := LeftmostExist(p, s, at + Length(p, s, at));
      starts := [at] + later;
      assert starts[1..] == later;
    } else {
      starts, rest := LeftmostExist(p, s, at + 1);
    }
  }
}
