/** Streams made of frames with garbage between them that contains no preamble. */
module CleanStreams {
  import opened Basics
  import opened Framing
  import opened EndpointAdapter

  ghost predicate IsFrame(p: Protocol, frame: seq<byte>) {
    && |frame| >= HEADER_LENGTH + FOOTER_LENGTH && |frame| == p.Total(frame, 0)
    && p.preamble(frame[0]) && p.intact(frame)
  }

  ghost predicate IsGarbage(p: Protocol, gap: seq<byte>) {
    forall i :: 0 <= i < |gap| ==> !p.preamble(gap[i])
  }

  ghost predicate Clean(p: Protocol, gaps: seq<seq<byte>>, frames: seq<seq<byte>>) {
    && |gaps| == |frames| + 1
    && (forall i :: 0 <= i < |gaps| ==> IsGarbage(p, gaps[i]))
    && (forall i :: 0 <= i < |frames| ==> IsFrame(p, frames[i]))
  }

  function Weave(gaps: seq<seq<byte>>, frames: seq<seq<byte>>): seq<byte>
    requires |gaps| == |frames| + 1
    decreases |frames|
  {
    if frames == [] then gaps[0] else gaps[0] + (frames[0] + Weave(gaps[1..], frames[1..]))
  }

  lemma {:induction false} GarbageSkipped(p: Protocol, t: seq<byte>, at: nat, n: nat)
    requires at + n <= |t|
    requires forall i :: at <= i < at + n ==> !p.preamble(t[i])
    ensures Scan(p, t, at) == Scan(p, t, at + n)
    ensures NoReject(p, t, at) == NoReject(p, t, at + n)
    decreases n
  {
    if n > 0 { GarbageSkipped(p, t, at + 1, n - 1); }
  }

  lemma FrameTaken(p: Protocol, t: seq<byte>, at: nat, frame: seq<byte>)
    requires IsFrame(p, frame) && at + |frame| <= |t| && t[at..at + |frame|] == frame
    ensures Scan(p, t, at) == Prepend(frame, Scan(p, t, at + |frame|))
    ensures NoReject(p, t, at) == NoReject(p, t, at + |frame|)
  {
    assert t[at] == frame[0] && t[at + 1] == frame[1] && t[at + 2] == frame[2];
    assert p.Total(t, at) == |frame|;
  }

  lemma GapTaken(p: Protocol, t: seq<byte>, at: nat, gap: seq<byte>, rest: seq<byte>)
    requires IsGarbage(p, gap) && at <= |t| && t[at..] == gap + rest
    ensures at + |gap| <= |t| && t[at + |gap|..] == rest
    ensures Scan(p, t, at) == Scan(p, t, at + |gap|)
    ensures NoReject(p, t, at) == NoReject(p, t, at + |gap|)
  {
    forall i | at <= i < at + |gap|
      ensures !p.preamble(t[i])
    {
      assert t[i] == t[at..][i - at] == gap[i - at];
    }
    GarbageSkipped(p, t, at, |gap|);
    assert t[at..][|gap|..] == rest;
  }

  /** The scanner finds exactly the frames of a clean stream and gives up none. */
  lemma {:induction false} CleanScans(p: Protocol, t: seq<byte>, at: nat, gaps: seq<seq<byte>>, frames: seq<seq<byte>>)
    requires Clean(p, gaps, frames) && at <= |t| && t[at..] == Weave(gaps, frames)
    ensures Scan(p, t, at) == Scanned(frames, |t|) && NoReject(p, t, at)
    decreases |frames|
  {
    hide IsGarbage, IsFrame;
    if frames == [] {
      assert gaps[0] + [] == gaps[0];
      GapTaken(p, t, at, gaps[0], []);
    } else {
      var frame, later := frames[0], Weave(gaps[1..], frames[1..]);
      GapTaken(p, t, at, gaps[0], frame + later);
      var i := at + |gaps[0]|;
      assert t[i..][..|frame|] == frame && t[i..][|frame|..] == later;
      assert t[i..i + |frame|] == frame && t[i + |frame|..] == later;
      FrameTaken(p, t, i, frame);
      CleanScans(p, t, i + |frame|, gaps[1..], frames[1..]);
      assert [frame] + frames[1..] == frames;
    }
  }

  lemma {:induction false} NoRejectPrefix(p: Protocol, s: seq<byte>, t: seq<byte>, at: nat)
    requires at <= |s| && s <= t && NoReject(p, t, at)
    ensures NoReject(p, s, at)
    decreases |s| - at
  {
    if at < |s| {
      if !p.preamble(s[at]) {
        NoRejectPrefix(p, s, t, at + 1);
      } else if |s| - at >= HEADER_LENGTH && |s| - at >= p.Total(s, at) {
        var n := p.Total(s, at);
        assert s[at..at + n] == t[at..at + n];
        NoRejectPrefix(p, s, t, at + n);
      }
    }
  }

  /** The stream up to and including the k-th frame. */
  function UpTo(gaps: seq<seq<byte>>, frames: seq<seq<byte>>, k: nat): seq<byte>
    requires |gaps| == |frames| + 1 && k < |frames|
  {
    Weave(gaps[..k + 1] + [[]], frames[..k + 1])
  }

  lemma {:induction false} UpToIsPrefix(gaps: seq<seq<byte>>, frames: seq<seq<byte>>, k: nat)
    requires |gaps| == |frames| + 1 && k < |frames|
    ensures UpTo(gaps, frames, k) <= Weave(gaps, frames)
    decreases k
  {
    var g, f := gaps[..k + 1] + [[]], frames[..k + 1];
    assert g[0] == gaps[0] && f[0] == frames[0];
    if k == 0 {
      assert g[1..] == [[]] && f[1..] == [];
      assert Weave(g[1..], f[1..]) == [];
      PrefixUnder(gaps[0], f[0], Weave(g[1..], f[1..]), Weave(gaps[1..], frames[1..]));
    } else {
      UpToIsPrefix(gaps[1..], frames[1..], k - 1);
      assert g[1..] == gaps[1..][..k] + [[]] && f[1..] == frames[1..][..k];
      var a, b := UpTo(gaps[1..], frames[1..], k - 1), Weave(gaps[1..], frames[1..]);
      PrefixUnder(gaps[0], f[0], a, b);
    }
  }

  lemma PrefixUnder<T>(x: seq<T>, y: seq<T>, a: seq<T>, b: seq<T>)
    requires a <= b
    ensures x + (y + a) <= x + (y + b)
  {
  }

  /** Of any beginning of a clean stream the scanner finds every frame that is complete. */
  lemma CompleteFramesScanned(p: Protocol, gaps: seq<seq<byte>>, frames: seq<seq<byte>>, s: seq<byte>, k: nat)
    requires Clean(p, gaps, frames) && s <= Weave(gaps, frames)
    requires k < |frames| && |UpTo(gaps, frames, k)| <= |s|
    ensures frames[..k + 1] <= Scan(p, s, 0).frames <= frames
  {
    hide Scan, Weave;
    var t, u := Weave(gaps, frames), UpTo(gaps, frames, k);
    UpToIsPrefix(gaps, frames, k);
    assert t[0..] == t && u[0..] == u;
    CleanScans(p, t, 0, gaps, frames);
    assert IsGarbage(p, []);
    CleanScans(p, u, 0, gaps[..k + 1] + [[]], frames[..k + 1]);
    ScanResumes(p, u, s, 0);
    ScanResumes(p, s, t, 0);
  }

  /** The state framer_create leaves. */
  ghost predicate JustCreated(taken: seq<byte>, w: Window) {
    taken == [] && w == Fresh
  }

  /** Without rejects, chunks bring before the filter exactly what the scanner finds. */
  lemma ChunksDrainScanned<S>(p: Protocol, filter: Filter<S>, taken: seq<byte>, w: Window, f: S, chunks: seq<seq<byte>>)
    requires p.Valid() && w.Valid() && w.high == |taken|
    requires chunks != [] && chunks[|chunks| - 1] != []
    requires Waiting(p, taken + Flatten(chunks), w) && TightWindow(p, taken + Flatten(chunks), w)
    requires NoReject(p, taken + Flatten(chunks), w.Live())
    ensures DrainAll(p, filter, taken, w, f, chunks).candidates == Scan(p, taken + Flatten(chunks), w.Live()).frames
  {
    hide DrainAll, Drain, Scan, NoReject;
    ChunkIndependence(p, filter, taken, w, f, chunks);
    DrainComplete(p, filter, taken + Flatten(chunks), w, f);
  }

  lemma CleanDrains<S>(p: Protocol, filter: Filter<S>, taken: seq<byte>, w: Window, f: S,
                       gaps: seq<seq<byte>>, frames: seq<seq<byte>>, chunks: seq<seq<byte>>)
    requires p.Valid() && Clean(p, gaps, frames) && JustCreated(taken, w)
    requires chunks != [] && chunks[|chunks| - 1] != []
    requires Flatten(chunks) <= Weave(gaps, frames)
    ensures DrainAll(p, filter, taken, w, f, chunks).candidates == Scan(p, Flatten(chunks), 0).frames
  {
    hide DrainAll, Scan, NoReject, Weave, Flatten, IsGarbage, IsFrame, Decide;
    var s := Flatten(chunks);
    assert taken + s == s;
    CleanStart(p, gaps, frames, s);
    ChunksDrainScanned(p, filter, taken, w, f, chunks);
  }

  lemma CleanStart(p: Protocol, gaps: seq<seq<byte>>, frames: seq<seq<byte>>, s: seq<byte>)
    requires Clean(p, gaps, frames) && s <= Weave(gaps, frames)
    ensures NoReject(p, s, 0)
  {
    hide NoReject, Scan, Weave, IsGarbage, IsFrame;
    var t := Weave(gaps, frames);
    assert t[0..] == t;
    CleanScans(p, t, 0, gaps, frames);
    NoRejectPrefix(p, s, t, 0);
  }

  lemma CleanScansWhole(p: Protocol, gaps: seq<seq<byte>>, frames: seq<seq<byte>>)
    requires Clean(p, gaps, frames)
    ensures Scan(p, Weave(gaps, frames), 0).frames == frames
  {
    hide Scan, Weave;
    var t := Weave(gaps, frames);
    assert t[0..] == t;
    CleanScans(p, t, 0, gaps, frames);
  }

  /** Every frame of a clean stream reaches the filter no later than with the chunk that
      holds its last byte. */
  lemma DeliveredInTime<S>(p: Protocol, filter: Filter<S>, taken: seq<byte>, w: Window, f: S,
                           gaps: seq<seq<byte>>, frames: seq<seq<byte>>, chunks: seq<seq<byte>>, k: nat)
    returns (candidates: seq<seq<byte>>)
    requires p.Valid() && Clean(p, gaps, frames) && JustCreated(taken, w)
    requires chunks != [] && chunks[|chunks| - 1] != []
    requires Flatten(chunks) <= Weave(gaps, frames)
    requires k < |frames| && |UpTo(gaps, frames, k)| <= |Flatten(chunks)|
    ensures candidates == DrainAll(p, filter, taken, w, f, chunks).candidates
    ensures frames[..k + 1] <= candidates <= frames
  {
    hide DrainAll, Scan, Weave, Flatten, UpTo;
    candidates := Scan(p, Flatten(chunks), 0).frames;
    CleanDrains(p, filter, taken, w, f, gaps, frames, chunks);
    CompleteFramesScanned(p, gaps, frames, Flatten(chunks), k);
  }

  /** A clean stream in any chunks yields its frames and nothing else, in order. */
  lemma DeliveredExactly<S>(p: Protocol, filter: Filter<S>, taken: seq<byte>, w: Window, f: S,
                            gaps: seq<seq<byte>>, frames: seq<seq<byte>>, chunks: seq<seq<byte>>)
    requires p.Valid() && Clean(p, gaps, frames) && JustCreated(taken, w)
    requires chunks != [] && chunks[|chunks| - 1] != []
    requires Flatten(chunks) == Weave(gaps, frames)
    ensures DrainAll(p, filter, taken, w, f, chunks).candidates == frames
  {
    hide DrainAll, Scan, Weave, Flatten;
    CleanScansWhole(p, gaps, frames);
    CleanDrains(p, filter, taken, w, f, gaps, frames, chunks);
  }
}
