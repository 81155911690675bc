/** The write path of endpoint_adapter.c: frames are drained out of the framer chunk by
    chunk, passed through a stateful filter and written. */
module EndpointAdapter {
  import opened Basics
  import opened Framing

  /** A filter decides on a frame and moves on to its next state. */
  type Filter<!S> = (S, seq<byte>) -> (bool, S)

  /** `candidates` were shown to the filter, `written` passed it. */
  datatype Drained<S> = Drained(window: Window, filter: S, candidates: seq<seq<byte>>, written: seq<seq<byte>>)

  /** One chunk through handle_write_all_via_framer when writes succeed: go on until the
      framer runs dry, or a frame was written and the chunk is used up. `s` is the stream
      up to the end of the chunk. */
  function Drain<S>(p: Protocol, filter: Filter<S>, s: seq<byte>, w: Window, f: S): (d: Drained<S>)
    requires p.Valid() && w.Valid() && w.high <= |s|
    ensures d.window.Valid() && d.window.high == |s|
    decreases |s| - w.Live()
  {
    var o := Process(p, s, w);
    match o.frame
    case None => Drained(o.window, f, [], [])
    case Some(frame) =>
      var (pass, f') := filter(f, frame);
      if pass && o.window.high == |s| then Drained(o.window, f', [frame], [frame])
      else Then(frame, pass, Drain(p, filter, s, o.window, f'))
  }

  function Then<S>(frame: seq<byte>, pass: bool, d: Drained<S>): Drained<S> {
    d.(candidates := [frame] + d.candidates, written := (if pass then [frame] else []) + d.written)
  }

  function Join<S>(a: Drained<S>, b: Drained<S>): Drained<S> {
    b.(candidates := a.candidates + b.candidates, written := a.written + b.written)
  }

  // ---------------------------------------------------------------------------
  // Chunks
  // ---------------------------------------------------------------------------

  function Flatten<T>(parts: seq<seq<T>>): seq<T> {
    if parts == [] then [] else parts[0] + Flatten(parts[1..])
  }

  lemma {:induction false} FlattenAppend<T>(a: seq<seq<T>>, b: seq<seq<T>>)
    ensures Flatten(a + b) == Flatten(a) + Flatten(b)
  {
    if a == [] {
      assert a + b == b;
    } else {
      assert (a + b)[1..] == a[1..] + b;
      FlattenAppend(a[1..], b);
      AppendAssociative(a[0], Flatten(a[1..]), Flatten(b));
    }
  }

  lemma FlattenOne<T>(x: seq<T>)
    ensures Flatten([x]) == x
  {
    assert [x][1..] == [];
  }

  function DrainAll<S>(p: Protocol, filter: Filter<S>, taken: seq<byte>, w: Window, f: S, chunks: seq<seq<byte>>): Drained<S>
    requires p.Valid() && w.Valid() && w.high == |taken|
    decreases |chunks|
  {
    if chunks == [] then Drained(w, f, [], [])
    else
      var s := taken + chunks[0];
      var d := Drain(p, filter, s, w, f);
      Join(d, DrainAll(p, filter, s, d.window, d.filter, chunks[1..]))
  }

  lemma DrainAllNext<S>(p: Protocol, filter: Filter<S>, taken: seq<byte>, w: Window, f: S, chunks: seq<seq<byte>>)
    requires p.Valid() && w.Valid() && w.high == |taken| && chunks != []
    ensures var d := Drain(p, filter, taken + chunks[0], w, f);
            DrainAll(p, filter, taken, w, f, chunks)
            == Join(d, DrainAll(p, filter, taken + chunks[0], d.window, d.filter, chunks[1..]))
  {
    hide Drain;
  }

  lemma JoinJoin<S>(a: Drained<S>, b: Drained<S>, c: Drained<S>)
    ensures Join(a, Join(b, c)) == Join(Join(a, b), c)
    ensures Join(a, Join(b, c)).written == a.written + b.written + c.written
  {
    assert a.candidates + (b.candidates + c.candidates) == a.candidates + b.candidates + c.candidates;
    assert a.written + (b.written + c.written) == a.written + b.written + c.written;
  }

  lemma JoinThen<S>(frame: seq<byte>, pass: bool, a: Drained<S>, b: Drained<S>)
    ensures Then(frame, pass, Join(a, b)) == Join(Then(frame, pass, a), b)
  {
    assert [frame] + (a.candidates + b.candidates) == ([frame] + a.candidates) + b.candidates;
    var x := if pass then [frame] else [];
    assert x + (a.written + b.written) == (x + a.written) + b.written;
  }

  lemma JoinFirst<S>(frame: seq<byte>, w: Window, f: S, b: Drained<S>)
    ensures Then(frame, true, b) == Join(Drained(w, f, [frame], [frame]), b)
  {
  }

  /** Stopping at the end of a shorter stream changes nothing. */
  lemma {:induction false} DrainSplits<S>(p: Protocol, filter: Filter<S>, s: seq<byte>, t: seq<byte>, w: Window, f: S)
    requires p.Valid() && w.Valid() && w.high <= |s| && s <= t && |s| < |t|
    ensures var d := Drain(p, filter, s, w, f);
            Drain(p, filter, t, w, f) == Join(d, Drain(p, filter, t, d.window, d.filter))
    decreases |s| - w.Live()
  {
    var o := Process(p, s, w);
    match o.frame
    case None =>
      NoFrameResumes(p, s, t, w);
      NothingJoined(o.window, f, Drain(p, filter, t, w, f));
    case Some(frame) =>
      FrameIgnoresLater(p, s, t, w);
      var (pass, f') := filter(f, frame);
      if pass && o.window.high == |s| {
        JoinFirst(frame, o.window, f', Drain(p, filter, t, o.window, f'));
      } else {
        DrainSplits(p, filter, s, t, o.window, f');
        var d := Drain(p, filter, s, o.window, f');
        JoinThen(frame, pass, d, Drain(p, filter, t, d.window, d.filter));
      }
  }

  lemma NothingJoined<S>(w: Window, f: S, d: Drained<S>)
    ensures Join(Drained(w, f, [], []), d) == d
  {
  }

  /** However a stream is cut into chunks, the last one not empty, the same candidates reach
      the filter, the same frames are written, and framer and filter end in the same state
      as for one chunk. */
  lemma {:induction false} ChunkIndependence<S>(p: Protocol, filter: Filter<S>, taken: seq<byte>, w: Window, f: S,
                                                chunks: seq<seq<byte>>)
    requires p.Valid() && w.Valid() && w.high == |taken|
    requires chunks != [] && chunks[|chunks| - 1] != []
    ensures DrainAll(p, filter, taken, w, f, chunks) == Drain(p, filter, taken + Flatten(chunks), w, f)
    decreases |chunks|
  {
    var s := taken + chunks[0];
    var d := Drain(p, filter, s, w, f);
    if |chunks| == 1 {
      assert taken + Flatten(chunks) == s;
      JoinNothing(d);
    } else {
      var t := taken + Flatten(chunks);
      assert t == s + Flatten(chunks[1..]);
      LastCounts(chunks[1..]);
      DrainSplits(p, filter, s, t, w, f);
      ChunkIndependence(p, filter, s, d.window, d.filter, chunks[1..]);
    }
  }

  lemma JoinNothing<S>(d: Drained<S>)
    ensures Join(d, Drained(d.window, d.filter, [], [])) == d
  {
  }

  lemma {:induction false} LastCounts<T>(parts: seq<seq<T>>)
    requires parts != [] && parts[|parts| - 1] != []
    ensures Flatten(parts) != []
  {
    if |parts| > 1 { LastCounts(parts[1..]); }
  }

  // ---------------------------------------------------------------------------
  // Against the scanner
  // ---------------------------------------------------------------------------

  /** What a filter makes of a list of frames. */
  function Filtered<S>(filter: Filter<S>, f: S, frames: seq<seq<byte>>): (seq<seq<byte>>, S)
    decreases |frames|
  {
    if frames == [] then ([], f)
    else
      var (pass, f') := filter(f, frames[0]);
      var (later, f'') := Filtered(filter, f', frames[1..]);
      ((if pass then [frames[0]] else []) + later, f'')
  }

  lemma FilteredOne<S>(filter: Filter<S>, f: S, frame: seq<byte>)
    ensures Filtered(filter, f, [frame]) == ((if filter(f, frame).0 then [frame] else []), filter(f, frame).1)
  {
    var (pass, f') := filter(f, frame);
    assert [frame][1..] == [];
    assert Filtered(filter, f', []) == ([], f');
    assert (if pass then [frame] else []) + [] == (if pass then [frame] else []);
  }

  lemma {:induction false} DrainFilters<S>(p: Protocol, filter: Filter<S>, s: seq<byte>, w: Window, f: S)
    requires p.Valid() && w.Valid() && w.high <= |s|
    ensures var d := Drain(p, filter, s, w, f);
            Filtered(filter, f, d.candidates) == (d.written, d.filter)
    decreases |s| - w.Live()
  {
    var o := Process(p, s, w);
    match o.frame
    case None =>
    case Some(frame) =>
      var (pass, f') := filter(f, frame);
      if pass && o.window.high == |s| {
        FilteredOne(filter, f, frame);
      } else {
        var d := Drain(p, filter, s, o.window, f');
        DrainFilters(p, filter, s, o.window, f');
        assert ([frame] + d.candidates)[1..] == d.candidates;
      }
  }

  /** Candidates are the scanner's frames, in order, without loss or repetition: those not
      yet shown to the filter are still in the buffer. */
  lemma {:induction false} DrainScans<S>(p: Protocol, filter: Filter<S>, s: seq<byte>, w: Window, f: S)
    requires p.Valid() && w.Valid() && w.high <= |s|
    ensures var d := Drain(p, filter, s, w, f);
            && Scan(p, s, w.Live()).frames == d.candidates + Scan(p, s, d.window.Live()).frames
            && Scan(p, s, w.Live()).rest == Scan(p, s, d.window.Live()).rest
    decreases |s| - w.Live()
  {
    var o := Process(p, s, w);
    ProcessScans(p, s, w);
    match o.frame
    case None =>
    case Some(frame) =>
      var (pass, f') := filter(f, frame);
      if !(pass && o.window.high == |s|) {
        DrainScans(p, filter, s, o.window, f');
        var d := Drain(p, filter, s, o.window, f');
        AppendAssociative([frame], d.candidates, Scan(p, s, d.window.Live()).frames);
      }
  }

  /** When no candidate has to be given up, no frame stays behind: the filter has seen
      everything the scanner finds. */
  lemma {:induction false} DrainComplete<S>(p: Protocol, filter: Filter<S>, s: seq<byte>, w: Window, f: S)
    requires p.Valid() && w.Valid() && w.high <= |s| && Waiting(p, s, w)
    requires TightWindow(p, s, w) && NoReject(p, s, w.Live())
    ensures var d := Drain(p, filter, s, w, f);
            && d.candidates == Scan(p, s, w.Live()).frames
            && TightWindow(p, s, d.window) && NoReject(p, s, d.window.Live())
    decreases |s| - w.Live()
  {
    var o := Process(p, s, w);
    ProcessScans(p, s, w);
    ProcessTight(p, s, w);
    ProcessWaits(p, s, w);
    match o.frame
    case None => NoFrameLeavesNone(p, s, w);
    case Some(frame) =>
      var (pass, f') := filter(f, frame);
      if !(pass && o.window.high == |s|) { DrainComplete(p, filter, s, o.window, f'); }
  }

  // ---------------------------------------------------------------------------
  // One written frame at a time
  // ---------------------------------------------------------------------------

  datatype Single<S> = Single(window: Window, filter: S, written: Option<seq<byte>>)

  /** handle_write_one_via_framer: up to the next frame that passes the filter. */
  function One<S>(p: Protocol, filter: Filter<S>, s: seq<byte>, w: Window, f: S): (r: Single<S>)
    requires p.Valid() && w.Valid() && w.high <= |s|
    ensures r.window.Valid() && w.high <= r.window.high <= |s|
    ensures r.written.None? ==> r.window.high == |s|
    ensures r.written.Some? ==> w.Live() < r.window.Live()
    decreases |s| - w.Live()
  {
    var o := Process(p, s, w);
    match o.frame
    case None => Single(o.window, f, None)
    case Some(frame) =>
      var (pass, f') := filter(f, frame);
      if pass then Single(o.window, f', Some(frame)) else One(p, filter, s, o.window, f')
  }

  ghost predicate SameEnd<S>(d: Drained<S>, window: Window, filter: S, written: seq<seq<byte>>) {
    d.window == window && d.filter == filter && d.written == written
  }

  /** Draining a chunk is writing one frame after the other until the chunk is used up. */
  lemma {:induction false} DrainByOnes<S>(p: Protocol, filter: Filter<S>, s: seq<byte>, w: Window, f: S)
    requires p.Valid() && w.Valid() && w.high <= |s|
    ensures var d := Drain(p, filter, s, w, f);
            var r := One(p, filter, s, w, f);
            match r.written
            case None => SameEnd(d, r.window, r.filter, [])
            case Some(frame) =>
              if r.window.high == |s| then SameEnd(d, r.window, r.filter, [frame])
              else var d' := Drain(p, filter, s, r.window, r.filter);
                   SameEnd(d, d'.window, d'.filter, [frame] + d'.written)
    decreases |s| - w.Live()
  {
    var o := Process(p, s, w);
    match o.frame
    case None =>
    case Some(frame) =>
      var (pass, f') := filter(f, frame);
      if !pass {
        DrainByOnes(p, filter, s, o.window, f');
        NothingPrepended(Drain(p, filter, s, o.window, f').written);
      }
  }

  lemma NothingPrepended<T>(s: seq<T>)
    ensures [] + s == s
  {
  }

  /** Of the frames of `d`, those after `done` are still to be written from here. */
  ghost predicate Left<S>(p: Protocol, filter: Filter<S>, s: seq<byte>, w: Window, f: S, d: Drained<S>,
                          done: seq<seq<byte>>)
    requires p.Valid() && w.Valid() && w.high <= |s|
  {
    var rest := Drain(p, filter, s, w, f);
    SameEnd(d, rest.window, rest.filter, done + rest.written)
  }

  function Listed(frame: Option<seq<byte>>): seq<seq<byte>> {
    match frame case None => [] case Some(b) => [b]
  }

  /** One more frame, and either the chunk is done or the rest is left. */
  lemma LeftAdvances<S>(p: Protocol, filter: Filter<S>, s: seq<byte>, w: Window, f: S, d: Drained<S>,
                        done: seq<seq<byte>>)
    requires p.Valid() && w.Valid() && w.high <= |s| && Left(p, filter, s, w, f, d, done)
    ensures var r := One(p, filter, s, w, f);
            && done + Listed(r.written) <= d.written
            && (if r.window.high == |s| then SameEnd(d, r.window, r.filter, done + Listed(r.written))
                else Left(p, filter, s, r.window, r.filter, d, done + Listed(r.written)))
  {
    var r := One(p, filter, s, w, f);
    DrainByOnes(p, filter, s, w, f);
    if r.window.high != |s| {
      AppendAssociative(done, Listed(r.written), Drain(p, filter, s, r.window, r.filter).written);
    }
  }

  lemma FlattenListed(done: seq<seq<byte>>, frame: Option<seq<byte>>)
    ensures Flatten(done + Listed(frame)) == Flatten(done) + Flatten(Listed(frame))
    ensures Flatten(Listed(frame)) == match frame case None => [] case Some(b) => b
  {
    FlattenAppend(done, Listed(frame));
    if frame.Some? { FlattenOne(frame.value); }
  }

  /** After a failed write the wire holds a proper prefix of what should have been sent. */
  lemma FailureIsPrefix(before: seq<byte>, wire: seq<byte>, some: seq<seq<byte>>, all: seq<seq<byte>>)
    requires before <= wire < before + Flatten(some) && some <= all
    ensures wire < before + Flatten(all)
  {
    var n := |some|;
    assert all == some + all[n..];
    FlattenAppend(some, all[n..]);
    ProperPrefix(wire, before + Flatten(some), Flatten(all[n..]));
    AppendAssociative(before, Flatten(some), Flatten(all[n..]));
  }

  lemma ProperPrefix<T>(a: seq<T>, b: seq<T>, c: seq<T>)
    requires a < b
    ensures a < b + c
  {
  }
}
