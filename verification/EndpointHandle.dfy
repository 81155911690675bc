/** The write handle of endpoint_adapter.c: framer, filter and descriptor, driven by the
    nested loops of the source. */
module EndpointHandle {
  import opened Basics
  import opened Framing
  import opened EndpointAdapter
  import opened Rtcm3
  import Rtcm3Framer

  /** A write fails or takes at least one byte. */
  predicate WriteReply(count: int, length: int) {
    count == -1 || (0 < count && count <= length)
  }

  /** `w` is `r` with some of its elements left out. */
  ghost predicate Thinned<T>(w: seq<T>, r: seq<T>) {
    if r == [] then w == []
    else
      || Thinned(w, Front(r))
      || (w != [] && w[|w| - 1] == r[|r| - 1] && Thinned(Front(w), Front(r)))
  }

  function Front<T>(s: seq<T>): seq<T>
    requires s != []
  {
    s[..|s| - 1]
  }

  lemma {:induction false} ThinnedBy<T>(w: seq<T>, r: seq<T>, b: seq<T>)
    requires Thinned(w, r)
    ensures Thinned(w, r + b)
    decreases |b|
  {
    if b == [] {
      assert r + b == r;
    } else {
      ThinnedBy(w, r, Front(b));
      assert Front(r + b) == r + Front(b);
    }
  }

  lemma {:induction false} ThinnedWith<T>(w: seq<T>, r: seq<T>, b: seq<T>)
    requires Thinned(w, r)
    ensures Thinned(w + b, r + b)
    decreases |b|
  {
    if b == [] {
      assert r + b == r && w + b == w;
    } else {
      ThinnedWith(w, r, Front(b));
      assert Front(r + b) == r + Front(b) && Front(w + b) == w + Front(b);
    }
  }

  class Handle<S> {
    const framer: Rtcm3Framer.Framer
    const filter: Filter<S>
    var filterState: S
    /** Every byte that was reported as written. */
    var sent: seq<byte>
    /** Those that the descriptor has taken, and the number of the others. */
    var wire: seq<byte>
    var dropped: nat

    ghost predicate Valid()
      reads this, framer, framer.buffer
    {
      framer.Valid() && Kept()
    }

    /** The wire has the bytes reported as written but for the dropped ones, in order. */
    ghost predicate Kept()
      reads this
    {
      Thinned(wire, sent) && |wire| + dropped == |sent| && (dropped == 0 ==> wire == sent)
    }

    constructor (filter: Filter<S>, initial: S)
      ensures Valid() && fresh(framer) && fresh(framer.buffer)
      ensures this.filter == filter && filterState == initial && sent == wire == []
      ensures framer.taken == [] && framer.Window() == Fresh
    {
      framer := new Rtcm3Framer.Framer();
      this.filter, filterState, sent, wire, dropped := filter, initial, [], [], 0;
    }

    /** A write takes some of the bytes or fails; with the output queue full it drops them all and
        reports them as written. */
    method Write(bytes: seq<byte>, full: bool) returns (count: int)
      requires bytes != [] && Kept()
      modifies this`sent, this`wire, this`dropped
      ensures Kept()
      ensures count < 0 ==> unchanged(this)
      ensures count >= 0 ==> 0 < count <= |bytes| && sent == old(sent) + bytes[..count]
      ensures if full then count == |bytes| && wire == old(wire) && dropped == old(dropped) + |bytes|
              else count >= 0 ==> wire == old(wire) + bytes[..count] && dropped == old(dropped)
    {
      if full {
        ThinnedBy(wire, sent, bytes);
        sent, dropped := sent + bytes, dropped + |bytes|;
        assert bytes[..|bytes|] == bytes;
        return |bytes|;
      }
      assert WriteReply(-1, |bytes|);
      count :| WriteReply(count, |bytes|);
      assert WriteReply(count, |bytes|);
      if count > 0 {
        ThinnedWith(wire, sent, bytes[..count]);
        sent, wire := sent + bytes[..count], wire + bytes[..count];
      }
    }

    /** handle_write_all */
    method WriteAll(bytes: seq<byte>) returns (count: int)
      requires Kept()
      modifies this`sent, this`wire, this`dropped
      ensures Kept()
      ensures count >= 0 ==> count == |bytes| && sent == old(sent) + bytes
      ensures count < 0 ==> old(sent) <= sent < old(sent) + bytes
    {
      var index := 0;
      while index < |bytes|
        invariant 0 <= index <= |bytes|
        invariant sent == old(sent) + bytes[..index] && Kept()
      {
        hide Kept;
        var full: bool := *;
        var written := Write(bytes[index..], full);
        if written < 0 {
          return written;
        }
        assert bytes[..index] + bytes[index..][..written] == bytes[..index + written];
        index := index + written;
      }
      return index;
    }

    /** Framer and filter stand where `r` says, within the stream `s`. */
    ghost predicate At(s: seq<byte>, r: Single<S>)
      reads this, framer, framer.buffer
      requires Valid()
    {
      framer.Window() == r.window && filterState == r.filter && framer.taken <= s
    }

    /** handle_write_one_via_framer on the chunk from position `from`; `s` is the stream up
        to the end of the chunk. */
    method WriteOneViaFramer(data: seq<byte>, from: nat, ghost s: seq<byte>, ghost r: Single<S>)
      returns (result: int, frames: nat)
      requires Valid() && from <= |data| && s == framer.taken + data[from..]
      requires r == One(Transport(), filter, s, framer.Window(), filterState)
      modifies this`filterState, this`sent, this`wire, this`dropped, framer, framer.buffer
      ensures Valid() && At(s, r)
      ensures result >= 0 ==>
                && from + result <= |data| && s == framer.taken + data[from + result..]
                && sent == old(sent) + Bytes(r.written) && frames == |Listed(r.written)|
      ensures result < 0 ==> old(sent) <= sent < old(sent) + Bytes(r.written)
    {
      hide One, Transport;
      var consumed, frame := NextPassing(data, from, s, r);
      if frame.None? {
        return consumed, 0;
      }
      var count := WriteAll(frame.value);
      if count < 0 {
        return count, 0;
      }
      return consumed, 1;
    }

    /** The loop of handle_write_one_via_framer up to the write: rejected frames are skipped. */
    method NextPassing(data: seq<byte>, from: nat, ghost s: seq<byte>, ghost r: Single<S>)
      returns (consumed: nat, frame: Option<seq<byte>>)
      requires Valid() && from <= |data| && s == framer.taken + data[from..]
      requires r == One(Transport(), filter, s, framer.Window(), filterState)
      modifies this`filterState, framer, framer.buffer
      ensures Valid() && At(s, r) && frame == r.written
      ensures from + consumed <= |data| && s == framer.taken + data[from + consumed..]
    {
      hide One, Transport;
      var at := from;
      while true
        invariant Valid() && from <= at <= |data| && s == framer.taken + data[at..]
        invariant One(Transport(), filter, s, framer.Window(), filterState) == r
        decreases |s| - framer.Window().Live()
      {
        var pass;
        at, frame, pass := NextCandidate(data, at, s);
        if frame.None? || pass {
          return at - from, frame;
        }
      }
    }

    /** handle_write_all_via_framer: a whole chunk. */
    method WriteAllViaFramer(data: seq<byte>) returns (result: int, frames: nat)
      requires Valid()
      modifies this`filterState, this`sent, this`wire, this`dropped, framer, framer.buffer
      ensures Valid()
      ensures var s := old(framer.taken) + data;
              var d := Drain(Transport(), filter, s, old(framer.Window()), old(filterState));
              && (result >= 0 ==>
                    && result == |data| && framer.taken == s
                    && framer.Window() == d.window && filterState == d.filter
                    && sent == old(sent) + Flatten(d.written) && frames == |d.written|)
              && (result < 0 ==> old(sent) <= sent < old(sent) + Flatten(d.written))
    {
      hide One, Drain, Transport;
      ghost var s := framer.taken + data;
      ghost var d := Drain(Transport(), filter, s, framer.Window(), filterState);
      ghost var done: seq<seq<byte>> := [];
      var index: nat := 0;
      frames := 0;
      assert data[0..] == data && done + d.written == d.written;
      while true
        invariant Valid() && index <= |data| && s == framer.taken + data[index..]
        invariant sent == old(sent) + Flatten(done) && frames == |done|
        invariant Left(Transport(), filter, s, framer.Window(), filterState, d, done)
        decreases |s| - framer.Window().Live()
      {
        var count, more;
        count, more, done := WriteNext(data, index, s, d, done, old(sent));
        if count < 0 {
          return count, frames;
        }
        index := index + count;
        frames := frames + more;
        if index >= |data| {
          return |data|, frames;
        }
      }
    }

    /** Chunk after chunk, as they are read: when no write fails, framer, filter and sent end as
        for the whole stream in one chunk; otherwise the sent holds a proper prefix. */
    method WriteChunks(chunks: seq<seq<byte>>) returns (ok: bool)
      requires Valid() && forall i :: 0 <= i < |chunks| ==> chunks[i] != []
      modifies this`filterState, this`sent, this`wire, this`dropped, framer, framer.buffer
      ensures Valid()
      ensures chunks != [] ==>
                var s := old(framer.taken) + Flatten(chunks);
                var d := Drain(Transport(), filter, s, old(framer.Window()), old(filterState));
                && (ok ==>
                      && framer.taken == s && framer.Window() == d.window && filterState == d.filter
                      && sent == old(sent) + Flatten(d.written))
                && (!ok ==> old(sent) <= sent < old(sent) + Flatten(d.written))
    {
      ghost var before, taken, w, f := sent, framer.taken, framer.Window(), filterState;
      ghost var all := DrainAll(Transport(), filter, taken, w, f, chunks);
      ghost var d := Drained(w, f, [], []);
      NothingJoined(w, f, all);
      assert sent + Flatten(d.written) == sent;
      assert Along(before, d, all, chunks);
      hide Drain, DrainAll, Transport, Flatten, Along, Valid;
      if chunks != [] {
        ChunkIndependence(Transport(), filter, taken, w, f, chunks);
      }
      var i := 0;
      assert chunks[0..] == chunks && taken + Flatten(chunks) == framer.taken + Flatten(chunks);
      while i < |chunks|
        invariant i <= |chunks| && Along(before, d, all, chunks[i..])
        invariant taken + Flatten(chunks) == framer.taken + Flatten(chunks[i..])
      {
        RestOf(framer.taken, chunks, i);
        ok, d := NextChunk(chunks[i], chunks[i..], d, all, before);
        if !ok {
          return;
        }
        i := i + 1;
      }
      assert chunks[i..] == [];
      Ends(before, d, all, framer.taken);
      return true;
    }

    /** `d` has been written behind `before`; with the chunks of `rest` that makes `all`. */
    ghost predicate Along(before: seq<byte>, d: Drained<S>, all: Drained<S>, rest: seq<seq<byte>>)
      reads this, framer, framer.buffer
    {
      && Valid() && d.window == framer.Window() && d.filter == filterState && sent == before + Flatten(d.written)
      && all == Join(d, DrainAll(Transport(), filter, framer.taken, d.window, d.filter, rest))
    }

    method NextChunk(chunk: seq<byte>, ghost rest: seq<seq<byte>>, ghost d: Drained<S>, ghost all: Drained<S>,
                     ghost before: seq<byte>)
        returns (ok: bool, ghost d': Drained<S>)
      requires rest != [] && rest[0] == chunk && Along(before, d, all, rest)
      modifies this`filterState, this`sent, this`wire, this`dropped, framer, framer.buffer
      ensures if ok then Along(before, d', all, rest[1..]) && framer.taken == old(framer.taken) + chunk
              else Valid() && before <= sent < before + Flatten(all.written)
    {
      hide Drain, DrainAll, Transport, Flatten;
      ghost var taken := framer.taken;
      ghost var e := Drain(Transport(), filter, taken + chunk, d.window, d.filter);
      ghost var last := DrainAll(Transport(), filter, taken + chunk, e.window, e.filter, rest[1..]);
      DrainAllNext(Transport(), filter, taken, d.window, d.filter, rest);
      JoinJoin(d, e, last);
      FlattenAppend(d.written, e.written);
      assert before + (Flatten(d.written) + Flatten(e.written)) == before + Flatten(d.written) + Flatten(e.written);
      d' := Join(d, e);
      var result, _ := WriteAllViaFramer(chunk);
      ok := result >= 0;
      if !ok {
        FailsWithin(before, sent, d.written, e.written, last.written);
      }
    }

    lemma RestOf(taken: seq<byte>, chunks: seq<seq<byte>>, i: nat)
      requires i < |chunks|
      ensures chunks[i..][1..] == chunks[i + 1..]
      ensures taken + Flatten(chunks[i..]) == taken + chunks[i] + Flatten(chunks[i + 1..])
    {
      assert chunks[i..][1..] == chunks[i + 1..];
    }

    lemma FailsWithin(before: seq<byte>, sent: seq<byte>, a: seq<seq<byte>>, b: seq<seq<byte>>, c: seq<seq<byte>>)
      requires before + Flatten(a) <= sent < before + Flatten(a) + Flatten(b)
      ensures before <= sent < before + Flatten(a + b + c)
    {
      hide Flatten;
      FlattenAppend(a + b, c);
      FlattenAppend(a, b);
      assert before + (Flatten(a) + Flatten(b) + Flatten(c)) == before + Flatten(a) + Flatten(b) + Flatten(c);
    }

    lemma Ends(before: seq<byte>, d: Drained<S>, all: Drained<S>, taken: seq<byte>)
      requires Along(before, d, all, []) && framer.taken == taken
      ensures Valid() && d == all && d.window == framer.Window() && d.filter == filterState
      ensures sent == before + Flatten(all.written) && taken + Flatten([]) == taken
    {
      JoinNothing(d);
    }

    /** One round of the loop, which adds at most one frame to those of `d` already sent. */
    method WriteNext(data: seq<byte>, at: nat, ghost s: seq<byte>, ghost d: Drained<S>, ghost done: seq<seq<byte>>,
                     ghost before: seq<byte>)
      returns (count: int, frames: nat, ghost done': seq<seq<byte>>)
      requires Valid() && at <= |data| && s == framer.taken + data[at..]
      requires Left(Transport(), filter, s, framer.Window(), filterState, d, done)
      requires sent == before + Flatten(done)
      modifies this`filterState, this`sent, this`wire, this`dropped, framer, framer.buffer
      ensures Valid() && framer.taken <= s
      ensures count >= 0 ==>
                && at + count <= |data| && s == framer.taken + data[at + count..]
                && sent == before + Flatten(done') && |done'| == |done| + frames
                && (if at + count == |data| then SameEnd(d, framer.Window(), filterState, done')
                    else Left(Transport(), filter, s, framer.Window(), filterState, d, done')
                         && old(framer.Window().Live()) < framer.Window().Live())
      ensures count < 0 ==> before <= sent < before + Flatten(d.written)
    {
      hide One, Drain, Transport;
      ghost var r := One(Transport(), filter, s, framer.Window(), filterState);
      LeftAdvances(Transport(), filter, s, framer.Window(), filterState, d, done);
      FlattenListed(done, r.written);
      done' := done + Listed(r.written);
      count, frames := WriteOneViaFramer(data, at, s, r);
      Sent(before, sent, done, r.written, d.written, count);
    }

    /** The next frame out of the framer, and what the filter says to it. */
    method NextCandidate(data: seq<byte>, at: nat, ghost s: seq<byte>)
      returns (next: nat, frame: Option<seq<byte>>, pass: bool)
      requires Valid() && at <= |data| && s == framer.taken + data[at..]
      modifies this`filterState, framer, framer.buffer
      ensures Valid()
      ensures at <= next <= |data| && s == framer.taken + data[next..]
      ensures One(Transport(), filter, s, old(framer.Window()), old(filterState))
           == if frame.None? || pass then Single(framer.Window(), filterState, frame)
              else One(Transport(), filter, s, framer.Window(), filterState)
      ensures frame.Some? ==> old(framer.Window().Live()) < framer.Window().Live()
    {
      hide Framing.Process, Transport;
      var consumed;
      consumed, frame := framer.Process(data, at);
      next := at + consumed;
      pass := false;
      if frame.Some? {
        var decision := filter(filterState, frame.value);
        pass, filterState := decision.0, decision.1;
      }
    }
  }

  /** The bytes of a frame, if there is one. */
  function Bytes(frame: Option<seq<byte>>): seq<byte> {
    match frame case None => [] case Some(b) => b
  }

  lemma Sent(before: seq<byte>, sent: seq<byte>, done: seq<seq<byte>>, frame: Option<seq<byte>>, all: seq<seq<byte>>,
             count: int)
    requires done + Listed(frame) <= all
    requires if count >= 0 then sent == before + Flatten(done) + Bytes(frame)
             else before + Flatten(done) <= sent < before + Flatten(done) + Bytes(frame)
    ensures if count >= 0 then sent == before + Flatten(done + Listed(frame))
            else before <= sent < before + Flatten(all)
  {
    FlattenListed(done, frame);
    AppendAssociative(before, Flatten(done), Bytes(frame));
    if count < 0 {
      assert before <= before + Flatten(done);
      FailureIsPrefix(before, sent, done + Listed(frame), all);
    }
  }
}
