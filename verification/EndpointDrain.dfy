/** The event loop around an endpoint, between arrivals: level-triggered polls of the clients
    and of the eventfd fire in any order. The loop comes to rest, and what is queued on open
    connections is handed over; what is queued on a connection that its peer has closed is lost
    if the poll of that client fires first. */
module EndpointDrain {
  import opened EndpointServer

  /** The poll of this client's socket fires, with a disconnect if the peer has closed it. */
  predicate Ready(c: Client) { c.queue != [] || c.closed }

  /** What the callback is still to get from a client: the messages before the first empty
      one. */
  function Owed(c: Client): seq<Message> {
    ClipAll(c.queue[..NonEmpty(c.queue)])
  }

  /** The connection ends after what is owed. */
  predicate Ends(c: Client) {
    NonEmpty(c.queue) < |c.queue| || c.closed
  }

  // ---------------------------------------------------------------------------
  // Serving one client
  // ---------------------------------------------------------------------------

  lemma {:induction false} NonEmptySuffix(queue: seq<Message>, n: nat)
    requires n <= NonEmpty(queue)
    ensures NonEmpty(queue[n..]) == NonEmpty(queue) - n
  {
    if n == 0 {
      assert queue[0..] == queue;
    } else {
      NonEmptyNext(queue);
      NonEmptySuffix(queue[1..], n - 1);
      assert queue[1..][n - 1..] == queue[n..];
    }
  }

  /** Serving pays what it hands over, and nothing else. */
  lemma ServingPays(c: Client, limit: nat)
    ensures Gained(c, limit) + (if Drops(c, limit) then [] else Owed(After(c, limit))) == Owed(c)
    ensures if Drops(c, limit) then Ends(c) else Ends(After(c, limit)) == Ends(c)
  {
    hide ClipAll;
    var n, m := Served(c.queue, limit), NonEmpty(c.queue);
    if Drops(c, limit) {
      assert n == m;
    } else {
      NonEmptySuffix(c.queue, n);
      ClipAllAppend(c.queue[..n], c.queue[n..m]);
      assert c.queue[..n] + c.queue[n..m] == c.queue[..m];
      assert c.queue[n..][..m - n] == c.queue[n..m];
    }
  }

  /** Serving a readable client makes progress. */
  lemma ServingProgresses(c: Client, limit: nat)
    requires Ready(c) && limit > 0
    ensures Drops(c, limit) || |After(c, limit).queue| < |c.queue|
  {
    if c.queue != [] && c.queue[0] != [] {
      ServedSome(c.queue, limit);
    }
  }

  // ---------------------------------------------------------------------------
  // Rounds
  // ---------------------------------------------------------------------------

  function Work(nodes: seq<Id>, ctx: map<Id, Client>): nat {
    if nodes == [] then 0
    else (if nodes[0] in ctx then |ctx[nodes[0]].queue| + 1 else 0) + Work(nodes[1..], ctx)
  }

  lemma {:induction false} WorkShrinks(v0: View, w: View, nodes: seq<Id>, gone: seq<Id>, limits: Id -> nat, id: Id)
    requires forall x :: x in nodes ==> Outcome(v0, w, x, x in gone, limits(x))
    ensures Work(Without(nodes, gone), w.ctx) <= Work(nodes, v0.ctx)
    ensures id in nodes && id in v0.ctx && Ready(v0.ctx[id]) && limits(id) > 0
            ==> Work(Without(nodes, gone), w.ctx) < Work(nodes, v0.ctx)
  {
    if nodes != [] {
      hide Drops, After, Ready, Gained;
      WorkShrinks(v0, w, nodes[1..], gone, limits, id);
      WorkOf(v0, w, nodes[0], nodes[0] in gone, limits(nodes[0]));
      WorkSplits(nodes, gone, w.ctx);
    }
  }

  lemma WorkOf(v0: View, w: View, id: Id, goes: bool, limit: nat)
    requires Outcome(v0, w, id, goes, limit)
    ensures !goes ==> id in w.ctx && |w.ctx[id].queue| <= |v0.ctx[id].queue|
    ensures !goes && Ready(v0.ctx[id]) && limit > 0 ==> |w.ctx[id].queue| < |v0.ctx[id].queue|
  {
    if !goes && Ready(v0.ctx[id]) && limit > 0 {
      ServingProgresses(v0.ctx[id], limit);
    }
  }

  lemma WorkSplits(nodes: seq<Id>, gone: seq<Id>, ctx: map<Id, Client>)
    requires nodes != []
    ensures Work(Without(nodes, gone), ctx)
         == (if nodes[0] in gone || nodes[0] !in ctx then 0 else |ctx[nodes[0]].queue| + 1)
            + Work(Without(nodes[1..], gone), ctx)
  {
    if nodes[0] !in gone {
      var rest := Without(nodes[1..], gone);
      assert Without(nodes, gone) == [nodes[0]] + rest;
      assert ([nodes[0]] + rest)[1..] == rest;
    } else {
      assert Without(nodes, gone) == Without(nodes[1..], gone);
    }
  }

  // ---------------------------------------------------------------------------
  // The loop as a transition system
  // ---------------------------------------------------------------------------

  datatype Snapshot = Snapshot(view: View, nodes: seq<Id>, woke: bool)

  /** What holds of an endpoint between callbacks. */
  ghost predicate WellFormed(s: Snapshot) {
    Distinct(s.nodes) && forall id :: id in s.nodes ==> id in s.view.ctx && id in s.view.history
  }

  ghost predicate ReadyAt(s: Snapshot, id: Id) {
    id in s.nodes && id in s.view.ctx && Ready(s.view.ctx[id])
  }

  /** The poll of a client fires: handle_client_wake with the status that the loop gives. */
  ghost predicate WakeStep(s: Snapshot, t: Snapshot, id: Id) {
    && ReadyAt(s, id)
    && if s.view.ctx[id].closed then
         && t.nodes == Remove(s.nodes, id) && t.woke == s.woke
         && SameMessages(s.view.history, t.view.history) && SameClients(s.view.ctx, t.view.ctx, t.nodes)
       else
         t == s.(woke := true)
  }

  /** The poll of the eventfd fires: the endpoint receives. From a client that has messages at
      least one is taken. */
  ghost predicate ReadStep(s: Snapshot, t: Snapshot, limits: Id -> nat, gone: seq<Id>) {
    && s.woke && !t.woke && t.nodes == Without(s.nodes, gone)
    && (forall id :: limits(id) > 0) && Received(s.view, t.view, s.nodes, gone, limits)
  }

  ghost predicate Step(s: Snapshot, t: Snapshot) {
    (exists id :: WakeStep(s, t, id)) || (exists limits, gone :: ReadStep(s, t, limits, gone))
  }

  ghost predicate IsRun(run: seq<Snapshot>) {
    run != [] && forall i :: 0 <= i < |run| - 1 ==> Step(run[i], run[i + 1])
  }

  /** No poll fires. */
  ghost predicate Quiet(s: Snapshot) {
    !s.woke && forall id :: !ReadyAt(s, id)
  }

  // ---------------------------------------------------------------------------
  // The loop comes to rest
  // ---------------------------------------------------------------------------

  ghost predicate SomeReady(s: Snapshot) { exists id :: ReadyAt(s, id) }

  /** Decreases with every step that changes anything. */
  ghost function Measure(s: Snapshot): nat {
    2 * Work(s.nodes, s.view.ctx) + (if SomeReady(s) == s.woke then 0 else 1)
  }

  lemma {:induction false} WorkSame(nodes: seq<Id>, a: map<Id, Client>, b: map<Id, Client>)
    requires SameClients(a, b, nodes)
    ensures Work(nodes, a) == Work(nodes, b)
  {
    if nodes != [] { WorkSame(nodes[1..], a, b); }
  }

  lemma {:induction false} WorkRemoved(nodes: seq<Id>, id: Id, ctx: map<Id, Client>)
    requires id in nodes && id in ctx
    ensures Work(Remove(nodes, id), ctx) < Work(nodes, ctx)
  {
    if nodes[0] != id {
      WorkRemoved(nodes[1..], id, ctx);
      assert Remove(nodes, id)[1..] == Remove(nodes[1..], id);
    }
  }

  lemma WakeShrinks(s: Snapshot, t: Snapshot, id: Id)
    requires WellFormed(s) && WakeStep(s, t, id) && t != s
    ensures Measure(t) < Measure(s)
  {
    hide Work, Remove, Ready;
    if s.view.ctx[id].closed {
      WorkRemoved(s.nodes, id, s.view.ctx);
      WorkSame(t.nodes, s.view.ctx, t.view.ctx);
    } else {
      assert ReadyAt(t, id);
    }
  }

  lemma ReadShrinks(s: Snapshot, t: Snapshot, limits: Id -> nat, gone: seq<Id>)
    requires WellFormed(s) && ReadStep(s, t, limits, gone)
    ensures Measure(t) < Measure(s)
  {
    hide Work, Without, Outcome, Ready;
    if SomeReady(s) {
      var id :| ReadyAt(s, id);
      WorkShrinks(s.view, t.view, s.nodes, gone, limits, id);
    } else {
      WorkShrinks(s.view, t.view, s.nodes, gone, limits, 0);
      NoneReady(s, t, limits, gone);
    }
  }

  lemma NoneReady(s: Snapshot, t: Snapshot, limits: Id -> nat, gone: seq<Id>)
    requires ReadStep(s, t, limits, gone) && !SomeReady(s)
    ensures !SomeReady(t)
  {
    hide Without, Work;
    forall id ensures !ReadyAt(t, id) {
      WithoutMembers(s.nodes, gone, id);
      if id in t.nodes {
        assert !ReadyAt(s, id);
        assert Outcome(s.view, t.view, id, id in gone, limits(id));
      }
    }
  }

  lemma StepShrinks(s: Snapshot, t: Snapshot)
    requires WellFormed(s) && Step(s, t) && t != s
    ensures Measure(t) < Measure(s)
  {
    hide WakeStep, ReadStep, Measure, WellFormed;
    if id :| WakeStep(s, t, id) {
      WakeShrinks(s, t, id);
    } else {
      var limits, gone :| ReadStep(s, t, limits, gone);
      ReadShrinks(s, t, limits, gone);
    }
  }

  lemma StepWellFormed(s: Snapshot, t: Snapshot)
    requires WellFormed(s) && Step(s, t)
    ensures WellFormed(t)
  {
    if id :| WakeStep(s, t, id) {
      RemoveFacts(s.nodes, id);
    } else {
      var limits, gone :| ReadStep(s, t, limits, gone);
      ReadWellFormed(s, t, limits, gone);
    }
  }

  lemma ReadWellFormed(s: Snapshot, t: Snapshot, limits: Id -> nat, gone: seq<Id>)
    requires WellFormed(s) && ReadStep(s, t, limits, gone)
    ensures WellFormed(t)
  {
    hide Without, Drops, After, Gained;
    WithoutDistinct(s.nodes, gone);
    forall id | id in t.nodes ensures id in t.view.ctx && id in t.view.history {
      WithoutMembers(s.nodes, gone, id);
      assert Outcome(s.view, t.view, id, id in gone, limits(id));
    }
  }

  lemma {:induction false} WithoutDistinct(ids: seq<Id>, gone: seq<Id>)
    requires Distinct(ids)
    ensures Distinct(Without(ids, gone))
  {
    if ids != [] {
      WithoutDistinct(ids[1..], gone);
      var rest := Without(ids[1..], gone);
      WithoutMembers(ids[1..], gone, ids[0]);
      assert forall i :: 0 <= i < |rest| ==> rest[i] in rest;
    }
  }

  /** Every run of the loop that does not repeat itself is bounded by what there is to do. */
  lemma {:induction false} RunIsBounded(run: seq<Snapshot>)
    requires IsRun(run) && WellFormed(run[0]) && forall i :: 0 <= i < |run| - 1 ==> run[i + 1] != run[i]
    ensures |run| - 1 + Measure(run[|run| - 1]) <= Measure(run[0])
    decreases |run|
  {
    hide Step, Measure, WellFormed;
    if |run| > 1 {
      StepShrinks(run[0], run[1]);
      StepWellFormed(run[0], run[1]);
      var rest := run[1..];
      assert forall i :: 0 <= i < |rest| ==> rest[i] == run[i + 1];
      RunIsBounded(rest);
    }
  }

  // ---------------------------------------------------------------------------
  // What every run keeps
  // ---------------------------------------------------------------------------

  /** What has become, since `s`, of a client listed then. As long as it is listed, what has been
      delivered and what is owed add up. A client of an open connection goes only with all of it
      delivered; one of a closed connection with some of it, from the front. */
  ghost predicate Accounted(s: Snapshot, t: Snapshot, id: Id) {
    && id in s.view.ctx && id in s.view.history && id in t.view.history
    && var c, h, now := s.view.ctx[id], s.view.history[id], t.view.history[id];
    && now.arrived == h.arrived && h.delivered <= now.delivered
    && if id in t.nodes then
         && id in t.view.ctx && t.view.ctx[id].closed == c.closed && Ends(t.view.ctx[id]) == Ends(c)
         && now.delivered + Owed(t.view.ctx[id]) == h.delivered + Owed(c)
       else
         && Ends(c) && now.delivered <= h.delivered + Owed(c)
         && (!c.closed ==> now.delivered == h.delivered + Owed(c))
  }

  lemma WakeAccounts(s0: Snapshot, s: Snapshot, t: Snapshot, woken: Id, id: Id)
    requires WellFormed(s) && Accounted(s0, s, id) && WakeStep(s, t, woken)
    ensures Accounted(s0, t, id)
  {
    hide Owed, Ends, Ready, Remove;
    if s.view.ctx[woken].closed {
      RemoveFacts(s.nodes, woken);
      if id == woken {
        ClosedEnds(s.view.ctx[id]);
      }
    }
  }

  lemma ClosedEnds(c: Client)
    ensures c.closed ==> Ends(c)
  {
  }

  lemma ReadAccounts(s0: Snapshot, s: Snapshot, t: Snapshot, limits: Id -> nat, gone: seq<Id>, id: Id)
    requires Accounted(s0, s, id) && ReadStep(s, t, limits, gone)
    ensures Accounted(s0, t, id)
  {
    hide ClipAll, Without, Drops, Gained, Owed, Ends;
    WithoutMembers(s.nodes, gone, id);
    if id in s.nodes {
      assert Outcome(s.view, t.view, id, id in gone, limits(id));
      hide After;
      var c := s.view.ctx[id];
      ServingPays(c, limits(id));
      StaysOpen(c, limits(id));
      Regroup(s.view.history[id].delivered, Gained(c, limits(id)), if id in gone then [] else Owed(After(c, limits(id))));
    }
  }

  lemma StaysOpen(c: Client, limit: nat)
    ensures After(c, limit).closed == c.closed
  {
  }

  lemma Regroup(a: seq<Message>, b: seq<Message>, c: seq<Message>)
    ensures a + b + c == a + (b + c) && a <= a + b && (c == [] ==> a + b == a + (b + c))
  {
  }

  lemma StepAccounts(s0: Snapshot, s: Snapshot, t: Snapshot, id: Id)
    requires WellFormed(s) && Accounted(s0, s, id) && Step(s, t)
    ensures Accounted(s0, t, id)
  {
    hide WakeStep, ReadStep, Accounted, WellFormed;
    if woken :| WakeStep(s, t, woken) {
      WakeAccounts(s0, s, t, woken, id);
    } else {
      var limits, gone :| ReadStep(s, t, limits, gone);
      ReadAccounts(s0, s, t, limits, gone, id);
    }
  }

  lemma AccountedAtFirst(s: Snapshot, id: Id)
    requires WellFormed(s) && id in s.nodes
    ensures Accounted(s, s, id)
  {
  }

  /** In every run, whatever the order in which polls fire. */
  lemma {:induction false} RunAccounts(run: seq<Snapshot>, id: Id)
    requires IsRun(run) && WellFormed(run[0]) && id in run[0].nodes
    ensures WellFormed(run[|run| - 1]) && Accounted(run[0], run[|run| - 1], id)
    decreases |run|
  {
    hide Step, Accounted, WellFormed;
    if |run| == 1 {
      AccountedAtFirst(run[0], id);
    } else {
      var past := run[..|run| - 1];
      assert forall i :: 0 <= i < |past| ==> past[i] == run[i];
      RunAccounts(past, id);
      assert Step(run[|run| - 2], run[|run| - 1]);
      StepAccounts(run[0], run[|run| - 2], run[|run| - 1], id);
      StepWellFormed(run[|run| - 2], run[|run| - 1]);
    }
  }

  /** Clients of open connections have had everything queued on them handed over, in order and
      once, up to an empty message, and exactly those with an empty message are gone. Clients of
      closed connections are all gone, with a part delivered. */
  ghost predicate HandedOver(s: Snapshot, t: Snapshot, id: Id) {
    && id in s.view.ctx && id in s.view.history && id in t.view.history
    && var c, h, now := s.view.ctx[id], s.view.history[id], t.view.history[id];
    && now.arrived == h.arrived && (id in t.nodes <==> !Ends(c))
    && h.delivered <= now.delivered <= h.delivered + Owed(c)
    && (!c.closed ==> now.delivered == h.delivered + Owed(c))
  }

  /** Once the loop is at rest, that is so, whatever the run. */
  lemma RestDelivers(run: seq<Snapshot>, id: Id)
    requires IsRun(run) && WellFormed(run[0]) && id in run[0].nodes && Quiet(run[|run| - 1])
    ensures HandedOver(run[0], run[|run| - 1], id)
  {
    var s, t := run[0], run[|run| - 1];
    RunAccounts(run, id);
    if id in t.nodes {
      assert !ReadyAt(t, id);
      AtRest(t.view.ctx[id]);
    }
  }

  /** What the callback has got of a client's queue since `s`: the messages at its front, each as far as
      the buffer holds it, up to the first empty one if the peer is there. */
  ghost predicate GotFront(s: Snapshot, t: Snapshot, id: Id, got: seq<Message>) {
    && id in s.view.ctx && id in s.view.history && id in t.view.history
    && var queue := s.view.ctx[id].queue;
    && t.view.history[id].delivered == s.view.history[id].delivered + got
    && |got| <= |queue| && (forall i :: 0 <= i < |got| ==> queue[i] != [] && Buffered(queue[i], got[i]))
    && (!s.view.ctx[id].closed ==> |got| == |queue| || queue[|got|] == [])
  }

  lemma HandedOverFront(s: Snapshot, t: Snapshot, id: Id) returns (got: seq<Message>)
    requires HandedOver(s, t, id)
    ensures GotFront(s, t, id, got)
  {
    var c, before, now := s.view.ctx[id], s.view.history[id].delivered, t.view.history[id].delivered;
    got := now[|before|..];
    assert got <= Owed(c) && (!c.closed ==> got == Owed(c));
    hide Clip, Buffered;
    forall i | 0 <= i < |got| ensures c.queue[i] != [] && Buffered(c.queue[i], got[i]) {
      ClipBuffers(c.queue[i]);
      assert got[i] == Owed(c)[i] == Clip(c.queue[i]);
    }
  }

  /** When no queued message is longer than the buffer, a client whose peer is there has had its queue,
      up to the first empty message, byte by byte. */
  lemma WholeMessages(s: Snapshot, t: Snapshot, id: Id, n: nat)
    requires HandedOver(s, t, id) && !s.view.ctx[id].closed
    requires forall i :: 0 <= i < |s.view.ctx[id].queue| ==> |s.view.ctx[id].queue[i]| <= 8192
    requires n <= |s.view.ctx[id].queue| && (n < |s.view.ctx[id].queue| ==> s.view.ctx[id].queue[n] == [])
    requires forall i :: 0 <= i < n ==> s.view.ctx[id].queue[i] != []
    ensures t.view.history[id].delivered == s.view.history[id].delivered + s.view.ctx[id].queue[..n]
  {
    var queue := s.view.ctx[id].queue;
    var got := HandedOverFront(s, t, id);
    assert |got| == n;
    assert got == queue[..n];
  }

  lemma AtRest(c: Client)
    requires !Ready(c)
    ensures Owed(c) == [] && !Ends(c)
  {
  }

  // ---------------------------------------------------------------------------
  // Exactly when messages can be lost
  // ---------------------------------------------------------------------------

  /** Nothing owed at `s` is lost at `t`. */
  ghost predicate Conserved(s: Snapshot, t: Snapshot) {
    forall id :: id in s.nodes ==> ConservedFor(s, t, id)
  }

  ghost predicate ConservedFor(s: Snapshot, t: Snapshot, id: Id) {
    && id in s.view.ctx && id in s.view.history && id in t.view.history
    && (id in t.nodes ==> id in t.view.ctx)
    && t.view.history[id].delivered + (if id in t.nodes then Owed(t.view.ctx[id]) else [])
       == s.view.history[id].delivered + Owed(s.view.ctx[id])
  }

  /** A connection has been closed by the peer with messages still queued. */
  ghost predicate Unread(s: Snapshot, id: Id) {
    id in s.nodes && id in s.view.ctx && s.view.ctx[id].closed && Owed(s.view.ctx[id]) != []
  }

  lemma AccountedConserves(s: Snapshot, t: Snapshot, id: Id)
    requires Accounted(s, t, id) && id in s.nodes && !Unread(s, id)
    ensures ConservedFor(s, t, id)
  {
    hide Owed, Ends;
  }

  /** The poll of such a client, fired first, loses what is queued. */
  lemma UnreadIsLost(s: Snapshot, id: Id) returns (t: Snapshot)
    requires WellFormed(s) && Unread(s, id)
    ensures IsRun([s, t]) && !Conserved(s, t)
  {
    hide Owed, Remove;
    RemoveFacts(s.nodes, id);
    t := s.(nodes := Remove(s.nodes, id));
    assert WakeStep(s, t, id);
    assert !ConservedFor(s, t, id) by {
      assert s.view.history[id].delivered + [] == s.view.history[id].delivered;
    }
  }

  /** Every run from `s` hands over, or still has, all that is owed, if and only if no connection
      has been closed with messages still queued. */
  lemma LossFreeIff(s: Snapshot)
    requires WellFormed(s)
    ensures (forall run :: IsRun(run) && run[0] == s ==> Conserved(s, run[|run| - 1]))
       <==> (forall id :: !Unread(s, id))
  {
    hide Unread, WellFormed, Step, ConservedFor, Accounted;
    if forall id :: !Unread(s, id) {
      forall run | IsRun(run) && run[0] == s ensures Conserved(s, run[|run| - 1]) {
        forall id | id in s.nodes ensures ConservedFor(s, run[|run| - 1], id) {
          RunAccounts(run, id);
          AccountedConserves(s, run[|run| - 1], id);
        }
      }
    } else {
      var id :| Unread(s, id);
      var t := UnreadIsLost(s, id);
      var run := [s, t];
      assert IsRun(run) && run[0] == s && run[|run| - 1] == t;
    }
  }

  /** The smallest loss: one message on one connection that its peer has closed. One poll, and the
      loop is at rest with nothing delivered. */
  lemma LosingInput(m: Message) returns (s: Snapshot, t: Snapshot)
    requires m != []
    ensures WellFormed(s) && s.nodes == [0] && !s.woke
    ensures s.view.ctx[0].queue == [m] && s.view.ctx[0].closed && Owed(s.view.ctx[0]) == [Clip(m)]
    ensures IsRun([s, t]) && Quiet(t) && 0 in t.view.history && t.view.history[0].delivered == []
  {
    var c := Client(true, true, [m], true);
    s := Snapshot(View(map[0 := c], map[0 := History([m], [], 0, 0)], []), [0], false);
    t := s.(nodes := []);
    assert Remove([0], 0) == [];
    assert WakeStep(s, t, 0);
    assert NonEmpty([m]) == 1 && [m][..1] == [m];
  }

  // ---------------------------------------------------------------------------
  // The loop at work
  // ---------------------------------------------------------------------------

  ghost function Snap(e: Endpoint): Snapshot
    reads e
  {
    Snapshot(e.Now(), e.clientNodes, e.woke)
  }

  lemma ValidSnap(e: Endpoint)
    requires e.Valid()
    ensures WellFormed(Snap(e))
  {
  }

  /** The poll of this client fires, and that changes something. */
  predicate Fires(c: Client, woke: bool) { Ready(c) && (c.closed || !woke) }

  /** The poll of one client fires. */
  method Wake(e: Endpoint, id: Id)
    requires e.Valid() && id in e.clientNodes && id in e.ctx && Fires(e.ctx[id], e.woke)
    modifies e
    ensures e.Valid() && Step(old(Snap(e)), Snap(e)) && Snap(e) != old(Snap(e))
  {
    ghost var s := Snap(e);
    assert Distinct(e.clientNodes);
    RemoveFacts(e.clientNodes, id);
    hide e.Consistent, Remove, SameMessages, SameClients, Ready, Distinct;
    e.ClientWake(id, e.ctx[id].closed);
    assert WakeStep(s, Snap(e), id);
  }

  /** The poll of the eventfd fires. */
  method Read(e: Endpoint, limits: Id -> nat)
    requires e.Valid() && e.woke && forall id :: limits(id) > 0
    modifies e
    ensures e.Valid() && Step(old(Snap(e)), Snap(e)) && Snap(e) != old(Snap(e))
  {
    hide e.Consistent, Without, Received;
    ghost var s := Snap(e);
    var rc, gone := e.Receive(limits);
    assert ReadStep(s, Snap(e), limits, gone);
  }

  lemma RunGrows(run: seq<Snapshot>, t: Snapshot)
    requires IsRun(run) && Step(run[|run| - 1], t)
    ensures IsRun(run + [t])
  {
    hide Step;
  }

  lemma RestIsQuiet(e: Endpoint)
    requires !e.woke && forall id :: id in e.clientNodes && id in e.ctx ==> !Fires(e.ctx[id], e.woke)
    ensures Quiet(Snap(e))
  {
  }

  /** The loop runs until no poll fires; which of those that do fires next is left open. Polls of
      open connections while the eventfd is set change nothing and are passed over. */
  method RunToRest(e: Endpoint, limits: nat -> (Id -> nat)) returns (ghost run: seq<Snapshot>)
    requires e.Valid() && forall n, id :: limits(n)(id) > 0
    modifies e
    ensures e.Valid() && IsRun(run) && run[0] == old(Snap(e)) && run[|run| - 1] == Snap(e) && Quiet(Snap(e))
  {
    hide Step, Measure, WellFormed, Quiet, e.Valid, Snap, Fires;
    run := [Snap(e)];
    var n := 0;
    while e.woke || exists id :: id in e.clientNodes && id in e.ctx && Fires(e.ctx[id], e.woke)
      invariant e.Valid() && IsRun(run) && run[0] == old(Snap(e)) && run[|run| - 1] == Snap(e)
      decreases Measure(Snap(e))
    {
      ghost var s := Snap(e);
      ValidSnap(e);
      if {
        case e.woke =>
          Read(e, limits(n));
        case exists id :: id in e.clientNodes && id in e.ctx && Fires(e.ctx[id], e.woke) =>
          var id :| id in e.clientNodes && id in e.ctx && Fires(e.ctx[id], e.woke);
          Wake(e, id);
      }
      StepShrinks(s, Snap(e));
      RunGrows(run, Snap(e));
      run := run + [Snap(e)];
      n := n + 1;
    }
    RestIsQuiet(e);
  }

  /** With no further arrivals the loop comes to rest, and then no message is stranded. */
  method ServeUntilQuiet(e: Endpoint, limits: nat -> (Id -> nat))
    requires e.Valid() && forall n, id :: limits(n)(id) > 0
    modifies e
    ensures e.Valid() && Quiet(Snap(e))
    ensures forall id :: id in old(e.clientNodes) ==> HandedOver(old(Snap(e)), Snap(e), id)
    ensures forall id :: id in old(e.clientNodes) ==> exists got :: GotFront(old(Snap(e)), Snap(e), id, got)
  {
    ghost var s := Snap(e);
    ValidSnap(e);
    assert s.nodes == e.clientNodes;
    hide *;
    var run := RunToRest(e, limits);
    forall id | id in s.nodes ensures HandedOver(s, Snap(e), id) {
      RestDelivers(run, id);
    }
    forall id | id in s.nodes ensures exists got :: GotFront(s, Snap(e), id, got) {
      var got := HandedOverFront(s, Snap(e), id);
    }
  }
}
