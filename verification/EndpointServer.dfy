/** The client side of a SUB_SERVER or REP endpoint of libpiksi: clients come and go, wake
    the endpoint through one eventfd, and are served from it. Callbacks of the event loop
    are methods; what happens in between on the sockets is too. */
module EndpointServer {
  import opened Basics

  type Message = seq<byte>

  /** Stands for the address of a client node; never reused. */
  type Id = nat

  const ENDPOINT_SERVICE_MAX := 32
  const RECV_BUF_SIZE := 8 * 1024

  /** A client: whether its socket is open and polled, the messages queued on the socket, and
      whether the peer has closed it. */
  datatype Client = Client(open: bool, polled: bool, queue: seq<Message>, closed: bool)

  /** What happened to a client over the whole run. */
  datatype History = History(arrived: seq<Message>, delivered: seq<Message>, recorded: nat, purged: nat)

  /** A message longer than the buffer is cut off. */
  function Clip(m: Message): Message {
    if |m| <= RECV_BUF_SIZE then m else m[..RECV_BUF_SIZE]
  }

  /** What receiving into 8192 bytes gives of a message: all of it, or as much of its front as there is
      room for. */
  predicate Buffered(m: Message, got: Message) {
    if |m| <= 8192 then got == m else |got| == 8192 && got <= m
  }

  lemma ClipBuffers(m: Message)
    ensures Buffered(m, Clip(m))
  {
  }

  function ClipAll(ms: seq<Message>): (r: seq<Message>)
    ensures |r| == |ms|
  {
    seq(|ms|, i requires 0 <= i < |ms| => Clip(ms[i]))
  }

  lemma ClipAllAppend(a: seq<Message>, b: seq<Message>)
    ensures ClipAll(a + b) == ClipAll(a) + ClipAll(b)
  {
  }

  // ---------------------------------------------------------------------------
  // Serving one client
  // ---------------------------------------------------------------------------

  /** How many messages are at the front of a queue before an empty one. */
  function NonEmpty(queue: seq<Message>): (n: nat)
    ensures n <= |queue|
    ensures n < |queue| ==> queue[n] == []
    ensures forall i :: 0 <= i < n ==> queue[i] != []
  {
    if queue == [] || queue[0] == [] then 0 else 1 + NonEmpty(queue[1..])
  }

  /** How many messages are handed to the callback in one go; after `limit` of them the
      callback asks to stop or receiving fails. */
  function Served(queue: seq<Message>, limit: nat): (n: nat)
    ensures n <= |queue| && n <= ENDPOINT_SERVICE_MAX && n <= limit
  {
    Min(NonEmpty(queue), Min(limit, ENDPOINT_SERVICE_MAX))
  }

  /** The messages up to an empty one, the 32nd or the last before the limit, and no fewer. */
  lemma ServedIs(queue: seq<Message>, limit: nat, n: nat)
    ensures n == Served(queue, limit) <==>
            && n <= |queue| && n <= limit && n <= 32
            && (forall i :: 0 <= i < n ==> queue[i] != [])
            && (n == |queue| || n == limit || n == 32 || queue[n] == [])
  {
  }

  /** Receiving comes upon the end of the connection, or upon an empty message, which looks
      the same. */
  predicate Drops(c: Client, limit: nat) {
    var n := NonEmpty(c.queue);
    n < limit && n < ENDPOINT_SERVICE_MAX && (n < |c.queue| || c.closed)
  }

  /** Receive `i`, one of the first 32 and before the limit, finds an empty message behind others, or the
      end of a queue that its peer has closed. */
  predicate EndsAt(c: Client, limit: nat, i: int) {
    && 0 <= i < 32 && i < limit && i <= |c.queue| && (forall j :: 0 <= j < i ==> c.queue[j] != [])
    && (if i < |c.queue| then c.queue[i] == [] else c.closed)
  }

  lemma DropsIff(c: Client, limit: nat)
    ensures Drops(c, limit) <==> exists i :: EndsAt(c, limit, i)
  {
    var n := NonEmpty(c.queue);
    if Drops(c, limit) {
      assert EndsAt(c, limit, n);
    }
    if i :| EndsAt(c, limit, i) {
      assert i == n;
    }
  }

  /** What is left of a client that stays. */
  function After(c: Client, limit: nat): Client {
    c.(queue := c.queue[Served(c.queue, limit)..])
  }

  /** What a history gains from serving. */
  function Gained(c: Client, limit: nat): seq<Message> {
    ClipAll(c.queue[..Served(c.queue, limit)])
  }

  /** Some message is delivered whenever there is one, unless receiving fails at once. */
  lemma ServedSome(queue: seq<Message>, limit: nat)
    requires queue != [] && queue[0] != [] && limit > 0
    ensures Served(queue, limit) > 0
  {
  }

  lemma NonEmptyNext(queue: seq<Message>)
    requires queue != [] && queue[0] != []
    ensures NonEmpty(queue) == 1 + NonEmpty(queue[1..])
  {
  }

  // ---------------------------------------------------------------------------
  // Lists of clients
  // ---------------------------------------------------------------------------

  ghost predicate Distinct(ids: seq<Id>) {
    forall i, j :: 0 <= i < j < |ids| ==> ids[i] != ids[j]
  }

  /** LIST_REMOVE */
  function Remove(ids: seq<Id>, id: Id): seq<Id> {
    if ids == [] then [] else if ids[0] == id then ids[1..] else [ids[0]] + Remove(ids[1..], id)
  }

  lemma {:induction false} RemoveFacts(ids: seq<Id>, id: Id)
    requires Distinct(ids) && id in ids
    ensures Distinct(Remove(ids, id)) && |Remove(ids, id)| == |ids| - 1
    ensures forall x :: x in Remove(ids, id) <==> x in ids && x != id
  {
    if ids[0] != id {
      RemoveFacts(ids[1..], id);
      var r := Remove(ids[1..], id);
      assert forall i :: 0 <= i < |r| ==> r[i] in r;
    }
  }

  /** The clients that stay when those of `gone` are removed, in their order. */
  function Without(ids: seq<Id>, gone: seq<Id>): seq<Id> {
    if ids == [] then []
    else (if ids[0] in gone then [] else [ids[0]]) + Without(ids[1..], gone)
  }

  lemma {:induction false} WithoutFirst(ids: seq<Id>, id: Id, gone: seq<Id>)
    requires Distinct(ids) && id in ids && id !in gone
    ensures Without(Remove(ids, id), gone) == Without(ids, [id] + gone)
  {
    if ids[0] == id {
      WithoutSame(ids[1..], id, gone);
    } else {
      WithoutFirst(ids[1..], id, gone);
      assert ([ids[0]] + Remove(ids[1..], id))[1..] == Remove(ids[1..], id);
    }
  }

  lemma {:induction false} WithoutSame(ids: seq<Id>, id: Id, gone: seq<Id>)
    requires id !in ids
    ensures Without(ids, gone) == Without(ids, [id] + gone)
  {
    if ids != [] { WithoutSame(ids[1..], id, gone); }
  }

  lemma {:induction false} WithoutNone(ids: seq<Id>)
    ensures Without(ids, []) == ids
  {
    if ids != [] { WithoutNone(ids[1..]); }
  }

  lemma {:induction false} WithoutMembers(ids: seq<Id>, gone: seq<Id>, id: Id)
    ensures id in Without(ids, gone) <==> id in ids && id !in gone
  {
    if ids != [] { WithoutMembers(ids[1..], gone, id); }
  }

  /** Only the entry of `id` differs. */
  ghost predicate Elsewhere<V>(before: map<Id, V>, now: map<Id, V>, id: Id) {
    before.Keys == now.Keys && forall x :: x in now && x != id ==> now[x] == before[x]
  }

  lemma ElsewhereSame<V>(m: map<Id, V>, id: Id)
    ensures Elsewhere(m, m, id)
  {
  }

  lemma ElsewhereOn<V>(a: map<Id, V>, b: map<Id, V>, c: map<Id, V>, id: Id)
    requires Elsewhere(a, b, id) && Elsewhere(b, c, id)
    ensures Elsewhere(a, c, id) && a.Keys == c.Keys
  {
  }

  // ---------------------------------------------------------------------------
  // A round over the clients
  // ---------------------------------------------------------------------------

  /** What serving changes. */
  datatype View = View(ctx: map<Id, Client>, history: map<Id, History>, removed: seq<Id>)

  /** What service_reads makes of the client `c` with history `h`. */
  ghost predicate Serviced(now: View, id: Id, c: Client, h: History, limit: nat) {
    && id in now.ctx && (!Drops(c, limit) ==> now.ctx[id] == After(c, limit))
    && id in now.history
    && now.history[id]
       == h.(delivered := h.delivered + Gained(c, limit), recorded := if Drops(c, limit) then 1 else 0)
  }

  /** One message has been asked for. */
  ghost predicate Turned(v: View, w: View, id: Id) {
    && id in v.ctx && id in v.history
    && var turn := TurnFor(v.ctx[id]);
    && w.removed == (if turn.Ended? then [id] else []) + v.removed
    && Elsewhere(v.ctx, w.ctx, id) && (!turn.Ended? ==> w.ctx[id] == ClientAfter(v.ctx[id], turn))
    && Elsewhere(v.history, w.history, id) && w.history[id] == HistoryAfter(v.history[id], v.ctx[id], turn)
  }

  lemma TurnedIdle(v: View, id: Id)
    requires id in v.ctx && id in v.history && TurnFor(v.ctx[id]) == Idle
    ensures Turned(v, v, id)
  {
  }

  lemma TurnedEnded(v: View, w: View, id: Id)
    requires id in v.ctx && id in v.history && TurnFor(v.ctx[id]) == Ended && w.removed == [id] + v.removed
    requires w.ctx == v.ctx[id := v.ctx[id].(polled := false, open := false)]
    requires w.history == v.history[id := v.history[id].(recorded := 1)]
    ensures Turned(v, w, id)
  {
  }

  lemma TurnedDelivered(v: View, w: View, id: Id)
    requires id in v.ctx && id in v.history && TurnFor(v.ctx[id]) == Delivered && w.removed == v.removed
    requires Elsewhere(v.ctx, w.ctx, id) && id in w.ctx && w.ctx[id] == ClientAfter(v.ctx[id], Delivered)
    requires Elsewhere(v.history, w.history, id) && id in w.history
    requires w.history[id] == HistoryAfter(v.history[id], v.ctx[id], Delivered)
    ensures Turned(v, w, id)
  {
  }

  /** One client has been served. */
  ghost predicate Service(v: View, w: View, id: Id, limit: nat) {
    && id in v.ctx && id in v.history
    && Elsewhere(v.ctx, w.ctx, id) && Elsewhere(v.history, w.history, id)
    && w.removed == (if Drops(v.ctx[id], limit) then [id] else []) + v.removed
    && Serviced(w, id, v.ctx[id], v.history[id], limit)
  }

  lemma ServiceDone(v: View, w: View, id: Id, limit: nat)
    requires id in v.ctx && id in v.history
    requires Elsewhere(v.ctx, w.ctx, id) && Elsewhere(v.history, w.history, id)
    requires w.removed == (if Drops(v.ctx[id], limit) then [id] else []) + v.removed
    requires Serviced(w, id, v.ctx[id], v.history[id], limit)
    ensures Service(v, w, id, limit)
  {
  }

  ghost predicate Dealt(v0: View, v: View, id: Id, limit: nat) {
    && id in v0.ctx && id in v0.history && Serviced(v, id, v0.ctx[id], v0.history[id], limit)
    && (id in v.removed <==> Drops(v0.ctx[id], limit))
  }

  ghost predicate Waits(v0: View, v: View, id: Id) {
    && id in v0.ctx && id in v.ctx && v.ctx[id] == v0.ctx[id]
    && id in v0.history && id in v.history && v.history[id] == v0.history[id]
    && id !in v.removed
  }

  /** Of the clients `nodes`, the first `i` have been served since `v0`. */
  ghost predicate Round(v0: View, v: View, nodes: seq<Id>, i: nat, limits: Id -> nat)
    requires i <= |nodes|
  {
    && v.history.Keys == v0.history.Keys
    && (forall k :: 0 <= k < i ==> Dealt(v0, v, nodes[k], limits(nodes[k])))
    && (forall k :: i <= k < |nodes| ==> Waits(v0, v, nodes[k]))
    && (forall x :: x in v.history && x !in nodes ==> v.history[x] == v0.history[x])
  }

  lemma DealtStays(v0: View, v: View, w: View, id: Id, limit: nat, other: Id, l: nat)
    requires Dealt(v0, v, id, limit) && Service(v, w, other, l) && id != other
    ensures Dealt(v0, w, id, limit)
  {
    hide Drops, After, Gained;
  }

  lemma WaitsStays(v0: View, v: View, w: View, id: Id, other: Id, l: nat)
    requires Waits(v0, v, id) && Service(v, w, other, l) && id != other
    ensures Waits(v0, w, id)
  {
    hide Drops, After, Gained;
  }

  lemma DealtNow(v0: View, v: View, w: View, id: Id, limit: nat)
    requires Waits(v0, v, id) && Service(v, w, id, limit)
    ensures Dealt(v0, w, id, limit)
  {
    hide Drops, After, Gained;
  }

  lemma RoundNext(v0: View, v: View, w: View, nodes: seq<Id>, i: nat, limits: Id -> nat)
    requires i < |nodes| && Distinct(nodes) && Round(v0, v, nodes, i, limits)
    requires Service(v, w, nodes[i], limits(nodes[i]))
    ensures Round(v0, w, nodes, i + 1, limits)
  {
    hide Dealt, Waits, Drops, After, Gained, Serviced;
    forall k | 0 <= k < i + 1 ensures Dealt(v0, w, nodes[k], limits(nodes[k])) {
      if k < i {
        DealtStays(v0, v, w, nodes[k], limits(nodes[k]), nodes[i], limits(nodes[i]));
      } else {
        DealtNow(v0, v, w, nodes[i], limits(nodes[i]));
      }
    }
    forall k | i + 1 <= k < |nodes| ensures Waits(v0, w, nodes[k]) {
      WaitsStays(v0, v, w, nodes[k], nodes[i], limits(nodes[i]));
    }
  }

  /** What a receive does to one client: it goes exactly when the end of its connection is
      met; otherwise what was served, and only that, is off its queue. */
  ghost predicate Outcome(v0: View, w: View, id: Id, goes: bool, limit: nat) {
    && id in v0.ctx && id in v0.history && id in w.history
    && goes == Drops(v0.ctx[id], limit)
    && (!goes ==> id in w.ctx && w.ctx[id] == After(v0.ctx[id], limit))
    && w.history[id].arrived == v0.history[id].arrived
    && w.history[id].delivered == v0.history[id].delivered + Gained(v0.ctx[id], limit)
  }

  /** What a receive does to all clients. */
  ghost predicate Received(v0: View, w: View, nodes: seq<Id>, gone: seq<Id>, limits: Id -> nat) {
    && w.history.Keys == v0.history.Keys
    && (forall id :: id in nodes ==> Outcome(v0, w, id, id in gone, limits(id)))
    && (forall x :: x in w.history && x !in nodes ==>
          w.history[x].arrived == v0.history[x].arrived && w.history[x].delivered == v0.history[x].delivered)
  }

  /** The messages of the histories are the same. */
  ghost predicate SameMessages(before: map<Id, History>, now: map<Id, History>) {
    && now.Keys == before.Keys
    && forall x :: x in before ==> now[x].delivered == before[x].delivered && now[x].arrived == before[x].arrived
  }

  /** The clients listed are as they were. */
  ghost predicate SameClients(before: map<Id, Client>, now: map<Id, Client>, nodes: seq<Id>) {
    forall id :: id in nodes ==> id in before && id in now && now[id] == before[id]
  }

  lemma UpdateElsewhere<V>(m: map<Id, V>, id: Id, v: V)
    requires id in m
    ensures Elsewhere(m, m[id := v], id) && m[id := v].Keys == m.Keys
  {
  }

  lemma UpdateMessages(m: map<Id, History>, id: Id, h: History)
    requires id in m && h.delivered == m[id].delivered && h.arrived == m[id].arrived
    ensures SameMessages(m, m[id := h])
  {
  }

  /** Sending to one client has been tried. */
  ghost predicate SendStep(v: View, w: View, id: Id, ok: bool) {
    && w.removed == (if ok then [] else [id]) + v.removed
    && Elsewhere(v.ctx, w.ctx, id) && SameMessages(v.history, w.history)
    && (ok ==> w.ctx == v.ctx)
  }

  /** Sending to the first `i` clients has been tried; it failed where `ok` says so. */
  ghost predicate Sent(v0: View, v: View, nodes: seq<Id>, i: nat, ok: Id -> bool)
    requires i <= |nodes|
  {
    && SameMessages(v0.history, v.history) && v.ctx.Keys == v0.ctx.Keys
    && (forall k :: 0 <= k < |nodes| ==> (nodes[k] in v.removed <==> k < i && !ok(nodes[k])))
    && (forall x :: x in v.ctx && x !in v.removed ==> v.ctx[x] == v0.ctx[x])
  }

  lemma SentNone(v: View, nodes: seq<Id>, ok: Id -> bool)
    requires v.removed == []
    ensures Sent(v, v, nodes, 0, ok)
  {
  }

  lemma SentNext(v0: View, v: View, w: View, nodes: seq<Id>, i: nat, ok: Id -> bool)
    requires i < |nodes| && Distinct(nodes) && Sent(v0, v, nodes, i, ok)
    requires SendStep(v, w, nodes[i], ok(nodes[i]))
    ensures Sent(v0, w, nodes, i + 1, ok)
  {
    forall k | 0 <= k < |nodes| ensures nodes[k] in w.removed <==> k < i + 1 && !ok(nodes[k]) {
    }
  }

  lemma SentAll(v0: View, v: View, w: View, nodes: seq<Id>, left: seq<Id>, ok: Id -> bool)
    requires Sent(v0, v, nodes, |nodes|, ok) && SameMessages(v.history, w.history)
    requires left == Without(nodes, v.removed)
    requires forall id :: id in left ==> id in v.ctx && id in w.ctx && w.ctx[id] == v.ctx[id]
    ensures SameMessages(v0.history, w.history)
    ensures forall id :: id in nodes ==> (id in v.removed <==> !ok(id))
    ensures forall id :: id in left ==> id in v0.ctx && id in w.ctx && w.ctx[id] == v0.ctx[id]
  {
    hide Without;
    forall id | id in left ensures id in v0.ctx && id in w.ctx && w.ctx[id] == v0.ctx[id] {
      WithoutMembers(nodes, v.removed, id);
    }
  }

  // ---------------------------------------------------------------------------
  // The endpoint
  // ---------------------------------------------------------------------------

  class Endpoint {
    var woke: bool
    /** The counter of the eventfd. */
    var wakefd: nat
    var clientNodes: seq<Id>
    var removedNodes: seq<Id>
    var clientCount: int
    /** The nodes that are allocated. */
    var ctx: map<Id, Client>
    ghost var history: map<Id, History>

    /** Between steps of a callback: removed clients are still listed, but torn down. */
    ghost predicate Consistent()
      reads this
    {
      && Distinct(clientNodes) && Distinct(removedNodes)
      && (forall id :: id in ctx <==> id in clientNodes)
      && (forall id :: id in removedNodes ==> id in clientNodes)
      && clientCount == |clientNodes| - |removedNodes|
      && wakefd == (if woke then 1 else 0)
      && (forall id :: id in clientNodes ==> id in history && Current(id))
      && (forall id :: id in history && id !in clientNodes ==> Gone(history[id]))
    }

    ghost predicate Current(id: Id)
      reads this
      requires id in ctx && id in history
    {
      var c, h := ctx[id], history[id];
      if id in removedNodes then
        !c.polled && !c.open && h.recorded == 1 && h.purged == 0 && h.delivered <= ClipAll(h.arrived)
      else
        c.polled && c.open && h.recorded == 0 && h.purged == 0 && h.delivered + ClipAll(c.queue) == ClipAll(h.arrived)
    }

    /** A client that has gone was recorded once and purged once, and its messages were
        delivered in order up to some point. */
    ghost predicate Gone(h: History) {
      h.recorded == 1 && h.purged == 1 && h.delivered <= ClipAll(h.arrived)
    }

    /** Between callbacks. */
    ghost predicate Valid()
      reads this
    {
      Consistent() && removedNodes == []
    }

    constructor ()
      ensures Valid() && clientNodes == [] && history == map[]
    {
      woke, wakefd, clientNodes, removedNodes, clientCount, ctx := false, 0, [], [], 0, map[];
      history := map[];
    }

    // -------------------------------------------------------------------------
    // Disconnecting
    // -------------------------------------------------------------------------

    /** teardown_client: stop polling, close the socket. */
    method TeardownClient(id: Id)
      requires id in ctx
      modifies this`ctx
      ensures ctx == old(ctx)[id := old(ctx[id]).(polled := false, open := false)]
    {
      ctx := ctx[id := ctx[id].(polled := false)];
      if !ctx[id].open {
        return;
      }
      ctx := ctx[id := ctx[id].(open := false)];
    }

    /** record_disconnect */
    method RecordDisconnect(id: Id)
      requires id in history
      modifies this`clientCount, this`removedNodes, this`history
      ensures clientCount == old(clientCount) - 1 && removedNodes == [id] + old(removedNodes)
      ensures history == old(history)[id := old(history[id]).(recorded := old(history[id]).recorded + 1)]
    {
      clientCount := clientCount - 1;
      removedNodes := [id] + removedNodes;
      history := history[id := history[id].(recorded := history[id].recorded + 1)];
    }

    /** The end of a connection as receiving and sending see it. */
    method Disconnect(id: Id)
      requires Consistent() && id in clientNodes && id !in removedNodes
      modifies this`clientCount, this`removedNodes, this`history, this`ctx
      ensures Consistent() && removedNodes == [id] + old(removedNodes)
      ensures ctx == old(ctx)[id := old(ctx[id]).(polled := false, open := false)]
      ensures history == old(history)[id := old(history[id]).(recorded := 1)]
    {
      hide ClipAll;
      RecordDisconnect(id);
      TeardownClient(id);
    }

    /** purge_client_node: unlink, tear down, free. */
    method PurgeClientNode(id: Id)
      requires id in ctx && id in clientNodes && id in history
      modifies this`clientNodes, this`ctx, this`history
      ensures clientNodes == Remove(old(clientNodes), id) && ctx == old(ctx) - {id}
      ensures history == old(history)[id := old(history[id]).(purged := old(history[id]).purged + 1)]
    {
      clientNodes := Remove(clientNodes, id);
      TeardownClient(id);
      ctx := ctx - {id};
      history := history[id := history[id].(purged := history[id].purged + 1)];
    }

    method PurgeFirst()
      requires Consistent() && removedNodes != []
      modifies this`clientNodes, this`removedNodes, this`ctx, this`history
      ensures Consistent() && removedNodes == old(removedNodes)[1..]
      ensures clientNodes == Remove(old(clientNodes), old(removedNodes[0])) && ctx == old(ctx) - {old(removedNodes[0])}
      ensures SameMessages(old(history), history)
    {
      hide ClipAll, Remove;
      var id := removedNodes[0];
      RemoveFacts(clientNodes, id);
      removedNodes := removedNodes[1..];
      PurgeClientNode(id);
    }

    /** process_removed_clients */
    method ProcessRemovedClients()
      requires Consistent()
      modifies this`clientNodes, this`removedNodes, this`ctx, this`history
      ensures Valid() && clientNodes == Without(old(clientNodes), old(removedNodes))
      ensures forall id :: id in clientNodes ==> id in old(ctx) && ctx[id] == old(ctx)[id]
      ensures SameMessages(old(history), history)
    {
      hide ClipAll, Without, Remove;
      while removedNodes != []
        invariant Consistent() && SameMessages(old(history), history)
        invariant Without(clientNodes, removedNodes) == Without(old(clientNodes), old(removedNodes))
        invariant forall id :: id in clientNodes ==> id in old(ctx) && ctx[id] == old(ctx)[id]
        decreases |removedNodes|
      {
        assert removedNodes == [removedNodes[0]] + removedNodes[1..];
        WithoutFirst(clientNodes, removedNodes[0], removedNodes[1..]);
        RemoveFacts(clientNodes, removedNodes[0]);
        PurgeFirst();
      }
      WithoutNone(clientNodes);
    }

    // -------------------------------------------------------------------------
    // The sockets
    // -------------------------------------------------------------------------

    /** A message arrives on the socket of a client, whose peer has not closed it. */
    method Arrive(id: Id, m: Message)
      requires Valid() && id in clientNodes && id in ctx && !ctx[id].closed
      modifies this`ctx, this`history
      ensures Valid()
      ensures ctx == old(ctx)[id := old(ctx[id]).(queue := old(ctx[id]).queue + [m])]
      ensures history == old(history)[id := old(history[id]).(arrived := old(history[id]).arrived + [m])]
    {
      hide ClipAll;
      ClipAllAppend(ctx[id].queue, [m]);
      ClipAllAppend(history[id].arrived, [m]);
      assert (history[id].delivered + ClipAll(ctx[id].queue)) + ClipAll([m])
          == history[id].delivered + (ClipAll(ctx[id].queue) + ClipAll([m]));
      ctx := ctx[id := ctx[id].(queue := ctx[id].queue + [m])];
      history := history[id := history[id].(arrived := history[id].arrived + [m])];
    }

    /** The peer of a client closes the connection. */
    method PeerClose(id: Id)
      requires Valid() && id in clientNodes
      modifies this`ctx
      ensures Valid()
      ensures ctx == old(ctx)[id := old(ctx[id]).(closed := true)]
    {
      hide ClipAll;
      ctx := ctx[id := ctx[id].(closed := true)];
    }

    // -------------------------------------------------------------------------
    // The callbacks of the loop
    // -------------------------------------------------------------------------

    /** accept_wake_handler for a connection that can be accepted. */
    method AcceptWake(id: Id)
      requires Valid() && id !in history
      modifies this`clientNodes, this`clientCount, this`ctx, this`history
      ensures Valid() && clientNodes == [id] + old(clientNodes)
      ensures ctx == old(ctx)[id := Client(true, true, [], false)]
      ensures history == old(history)[id := History([], [], 0, 0)]
    {
      hide ClipAll;
      clientNodes := [id] + clientNodes;
      clientCount := clientCount + 1;
      ctx := ctx[id := Client(true, true, [], false)];
      history := history[id := History([], [], 0, 0)];
      NoneClipped();
    }

    lemma NoneClipped()
      ensures ClipAll([]) == []
    {
    }

    /** handle_client_wake */
    method ClientWake(id: Id, disconnected: bool)
      requires Valid() && id in clientNodes
      modifies this
      ensures Valid()
      ensures disconnected ==> clientNodes == Remove(old(clientNodes), id) && woke == old(woke)
      ensures disconnected ==> SameMessages(old(history), history) && SameClients(old(ctx), ctx, clientNodes)
      ensures !disconnected ==> woke && wakefd == 1 && clientNodes == old(clientNodes)
      ensures !disconnected ==> ctx == old(ctx) && history == old(history)
    {
      hide ClipAll, Without, Remove;
      if disconnected {
        DropClient(id);
        return;
      }
      if woke {
        return;
      }
      woke := true;
      wakefd := wakefd + 1;
    }

    method DropClient(id: Id)
      requires Valid() && id in clientNodes
      modifies this`clientNodes, this`clientCount, this`removedNodes, this`ctx, this`history
      ensures Valid() && clientNodes == Remove(old(clientNodes), id) && SameMessages(old(history), history)
      ensures SameClients(old(ctx), ctx, clientNodes)
    {
      hide ClipAll, Without, Remove;
      RemoveFacts(clientNodes, id);
      WithoutFirst(clientNodes, id, []);
      WithoutNone(Remove(clientNodes, id));
      assert [id] + [] == [id];
      TearDownAndRecord(id);
      ProcessRemovedClients();
    }

    method TearDownAndRecord(id: Id)
      requires Valid() && id in clientNodes
      modifies this`clientCount, this`removedNodes, this`ctx, this`history
      ensures Consistent() && removedNodes == [id] && SameMessages(old(history), history)
      ensures Elsewhere(old(ctx), ctx, id)
    {
      hide ClipAll, SameMessages, Elsewhere;
      UpdateElsewhere(ctx, id, ctx[id].(polled := false, open := false));
      UpdateMessages(history, id, history[id].(recorded := history[id].recorded + 1));
      TeardownClient(id);
      RecordDisconnect(id);
    }

    // -------------------------------------------------------------------------
    // Receiving
    // -------------------------------------------------------------------------

    /** A message is taken off the socket, for the callback. */
    method Take(id: Id) returns (m: Message)
      requires Consistent() && id in clientNodes && id !in removedNodes && TurnFor(ctx[id]) == Delivered
      modifies this`history, this`ctx
      ensures Consistent() && m == Clip(old(ctx[id]).queue[0])
      ensures Elsewhere(old(ctx), ctx, id) && ctx[id] == ClientAfter(old(ctx[id]), Delivered)
      ensures Elsewhere(old(history), history, id)
      ensures history[id] == HistoryAfter(old(history[id]), old(ctx[id]), Delivered)
    {
      hide ClipAll;
      m := Clip(ctx[id].queue[0]);
      Handed(history[id].delivered, ctx[id].queue);
      history := history[id := history[id].(delivered := history[id].delivered + [m])];
      ctx := ctx[id := ctx[id].(queue := ctx[id].queue[1..])];
    }

    /** recv_impl: the next message, or none for EAGAIN. An empty result means that the
        client has been disconnected. */
    method Recv(id: Id) returns (some: bool, m: Message)
      requires Consistent() && id in clientNodes && id !in removedNodes
      modifies this`clientCount, this`removedNodes, this`history, this`ctx
      ensures Consistent() && Turned(old(Now()), Now(), id)
      ensures var turn := TurnFor(old(ctx[id]));
              some == !turn.Idle? && m == if turn.Delivered? then Clip(old(ctx[id]).queue[0]) else []
      ensures TurnFor(old(ctx[id])).Delivered? ==> Buffered(old(ctx[id]).queue[0], m)
    {
      var c := ctx[id];
      assert id in ctx && id in history;
      hide Consistent, ClipAll, Clip, Buffered, Turned, Elsewhere;
      ghost var v := Now();
      if c.queue == [] && !c.closed {
        TurnedIdle(v, id);
        return false, [];
      }
      if c.queue == [] || c.queue[0] == [] {
        Disconnect(id);
        TurnedEnded(v, Now(), id);
        return true, [];
      }
      m := Take(id);
      ClipBuffers(c.queue[0]);
      TurnedDelivered(v, Now(), id);
      return true, m;
    }

    lemma ClipEmpty(queue: seq<Message>)
      ensures queue != [] ==> (Clip(queue[0]) == [] <==> queue[0] == [])
    {
    }

    lemma Handed(delivered: seq<Message>, queue: seq<Message>)
      requires queue != []
      ensures delivered + [Clip(queue[0])] + ClipAll(queue[1..]) == delivered + ClipAll(queue)
    {
    }

    /** The client `c` with history `h` has been served `count` messages. */
    ghost predicate Progress(id: Id, c: Client, h: History, count: nat)
      reads this
      requires count <= |c.queue|
    {
      && id in ctx && ctx[id] == c.(queue := c.queue[count..])
      && id in history && history[id] == h.(delivered := h.delivered + ClipAll(c.queue[..count]))
    }

    /** The connection of the client ended after `count` messages. */
    ghost predicate Stopped(id: Id, c: Client, h: History, count: nat)
      reads this
      requires count <= |c.queue|
    {
      && id in ctx
      && id in history
      && history[id] == h.(delivered := h.delivered + ClipAll(c.queue[..count]), recorded := 1)
    }

    ghost function Now(): View
      reads this
    {
      View(ctx, history, removedNodes)
    }

    /** One turn of service_reads: receive, and hand what comes to the callback. */
    method ServiceTurn(id: Id, ghost c: Client, ghost h: History, ghost count: nat) returns (turn: Turn)
      requires Consistent() && id in clientNodes && id !in removedNodes
      requires count <= NonEmpty(c.queue) && Progress(id, c, h, count)
      modifies this`clientCount, this`removedNodes, this`history, this`ctx
      ensures Consistent() && turn == TurnFor(c.(queue := c.queue[count..]))
      ensures Elsewhere(old(ctx), ctx, id) && Elsewhere(old(history), history, id)
      ensures removedNodes == (if turn.Ended? then [id] else []) + old(removedNodes)
      ensures turn.Idle? ==> Progress(id, c, h, count)
      ensures turn.Delivered? ==> count < NonEmpty(c.queue) && Progress(id, c, h, count + 1)
      ensures turn.Ended? ==> Stopped(id, c, h, count)
    {
      hide Consistent, ClipAll, Clip;
      ClipEmpty(ctx[id].queue);
      var some, m := Recv(id);
      if !some {
        return Idle;
      }
      if |m| == 0 {
        return Ended;
      }
      MoreTurns(c, count);
      OneMore(h.delivered, c.queue, count);
      return Delivered;
    }

    lemma Starts(id: Id)
      requires id in ctx && id in history
      ensures Progress(id, ctx[id], history[id], 0)
    {
      NoneClipped();
      assert ctx[id].queue[..0] == [] && ctx[id].queue[0..] == ctx[id].queue;
      assert history[id].delivered + [] == history[id].delivered;
    }

    lemma ServicedBy(id: Id, c: Client, h: History, count: nat, limit: nat, turn: Turn)
      requires count <= NonEmpty(c.queue) && count < limit && count < ENDPOINT_SERVICE_MAX && h.recorded == 0
      requires turn == TurnFor(c.(queue := c.queue[count..])) && turn != Delivered
      requires if turn.Ended? then Stopped(id, c, h, count) else Progress(id, c, h, count)
      ensures Serviced(Now(), id, c, h, limit) && (Drops(c, limit) <==> turn == Ended)
    {
      hide ClipAll;
      LastTurn(c, count, limit);
    }

    lemma ServicedUpTo(id: Id, c: Client, h: History, count: nat, limit: nat)
      requires count <= NonEmpty(c.queue) && count == Min(limit, ENDPOINT_SERVICE_MAX) && h.recorded == 0
      requires Progress(id, c, h, count)
      ensures Serviced(Now(), id, c, h, limit) && !Drops(c, limit)
    {
      hide ClipAll;
      EnoughTurns(c, count, limit);
    }

    /** service_reads: at most 32 messages of one client. */
    method ServiceReads(id: Id, limit: nat)
      requires Consistent() && id in clientNodes && id !in removedNodes
      modifies this`clientCount, this`removedNodes, this`history, this`ctx
      ensures Consistent() && Service(old(Now()), Now(), id, limit)
    {
      ghost var c, h := ctx[id], history[id];
      assert h.recorded == 0;
      hide *;
      var count: nat := 0;
      Starts(id);
      ElsewhereSame(ctx, id);
      ElsewhereSame(history, id);
      while count < ENDPOINT_SERVICE_MAX && count < limit
        invariant count <= ENDPOINT_SERVICE_MAX && count <= limit && count <= NonEmpty(c.queue)
        invariant Consistent() && removedNodes == old(removedNodes) && Progress(id, c, h, count)
        invariant Elsewhere(old(ctx), ctx, id) && Elsewhere(old(history), history, id)
      {
        ghost var ctx0, history0 := ctx, history;
        var turn := ServiceTurn(id, c, h, count);
        ElsewhereOn(old(ctx), ctx0, ctx, id);
        ElsewhereOn(old(history), history0, history, id);
        if turn != Delivered {
          ServicedBy(id, c, h, count, limit, turn);
          ServiceDone(old(Now()), Now(), id, limit);
          return;
        }
        count := count + 1;
      }
      ServicedUpTo(id, c, h, count, limit);
      ServiceDone(old(Now()), Now(), id, limit);
    }

    lemma MoreTurns(c: Client, count: nat)
      requires count <= NonEmpty(c.queue) && TurnFor(c.(queue := c.queue[count..])) == Delivered
      ensures count < NonEmpty(c.queue) <= |c.queue|
    {
    }

    lemma LastTurn(c: Client, count: nat, limit: nat)
      requires count <= NonEmpty(c.queue) && count < limit && count < ENDPOINT_SERVICE_MAX
      requires TurnFor(c.(queue := c.queue[count..])) != Delivered
      ensures Drops(c, limit) <==> TurnFor(c.(queue := c.queue[count..])) == Ended
      ensures c.(queue := c.queue[count..]) == After(c, limit) && ClipAll(c.queue[..count]) == Gained(c, limit)
    {
      hide ClipAll;
    }

    lemma EnoughTurns(c: Client, count: nat, limit: nat)
      requires count <= NonEmpty(c.queue) && count == Min(limit, ENDPOINT_SERVICE_MAX)
      ensures !Drops(c, limit)
      ensures c.(queue := c.queue[count..]) == After(c, limit) && ClipAll(c.queue[..count]) == Gained(c, limit)
    {
      hide ClipAll;
    }

    lemma OneMore(delivered: seq<Message>, queue: seq<Message>, n: nat)
      requires n < |queue|
      ensures queue[n..][0] == queue[n] && queue[n..][1..] == queue[n + 1..]
      ensures delivered + ClipAll(queue[..n]) + [Clip(queue[n])] == delivered + ClipAll(queue[..n + 1])
    {
    }

    // -------------------------------------------------------------------------
    // One round over all clients
    // -------------------------------------------------------------------------

    method ServiceNext(nodes: seq<Id>, i: nat, limits: Id -> nat, ghost v0: View)
      requires Consistent() && nodes == clientNodes && i < |nodes| && Round(v0, Now(), nodes, i, limits)
      modifies this`clientCount, this`removedNodes, this`history, this`ctx
      ensures Consistent() && Round(v0, Now(), nodes, i + 1, limits)
    {
      assert Waits(v0, Now(), nodes[i]);
      assert Distinct(nodes);
      hide Consistent, Distinct, Round, Service;
      ghost var v := Now();
      ServiceReads(nodes[i], limits(nodes[i]));
      RoundNext(v0, v, Now(), nodes, i, limits);
    }

    /** foreach_client over service_reads, without the purge at its end. */
    method ServiceAll(limits: Id -> nat)
      requires Valid()
      modifies this`clientCount, this`removedNodes, this`history, this`ctx
      ensures Consistent() && Round(old(Now()), Now(), clientNodes, |clientNodes|, limits)
    {
      var nodes := clientNodes;
      ghost var v0 := Now();
      assert Round(v0, v0, nodes, 0, limits);
      hide *;
      var i := 0;
      while i < |nodes|
        invariant i <= |nodes| && Consistent() && nodes == clientNodes && Round(v0, Now(), nodes, i, limits)
      {
        ServiceNext(nodes, i, limits, v0);
        i := i + 1;
      }
    }

    /** read_and_receive_common with service_reads: client `id` is served until `limits(id)`
        messages have been handed over. The clients in `gone` are those whose connection ended. */
    method Receive(limits: Id -> nat) returns (rc: int, ghost gone: seq<Id>)
      requires Valid()
      modifies this
      ensures Valid() && rc == (if old(woke) then 0 else -1)
      ensures rc != 0 ==> gone == [] && Now() == old(Now()) && clientNodes == old(clientNodes) && !woke
      ensures rc == 0 ==> !woke && clientNodes == Without(old(clientNodes), gone)
                          && Received(old(Now()), Now(), old(clientNodes), gone, limits)
    {
      if wakefd == 0 {
        return -1, [];
      }
      var counter := wakefd;
      wakefd := 0;
      assert counter == 1;
      assert woke;
      woke := false;
      ghost var v0, nodes := Now(), clientNodes;
      assert Valid();
      hide *;
      ServiceAll(limits);
      ghost var v := Now();
      gone := v.removed;
      Listed();
      ProcessRemovedClients();
      ReceivedAll(v0, v, nodes, limits, clientNodes);
      rc := 0;
    }

    lemma Listed()
      requires Consistent()
      ensures forall id :: id in ctx <==> id in clientNodes
    {
    }

    lemma ReceivedAll(v0: View, v: View, nodes: seq<Id>, limits: Id -> nat, left: seq<Id>)
      requires Round(v0, v, nodes, |nodes|, limits) && SameMessages(v.history, history)
      requires left == Without(nodes, v.removed)
      requires forall id :: id in left ==> id in v.ctx && id in ctx && ctx[id] == v.ctx[id]
      ensures Received(v0, Now(), nodes, v.removed, limits)
    {
      hide Drops, After, Gained, Without;
      forall id | id in nodes ensures Outcome(v0, Now(), id, id in v.removed, limits(id)) {
        var k :| 0 <= k < |nodes| && nodes[k] == id;
        assert Dealt(v0, v, nodes[k], limits(nodes[k]));
        WithoutMembers(nodes, v.removed, id);
      }
    }

    // -------------------------------------------------------------------------
    // Sending
    // -------------------------------------------------------------------------

    /** send_impl to one client: it succeeds or disconnects. */
    method SendImpl(id: Id, ok: bool) returns (rc: int)
      requires Consistent() && id in clientNodes && id !in removedNodes
      modifies this`clientCount, this`removedNodes, this`history, this`ctx
      ensures Consistent() && SendStep(old(Now()), Now(), id, ok) && rc == (if ok then 0 else -1)
    {
      assert id in ctx && id in history;
      hide Consistent;
      if ok {
        return 0;
      }
      Disconnect(id);
      return -1;
    }

    method SendNext(nodes: seq<Id>, i: nat, ok: Id -> bool, ghost v0: View) returns (rc: int)
      requires Consistent() && nodes == clientNodes && i < |nodes| && Sent(v0, Now(), nodes, i, ok)
      modifies this`clientCount, this`removedNodes, this`history, this`ctx
      ensures Consistent() && Sent(v0, Now(), nodes, i + 1, ok)
      ensures rc == (if ok(nodes[i]) then 0 else -1)
      ensures removedNodes == (if rc == 0 then [] else [nodes[i]]) + old(removedNodes)
    {
      assert Distinct(nodes) && nodes[i] !in removedNodes;
      hide Consistent, Distinct, Sent, Elsewhere;
      ghost var v := Now();
      rc := SendImpl(nodes[i], ok(nodes[i]));
      SentNext(v0, v, Now(), nodes, i, ok);
    }

    lemma ValidStart()
      requires Valid()
      ensures Consistent() && removedNodes == [] && Now().removed == []
    {
    }

    /** foreach_client over send_impl, without the purge at its end. */
    method SendAll(ok: Id -> bool) returns (rc: int)
      requires Valid()
      modifies this`clientCount, this`removedNodes, this`history, this`ctx
      ensures Consistent() && Sent(old(Now()), Now(), clientNodes, |clientNodes|, ok)
      ensures rc == 0 <==> removedNodes == []
    {
      ValidStart();
      hide *;
      var nodes := clientNodes;
      ghost var v0 := Now();
      SentNone(v0, nodes, ok);
      rc := 0;
      var i := 0;
      while i < |nodes|
        invariant i <= |nodes| && Consistent() && nodes == clientNodes && Sent(v0, Now(), nodes, i, ok)
        invariant rc == 0 <==> removedNodes == []
      {
        var r := SendNext(nodes, i, ok, v0);
        rc := if r != 0 then r else rc;
        i := i + 1;
      }
    }

    /** pk_endpoint_send on a REP endpoint: every client gets the message or is disconnected. */
    method Send(ok: Id -> bool) returns (rc: int, ghost gone: seq<Id>)
      requires Valid()
      modifies this`clientNodes, this`clientCount, this`removedNodes, this`history, this`ctx
      ensures Valid() && clientNodes == Without(old(clientNodes), gone) && (rc == 0 <==> gone == [])
      ensures forall id :: id in old(clientNodes) ==> (id in gone <==> !ok(id))
      ensures forall id :: id in clientNodes ==> id in old(ctx) && ctx[id] == old(ctx)[id]
      ensures SameMessages(old(history), history)
    {
      hide Consistent, Sent, Without, SameMessages;
      ghost var v0, nodes := Now(), clientNodes;
      rc := SendAll(ok);
      ghost var v := Now();
      gone := removedNodes;
      ProcessRemovedClients();
      Listed();
      SentAll(v0, v, Now(), nodes, clientNodes, ok);
    }
  }

  datatype Turn = Idle | Delivered | Ended

  function ClientAfter(c: Client, turn: Turn): Client
    requires turn == TurnFor(c)
  {
    if turn.Delivered? then c.(queue := c.queue[1..]) else c
  }

  function HistoryAfter(h: History, c: Client, turn: Turn): History
    requires turn == TurnFor(c)
  {
    match turn
    case Idle => h
    case Delivered => h.(delivered := h.delivered + [Clip(c.queue[0])])
    case Ended => h.(recorded := 1)
  }

  function TurnFor(c: Client): Turn {
    if c.queue == [] then (if c.closed then Ended else Idle) else if c.queue[0] == [] then Ended else Delivered
  }
}
