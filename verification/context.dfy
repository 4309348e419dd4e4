/** The socket registry of `ZMQContext` and the ownership protocol between a
    context and its sockets: `createSocket`, `registerSocket`,
    `unregisterSocket` (base and polling variants), `ZMQSocket::close`,
    `SocketNotifierZMQSocket::close`, the socket destructors and
    `~ZMQContext`.

    Sockets are identified by number. A socket's back-reference to its context
    (`m_context`) is the flag `attached`; whether the engine handle is still
    open is `open`. Everything the protocol does that an observer can see is
    appended to an event log. */
module Context {
  import opened Engine

  type SocketId = nat

  /** The concrete context: `PollingZMQContext` with its `m_stopped` flag and
      poll interval, or `SocketNotifierZMQContext`. */
  datatype Strategy = Polling(stopped: bool, interval: int) | SocketNotifier

  /** A `pollitem_t`: the socket, the events watched and the events the last
      poll reported. */
  datatype PollItem = PollItem(socket: SocketId, events: Flags, revents: Flags)

  /** The context: its strategy, the registry `m_sockets` in insertion order,
      the poll-item table `m_pollItems` (used by the polling strategy only) and
      whether the context object still exists. */
  datatype Ctx = Ctx(strategy: Strategy, registry: seq<SocketId>, pollItems: seq<PollItem>, alive: bool)

  datatype SocketState = SocketState(attached: bool, open: bool)

  datatype Event =
    | Unregistered(id: SocketId)       // the context's `unregisterSocket` ran for the socket
    | NotifiersReleased(id: SocketId)  // `deleteLater` on both of the socket's notifiers
    | EngineClosed(id: SocketId)       // the engine handle was released
    | CloseQueued(id: SocketId)        // `invokeMethod(socket, "close")` from `~ZMQContext`

  datatype World = World(ctx: Ctx, sockets: map<SocketId, SocketState>, nextId: nat, log: seq<Event>)

  predicate Distinct(s: seq<SocketId>) {
    forall i, j :: 0 <= i < j < |s| ==> s[i] != s[j]
  }

  /** The poll-item table is a positional shadow of the registry: entry i
      watches the socket registered at i, for POLLIN. The notifier strategy
      keeps no table. */
  predicate Aligned(c: Ctx) {
    match c.strategy
    case Polling(_, _) =>
      && |c.pollItems| == |c.registry|
      && forall i :: 0 <= i < |c.registry| ==>
           c.pollItems[i].socket == c.registry[i] && c.pollItems[i].events == POLLIN
    case SocketNotifier => c.pollItems == []
  }

  /** The position of the first occurrence of `x` in `s`, or `|s|`. */
  function FirstIndex(s: seq<SocketId>, x: SocketId): (j: nat)
    ensures j <= |s|
    ensures j < |s| ==> s[j] == x
    ensures forall k :: 0 <= k < j ==> s[k] != x
    ensures j == |s| <==> x !in s
  {
    if |s| == 0 then 0
    else if s[0] == x then 0
    else 1 + FirstIndex(s[1..], x)
  }

  function RemoveAt<T>(s: seq<T>, j: nat): seq<T>
    requires j < |s|
  {
    s[..j] + s[j + 1..]
  }

  /** `registerSocket`: the polling context appends a POLLIN poll item for
      the socket, then (as the base context does) appends the socket to the
      registry. */
  function Register(c: Ctx, id: SocketId): (r: Ctx)
    ensures r.registry == c.registry + [id]
    ensures r.strategy.Polling? ==> r.pollItems == c.pollItems + [PollItem(id, POLLIN, 0)]
    ensures r.strategy.SocketNotifier? ==> r.pollItems == c.pollItems
    ensures r.strategy == c.strategy && r.alive == c.alive
    ensures Aligned(c) ==> Aligned(r)
  {
    match c.strategy
    case Polling(_, _) =>
      c.(pollItems := c.pollItems + [PollItem(id, POLLIN, 0)], registry := c.registry + [id])
    case SocketNotifier =>
      c.(registry := c.registry + [id])
  }

  lemma RemoveAtSplits(s: seq<SocketId>, j: nat)
    requires j < |s|
    ensures s == s[..j] + [s[j]] + s[j + 1..]
    ensures multiset(RemoveAt(s, j)) == multiset(s) - multiset{s[j]}
  {
    assert s == s[..j] + [s[j]] + s[j + 1..];
  }

  lemma RemoveAtKeepsDistinct(s: seq<SocketId>, j: nat)
    requires j < |s|
    ensures Distinct(s) ==> Distinct(RemoveAt(s, j)) && s[j] !in RemoveAt(s, j)
  {
    if !Distinct(s) { return; }
    var r := RemoveAt(s, j);
    forall a, b | 0 <= a < b < |r| ensures r[a] != r[b] {
      var a' := if a < j then a else a + 1;
      var b' := if b < j then b else b + 1;
      assert r[a] == s[a'] && r[b] == s[b'];
    }
    forall i | 0 <= i < |r| ensures r[i] != s[j] {
      if i < j { assert r[i] == s[i]; } else { assert r[i] == s[i + 1]; }
    }
  }

  lemma RemoveAtKeepsAligned(c: Ctx, j: nat)
    requires j < |c.registry|
    ensures Aligned(c) && c.strategy.Polling? ==>
      Aligned(c.(pollItems := RemoveAt(c.pollItems, j), registry := RemoveAt(c.registry, j)))
  {
    if !(Aligned(c) && c.strategy.Polling?) { return; }
    var r := c.(pollItems := RemoveAt(c.pollItems, j), registry := RemoveAt(c.registry, j));
    forall i | 0 <= i < |r.registry|
      ensures r.pollItems[i].socket == r.registry[i] && r.pollItems[i].events == POLLIN
    {
      if i >= j {
        assert r.registry[i] == c.registry[i + 1];
        assert r.pollItems[i] == c.pollItems[i + 1];
      }
    }
  }

  /** `unregisterSocket`: the polling context walks registry and poll table in
      lock-step and erases the poll item at the socket's first position; then
      the base context erases that registry entry. An absent socket changes
      nothing. Every other entry keeps its relative order: the entry after
      the socket's first position moves into it. */
  function Unregister(c: Ctx, id: SocketId): (r: Ctx)
    ensures id !in c.registry ==> r == c
    ensures r.strategy == c.strategy && r.alive == c.alive
    ensures id in c.registry ==>
      var j := FirstIndex(c.registry, id);
      && r.registry == c.registry[..j] + c.registry[j + 1..]
      && (c.strategy.Polling? && Aligned(c) ==> r.pollItems == c.pollItems[..j] + c.pollItems[j + 1..])
      && (c.strategy.SocketNotifier? ==> r.pollItems == c.pollItems)
  {
    var j := FirstIndex(c.registry, id);
    if j == |c.registry| then c
    else
      var items := if c.strategy.Polling? && j < |c.pollItems| then RemoveAt(c.pollItems, j) else c.pollItems;
      c.(pollItems := items, registry := RemoveAt(c.registry, j))
  }

  /** Deregistering removes exactly one occurrence of a registered socket
      and nothing else. */
  lemma UnregisterRemovesOne(c: Ctx, id: SocketId)
    ensures multiset(Unregister(c, id).registry) == multiset(c.registry) - multiset{id}
  {
    var j := FirstIndex(c.registry, id);
    if j < |c.registry| {
      RemoveAtSplits(c.registry, j);
    }
  }

  /** Deregistering keeps the poll-item table the registry's positional
      shadow and a registry without repeats free of them; afterwards the
      socket is gone and every other socket is still registered. */
  lemma UnregisterKeepsTable(c: Ctx, id: SocketId)
    ensures var r := Unregister(c, id);
      && (Aligned(c) ==> Aligned(r))
      && (forall x :: x in r.registry ==> x in c.registry)
      && (forall x :: x in c.registry && x != id ==> x in r.registry)
      && (Distinct(c.registry) ==> Distinct(r.registry) && id !in r.registry)
  {
    var j := FirstIndex(c.registry, id);
    if j < |c.registry| {
      RemoveAtSplits(c.registry, j);
      RemoveAtKeepsDistinct(c.registry, j);
      RemoveAtKeepsAligned(c, j);
    }
  }

  /** How often `e` occurs in the log. */
  function Count(log: seq<Event>, e: Event): nat {
    if |log| == 0 then 0
    else Count(log[..|log| - 1], e) + (if log[|log| - 1] == e then 1 else 0)
  }

  lemma CountAppend(log: seq<Event>, f: Event, e: Event)
    ensures Count(log + [f], e) == Count(log, e) + (if f == e then 1 else 0)
  {
    assert (log + [f])[..|log|] == log;
  }

  /** The number of times the socket was deregistered. */
  function Unregistrations(log: seq<Event>, id: SocketId): nat {
    Count(log, Unregistered(id))
  }

  /** The number of times the socket's notifiers were handed over for
      deletion. */
  function Releases(log: seq<Event>, id: SocketId): nat {
    Count(log, NotifiersReleased(id))
  }

  lemma UnregistrationsAppend(log: seq<Event>, e: Event, id: SocketId)
    ensures Unregistrations(log + [e], id) == Unregistrations(log, id) + (if e == Unregistered(id) then 1 else 0)
    ensures Releases(log + [e], id) == Releases(log, id) + (if e == NotifiersReleased(id) then 1 else 0)
  {
    CountAppend(log, e, Unregistered(id));
    CountAppend(log, e, NotifiersReleased(id));
  }

  /** Every socket is deregistered at most once, and not at all while it is
      still attached to its context (or before it exists). */
  ghost predicate AtMostOnce(w: World) {
    && (forall id :: Unregistrations(w.log, id) + (if id in w.sockets && w.sockets[id].attached then 1 else 0) <= 1)
    && (forall id :: id >= w.nextId ==> Unregistrations(w.log, id) == 0)
  }

  /** The invariants the registry and the back-references keep. */
  ghost predicate Wf(w: World) {
    && Aligned(w.ctx)
    && Distinct(w.ctx.registry)
    && (forall id :: id in w.ctx.registry ==> id < w.nextId)
    && (forall id :: id in w.sockets ==> id < w.nextId)
    && (forall id :: id in w.sockets && w.sockets[id].attached ==> w.ctx.alive && id in w.ctx.registry)
    && (w.ctx.alive ==> forall id :: id in w.ctx.registry ==> id in w.sockets && w.sockets[id].attached)
    && AtMostOnce(w)
  }

  /** A new context with no sockets: `PollingZMQContext`, whose constructor
      leaves it not stopped (polling every `interval` once started), or
      `SocketNotifierZMQContext`. */
  function NewContext(polling: bool, interval: int): (w: World)
    ensures Wf(w) && ReleasedOnce(w)
    ensures w.ctx.registry == [] && w.ctx.pollItems == [] && w.ctx.alive && w.sockets == map[]
    ensures polling ==> w.ctx.strategy == Polling(false, interval)
    ensures !polling ==> w.ctx.strategy == SocketNotifier
  {
    World(Ctx(if polling then Polling(false, interval) else SocketNotifier, [], [], true), map[], 0, [])
  }

  /** `createSocket`: a new socket pointing back at the context, registered
      (with its poll item, for the polling strategy) as the last entry. */
  function CreateSocket(w: World): (r: (World, SocketId))
    ensures r.1 == w.nextId && r.0.nextId == w.nextId + 1
    ensures r.0.ctx.registry == w.ctx.registry + [r.1]
    ensures w.ctx.strategy.Polling? ==> r.0.ctx.pollItems == w.ctx.pollItems + [PollItem(r.1, POLLIN, 0)]
    ensures w.ctx.strategy.SocketNotifier? ==> r.0.ctx.pollItems == w.ctx.pollItems
    ensures r.0.ctx.strategy == w.ctx.strategy && r.0.ctx.alive == w.ctx.alive
    ensures r.0.sockets == w.sockets[r.1 := SocketState(true, true)]
    ensures r.0.log == w.log
  {
    var id := w.nextId;
    (w.(ctx := Register(w.ctx, id), sockets := w.sockets[id := SocketState(true, true)], nextId := id + 1), id)
  }

  lemma CreateSocketKeepsWf(w: World)
    requires Wf(w) && w.ctx.alive
    ensures CreateSocket(w).1 !in w.ctx.registry && CreateSocket(w).1 !in w.sockets
    ensures Wf(CreateSocket(w).0)
  {
    var (r, id) := CreateSocket(w);
    assert id !in w.ctx.registry;
    assert Unregistrations(w.log, id) == 0;
    forall id' ensures Unregistrations(r.log, id') + (if id' in r.sockets && r.sockets[id'].attached then 1 else 0) <= 1 {
      if id' != id {
        assert Unregistrations(w.log, id') + (if id' in w.sockets && w.sockets[id'].attached then 1 else 0) <= 1;
      }
    }
  }

  /** `ZMQSocket::close`: deregister only while the back-reference is set,
      then clear it; the engine handle is released once (a second engine close
      is a no-op). */
  function Close(w: World, id: SocketId): (r: World)
    requires id in w.sockets
    ensures r.sockets == w.sockets[id := SocketState(false, false)]
    ensures w.sockets[id].attached ==> r.ctx == Unregister(w.ctx, id)
    ensures !w.sockets[id].attached ==> r.ctx == w.ctx
    ensures forall id' :: Unregistrations(r.log, id') == Unregistrations(w.log, id') + (if id' == id && w.sockets[id].attached then 1 else 0)
    ensures forall id' :: Releases(r.log, id') == Releases(w.log, id')
    ensures r.nextId == w.nextId
  {
    var s := w.sockets[id];
    var unreg := if s.attached then [Unregistered(id)] else [];
    var closed := if s.open then [EngineClosed(id)] else [];
    CloseCounts(w.log, unreg, closed, id);
    World(if s.attached then Unregister(w.ctx, id) else w.ctx,
          w.sockets[id := SocketState(false, false)],
          w.nextId,
          w.log + unreg + closed)
  }

  lemma CloseCounts(log: seq<Event>, unreg: seq<Event>, closed: seq<Event>, id: SocketId)
    requires unreg == [] || unreg == [Unregistered(id)]
    requires closed == [] || closed == [EngineClosed(id)]
    ensures forall id' :: Unregistrations(log + unreg + closed, id') == Unregistrations(log, id') + (if id' == id && unreg != [] then 1 else 0)
    ensures forall id' :: Releases(log + unreg + closed, id') == Releases(log, id')
  {
    forall id' ensures Unregistrations(log + unreg + closed, id') == Unregistrations(log, id') + (if id' == id && unreg != [] then 1 else 0)
      && Releases(log + unreg + closed, id') == Releases(log, id') {
      if unreg != [] { UnregistrationsAppend(log, Unregistered(id), id'); }
      if closed != [] { UnregistrationsAppend(log + unreg, EngineClosed(id), id'); }
      else { assert log + unreg + closed == log + unreg; }
      if unreg == [] { assert log + unreg == log; }
    }
  }

  lemma CloseKeepsWf(w: World, id: SocketId)
    requires Wf(w) && id in w.sockets
    ensures Wf(Close(w, id))
  {
    UnregisterKeepsTable(w.ctx, id);
    var r := Close(w, id);
    var attached := w.sockets[id].attached;
    forall id' ensures Unregistrations(r.log, id') + (if id' in r.sockets && r.sockets[id'].attached then 1 else 0) <= 1 {
      assert Unregistrations(w.log, id') + (if id' in w.sockets && w.sockets[id'].attached then 1 else 0) <= 1;
    }
    if w.ctx.alive {
      forall id' | id' in r.ctx.registry ensures id' in r.sockets && r.sockets[id'].attached {
        assert id' in w.ctx.registry;
      }
    }
  }

  /** `SocketNotifierZMQSocket::close` as written: both notifiers are handed
      to the event loop for deletion on every call, then the base `close`. */
  function NotifierCloseAsWritten(w: World, id: SocketId): (r: World)
    requires id in w.sockets
    ensures r.sockets == w.sockets[id := SocketState(false, false)]
    ensures forall id' :: Unregistrations(r.log, id') == Unregistrations(w.log, id') + (if id' == id && w.sockets[id].attached then 1 else 0)
    ensures forall id' :: Releases(r.log, id') == Releases(w.log, id') + (if id' == id then 1 else 0)
  {
    var w1 := w.(log := w.log + [NotifiersReleased(id)]);
    assert forall id' :: (Unregistrations(w1.log, id') == Unregistrations(w.log, id') &&
      Releases(w1.log, id') == Releases(w.log, id') + (if id' == id then 1 else 0)) by {
      forall id' { UnregistrationsAppend(w.log, NotifiersReleased(id), id'); }
    }
    Close(w1, id)
  }

  lemma NotifierCloseAsWrittenKeepsWf(w: World, id: SocketId)
    requires Wf(w) && id in w.sockets
    ensures Wf(NotifierCloseAsWritten(w, id))
  {
    var w1 := w.(log := w.log + [NotifiersReleased(id)]);
    forall id' ensures Unregistrations(w1.log, id') == Unregistrations(w.log, id') {
      UnregistrationsAppend(w.log, NotifiersReleased(id), id');
    }
    assert Wf(w1);
    CloseKeepsWf(w1, id);
  }

  /** A notifier socket closed by hand and deleted afterwards hands its
      notifiers over for deletion twice: the destructor's `close` runs again
      and calls `deleteLater` on notifiers the first `close` already gave
      away. */
  lemma CloseThenDestroyReleasesTwice()
    ensures var w := CreateSocket(NewContext(false, 0)).0;
      var closed := NotifierCloseAsWritten(w, 0);
      Releases(Close(NotifierCloseAsWritten(closed, 0), 0).log, 0) == 2
  {
    var w := CreateSocket(NewContext(false, 0)).0;
    assert Releases(w.log, 0) == 0;
  }

  /** `SocketNotifierZMQSocket::close` with the notifiers released only by the
      first call, while the engine handle is still open; then the base
      `close`. */
  function NotifierClose(w: World, id: SocketId): (r: World)
    requires id in w.sockets
    ensures r.sockets == w.sockets[id := SocketState(false, false)]
    ensures forall id' :: Unregistrations(r.log, id') == Unregistrations(w.log, id') + (if id' == id && w.sockets[id].attached then 1 else 0)
    ensures forall id' :: Releases(r.log, id') == Releases(w.log, id') + (if id' == id && w.sockets[id].open then 1 else 0)
  {
    var released := if w.sockets[id].open then [NotifiersReleased(id)] else [];
    var w1 := w.(log := w.log + released);
    forall id' ensures Unregistrations(w1.log, id') == Unregistrations(w.log, id')
      ensures Releases(w1.log, id') == Releases(w.log, id') + (if id' == id && w.sockets[id].open then 1 else 0)
    {
      if w.sockets[id].open {
        UnregistrationsAppend(w.log, NotifiersReleased(id), id');
      } else {
        assert w1.log == w.log;
      }
    }
    Close(w1, id)
  }

  lemma NotifierCloseKeepsWf(w: World, id: SocketId)
    requires Wf(w) && id in w.sockets
    ensures Wf(NotifierClose(w, id))
  {
    var released := if w.sockets[id].open then [NotifiersReleased(id)] else [];
    var w1 := w.(log := w.log + released);
    forall id' ensures Unregistrations(w1.log, id') == Unregistrations(w.log, id') {
      if w.sockets[id].open {
        UnregistrationsAppend(w.log, NotifiersReleased(id), id');
      } else {
        assert w1.log == w.log;
      }
    }
    assert Wf(w1);
    CloseKeepsWf(w1, id);
  }

  /** The notifier socket's `close`: as written when `asWritten` holds,
      otherwise the corrected one. */
  function NotifierCloseOf(w: World, id: SocketId, asWritten: bool): World
    requires id in w.sockets
  {
    if asWritten then NotifierCloseAsWritten(w, id) else NotifierClose(w, id)
  }

  /** `close()` as dispatched on the socket's concrete class; `asWritten`
      selects the notifier socket's `close` as written or corrected. */
  function SocketClose(w: World, id: SocketId, asWritten: bool): (r: World)
    requires id in w.sockets
    ensures forall id' :: Unregistrations(r.log, id') == Unregistrations(w.log, id') + (if id' == id && w.sockets[id].attached then 1 else 0)
    ensures forall id' :: Releases(r.log, id') == Releases(w.log, id') + ReleasedBy(w, id, id', asWritten)
    ensures r.sockets == w.sockets[id := SocketState(false, false)]
    ensures !w.sockets[id].attached ==> r.ctx == w.ctx
  {
    match w.ctx.strategy
    case Polling(_, _) => Close(w, id)
    case SocketNotifier => NotifierCloseOf(w, id, asWritten)
  }

  /** Deleting a socket: `~SocketNotifierZMQSocket` calls its `close`, then
      `~ZMQSocket` calls the base `close` once more; a polling socket only
      runs `~ZMQSocket`. The socket object is gone afterwards. */
  function DestroySocket(w: World, id: SocketId, asWritten: bool): (r: World)
    requires id in w.sockets
    ensures id !in r.sockets && r.sockets == w.sockets - {id}
    ensures forall id' :: Unregistrations(r.log, id') == Unregistrations(w.log, id') + (if id' == id && w.sockets[id].attached then 1 else 0)
    ensures forall id' :: Releases(r.log, id') == Releases(w.log, id') + ReleasedBy(w, id, id', asWritten)
  {
    var w1 := match w.ctx.strategy
      case Polling(_, _) => Close(w, id)
      case SocketNotifier => Close(NotifierCloseOf(w, id, asWritten), id);
    w1.(sockets := w1.sockets - {id})
  }

  /** What closing or destroying socket `id` adds to the release count of
      socket `x`: one release for a notifier socket, on every call as written
      and only while its engine handle is open when corrected. */
  function ReleasedBy(w: World, id: SocketId, x: SocketId, asWritten: bool): nat
    requires id in w.sockets
  {
    if x == id && w.ctx.strategy.SocketNotifier? && (asWritten || w.sockets[id].open) then 1 else 0
  }

  lemma SocketCloseKeepsWf(w: World, id: SocketId, asWritten: bool)
    requires Wf(w) && id in w.sockets
    ensures Wf(SocketClose(w, id, asWritten))
  {
    if w.ctx.strategy.Polling? {
      CloseKeepsWf(w, id);
    } else if asWritten {
      NotifierCloseAsWrittenKeepsWf(w, id);
    } else {
      NotifierCloseKeepsWf(w, id);
    }
  }

  lemma DestroySocketKeepsWf(w: World, id: SocketId, asWritten: bool)
    requires Wf(w) && id in w.sockets
    ensures Wf(DestroySocket(w, id, asWritten))
  {
    var w1 := match w.ctx.strategy
      case Polling(_, _) => Close(w, id)
      case SocketNotifier => Close(NotifierCloseOf(w, id, asWritten), id);
    assert Wf(w1) by {
      SocketCloseKeepsWf(w, id, asWritten);
      if w.ctx.strategy.SocketNotifier? {
        CloseKeepsWf(NotifierCloseOf(w, id, asWritten), id);
      }
    }
    ForgetSocketKeepsWf(w1, id);
  }

  /** A socket object that no longer points at its context can go without
      breaking the invariants. */
  lemma ForgetSocketKeepsWf(w: World, id: SocketId)
    requires Wf(w) && id in w.sockets && !w.sockets[id].attached
    ensures Wf(w.(sockets := w.sockets - {id}))
  {
    var r := w.(sockets := w.sockets - {id});
    forall id' ensures Unregistrations(r.log, id') + (if id' in r.sockets && r.sockets[id'].attached then 1 else 0) <= 1 {
      assert Unregistrations(w.log, id') + (if id' in w.sockets && w.sockets[id'].attached then 1 else 0) <= 1;
    }
  }

  /** The body of `~ZMQContext` for the sockets in `pending`, in order: clear
      each one's back-reference, then queue a `close` for it. */
  function DetachAll(w: World, pending: seq<SocketId>): (r: World)
    ensures r.ctx == w.ctx && r.nextId == w.nextId
    ensures r.log == w.log + seq(|pending|, i requires 0 <= i < |pending| => CloseQueued(pending[i]))
    ensures r.sockets.Keys == w.sockets.Keys
    ensures forall id :: id in w.sockets && id in pending ==> !r.sockets[id].attached && r.sockets[id].open == w.sockets[id].open
    ensures forall id :: id in w.sockets && id !in pending ==> r.sockets[id] == w.sockets[id]
    ensures forall id :: Unregistrations(r.log, id) == Unregistrations(w.log, id)
    ensures forall id :: Releases(r.log, id) == Releases(w.log, id)
    decreases |pending|
  {
    if |pending| == 0 then w
    else
      var id := pending[0];
      var sockets := if id in w.sockets then w.sockets[id := w.sockets[id].(attached := false)] else w.sockets;
      var w1 := w.(sockets := sockets, log := w.log + [CloseQueued(id)]);
      assert forall id' :: (Unregistrations(w1.log, id') == Unregistrations(w.log, id') &&
        Releases(w1.log, id') == Releases(w.log, id')) by {
        forall id' { UnregistrationsAppend(w.log, CloseQueued(id), id'); }
      }
      var r := DetachAll(w1, pending[1..]);
      assert w1.log + seq(|pending| - 1, i requires 0 <= i < |pending| - 1 => CloseQueued(pending[1..][i]))
          == w.log + seq(|pending|, i requires 0 <= i < |pending| => CloseQueued(pending[i]));
      assert forall id :: id in pending <==> id == pending[0] || id in pending[1..];
      r
  }

  /** `~ZMQContext`: every registered socket loses its back-reference and has
      exactly one `close` queued, in registry order; the context is gone. */
  function Teardown(w: World): (r: World)
    ensures !r.ctx.alive && r.ctx.registry == w.ctx.registry && r.ctx.pollItems == w.ctx.pollItems
    ensures r.log == w.log + seq(|w.ctx.registry|, i requires 0 <= i < |w.ctx.registry| => CloseQueued(w.ctx.registry[i]))
    ensures r.sockets.Keys == w.sockets.Keys
    ensures forall id :: id in w.sockets && id in w.ctx.registry ==> !r.sockets[id].attached
    ensures forall id :: id in w.sockets && id !in w.ctx.registry ==> r.sockets[id] == w.sockets[id]
    ensures forall id :: Unregistrations(r.log, id) == Unregistrations(w.log, id)
    ensures forall id :: Releases(r.log, id) == Releases(w.log, id)
  {
    var d := DetachAll(w, w.ctx.registry);
    d.(ctx := d.ctx.(alive := false))
  }

  lemma TeardownKeepsWf(w: World)
    requires Wf(w)
    ensures Wf(Teardown(w))
    ensures forall id :: id in Teardown(w).sockets ==> !Teardown(w).sockets[id].attached
  {
    var r := Teardown(w);
    forall id | id in r.sockets ensures !r.sockets[id].attached {
      if id !in w.ctx.registry {
        assert !w.sockets[id].attached;
      }
    }
    forall id' ensures Unregistrations(r.log, id') + (if id' in r.sockets && r.sockets[id'].attached then 1 else 0) <= 1 {
      assert Unregistrations(w.log, id') + (if id' in w.sockets && w.sockets[id'].attached then 1 else 0) <= 1;
    }
  }

  /** What a thread of control may do to a context and its sockets. */
  datatype Op = CreateOp | CloseOp(id: SocketId) | DestroyOp(id: SocketId) | TeardownOp

  /** One operation, with the notifier socket's `close` as written or
      corrected; operations on sockets that no longer exist and on a context
      that was destroyed are not part of the usage contract and are ignored. */
  function Apply(w: World, op: Op, asWritten: bool): (r: World)
    ensures op.CloseOp? && op.id in w.sockets ==> r == SocketClose(w, op.id, asWritten)
    ensures op.DestroyOp? && op.id in w.sockets ==> r == DestroySocket(w, op.id, asWritten)
    ensures (op.CloseOp? || op.DestroyOp?) && op.id !in w.sockets ==> r == w
    ensures op.CreateOp? ==> r == if w.ctx.alive then CreateSocket(w).0 else w
    ensures op.TeardownOp? ==> r == if w.ctx.alive then Teardown(w) else w
  {
    match op
    case CreateOp => if w.ctx.alive then CreateSocket(w).0 else w
    case CloseOp(id) => if id in w.sockets then SocketClose(w, id, asWritten) else w
    case DestroyOp(id) => if id in w.sockets then DestroySocket(w, id, asWritten) else w
    case TeardownOp => if w.ctx.alive then Teardown(w) else w
  }

  lemma ApplyKeepsWf(w: World, op: Op, asWritten: bool)
    requires Wf(w)
    ensures Wf(Apply(w, op, asWritten))
  {
    match op
    case CreateOp => if w.ctx.alive { CreateSocketKeepsWf(w); }
    case CloseOp(id) => if id in w.sockets { SocketCloseKeepsWf(w, id, asWritten); }
    case DestroyOp(id) => if id in w.sockets { DestroySocketKeepsWf(w, id, asWritten); }
    case TeardownOp => if w.ctx.alive { TeardownKeepsWf(w); }
  }

  function ApplyAll(w: World, ops: seq<Op>, asWritten: bool): World
    decreases |ops|
  {
    if |ops| == 0 then w else ApplyAll(Apply(w, ops[0], asWritten), ops[1..], asWritten)
  }

  /** Any sequence of operations keeps the invariants, with the notifier
      socket's `close` as written as well as corrected. */
  lemma {:induction false} ApplyAllPreservesWf(w: World, ops: seq<Op>, asWritten: bool)
    requires Wf(w)
    ensures Wf(ApplyAll(w, ops, asWritten))
    decreases |ops|
  {
    if |ops| > 0 {
      ApplyKeepsWf(w, ops[0], asWritten);
      ApplyAllPreservesWf(Apply(w, ops[0], asWritten), ops[1..], asWritten);
    }
  }

  /** Whatever happens to a context and its sockets, in whatever order
      (repeated `close`, a notifier socket's two-step destructor, closes
      queued by `~ZMQContext`), no socket is deregistered twice, whether the
      notifier socket's `close` is the one as written or the corrected one. */
  lemma DeregisteredAtMostOnce(polling: bool, interval: int, ops: seq<Op>, id: SocketId, asWritten: bool)
    ensures Unregistrations(ApplyAll(NewContext(polling, interval), ops, asWritten).log, id) <= 1
  {
    ApplyAllPreservesWf(NewContext(polling, interval), ops, asWritten);
  }

  /** Whatever happens, a polling context's poll-item table stays the
      registry's positional shadow, and no socket is registered twice. */
  lemma PollTableInLockStep(interval: int, ops: seq<Op>, asWritten: bool)
    ensures var c := ApplyAll(NewContext(true, interval), ops, asWritten).ctx;
      |c.pollItems| == |c.registry| && Distinct(c.registry) &&
      (c.strategy.Polling? ==> forall i :: 0 <= i < |c.registry| ==>
        c.pollItems[i].socket == c.registry[i] && c.pollItems[i].events == POLLIN)
  {
    ApplyAllPreservesWf(NewContext(true, interval), ops, asWritten);
    StrategyKept(NewContext(true, interval), ops, asWritten);
  }

  lemma {:induction false} StrategyKept(w: World, ops: seq<Op>, asWritten: bool)
    ensures ApplyAll(w, ops, asWritten).ctx.strategy.Polling? == w.ctx.strategy.Polling?
    decreases |ops|
  {
    if |ops| > 0 {
      StrategyKept(Apply(w, ops[0], asWritten), ops[1..], asWritten);
    }
  }

  /** Once the context is destroyed, closing any of its sockets leaves the
      registry alone and deregisters nothing. */
  lemma CloseAfterTeardownDeregistersNothing(w: World, id: SocketId, asWritten: bool)
    requires Wf(w) && !w.ctx.alive && id in w.sockets
    ensures SocketClose(w, id, asWritten).ctx == w.ctx
    ensures forall id' :: Unregistrations(SocketClose(w, id, asWritten).log, id') == Unregistrations(w.log, id')
  {
    assert !w.sockets[id].attached;
  }

  /** Closing a socket twice deregisters it at most once: the second close
      finds the back-reference cleared. */
  lemma CloseIsIdempotent(w: World, id: SocketId)
    requires id in w.sockets
    ensures Close(Close(w, id), id).ctx == Close(w, id).ctx
    ensures Close(Close(w, id), id).sockets == Close(w, id).sockets
    ensures Unregistrations(Close(Close(w, id), id).log, id) <= Unregistrations(w.log, id) + 1
  {
    var r1 := Close(w, id);
    assert r1.sockets[id] == SocketState(false, false);
    var r2 := Close(r1, id);
    assert r2.sockets == r1.sockets[id := SocketState(false, false)] == r1.sockets;
    assert Unregistrations(r2.log, id) == Unregistrations(r1.log, id);
  }

  /** Each socket's notifiers are handed over for deletion at most once, and
      not at all while its engine handle is still open (or before it exists). */
  ghost predicate ReleasedOnce(w: World) {
    && (forall id :: Releases(w.log, id) + (if id in w.sockets && w.sockets[id].open then 1 else 0) <= 1)
    && (forall id :: id >= w.nextId ==> Releases(w.log, id) == 0 && id !in w.sockets)
  }

  lemma ApplyKeepsReleasedOnce(w: World, op: Op)
    requires ReleasedOnce(w)
    ensures ReleasedOnce(Apply(w, op, false))
  {
    match op
    case CreateOp =>
    case CloseOp(id) => if id in w.sockets { ReleasedOnceStep(w, SocketClose(w, id, false), id); }
    case DestroyOp(id) => if id in w.sockets { ReleasedOnceStep(w, DestroySocket(w, id, false), id); }
    case TeardownOp => if w.ctx.alive { TeardownKeepsReleasedOnce(w); }
  }

  /** A step that closes socket `id` (and perhaps forgets it) and releases
      its notifiers at most while its engine handle is open keeps the
      notifiers released at most once. */
  lemma ReleasedOnceStep(w: World, r: World, id: SocketId)
    requires ReleasedOnce(w) && id in w.sockets
    requires r.nextId == w.nextId && r.sockets.Keys <= w.sockets.Keys
    requires id in r.sockets ==> !r.sockets[id].open
    requires forall x :: x in r.sockets && x != id ==> r.sockets[x] == w.sockets[x]
    requires forall x :: Releases(r.log, x) <= Releases(w.log, x) + (if x == id && w.sockets[id].open then 1 else 0)
    ensures ReleasedOnce(r)
  {
    forall x ensures Releases(r.log, x) + (if x in r.sockets && r.sockets[x].open then 1 else 0) <= 1 {
      assert Releases(w.log, x) + (if x in w.sockets && w.sockets[x].open then 1 else 0) <= 1;
    }
  }

  lemma TeardownKeepsReleasedOnce(w: World)
    requires ReleasedOnce(w)
    ensures ReleasedOnce(Teardown(w))
  {
    var r := Teardown(w);
    forall x ensures Releases(r.log, x) + (if x in r.sockets && r.sockets[x].open then 1 else 0) <= 1 {
      assert Releases(w.log, x) + (if x in w.sockets && w.sockets[x].open then 1 else 0) <= 1;
    }
  }

  lemma {:induction false} ApplyAllKeepsReleasedOnce(w: World, ops: seq<Op>)
    requires ReleasedOnce(w)
    ensures ReleasedOnce(ApplyAll(w, ops, false))
    decreases |ops|
  {
    if |ops| > 0 {
      ApplyKeepsReleasedOnce(w, ops[0]);
      ApplyAllKeepsReleasedOnce(Apply(w, ops[0], false), ops[1..]);
    }
  }

  /** Whatever happens to a context and its sockets (a `close` by hand
      followed by the destructor's own `close` included), no socket's
      notifiers are handed over for deletion twice. */
  lemma NotifiersReleasedAtMostOnce(polling: bool, interval: int, ops: seq<Op>, id: SocketId)
    ensures Releases(ApplyAll(NewContext(polling, interval), ops, false).log, id) <= 1
  {
    ApplyAllKeepsReleasedOnce(NewContext(polling, interval), ops);
  }

  /** Run as written, the operations "create a notifier socket, close it,
      delete it" release its notifiers twice; corrected, once. */
  lemma OpsAsWrittenReleaseTwice()
    ensures Releases(ApplyAll(NewContext(false, 0), [CreateOp, CloseOp(0), DestroyOp(0)], true).log, 0) == 2
    ensures Releases(ApplyAll(NewContext(false, 0), [CreateOp, CloseOp(0), DestroyOp(0)], false).log, 0) == 1
  {
    var ops := [CreateOp, CloseOp(0), DestroyOp(0)];
    var w0 := NewContext(false, 0);
    assert Releases(w0.log, 0) == 0;
    var w1 := Apply(w0, CreateOp, true);
    assert w1 == Apply(w0, CreateOp, false);
    assert w1.sockets[0] == SocketState(true, true) && w1.log == w0.log;
    assert ApplyAll(w0, ops, true) == ApplyAll(w1, ops[1..], true);
    assert ApplyAll(w0, ops, false) == ApplyAll(w1, ops[1..], false);
    forall b: bool ensures Releases(ApplyAll(w1, ops[1..], b).log, 0) == (if b then 2 else 1) {
      var w2 := Apply(w1, CloseOp(0), b);
      assert Releases(w2.log, 0) == 1;
      assert w2.sockets[0] == SocketState(false, false);
      var w3 := Apply(w2, DestroyOp(0), b);
      assert Releases(w3.log, 0) == (if b then 2 else 1);
      assert ops[1..][1..][1..] == [];
      assert ApplyAll(w1, ops[1..], b) == ApplyAll(w2, ops[1..][1..], b) == ApplyAll(w3, [], b);
    }
  }
}
