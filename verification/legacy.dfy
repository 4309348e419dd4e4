/** The single-header variant of the binding (`nzmqt.hpp`): the same
    multi-part framing with non-blocking flags as the default, a read
    notifier that turns the engine's event mask into signals, and a context
    that deletes the sockets it parents before the engine context goes. */
module Legacy {
  import opened Engine
  import opened Socket

  /** `ZMQ_NOBLOCK`, the default flags of every send and receive here. */
  const NOBLOCK: Flags := DONTWAIT

  /** `sendMessage(const QList<QByteArray>&)` with its default flags. */
  method SendMessageDefault(msg: seq<Frame>, out: Outgoing) returns (ok: bool, out': Outgoing)
    ensures ok <==> out.room >= |msg|
    ensures out'.sent == out.sent + Framed(msg, NOBLOCK)[..Min(out.room, |msg|)]
    ensures forall i :: |out.sent| <= i < |out'.sent| ==>
      (HasMore(out'.sent[i].flags) <==> i - |out.sent| < |msg| - 1)
  {
    ok, out' := SendMessage(msg, NOBLOCK, out);
    forall i | |out.sent| <= i < |out'.sent|
      ensures HasMore(out'.sent[i].flags) <==> i - |out.sent| < |msg| - 1
    {
      assert out'.sent[i] == Framed(msg, NOBLOCK)[i - |out.sent|];
      assert HasMore(NOBLOCK | SNDMORE) && !HasMore(NOBLOCK);
    }
  }

  /** A message sent with the default flags, once delivered, is received
      whole; a single-frame message comes back as a one-element list. */
  lemma DefaultFlagsRoundTrip(msg: seq<Frame>, tail: Inbox)
    requires |msg| > 0
    ensures ReceiveMessage(Deliver(Framed(msg, NOBLOCK)) + tail) == Received(Ok(msg), tail)
    ensures |msg| == 1 ==> |ReceiveMessage(Deliver(Framed(msg, NOBLOCK)) + tail).result.value| == 1
  {
    assert !HasMore(NOBLOCK);
    SendReceiveRoundTrip(msg, NOBLOCK, tail);
  }

  datatype Activity = ReadyRead | ReadyWrite | PollFailed

  /** `socketActivity()`: one signal per condition present in the event mask,
      in the order read, write, error. */
  function SocketActivity(flags: Flags): (s: seq<Activity>)
    ensures (ReadyRead in s) <==> flags & POLLIN != 0
    ensures (ReadyWrite in s) <==> flags & POLLOUT != 0
    ensures (PollFailed in s) <==> flags & POLLERR != 0
    ensures forall i, j :: 0 <= i < j < |s| ==> Rank(s[i]) < Rank(s[j])
  {
    (if flags & POLLIN != 0 then [ReadyRead] else []) +
    (if flags & POLLOUT != 0 then [ReadyWrite] else []) +
    (if flags & POLLERR != 0 then [PollFailed] else [])
  }

  function Rank(a: Activity): nat {
    match a
    case ReadyRead => 0
    case ReadyWrite => 1
    case PollFailed => 2
  }

  /** Only the three condition bits matter: bits outside them raise nothing. */
  lemma ActivityIgnoresOtherBits(flags: Flags, other: Flags)
    requires other & (POLLIN | POLLOUT | POLLERR) == 0
    ensures SocketActivity(flags | other) == SocketActivity(flags)
  {
    assert (flags | other) & POLLIN == flags & POLLIN;
    assert (flags | other) & POLLOUT == flags & POLLOUT;
    assert (flags | other) & POLLERR == flags & POLLERR;
  }

  type ObjectId = nat

  /** Who a new socket's Qt parent is: the context, some other object, or
      nobody (a null parent). */
  datatype Parent = ThisContext | OtherParent(owner: ObjectId) | NoParent

  /** The context's Qt children (in creation order) and the next fresh id. */
  datatype OldContext = OldContext(children: seq<ObjectId>, nextId: ObjectId)

  datatype Teardown = Deleted(child: ObjectId) | EngineTerminated

  /** `createSocket(type)` parents the socket to the context;
      `createSocket(type, parent)` to the given parent, or to nobody when it
      is null. */
  function CreateSocket(c: OldContext, parent: Parent): (r: (OldContext, ObjectId))
    ensures r.1 == c.nextId && r.0.nextId == c.nextId + 1
    ensures parent == ThisContext ==> r.0.children == c.children + [r.1]
    ensures parent != ThisContext ==> r.0.children == c.children
  {
    var id := c.nextId;
    (OldContext(if parent == ThisContext then c.children + [id] else c.children, id + 1), id)
  }

  /** `~ZMQContext()`: delete every child of a snapshot of the children list,
      then the engine context terminates. */
  function Destroy(c: OldContext): (events: seq<Teardown>)
    ensures |events| == |c.children| + 1 && events[|events| - 1] == EngineTerminated
    ensures forall i :: 0 <= i < |c.children| ==> events[i] == Deleted(c.children[i])
  {
    seq(|c.children|, i requires 0 <= i < |c.children| => Deleted(c.children[i])) + [EngineTerminated]
  }

  function CreateAll(c: OldContext, parents: seq<Parent>): OldContext
    decreases |parents|
  {
    if |parents| == 0 then c else CreateSocket(CreateAll(c, parents[..|parents| - 1]), parents[|parents| - 1]).0
  }

  /** Sockets created from a fresh context: the ids handed out are `0, 1, ...`
      and the children are exactly those created with the context as parent,
      in creation order. */
  lemma {:induction false} CreateAllChildren(parents: seq<Parent>)
    ensures var c := CreateAll(OldContext([], 0), parents);
      c.nextId == |parents| &&
      (forall k :: 0 <= k < |c.children| ==> c.children[k] < |parents| && parents[c.children[k]] == ThisContext) &&
      (forall i :: 0 <= i < |parents| && parents[i] == ThisContext ==> i in c.children) &&
      (forall k, l :: 0 <= k < l < |c.children| ==> c.children[k] < c.children[l])
    decreases |parents|
  {
    if |parents| > 0 {
      var n := |parents| - 1;
      CreateAllChildren(parents[..n]);
      var before := CreateAll(OldContext([], 0), parents[..n]);
      assert forall k :: 0 <= k < |before.children| ==> parents[..n][before.children[k]] == parents[before.children[k]];
    }
  }

  /** Destroying a context deletes every socket it parents, and no socket
      with another parent, each once (no deletion repeats), before the engine
      context terminates. */
  lemma DestroyDeletesOwnedOnce(parents: seq<Parent>)
    ensures var events := Destroy(CreateAll(OldContext([], 0), parents));
      (forall id: ObjectId :: Deleted(id) in events <==> id < |parents| && parents[id] == ThisContext) &&
      (forall i, j :: 0 <= i < j < |events| ==> events[i] != events[j]) &&
      events[|events| - 1] == EngineTerminated
  {
    var c := CreateAll(OldContext([], 0), parents);
    var events := Destroy(c);
    CreateAllChildren(parents);
    forall id: ObjectId | Deleted(id) in events
      ensures id < |parents| && parents[id] == ThisContext
    {
      var i :| 0 <= i < |events| && events[i] == Deleted(id);
      assert events[i] == Deleted(c.children[i]);
    }
    forall id: ObjectId | id < |parents| && parents[id] == ThisContext
      ensures Deleted(id) in events
    {
      var k :| 0 <= k < |c.children| && c.children[k] == id;
      assert events[k] == Deleted(id);
    }
  }
}
