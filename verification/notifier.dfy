/** `SocketNotifierZMQSocket`: a socket driven by the event loop's
    read/write readiness notifiers. On activity of either notifier the socket
    disables that notifier, drains every message the engine reports readable
    while the socket is still connected, emitting each, turns an engine
    exception into one `notifierError`, and re-enables the notifier. The write
    notifier's handler drains incoming messages exactly as the read
    notifier's does.

    A receiver of `messageReceived` runs inside the drain and may close the
    socket; the drain then stops at its next connection check. */
module Notifier {
  import opened Engine
  import opened Socket

  datatype Side = ReadSide | WriteSide

  datatype Signal =
    | Disabled(side: Side)
    | Enabled(side: Side)
    | MessageReceived(message: seq<Frame>)
    | NotifierError(code: int)

  datatype NotifierSocket = NotifierSocket(readEnabled: bool, writeEnabled: bool, connected: bool, inbox: Inbox)

  /** `events()`: POLLIN while the engine has something to hand out. */
  function Events(s: NotifierSocket): Flags {
    if |s.inbox| > 0 then POLLIN else 0
  }

  function Emitted(ms: seq<seq<Frame>>): (r: seq<Signal>)
    ensures |r| == |ms|
  {
    seq(|ms|, i requires 0 <= i < |ms| => MessageReceived(ms[i]))
  }

  function SetEnabled(s: NotifierSocket, side: Side, on: bool): NotifierSocket {
    if side == ReadSide then s.(readEnabled := on) else s.(writeEnabled := on)
  }

  /** What a drain hands out: the messages emitted, the code of the exception
      that ended it (if one did), and the queue it leaves. */
  datatype Drained = Drained(delivered: seq<seq<Frame>>, failure: Option<int>, rest: Inbox)

  /** Reference definition of the drain: while `isConnected()` answers true
      (it does so the first `live` times it is asked) and the queue is not
      empty, receive one message; a receive that throws ends the drain. */
  function DrainOf(q: Inbox, live: nat): (d: Drained)
    decreases |q|
    ensures |d.delivered| <= live
  {
    if live == 0 || |q| == 0 then Drained([], None, q)
    else
      var m := ReceiveMessage(q);
      match m.result
      case Err(code) => Drained([], Some(code), m.rest)
      case Ok(message) =>
        var d := DrainOf(m.rest, live - 1);
        d.(delivered := [message] + d.delivered)
  }

  function Prefixed(ms: seq<seq<Frame>>, d: Drained): Drained {
    d.(delivered := ms + d.delivered)
  }

  /** How many times `isConnected()` answers true during one drain: never for
      a socket that is not connected; for one whose receiver of the
      `(k+1)`-th message closes it, `k + 1` times; otherwise for as long as
      there is anything to read. */
  function Live(s: NotifierSocket, closedBy: Option<nat>): nat {
    if !s.connected then 0
    else if closedBy.Some? then closedBy.value + 1
    else |s.inbox|
  }

  /** `socketReadActivity()` (side ReadSide) and `socketWriteActivity()`
      (side WriteSide): the notifier is disabled, then one `messageReceived`
      per drained message, then one `notifierError` if a receive threw, then
      the notifier is enabled again. `closedBy` says which receiver, if any,
      closes the socket. */
  method Activity(s: NotifierSocket, side: Side, closedBy: Option<nat>) returns (r: NotifierSocket, signals: seq<Signal>)
    ensures side == ReadSide ==> r.readEnabled && r.writeEnabled == s.writeEnabled
    ensures side == WriteSide ==> r.writeEnabled && r.readEnabled == s.readEnabled
    ensures var d := DrainOf(s.inbox, Live(s, closedBy));
      && signals == [Disabled(side)] + Emitted(d.delivered) +
                    (if d.failure.Some? then [NotifierError(d.failure.value)] else []) + [Enabled(side)]
      && r.inbox == d.rest
      && r.connected == (s.connected && !(closedBy.Some? && closedBy.value < |d.delivered|))
  {
    var d := Drain(s.inbox, Live(s, closedBy));
    var closed := closedBy.Some? && closedBy.value < |d.delivered|;
    r := SetEnabled(s.(inbox := d.rest, connected := s.connected && !closed), side, true);
    signals := [Disabled(side)] + Emitted(d.delivered);
    if d.failure.Some? {
      signals := signals + [NotifierError(d.failure.value)];
    } else {
      assert signals + [] == signals;
    }
    signals := signals + [Enabled(side)];
  }

  /** The loop of the activity handlers: `receiveMessage()` while connected
      and POLLIN is reported, until a receive throws. */
  method Drain(inbox: Inbox, live: nat) returns (d: Drained)
    ensures d == DrainOf(inbox, live)
  {
    var delivered: seq<seq<Frame>> := [];
    var failure: Option<int> := None;
    var rest := inbox;
    var checks: nat := 0;
    assert Prefixed([], DrainOf(inbox, live)) == DrainOf(inbox, live);
    while failure.None? && checks < live && Events(NotifierSocket(false, false, true, rest)) & POLLIN != 0
      invariant checks <= live
      invariant failure.None? ==> DrainOf(inbox, live) == Prefixed(delivered, DrainOf(rest, live - checks))
      invariant failure.Some? ==> DrainOf(inbox, live) == Drained(delivered, failure, rest)
      decreases |rest|, failure.None?
    {
      var m := ReceiveMessage(rest);
      rest := m.rest;
      if m.result.Err? {
        failure := Some(m.result.code);
      } else {
        PrefixedAppend(delivered, m.result.value, DrainOf(m.rest, live - checks - 1));
        delivered := delivered + [m.result.value];
      }
      checks := checks + 1;
    }
    if failure.None? {
      assert DrainOf(rest, live - checks).delivered == [];
      assert delivered + [] == delivered;
    }
    d := Drained(delivered, failure, rest);
  }

  lemma PrefixedAppend(ms: seq<seq<Frame>>, m: seq<Frame>, d: Drained)
    ensures Prefixed(ms, d.(delivered := [m] + d.delivered)) == Prefixed(ms + [m], d)
  {
    assert ms + ([m] + d.delivered) == ms + [m] + d.delivered;
  }

  /** While the socket stays connected, the drain returns what
      `receiveMessages()` would: all queued messages in order when no receive
      throws, and otherwise the fault's code, with the queue left after the
      fault. */
  lemma {:induction false} DrainAgreesWithReceiveMessages(q: Inbox, live: nat)
    requires live >= |q|
    ensures Agrees(DrainOf(q, live), ReceiveMessages(q))
    decreases |q|
  {
    if |q| > 0 {
      var m := ReceiveMessage(q);
      if m.result.Ok? {
        DrainAgreesWithReceiveMessages(m.rest, live - 1);
        AgreesStep(q, live);
      }
    }
  }

  /** A drain and a `receiveMessages()` agree: neither fails or both fail
      with the same code; the messages match when neither fails, and the
      queues left behind match. */
  predicate Agrees(d: Drained, all: Received<seq<seq<Frame>>>) {
    && (d.failure.None? <==> all.result.Ok?)
    && (all.result.Ok? ==> d.delivered == all.result.value && d.rest == [])
    && (all.result.Err? ==> d.failure == Some(all.result.code) && d.rest == all.rest)
  }

  lemma AgreesStep(q: Inbox, live: nat)
    requires live > 0 && |q| > 0
    requires ReceiveMessage(q).result.Ok?
    requires Agrees(DrainOf(ReceiveMessage(q).rest, live - 1), ReceiveMessages(ReceiveMessage(q).rest))
    ensures Agrees(DrainOf(q, live), ReceiveMessages(q))
  {
    var m := ReceiveMessage(q);
    DrainStep(q, live, m.result.value, m.rest);
  }

  /** The queue that messages sent one after the other leave ahead of a
      fault and whatever follows it. */
  function FaultAfter(msgs: seq<seq<Frame>>, flags: Flags, code: int, tail: Inbox): Inbox {
    Deliver(FramedAll(msgs, flags)) + [Fault(code)] + tail
  }

  /** Messages sent one after the other and queued ahead of a fault are
      emitted intact and in order while the socket stays connected, and the
      fault then ends the drain with its error. */
  lemma {:induction false} DrainDeliversBeforeFault(msgs: seq<seq<Frame>>, flags: Flags, code: int, tail: Inbox, live: nat)
    requires forall i :: 0 <= i < |msgs| ==> |msgs[i]| > 0
    requires !HasMore(flags)
    requires live > |msgs|
    ensures DrainOf(FaultAfter(msgs, flags, code, tail), live) == Drained(msgs, Some(code), tail)
    decreases |msgs|
  {
    var q := FaultAfter(msgs, flags, code, tail);
    if |msgs| == 0 {
      assert q == [Fault(code)] + tail;
      assert q[1..] == tail;
    } else {
      DrainPeels(msgs, flags, code, tail, live);
      DrainDeliversBeforeFault(msgs[1..], flags, code, tail, live - 1);
      assert [msgs[0]] + msgs[1..] == msgs;
    }
  }

  /** When a receiver closes the socket after the `live`-th of those
      messages, the drain stops there and the rest, fault included, stays
      queued. */
  lemma {:induction false} DrainStopsWhenClosed(msgs: seq<seq<Frame>>, flags: Flags, code: int, tail: Inbox, live: nat)
    requires forall i :: 0 <= i < |msgs| ==> |msgs[i]| > 0
    requires !HasMore(flags)
    requires live <= |msgs|
    ensures DrainOf(FaultAfter(msgs, flags, code, tail), live) ==
      Drained(msgs[..live], None, FaultAfter(msgs[live..], flags, code, tail))
    decreases |msgs|
  {
    if live == 0 {
      assert msgs[..0] == [] && msgs[0..] == msgs;
    } else {
      DrainPeels(msgs, flags, code, tail, live);
      DrainStopsWhenClosed(msgs[1..], flags, code, tail, live - 1);
      SlicesAfterFirst(msgs, live);
    }
  }

  /** The first of the messages is received whole and emitted first. */
  lemma DrainPeels(msgs: seq<seq<Frame>>, flags: Flags, code: int, tail: Inbox, live: nat)
    requires |msgs| > 0 && |msgs[0]| > 0
    requires !HasMore(flags)
    requires live > 0
    ensures DrainOf(FaultAfter(msgs, flags, code, tail), live) ==
      Prefixed([msgs[0]], DrainOf(FaultAfter(msgs[1..], flags, code, tail), live - 1))
  {
    var q := FaultAfter(msgs, flags, code, tail);
    var later := FaultAfter(msgs[1..], flags, code, tail);
    QueueSplit(msgs, flags, code, tail);
    SendReceiveRoundTrip(msgs[0], flags, later);
    DrainStep(q, live, msgs[0], later);
  }

  lemma SlicesAfterFirst<T>(s: seq<T>, k: nat)
    requires 0 < k <= |s|
    ensures [s[0]] + s[1..][..k - 1] == s[..k]
    ensures s[1..][k - 1..] == s[k..]
  {
  }

  /** One step of the drain: a receive that succeeds emits its message, and
      the drain goes on with the queue behind it. */
  lemma DrainStep(q: Inbox, live: nat, message: seq<Frame>, later: Inbox)
    requires live > 0 && |q| > 0
    requires ReceiveMessage(q) == Received(Ok(message), later)
    ensures DrainOf(q, live) == Prefixed([message], DrainOf(later, live - 1))
  {
  }

  lemma QueueSplit(msgs: seq<seq<Frame>>, flags: Flags, code: int, tail: Inbox)
    requires |msgs| > 0
    ensures FaultAfter(msgs, flags, code, tail) ==
      Deliver(Framed(msgs[0], flags)) + FaultAfter(msgs[1..], flags, code, tail)
  {
    var a, b := Deliver(Framed(msgs[0], flags)), Deliver(FramedAll(msgs[1..], flags));
    DeliverAppend(Framed(msgs[0], flags), FramedAll(msgs[1..], flags));
    assert a + b + [Fault(code)] + tail == a + (b + [Fault(code)] + tail);
  }
}
