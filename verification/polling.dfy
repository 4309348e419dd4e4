/** `PollingZMQContext::poll`: wait on the poll-item table, then deliver one
    received message to every socket whose poll item reported POLLIN, in
    table order; repeat until a wait reports nothing ready.

    The engine's multiplexed wait is an oracle: a sequence of rounds, each
    either the ready count and the `revents` of every poll item, or the
    exception the wait threw. Past the end of the sequence the wait reports
    nothing ready. */
module Polling {
  import opened Engine
  import opened Socket
  import opened Context

  /** What one call of the wait primitive reports. */
  datatype PollRound = Round(cnt: nat, revents: seq<Flags>) | RoundFailed(code: int)

  /** A message handed to a socket's `messageReceived` signal. */
  datatype Delivery = Delivery(socket: SocketId, message: seq<Frame>)

  /** What `poll` does that an observer can see: a wait with the given
      timeout, or a `messageReceived` emission. */
  datatype PollNotice = Waited(timeout: int) | SocketMessageReceived(socket: SocketId, message: seq<Frame>)

  type Inboxes = map<SocketId, Inbox>

  function InboxOf(b: Inboxes, id: SocketId): Inbox {
    if id in b then b[id] else []
  }

  function RoundAt(rounds: seq<PollRound>, n: nat): PollRound {
    if n < |rounds| then rounds[n] else Round(0, [])
  }

  function ReventsAt(revents: seq<Flags>, k: nat): Flags {
    if k < |revents| then revents[k] else 0
  }

  /** Reference definition: the registered sockets whose poll item reported
      POLLIN, in registry order. */
  function ReadySockets(registry: seq<SocketId>, revents: seq<Flags>): (s: seq<SocketId>)
    ensures |s| <= |registry|
  {
    if |registry| == 0 then []
    else
      var k := |registry| - 1;
      ReadySockets(registry[..k], revents) + (if Readable(ReventsAt(revents, k)) then [registry[k]] else [])
  }

  function Take<T>(s: seq<T>, n: nat): seq<T> {
    if n <= |s| then s[..n] else s
  }

  function Targets(ds: seq<Delivery>): seq<SocketId> {
    seq(|ds|, j requires 0 <= j < |ds| => ds[j].socket)
  }

  lemma {:induction false} ReadySocketsPrefix(registry: seq<SocketId>, revents: seq<Flags>, k: nat, n: nat)
    requires k <= n <= |registry|
    ensures |ReadySockets(registry[..k], revents)| <= |ReadySockets(registry[..n], revents)|
    ensures ReadySockets(registry[..k], revents) ==
            ReadySockets(registry[..n], revents)[..|ReadySockets(registry[..k], revents)|]
    decreases n - k
  {
    if k < n {
      ReadySocketsPrefix(registry, revents, k, n - 1);
      assert registry[..n][..n - 1] == registry[..n - 1];
    }
  }

  /** What serving sockets one receive each leaves: the messages handed out,
      the queues afterwards, and the code of the exception that ended the
      serving, if one did. */
  datatype Served = Served(deliveries: seq<Delivery>, inboxes: Inboxes, error: Option<int>)

  /** One more socket served: unless an exception already ended the serving,
      receive one message from it, and either hand the message out or stop
      with the exception. The receive consumes its frames either way. */
  function ServeOne(s: Served, id: SocketId): Served {
    if s.error.Some? then s
    else
      var r := ReceiveMessage(InboxOf(s.inboxes, id));
      var inboxes := s.inboxes[id := r.rest];
      match r.result
      case Err(code) => Served(s.deliveries, inboxes, Some(code))
      case Ok(message) => Served(s.deliveries + [Delivery(id, message)], inboxes, None)
  }

  /** Reference definition: serve `targets` in order. */
  function Serve(targets: seq<SocketId>, inboxes: Inboxes): (s: Served)
    decreases |targets|
    ensures |s.deliveries| <= |targets|
  {
    if |targets| == 0 then Served([], inboxes, None)
    else ServeOne(Serve(targets[..|targets| - 1], inboxes), targets[|targets| - 1])
  }

  lemma ServeSnoc(targets: seq<SocketId>, id: SocketId, inboxes: Inboxes)
    ensures Serve(targets + [id], inboxes) == ServeOne(Serve(targets, inboxes), id)
  {
    assert (targets + [id])[..|targets|] == targets;
  }

  /** Once a receive has thrown, the sockets after it are not served. */
  lemma {:induction false} ServeErrorSticks(targets: seq<SocketId>, more: seq<SocketId>, inboxes: Inboxes)
    requires Serve(targets, inboxes).error.Some?
    ensures Serve(targets + more, inboxes) == Serve(targets, inboxes)
    decreases |more|
  {
    if |more| > 0 {
      var init := more[..|more| - 1];
      ServeErrorSticks(targets, init, inboxes);
      assert targets + more == (targets + init) + [more[|more| - 1]];
      ServeSnoc(targets + init, more[|more| - 1], inboxes);
    } else {
      assert targets + more == targets;
    }
  }

  /** The sockets are served in the order given: all of them unless a
      receive throws, and otherwise those before the one whose receive threw. */
  lemma {:induction false} ServeInOrder(targets: seq<SocketId>, inboxes: Inboxes)
    ensures var s := Serve(targets, inboxes);
      && Targets(s.deliveries) == targets[..|s.deliveries|]
      && (s.error.None? <==> |s.deliveries| == |targets|)
    decreases |targets|
  {
    if |targets| > 0 {
      var init := targets[..|targets| - 1];
      ServeInOrder(init, inboxes);
      var s := Serve(init, inboxes);
      if s.error.None? {
        var r := ReceiveMessage(InboxOf(s.inboxes, targets[|targets| - 1]));
        if r.result.Ok? {
          TargetsAppend(s.deliveries, Delivery(targets[|targets| - 1], r.result.value));
          assert init[..|s.deliveries|] == init;
        }
      }
    }
  }

  /** A delivery carries the message one receive from the socket's original
      queue returns. */
  predicate Carries(inboxes: Inboxes, d: Delivery) {
    ReceiveMessage(InboxOf(inboxes, d.socket)).result == Ok(d.message)
  }

  /** Queues of sockets that are not served are left as they were. */
  lemma {:induction false} ServeKeepsOthers(targets: seq<SocketId>, inboxes: Inboxes, id: SocketId)
    requires id !in targets
    ensures InboxOf(Serve(targets, inboxes).inboxes, id) == InboxOf(inboxes, id)
    decreases |targets|
  {
    if |targets| > 0 {
      ServeKeepsOthers(targets[..|targets| - 1], inboxes, id);
    }
  }

  /** When no socket is served twice, every receive reads the socket's
      original queue: each message handed out is what one receive from that
      queue returns, and the exception that ends the serving is the one a
      receive from the next socket's original queue throws. */
  lemma {:induction false} ServeReadsOriginalQueues(targets: seq<SocketId>, inboxes: Inboxes)
    requires Distinct(targets)
    ensures var s := Serve(targets, inboxes);
      && (forall j :: 0 <= j < |s.deliveries| ==> Carries(inboxes, s.deliveries[j]))
      && (s.error.Some? ==>
            |s.deliveries| < |targets| &&
            ReceiveMessage(InboxOf(inboxes, targets[|s.deliveries|])).result == Err(s.error.value))
    decreases |targets|
  {
    if |targets| > 0 {
      var init, id := targets[..|targets| - 1], targets[|targets| - 1];
      assert Distinct(init);
      ServeReadsOriginalQueues(init, inboxes);
      var s := Serve(init, inboxes);
      if s.error.None? {
        assert id !in init;
        ServeKeepsOthers(init, inboxes, id);
        ServeInOrder(init, inboxes);
      }
    }
  }

  /** Every socket a message was handed out for is left with what one
      receive from its original queue leaves. */
  lemma {:induction false} ServeConsumesOneMessage(targets: seq<SocketId>, inboxes: Inboxes)
    requires Distinct(targets)
    ensures var s := Serve(targets, inboxes);
      forall j :: 0 <= j < |s.deliveries| ==>
        InboxOf(s.inboxes, s.deliveries[j].socket) == ReceiveMessage(InboxOf(inboxes, s.deliveries[j].socket)).rest
    decreases |targets|
  {
    if |targets| > 0 {
      var init, id := targets[..|targets| - 1], targets[|targets| - 1];
      assert Distinct(init);
      ServeConsumesOneMessage(init, inboxes);
      var s := Serve(init, inboxes);
      var s' := ServeOne(s, id);
      if s.error.None? {
        ServeInOrder(init, inboxes);
        assert id !in init;
        ServeKeepsOthers(init, inboxes, id);
        forall j | 0 <= j < |s'.deliveries|
          ensures InboxOf(s'.inboxes, s'.deliveries[j].socket) == ReceiveMessage(InboxOf(inboxes, s'.deliveries[j].socket)).rest
        {
          if j < |s.deliveries| {
            assert s'.deliveries[j] == s.deliveries[j];
            assert s.deliveries[j].socket == Targets(s.deliveries)[j] == init[j];
          }
        }
      }
    }
  }

  lemma TargetsAppend(ds: seq<Delivery>, d: Delivery)
    ensures Targets(ds + [d]) == Targets(ds) + [d.socket]
  {
  }

  /** One round of the dispatch loop: walk the poll items and the registry in
      lock-step; for each item reporting POLLIN receive one message from the
      socket at the same position and emit `messageReceived`; stop once `cnt`
      sockets were served. A receive that throws ends the round (and the poll)
      with that error. The round serves the first `cnt` ready sockets. */
  method DispatchRound(c: Ctx, revents: seq<Flags>, cnt: nat, inboxes: Inboxes)
    returns (ds: seq<Delivery>, inboxes': Inboxes, error: Option<int>)
    requires c.strategy.Polling? && Aligned(c)
    ensures Served(ds, inboxes', error) == Serve(Take(ReadySockets(c.registry, revents), cnt), inboxes)
  {
    ds := [];
    inboxes' := inboxes;
    error := None;
    var i := 0;
    var k := 0;
    while i < cnt && k < |c.pollItems|
      invariant 0 <= k <= |c.registry| == |c.pollItems|
      invariant i == |ds| <= cnt
      invariant |ReadySockets(c.registry[..k], revents)| == |ds|
      invariant Serve(ReadySockets(c.registry[..k], revents), inboxes) == Served(ds, inboxes', None)
    {
      var ready := ReadySockets(c.registry[..k], revents);
      if Readable(ReventsAt(revents, k)) {
        var id := c.registry[k];
        var r := ReceiveMessage(InboxOf(inboxes', id));
        var next := ServeOne(Served(ds, inboxes', None), id);
        assert |ReadySockets(c.registry[..k + 1], revents)| == |ready| + 1 &&
               Serve(ReadySockets(c.registry[..k + 1], revents), inboxes) == next by {
          ReadyStep(c.registry, revents, k);
          ServeSnoc(ready, id, inboxes);
        }
        inboxes' := inboxes'[id := r.rest];
        if r.result.Err? {
          error := Some(r.result.code);
          ErrorEndsRound(c.registry, revents, cnt, k, inboxes);
          return;
        }
        ds := ds + [Delivery(id, r.result.value)];
        i := i + 1;
      } else {
        assert ReadySockets(c.registry[..k + 1], revents) == ready by {
          ReadyStep(c.registry, revents, k);
          assert ready + [] == ready;
        }
      }
      k := k + 1;
    }
    RoundComplete(c.registry, revents, cnt, k);
  }

  lemma ReadyStep(registry: seq<SocketId>, revents: seq<Flags>, k: nat)
    requires k < |registry|
    ensures ReadySockets(registry[..k + 1], revents) ==
      ReadySockets(registry[..k], revents) + (if Readable(ReventsAt(revents, k)) then [registry[k]] else [])
  {
    assert registry[..k + 1][..k] == registry[..k];
  }

  /** A receive failing at position `k` of a POLLIN item ends the round as
      serving all of the first `cnt` ready sockets would. */
  lemma ErrorEndsRound(registry: seq<SocketId>, revents: seq<Flags>, cnt: nat, k: nat, inboxes: Inboxes)
    requires k < |registry|
    requires |ReadySockets(registry[..k + 1], revents)| <= cnt
    requires Serve(ReadySockets(registry[..k + 1], revents), inboxes).error.Some?
    ensures Serve(Take(ReadySockets(registry, revents), cnt), inboxes) ==
            Serve(ReadySockets(registry[..k + 1], revents), inboxes)
  {
    var served := ReadySockets(registry[..k + 1], revents);
    var all := Take(ReadySockets(registry, revents), cnt);
    ReadySocketsPrefix(registry, revents, k + 1, |registry|);
    assert registry[..|registry|] == registry;
    assert all == served + all[|served|..];
    ServeErrorSticks(served, all[|served|..], inboxes);
  }

  /** The walk ends once `cnt` sockets are served or the table is exhausted;
      either way it served the first `cnt` ready sockets. */
  lemma RoundComplete(registry: seq<SocketId>, revents: seq<Flags>, cnt: nat, k: nat)
    requires k <= |registry| && |ReadySockets(registry[..k], revents)| <= cnt
    requires |ReadySockets(registry[..k], revents)| == cnt || k == |registry|
    ensures ReadySockets(registry[..k], revents) == Take(ReadySockets(registry, revents), cnt)
  {
    ReadySocketsPrefix(registry, revents, k, |registry|);
    assert registry[..|registry|] == registry;
  }

  function Notices(ds: seq<Delivery>): (ns: seq<PollNotice>)
    ensures |ns| == |ds|
  {
    seq(|ds|, j requires 0 <= j < |ds| => SocketMessageReceived(ds[j].socket, ds[j].message))
  }

  /** What a poll does: its notices, the queues it leaves, the exception that
      ended it (if one did), and how many waits it made. */
  datatype Outcome = Outcome(notices: seq<PollNotice>, inboxes: Inboxes, error: Option<int>, used: nat)

  /** `prefix` observed over `waits` earlier waits, then `o`. */
  function After(prefix: seq<PollNotice>, waits: nat, o: Outcome): Outcome {
    o.(notices := prefix + o.notices, used := waits + o.used)
  }

  /** Reference definition of the wait-then-dispatch rounds over a non-empty
      table: wait; stop on an exception or when nothing is ready; otherwise
      serve the first `cnt` ready sockets and, unless a receive threw, go
      round again. */
  function Rounds(registry: seq<SocketId>, timeout: int, rounds: seq<PollRound>, inboxes: Inboxes): (o: Outcome)
    decreases |rounds|
    ensures o.used >= 1
  {
    match RoundAt(rounds, 0)
    case RoundFailed(code) => Outcome([Waited(timeout)], inboxes, Some(code), 1)
    case Round(cnt, revents) =>
      if cnt == 0 || |rounds| == 0 then Outcome([Waited(timeout)], inboxes, None, 1)
      else
        var s := Serve(Take(ReadySockets(registry, revents), cnt), inboxes);
        var first := [Waited(timeout)] + Notices(s.deliveries);
        if s.error.Some? then Outcome(first, s.inboxes, s.error, 1)
        else After(first, 1, Rounds(registry, timeout, rounds[1..], s.inboxes))
  }

  /** What `poll` does: nothing at all for an empty table, the rounds
      otherwise. */
  function PollOutcome(c: Ctx, timeout: int, rounds: seq<PollRound>, inboxes: Inboxes): Outcome {
    if |c.pollItems| == 0 then Outcome([], inboxes, None, 0)
    else Rounds(c.registry, timeout, rounds, inboxes)
  }

  /** `PollingZMQContext::poll(timeout)`: nothing at all for an empty table;
      otherwise rounds of wait-then-dispatch, each wait with the caller's
      `timeout`, until a wait reports no ready item, a wait throws, or a
      receive throws. `used` is the number of waits. */
  method Poll(c: Ctx, timeout: int, rounds: seq<PollRound>, inboxes: Inboxes)
    returns (notices: seq<PollNotice>, inboxes': Inboxes, error: Option<int>, used: nat)
    requires c.strategy.Polling? && Aligned(c)
    ensures Outcome(notices, inboxes', error, used) == PollOutcome(c, timeout, rounds, inboxes)
  {
    notices := [];
    inboxes' := inboxes;
    error := None;
    used := 0;
    if |c.pollItems| == 0 {
      return;
    }
    var whole := Rounds(c.registry, timeout, rounds, inboxes);
    assert rounds[0..] == rounds;
    while true
      invariant used <= |rounds|
      invariant whole == After(notices, used, Rounds(c.registry, timeout, rounds[used..], inboxes'))
      decreases |rounds| - used
    {
      var round := RoundAt(rounds, used);
      assert RoundAt(rounds[used..], 0) == round;
      match round
      case RoundFailed(code) =>
        notices, error, used := notices + [Waited(timeout)], Some(code), used + 1;
        return;
      case Round(cnt, revents) =>
        if cnt == 0 {
          notices, used := notices + [Waited(timeout)], used + 1;
          return;
        }
        var ds, inb, err := DispatchRound(c, revents, cnt, inboxes');
        var first := [Waited(timeout)] + Notices(ds);
        if err.Some? {
          notices, inboxes', error, used := notices + first, inb, err, used + 1;
          return;
        }
        assert rounds[used..][1..] == rounds[used + 1..];
        AfterAfter(notices, used, first, Rounds(c.registry, timeout, rounds[used + 1..], inb));
        notices, inboxes', used := notices + first, inb, used + 1;
    }
  }

  lemma AfterAfter(prefix: seq<PollNotice>, waits: nat, first: seq<PollNotice>, o: Outcome)
    ensures After(prefix, waits, After(first, 1, o)) == After(prefix + first, waits + 1, o)
  {
    assert prefix + (first + o.notices) == prefix + first + o.notices;
  }

  lemma {:induction false} ReadySocketsIn(registry: seq<SocketId>, revents: seq<Flags>)
    ensures forall i :: 0 <= i < |ReadySockets(registry, revents)| ==> ReadySockets(registry, revents)[i] in registry
  {
    if |registry| > 0 {
      ReadySocketsIn(registry[..|registry| - 1], revents);
    }
  }

  /** A registry without repeats yields ready sockets without repeats, so a
      round never serves a socket twice. */
  lemma {:induction false} ReadySocketsDistinct(registry: seq<SocketId>, revents: seq<Flags>, cnt: nat)
    requires Distinct(registry)
    ensures Distinct(Take(ReadySockets(registry, revents), cnt))
    decreases |registry|
  {
    if |registry| > 0 {
      var init, last := registry[..|registry| - 1], registry[|registry| - 1];
      var ready := ReadySockets(init, revents);
      assert Distinct(init);
      ReadySocketsDistinct(init, revents, |ready|);
      assert Take(ready, |ready|) == ready;
      ReadySocketsIn(init, revents);
      assert last !in init;
      assert last !in ready;
    }
  }

  /** How many waits a sequence of notices shows. */
  function Waits(ns: seq<PollNotice>): nat {
    if |ns| == 0 then 0 else (if ns[0].Waited? then 1 else 0) + Waits(ns[1..])
  }

  lemma {:induction false} WaitsAppend(a: seq<PollNotice>, b: seq<PollNotice>)
    ensures Waits(a + b) == Waits(a) + Waits(b)
    decreases |a|
  {
    if |a| == 0 {
      assert a + b == b;
    } else {
      assert (a + b)[1..] == a[1..] + b;
      WaitsAppend(a[1..], b);
    }
  }

  lemma {:induction false} NoWaitsInDeliveries(ds: seq<Delivery>)
    ensures Waits(Notices(ds)) == 0
    decreases |ds|
  {
    if |ds| > 0 {
      assert Notices(ds)[1..] == Notices(ds[1..]);
      NoWaitsInDeliveries(ds[1..]);
    }
  }

  /** The notices of the rounds open with a wait, show one wait per round,
      every wait with the caller's timeout, and hand out messages only for
      registered sockets. */
  lemma {:induction false} RoundsNotices(registry: seq<SocketId>, timeout: int, rounds: seq<PollRound>, inboxes: Inboxes)
    ensures var o := Rounds(registry, timeout, rounds, inboxes);
      && |o.notices| > 0 && o.notices[0] == Waited(timeout)
      && Waits(o.notices) == o.used
      && (forall n :: n in o.notices && n.Waited? ==> n.timeout == timeout)
      && (forall n :: n in o.notices && n.SocketMessageReceived? ==> n.socket in registry)
    decreases |rounds|
  {
    match RoundAt(rounds, 0)
    case RoundFailed(code) =>
    case Round(cnt, revents) =>
      if cnt > 0 && |rounds| > 0 {
        var s := Serve(Take(ReadySockets(registry, revents), cnt), inboxes);
        var first := [Waited(timeout)] + Notices(s.deliveries);
        ReadySocketsIn(registry, revents);
        RoundNotices(registry, timeout, Take(ReadySockets(registry, revents), cnt), inboxes);
        if s.error.None? {
          var later := Rounds(registry, timeout, rounds[1..], s.inboxes);
          RoundsNotices(registry, timeout, rounds[1..], s.inboxes);
          WaitsAppend(first, later.notices);
        }
      }
  }

  /** The notices of one round: its wait, then one `messageReceived` per
      served socket, each a registered one when the targets are. */
  lemma RoundNotices(registry: seq<SocketId>, timeout: int, targets: seq<SocketId>, inboxes: Inboxes)
    requires forall i :: 0 <= i < |targets| ==> targets[i] in registry
    ensures var first := [Waited(timeout)] + Notices(Serve(targets, inboxes).deliveries);
      && Waits(first) == 1
      && (forall n :: n in first && n.Waited? ==> n.timeout == timeout)
      && (forall n :: n in first && n.SocketMessageReceived? ==> n.socket in registry)
  {
    var ds := Serve(targets, inboxes).deliveries;
    NoWaitsInDeliveries(ds);
    WaitsAppend([Waited(timeout)], Notices(ds));
    ServeInOrder(targets, inboxes);
    forall n | n in Notices(ds) ensures n.SocketMessageReceived? && n.socket in registry {
      var j :| 0 <= j < |ds| && Notices(ds)[j] == n;
      assert n.socket == Targets(ds)[j] == targets[j];
    }
  }

  /** The rounds go on exactly while waits report something ready and every
      receive succeeds: all waits but the last reported a positive count, and
      the last one either reported nothing ready, threw (whose code the poll
      then reports), or was followed by a receive that threw. */
  lemma {:induction false} RoundsStopWhenIdle(registry: seq<SocketId>, timeout: int, rounds: seq<PollRound>, inboxes: Inboxes)
    ensures var o := Rounds(registry, timeout, rounds, inboxes);
      && o.used <= |rounds| + 1
      && (forall n :: 0 <= n < o.used - 1 ==> RoundAt(rounds, n).Round? && RoundAt(rounds, n).cnt > 0)
      && (o.error.None? ==> RoundAt(rounds, o.used - 1).Round? && RoundAt(rounds, o.used - 1).cnt == 0)
      && (RoundAt(rounds, o.used - 1).RoundFailed? ==> o.error == Some(RoundAt(rounds, o.used - 1).code))
    decreases |rounds|
  {
    var o := Rounds(registry, timeout, rounds, inboxes);
    match RoundAt(rounds, 0)
    case RoundFailed(code) =>
    case Round(cnt, revents) =>
      if cnt > 0 && |rounds| > 0 {
        var s := Serve(Take(ReadySockets(registry, revents), cnt), inboxes);
        if s.error.None? {
          RoundsStopWhenIdle(registry, timeout, rounds[1..], s.inboxes);
          forall n | 0 <= n < o.used ensures RoundAt(rounds, n) == if n == 0 then rounds[0] else RoundAt(rounds[1..], n - 1) { }
        }
      }
  }

  /** The queues of sockets that are not registered are never touched. */
  lemma {:induction false} RoundsKeepUnregistered(registry: seq<SocketId>, timeout: int, rounds: seq<PollRound>, inboxes: Inboxes, id: SocketId)
    requires id !in registry
    ensures InboxOf(Rounds(registry, timeout, rounds, inboxes).inboxes, id) == InboxOf(inboxes, id)
    decreases |rounds|
  {
    match RoundAt(rounds, 0)
    case RoundFailed(code) =>
    case Round(cnt, revents) =>
      if cnt > 0 && |rounds| > 0 {
        var targets := Take(ReadySockets(registry, revents), cnt);
        ReadySocketsIn(registry, revents);
        assert id !in targets;
        ServeKeepsOthers(targets, inboxes, id);
        var s := Serve(targets, inboxes);
        if s.error.None? {
          RoundsKeepUnregistered(registry, timeout, rounds[1..], s.inboxes, id);
        }
      }
  }
}
