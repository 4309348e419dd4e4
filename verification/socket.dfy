/** Multi-part framing and draining of `ZMQSocket`: `sendMessage` of a list of
    frames, `receiveMessage` (one logical message) and `receiveMessages` (all
    messages currently queued), over the engine of module Engine. */
module Socket {
  import opened Engine

  function Min(a: int, b: int): int {
    if a <= b then a else b
  }

  /** The wire image of a multi-part message sent with `flags`: the frames in
      order, every frame but the last with SNDMORE added to the flags. */
  function Framed(msg: seq<Frame>, flags: Flags): (w: seq<SentFrame>)
    ensures |w| == |msg|
  {
    seq(|msg|, i requires 0 <= i < |msg| =>
      SentFrame(msg[i], if i < |msg| - 1 then flags | SNDMORE else flags))
  }

  /** The wire images of several messages sent one after the other. */
  function FramedAll(msgs: seq<seq<Frame>>, flags: Flags): seq<SentFrame>
  {
    if |msgs| == 0 then [] else Framed(msgs[0], flags) + FramedAll(msgs[1..], flags)
  }

  /** `ZMQSocket::sendMessage(const QList<QByteArray>&, SendFlags)`: the frames
      go out one single-frame send at a time; the first refused send ends the
      call with false, and the engine keeps whatever it already accepted. */
  method SendMessage(msg: seq<Frame>, flags: Flags, out: Outgoing) returns (ok: bool, out': Outgoing)
    ensures |msg| == 0 ==> ok && out' == out
    ensures ok <==> out.room >= |msg|
    ensures out'.sent == out.sent + Framed(msg, flags)[..Min(out.room, |msg|)]
    ensures out'.room == out.room - Min(out.room, |msg|)
  {
    out' := out;
    var i: int := 0;
    while i < |msg| - 1
      invariant 0 <= i
      invariant |msg| == 0 ==> i == 0
      invariant |msg| > 0 ==> i <= |msg| - 1
      invariant i <= out.room
      invariant out'.sent == out.sent + Framed(msg, flags)[..i]
      invariant out'.room == out.room - i
    {
      var r := SendFrame(out', SentFrame(msg[i], flags | SNDMORE));
      out' := r.1;
      if !r.0 {
        return false, out';
      }
      assert Framed(msg, flags)[..i + 1] == Framed(msg, flags)[..i] + [Framed(msg, flags)[i]];
      i := i + 1;
    }
    if i < |msg| {
      var r := SendFrame(out', SentFrame(msg[i], flags));
      out' := r.1;
      if r.0 {
        assert Framed(msg, flags)[..i + 1] == Framed(msg, flags)[..i] + [Framed(msg, flags)[i]];
      }
      return r.0, out';
    }
    return true, out';
  }

  /** A receive's outcome (what it returned or threw) and the queue left behind. */
  datatype Received<T> = Received(result: Result<T>, rest: Inbox)

  /** `ZMQSocket::receiveMessage()`: single-frame receives until the engine
      reports no more parts. The loop also ends when a receive finds nothing,
      which can cut a message short; an error thrown by a receive loses the
      parts read so far. */
  function ReceiveMessage(q: Inbox): (r: Received<seq<Frame>>)
    decreases |q|
    ensures |r.rest| <= |q|
    ensures |q| > 0 ==> |r.rest| < |q|
    ensures (r.result.Ok? && |r.result.value| == 0) <==> |q| == 0
  {
    if |q| == 0 then Received(Ok([]), q)
    else match q[0]
      case Fault(code) => Received(Err(code), q[1..])
      case Arrived(p) =>
        if !p.more then Received(Ok([p.data]), q[1..])
        else
          var r := ReceiveMessage(q[1..]);
          if r.result.Err? then r else Received(Ok([p.data] + r.result.value), r.rest)
  }

  /** A receive consumes a prefix of the queue: what it leaves is a suffix. */
  lemma {:induction false} ReceiveMessageSuffix(q: Inbox)
    ensures var r := ReceiveMessage(q); r.rest == q[|q| - |r.rest|..]
    decreases |q|
  {
    if |q| > 0 && q[0].Arrived? && q[0].part.more {
      ReceiveMessageSuffix(q[1..]);
    }
  }

  /** What a successful `receiveMessage()` consumed: one arrived frame per
      returned frame, in order, all but the last flagged "more" and the last
      unflagged unless the queue ran dry. */
  lemma {:induction false} ReceiveMessageOk(q: Inbox)
    requires ReceiveMessage(q).result.Ok?
    ensures var r := ReceiveMessage(q);
      |r.result.value| == |q| - |r.rest| &&
      (forall i :: 0 <= i < |r.result.value| ==> q[i].Arrived? && q[i].part.data == r.result.value[i]) &&
      (forall i :: 0 <= i < |r.result.value| - 1 ==> q[i].part.more) &&
      (|r.result.value| > 0 && |r.rest| > 0 ==> !q[|r.result.value| - 1].part.more)
    decreases |q|
  {
    if |q| > 0 && q[0].Arrived? && q[0].part.more {
      ReceiveMessageOk(q[1..]);
    }
  }

  /** What a failed `receiveMessage()` consumed: arrived "more" frames, whose
      data is lost, and then the fault that was thrown. */
  lemma {:induction false} ReceiveMessageErr(q: Inbox)
    requires ReceiveMessage(q).result.Err?
    ensures var r := ReceiveMessage(q);
      var k := |q| - |r.rest|;
      0 < k && q[k - 1] == Fault(r.result.code) &&
      forall i :: 0 <= i < k - 1 ==> q[i].Arrived? && q[i].part.more
    decreases |q|
  {
    if q[0].Arrived? {
      ReceiveMessageErr(q[1..]);
    }
  }

  predicate HasFault(q: Inbox) {
    exists i :: 0 <= i < |q| && q[i].Fault?
  }

  function Flatten(ms: seq<seq<Frame>>): seq<Frame> {
    if |ms| == 0 then [] else ms[0] + Flatten(ms[1..])
  }

  /** The frames of the arrived entries of a queue, in order. */
  function Payload(q: Inbox): seq<Frame> {
    if |q| == 0 then []
    else (if q[0].Arrived? then [q[0].part.data] else []) + Payload(q[1..])
  }

  /** `ZMQSocket::receiveMessages()`: `receiveMessage()` repeated until it
      returns an empty list. */
  function ReceiveMessages(q: Inbox): (r: Received<seq<seq<Frame>>>)
    decreases |q|
    ensures r.result.Ok? ==> r.rest == []
    ensures r.result.Ok? ==> forall i :: 0 <= i < |r.result.value| ==> |r.result.value[i]| > 0
  {
    var m := ReceiveMessage(q);
    if m.result.Err? then Received(Err(m.result.code), m.rest)
    else if |m.result.value| == 0 then Received(Ok([]), m.rest)
    else
      var ms := ReceiveMessages(m.rest);
      if ms.result.Err? then ms
      else Received(Ok([m.result.value] + ms.result.value), ms.rest)
  }

  /** `receiveMessages()` throws exactly when the queue holds a fault. */
  lemma {:induction false} ReceiveMessagesFailsOnFault(q: Inbox)
    ensures ReceiveMessages(q).result.Err? <==> HasFault(q)
    decreases |q|
  {
    var m := ReceiveMessage(q);
    ReceiveMessageSuffix(q);
    if m.result.Err? {
      ReceiveMessageErr(q);
      assert q[|q| - |m.rest| - 1].Fault?;
    } else if |m.result.value| > 0 {
      ReceiveMessagesFailsOnFault(m.rest);
      ReceiveMessageOk(q);
      FaultAfterPrefix(q, |q| - |m.rest|);
    }
  }

  /** A fault lies beyond a prefix of arrived frames iff it lies in the queue. */
  lemma FaultAfterPrefix(q: Inbox, k: nat)
    requires k <= |q|
    requires forall i :: 0 <= i < k ==> q[i].Arrived?
    ensures HasFault(q) <==> HasFault(q[k..])
  {
    if HasFault(q) {
      var i :| 0 <= i < |q| && q[i].Fault?;
      assert q[k..][i - k] == q[i];
    }
    if HasFault(q[k..]) {
      var i :| 0 <= i < |q[k..]| && q[k..][i].Fault?;
      assert q[k + i] == q[k..][i];
    }
  }

  lemma PayloadAppend(a: Inbox, b: Inbox)
    ensures Payload(a + b) == Payload(a) + Payload(b)
  {
    if |a| > 0 {
      assert (a + b)[1..] == a[1..] + b;
      PayloadAppend(a[1..], b);
    } else {
      assert a + b == b;
    }
  }

  /** The frames a successful `receiveMessage()` returns are exactly the
      payload of the queue entries it consumed. */
  lemma {:induction false} ReceiveMessageConsumes(q: Inbox)
    requires ReceiveMessage(q).result.Ok?
    ensures ReceiveMessage(q).result.value == Payload(q[..|q| - |ReceiveMessage(q).rest|])
    decreases |q|
  {
    var r := ReceiveMessage(q);
    if |q| > 0 {
      var p := q[0].part;
      var k := |q| - |r.rest|;
      if p.more {
        ReceiveMessageConsumes(q[1..]);
        var r1 := ReceiveMessage(q[1..]);
        assert q[1..][..|q[1..]| - |r1.rest|] == q[1..k];
        assert q[..k] == [q[0]] + q[1..k];
        PayloadAppend([q[0]], q[1..k]);
      } else {
        assert q[..k] == [q[0]];
      }
    }
  }

  /** `receiveMessages()` returns every frame that was queued, in queue order,
      split into the messages the engine's more bits delimit. */
  lemma {:induction false} ReceiveMessagesDrainsInOrder(q: Inbox)
    requires ReceiveMessages(q).result.Ok?
    ensures Flatten(ReceiveMessages(q).result.value) == Payload(q)
    decreases |q|
  {
    var m := ReceiveMessage(q);
    if |q| == 0 {
      assert ReceiveMessages(q).result.value == [];
    } else {
      var k := |q| - |m.rest|;
      var later := ReceiveMessages(m.rest);
      assert later.result.Ok? && ReceiveMessages(q).result.value == [m.result.value] + later.result.value;
      ReceiveMessagesDrainsInOrder(m.rest);
      ReceiveMessageConsumes(q);
      FlattenCons(m.result.value, later.result.value);
      ReceiveMessageSuffix(q);
      assert q == q[..k] + m.rest;
      PayloadAppend(q[..k], m.rest);
    }
  }

  lemma FlattenCons(m: seq<Frame>, ms: seq<seq<Frame>>)
    ensures Flatten([m] + ms) == m + Flatten(ms)
  {
    assert ([m] + ms)[1..] == ms;
  }

  lemma FramedTail(msg: seq<Frame>, flags: Flags)
    requires |msg| > 1
    ensures Framed(msg, flags)[1..] == Framed(msg[1..], flags)
  {
  }

  /** Round trip: a non-empty multi-part message sent with flags lacking
      SNDMORE and delivered first-in first-out is received as the same list of
      frames, and whatever was queued behind it stays queued. */
  lemma {:induction false} SendReceiveRoundTrip(msg: seq<Frame>, flags: Flags, tail: Inbox)
    requires |msg| > 0
    requires !HasMore(flags)
    ensures ReceiveMessage(Deliver(Framed(msg, flags)) + tail) == Received(Ok(msg), tail)
    decreases |msg|
  {
    var q := Deliver(Framed(msg, flags)) + tail;
    if |msg| == 1 {
      assert q[0] == Arrived(Part(msg[0], false));
      assert q[1..] == tail;
      assert [msg[0]] == msg;
    } else {
      assert HasMore(flags | SNDMORE);
      assert q[0] == Arrived(Part(msg[0], true));
      FramedTail(msg, flags);
      assert q[1..] == Deliver(Framed(msg[1..], flags)) + tail;
      SendReceiveRoundTrip(msg[1..], flags, tail);
      assert [msg[0]] + msg[1..] == msg;
    }
  }

  /** Round trip for batches: several non-empty messages sent back to back
      are all returned by one `receiveMessages()`, each intact and in order,
      and the queue is left empty. */
  lemma {:induction false} SendAllReceiveAllRoundTrip(msgs: seq<seq<Frame>>, flags: Flags)
    requires forall i :: 0 <= i < |msgs| ==> |msgs[i]| > 0
    requires !HasMore(flags)
    ensures ReceiveMessages(Deliver(FramedAll(msgs, flags))) == Received(Ok(msgs), [])
    decreases |msgs|
  {
    if |msgs| > 0 {
      var q := Deliver(FramedAll(msgs, flags));
      var rest := Deliver(FramedAll(msgs[1..], flags));
      DeliverAppend(Framed(msgs[0], flags), FramedAll(msgs[1..], flags));
      SendReceiveRoundTrip(msgs[0], flags, rest);
      SendAllReceiveAllRoundTrip(msgs[1..], flags);
      assert [msgs[0]] + msgs[1..] == msgs;
    }
  }
}
