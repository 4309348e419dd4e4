/** `Sink` of the push/pull sample: a counter state machine driven by the
    messages its pull socket receives. The counter is -1 while idle; a
    message arriving while idle starts a batch whose size is the decimal
    number in its first frame; every later message is one work result. */
module Sink {
  import opened Engine
  import opened Decimal

  datatype SinkEvent = BatchStarted(count: int) | WorkItemResultReceived | BatchCompleted

  /** The counter; its `int` storage bounds it to 32 bits. */
  type Counter = n: int | INT_MIN <= n <= INT_MAX

  /** A new sink is idle. */
  const IDLE: Counter := -1

  /** The batch size a start message announces: its first frame read with
      `toUInt()`, stored into the signed counter. */
  function Announced(message: seq<Frame>): Counter
    requires |message| > 0
  {
    ToInt32(ToUInt(message[0]))
  }

  /** `batchEvent(message)`. Only a message arriving while idle has its first
      frame read, so only then must it have one. */
  function BatchEvent(n: Counter, message: seq<Frame>): (r: (Counter, seq<SinkEvent>))
    requires n < 0 ==> |message| > 0
    ensures r.0 != 0
    ensures n < 0 ==> |r.1| > 0 && r.1[0] == BatchStarted(Announced(message))
    ensures forall k :: BatchStarted(k) in r.1 ==> n < 0 && k == Announced(message)
    ensures n < 0 && Announced(message) != 0 ==> r == (Announced(message), [BatchStarted(Announced(message))])
    ensures n > 0 ==> |r.1| > 0 && r.1[0] == WorkItemResultReceived && (r.0 == n - 1 || (n == 1 && r.0 == IDLE))
    ensures (WorkItemResultReceived in r.1) <==> n > 0
    ensures (BatchCompleted in r.1) <==> (n == 1 || n == 0 || (n < 0 && Announced(message) == 0))
    ensures BatchCompleted in r.1 ==> r.0 == IDLE && r.1[|r.1| - 1] == BatchCompleted
  {
    if n < 0 then
      // A start message; a non-zero count (even a negative one) ends the call.
      var announced := Announced(message);
      if announced != 0 then (announced, [BatchStarted(announced)])
      else (IDLE, [BatchStarted(announced), BatchCompleted])
    else if n > 0 then
      if n - 1 == 0 then (IDLE, [WorkItemResultReceived, BatchCompleted])
      else (n - 1, [WorkItemResultReceived])
    else
      (IDLE, [BatchCompleted])
  }

  /** The messages can be handed to the sink in order: each one that arrives
      while the sink is idle has a first frame to read. */
  predicate FeedDefined(n: Counter, msgs: seq<seq<Frame>>)
    decreases |msgs|
  {
    |msgs| == 0 ||
    ((n < 0 ==> |msgs[0]| > 0) && FeedDefined(BatchEvent(n, msgs[0]).0, msgs[1..]))
  }

  /** The sink after handling `msgs` in order, with all signals emitted. */
  function Feed(n: Counter, msgs: seq<seq<Frame>>): (r: (Counter, seq<SinkEvent>))
    requires FeedDefined(n, msgs)
    decreases |msgs|
  {
    if |msgs| == 0 then (n, [])
    else
      var first := BatchEvent(n, msgs[0]);
      var rest := Feed(first.0, msgs[1..]);
      (rest.0, first.1 + rest.1)
  }

  function Repeat<T>(x: T, k: nat): (s: seq<T>)
    ensures |s| == k && forall i :: 0 <= i < k ==> s[i] == x
  {
    if k == 0 then [] else [x] + Repeat(x, k - 1)
  }

  /** A sink counting down from `k` takes exactly `k` messages, one result
      signal each, and the last of them completes the batch once. */
  lemma {:induction false} CountDown(k: nat, results: seq<seq<Frame>>)
    requires 0 < k <= INT_MAX && |results| == k
    ensures FeedDefined(k, results)
    ensures Feed(k, results) == (IDLE, Repeat(WorkItemResultReceived, k) + [BatchCompleted])
    decreases k
  {
    assert results == [results[0]] + results[1..];
    if k > 1 {
      assert BatchEvent(k, results[0]) == (k - 1, [WorkItemResultReceived]);
      CountDown(k - 1, results[1..]);
      FeedStep(k, results[0], results[1..]);
      assert [WorkItemResultReceived] + (Repeat(WorkItemResultReceived, k - 1) + [BatchCompleted])
          == Repeat(WorkItemResultReceived, k) + [BatchCompleted];
    } else {
      assert BatchEvent(1, results[0]) == (IDLE, [WorkItemResultReceived, BatchCompleted]);
      assert results[1..] == [];
      assert FeedDefined(IDLE, results[1..]) && Feed(IDLE, results[1..]) == (IDLE, []);
      FeedStep(k, results[0], results[1..]);
      assert [WorkItemResultReceived, BatchCompleted] + [] == Repeat(WorkItemResultReceived, 1) + [BatchCompleted];
    }
  }

  /** Feeding a first message, then the rest. */
  lemma FeedStep(n: Counter, message: seq<Frame>, msgs: seq<seq<Frame>>)
    requires n < 0 ==> |message| > 0
    requires FeedDefined(BatchEvent(n, message).0, msgs)
    ensures FeedDefined(n, [message] + msgs)
    ensures Feed(n, [message] + msgs) ==
      (Feed(BatchEvent(n, message).0, msgs).0, BatchEvent(n, message).1 + Feed(BatchEvent(n, message).0, msgs).1)
  {
    assert ([message] + msgs)[0] == message && ([message] + msgs)[1..] == msgs;
  }

  /** An idle sink sent the text of `count` (within the `int` range) and then
      `count` results starts one batch of that size, signals each result once,
      completes the batch exactly once, last, and is idle again. A zero count
      starts and completes a batch in the same call. */
  lemma BatchCompletesOnce(count: nat, start: seq<Frame>, results: seq<seq<Frame>>)
    requires count <= INT_MAX && |start| > 0 && start[0] == Text(count)
    requires |results| == count
    ensures FeedDefined(IDLE, [start] + results)
    ensures Feed(IDLE, [start] + results) ==
      (IDLE, [BatchStarted(count)] + Repeat(WorkItemResultReceived, count) + [BatchCompleted])
  {
    TextRoundTrip(count);
    assert Announced(start) == count;
    if count > 0 {
      assert BatchEvent(IDLE, start) == (count, [BatchStarted(count)]);
      CountDown(count, results);
      FeedStep(IDLE, start, results);
      assert [BatchStarted(count)] + (Repeat(WorkItemResultReceived, count) + [BatchCompleted])
          == [BatchStarted(count)] + Repeat(WorkItemResultReceived, count) + [BatchCompleted];
    } else {
      assert BatchEvent(IDLE, start) == (IDLE, [BatchStarted(0), BatchCompleted]);
      assert results == [];
      assert FeedDefined(IDLE, results) && Feed(IDLE, results) == (IDLE, []);
      FeedStep(IDLE, start, results);
      assert [BatchStarted(0), BatchCompleted] + [] == [BatchStarted(0)] + Repeat(WorkItemResultReceived, 0) + [BatchCompleted];
    }
  }

  /** One message: the counter is left non-zero, and below -1 exactly when
      the last signal reports a negative batch size. */
  lemma StepInvariant(n: Counter, message: seq<Frame>)
    requires n < 0 ==> |message| > 0
    ensures var r := BatchEvent(n, message);
      r.0 != 0 && |r.1| > 0 &&
      (r.0 < -1 <==> r.1[|r.1| - 1].BatchStarted? && r.1[|r.1| - 1].count < -1)
  {
  }

  /** Whatever the sink is sent, it never rests at 0, and its counter drops
      below -1 only right after a start message announced more than INT_MAX
      items, which the sink reports as a negative batch size. */
  lemma {:induction false} CounterInvariant(n: Counter, msgs: seq<seq<Frame>>)
    requires FeedDefined(n, msgs) && |msgs| > 0
    ensures var r := Feed(n, msgs);
      r.0 != 0 && |r.1| > 0 &&
      (r.0 < -1 <==> r.1[|r.1| - 1].BatchStarted? && r.1[|r.1| - 1].count < -1)
    decreases |msgs|
  {
    var first := BatchEvent(n, msgs[0]);
    var rest := Feed(first.0, msgs[1..]);
    assert Feed(n, msgs) == (rest.0, first.1 + rest.1);
    if |msgs| > 1 {
      CounterInvariant(first.0, msgs[1..]);
      assert (first.1 + rest.1)[|first.1| + |rest.1| - 1] == rest.1[|rest.1| - 1];
    } else {
      StepInvariant(n, msgs[0]);
      assert rest == (first.0, []);
      assert first.1 + [] == first.1;
    }
  }

  /** An announced count above INT_MAX is stored negative: the sink reports a
      negative batch size and stays idle, so it reads the next message as
      another start message. */
  lemma OversizedCountLeavesSinkIdle(count: nat, start: seq<Frame>)
    requires INT_MAX < count <= UINT_MAX && |start| > 0 && start[0] == Text(count)
    ensures BatchEvent(IDLE, start) == (count - 0x1_0000_0000, [BatchStarted(count - 0x1_0000_0000)])
    ensures BatchEvent(IDLE, start).0 < 0
  {
    TextRoundTrip(count);
  }
}
