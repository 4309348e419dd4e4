/** `PushPullSink`: the sink of the older push/pull sample, the same counter
    state machine as module Sink without any signals. */
module PushPullSink {
  import opened Engine
  import opened Decimal
  import Sink

  /** `batchEvent(message)`: only a message arriving while idle has its first
      frame read. */
  function BatchEvent(n: Sink.Counter, message: seq<Frame>): (r: Sink.Counter)
    requires n < 0 ==> |message| > 0
    ensures r != 0
    ensures n < 0 && Sink.Announced(message) != 0 ==> r == Sink.Announced(message)
    ensures n > 1 ==> r == n - 1
    ensures 0 <= n <= 1 ==> r == Sink.IDLE
    ensures n < 0 && Sink.Announced(message) == 0 ==> r == Sink.IDLE
  {
    var n1 := if n < 0 then Sink.Announced(message) else n;
    if n < 0 && n1 != 0 then n1
    else
      var n2 := if n1 > 0 then n1 - 1 else n1;
      if n2 == 0 then Sink.IDLE else n2
  }

  function Feed(n: Sink.Counter, msgs: seq<seq<Frame>>): Sink.Counter
    requires Sink.FeedDefined(n, msgs)
    decreases |msgs|
  {
    if |msgs| == 0 then n
    else
      AgreesWithSink(n, msgs[0]);
      Feed(BatchEvent(n, msgs[0]), msgs[1..])
  }

  /** Both sinks move their counter identically on every message. */
  lemma AgreesWithSink(n: Sink.Counter, message: seq<Frame>)
    requires n < 0 ==> |message| > 0
    ensures BatchEvent(n, message) == Sink.BatchEvent(n, message).0
  {
  }

  lemma {:induction false} FeedAgreesWithSink(n: Sink.Counter, msgs: seq<seq<Frame>>)
    requires Sink.FeedDefined(n, msgs)
    ensures Feed(n, msgs) == Sink.Feed(n, msgs).0
    decreases |msgs|
  {
    if |msgs| > 0 {
      AgreesWithSink(n, msgs[0]);
      FeedAgreesWithSink(BatchEvent(n, msgs[0]), msgs[1..]);
    }
  }

  /** After a start message announcing `count` items, exactly `count` further
      messages return the sink to idle, and no shorter run of them does. */
  lemma ReturnsToIdle(count: nat, start: seq<Frame>, results: seq<seq<Frame>>)
    requires count <= INT_MAX && |start| > 0 && start[0] == Text(count)
    requires |results| <= count
    ensures Sink.FeedDefined(Sink.IDLE, [start] + results)
    ensures Feed(Sink.IDLE, [start] + results) == (if |results| == count then Sink.IDLE else count - |results|)
  {
    var msgs := [start] + results;
    assert msgs[1..] == results;
    TextRoundTrip(count);
    assert BatchEvent(Sink.IDLE, start) == (if count == 0 then Sink.IDLE else count);
    if count > 0 {
      CountsDown(count, results);
    }
  }

  lemma {:induction false} CountsDown(k: nat, results: seq<seq<Frame>>)
    requires 0 < k <= INT_MAX && |results| <= k
    ensures Sink.FeedDefined(k, results)
    ensures Feed(k, results) == (if |results| == k then Sink.IDLE else k - |results|)
    decreases |results|
  {
    if |results| > 0 {
      if k > 1 {
        CountsDown(k - 1, results[1..]);
      } else {
        assert results[1..] == [];
      }
    }
  }
}
