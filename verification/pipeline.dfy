/** The push/pull sample end to end: the ventilator's batch-start message
    reaches the sink first, followed by one result per work item the
    ventilator pushed. */
module Pipeline {
  import opened Engine
  import opened Decimal
  import Sink
  import Ventilator

  /** Whatever count the ventilator holds, the sink that receives its start
      message and then one result per pushed work item starts one batch of
      exactly that many items, counts each result once, and completes the
      batch exactly once, last, returning to idle. A count above INT_MAX is
      announced as negative text, which the sink reads as 0: no work is
      pushed and the batch completes at once. */
  lemma VentilatorDrivesSinkToCompletion(stored: nat, results: seq<seq<Frame>>)
    requires stored <= UINT_MAX
    requires |results| == Ventilator.Max0(Ventilator.NumberOfWorkItems(stored))
    ensures Sink.FeedDefined(Sink.IDLE, [[Ventilator.StartMessage(stored)]] + results)
    ensures Sink.Feed(Sink.IDLE, [[Ventilator.StartMessage(stored)]] + results) ==
      (Sink.IDLE, [Sink.BatchStarted(|results|)] + Sink.Repeat(Sink.WorkItemResultReceived, |results|) + [Sink.BatchCompleted])
  {
    var start := [Ventilator.StartMessage(stored)];
    if stored <= INT_MAX {
      Sink.BatchCompletesOnce(stored, start, results);
    } else {
      NegativeTextReadsAsZero(Ventilator.NumberOfWorkItems(stored));
      assert results == [];
      assert Sink.Announced(start) == 0;
      assert Sink.BatchEvent(Sink.IDLE, start) == (Sink.IDLE, [Sink.BatchStarted(0), Sink.BatchCompleted]);
      assert Sink.FeedDefined(Sink.IDLE, results) && Sink.Feed(Sink.IDLE, results) == (Sink.IDLE, []);
      Sink.FeedStep(Sink.IDLE, start, results);
      assert [Sink.BatchStarted(0), Sink.BatchCompleted] + [] ==
        [Sink.BatchStarted(0)] + Sink.Repeat(Sink.WorkItemResultReceived, 0) + [Sink.BatchCompleted];
    }
  }
}
