/** `Ventilator` of the push/pull sample: one batch of work. It announces the
    batch size to the sink, then pushes that many random workloads to the
    workers, and finally schedules its own stop. The random generator is a
    parameter: `draws[i]` is what the i-th `qrand()` call returns. */
module Ventilator {
  import opened Engine
  import opened Decimal

  /** `maxWorkLoad()`. */
  const MAX_WORKLOAD: nat := 100

  datatype VentEvent =
    | SinkSent(frame: Frame)
    | BatchStarted(count: int)
    | WorkSent(frame: Frame)
    | WorkItemSent(workload: nat)
    | StopScheduled

  /** `numberOfWorkItems()`: the stored unsigned count returned as `int`. */
  function NumberOfWorkItems(stored: nat): int
    requires stored <= UINT_MAX
  {
    ToInt32(stored)
  }

  /** The batch-start message: the count's decimal text. */
  function StartMessage(stored: nat): Frame
    requires stored <= UINT_MAX
  {
    IntText(NumberOfWorkItems(stored))
  }

  function Workload(draw: nat): (w: nat)
    ensures 1 <= w <= MAX_WORKLOAD
  {
    draw % MAX_WORKLOAD + 1
  }

  function Sum(ws: seq<nat>): nat {
    if |ws| == 0 then 0 else Sum(ws[..|ws| - 1]) + ws[|ws| - 1]
  }

  function Max0(i: int): nat {
    if i < 0 then 0 else i
  }

  /** `runBatch()`. `workloads` are the workloads pushed and `total` is
      `totalExpectedCost`. */
  method RunBatch(stored: nat, draws: seq<nat>) returns (trace: seq<VentEvent>, workloads: seq<nat>, total: int)
    requires stored <= UINT_MAX
    requires |draws| >= Max0(NumberOfWorkItems(stored))
    ensures |trace| >= 3
    ensures trace[0] == SinkSent(StartMessage(stored))
    ensures trace[1] == BatchStarted(NumberOfWorkItems(stored))
    ensures |workloads| == Max0(NumberOfWorkItems(stored))
    ensures |workloads| == stored <==> stored <= INT_MAX
    ensures |trace| == 2 * |workloads| + 3
    ensures forall i :: 0 <= i < |workloads| ==>
      trace[2 + 2 * i] == WorkSent(Text(workloads[i])) && trace[3 + 2 * i] == WorkItemSent(workloads[i])
    ensures forall i :: 0 <= i < |workloads| ==> workloads[i] == Workload(draws[i])
    ensures forall i :: 0 <= i < |workloads| ==> 1 <= workloads[i] <= MAX_WORKLOAD
    ensures trace[|trace| - 1] == StopScheduled
    ensures forall i :: 0 <= i < |trace| - 1 ==> trace[i] != StopScheduled
    ensures total == Sum(workloads) && |workloads| <= total <= MAX_WORKLOAD * |workloads|
    ensures MAX_WORKLOAD * |workloads| <= INT_MAX ==> total <= INT_MAX
  {
    var count := NumberOfWorkItems(stored);
    trace := [SinkSent(StartMessage(stored)), BatchStarted(count)];
    workloads := [];
    total := 0;
    var item := 0;
    while item < count
      invariant 0 <= item <= Max0(count)
      invariant |workloads| == item
      invariant |trace| == 2 * item + 2
      invariant trace[0] == SinkSent(StartMessage(stored)) && trace[1] == BatchStarted(count)
      invariant forall i :: 0 <= i < item ==>
        trace[2 + 2 * i] == WorkSent(Text(workloads[i])) && trace[3 + 2 * i] == WorkItemSent(workloads[i])
      invariant forall i :: 0 <= i < item ==> workloads[i] == Workload(draws[i])
      invariant forall i :: 0 <= i < |trace| ==> trace[i] != StopScheduled
      invariant total == Sum(workloads) && item <= total <= MAX_WORKLOAD * item
      invariant MAX_WORKLOAD * Max0(count) <= INT_MAX ==> total <= INT_MAX
    {
      var workload := Workload(draws[item]);
      total := total + workload;
      assert (workloads + [workload])[..item] == workloads;
      workloads := workloads + [workload];
      trace := trace + [WorkSent(Text(workload)), WorkItemSent(workload)];
      item := item + 1;
    }
    trace := trace + [StopScheduled];
  }
}
