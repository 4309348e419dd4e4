/** The event-loop side of the two context strategies: `start`, `stop`,
    `isStopped`, and the polling context's periodic `run`. Timers are not
    modelled as time; arming a single-shot timer is an observable notice
    `RunScheduled(delay)`. */
module Scheduler {
  import opened Engine
  import opened Context
  import opened Polling

  datatype Notice =
    | Polled(n: PollNotice)
    | PollError(code: int)
    | RunScheduled(delay: int)

  datatype Command = StartCmd | StopCmd

  /** `start()`: the polling context clears its stop flag and arms a run with
      no delay; the notifier context has nothing to do. */
  function Start(c: Ctx): (r: (Ctx, seq<Notice>))
    ensures r.0.registry == c.registry && r.0.pollItems == c.pollItems && r.0.alive == c.alive
    ensures c.strategy.Polling? ==> r.0.strategy == Polling(false, c.strategy.interval) && r.1 == [RunScheduled(0)]
    ensures c.strategy.SocketNotifier? ==> r == (c, [])
  {
    match c.strategy
    case Polling(_, interval) => (c.(strategy := Polling(false, interval)), [RunScheduled(0)])
    case SocketNotifier => (c, [])
  }

  /** `stop()`: the polling context sets its stop flag; the notifier context
      has nothing to do. */
  function Stop(c: Ctx): (r: Ctx)
    ensures r.registry == c.registry && r.pollItems == c.pollItems && r.alive == c.alive
    ensures c.strategy.Polling? ==> r.strategy == Polling(true, c.strategy.interval)
    ensures c.strategy.SocketNotifier? ==> r == c
  {
    match c.strategy
    case Polling(_, interval) => c.(strategy := Polling(true, interval))
    case SocketNotifier => c
  }

  /** `isStopped()`: the stop flag; the notifier context never is. */
  function IsStopped(c: Ctx): bool {
    c.strategy.Polling? && c.strategy.stopped
  }

  /** After any sequence of starts and stops a polling context is stopped
      exactly when the last command was a stop (or, with none, when it was
      stopped to begin with); a notifier context is never stopped. */
  lemma {:induction false} StoppedFollowsLastCommand(c: Ctx, cmds: seq<Command>)
    ensures c.strategy.Polling? ==>
      IsStopped(ApplyCommands(c, cmds)) == (if |cmds| == 0 then c.strategy.stopped else cmds[|cmds| - 1] == StopCmd)
    ensures c.strategy.SocketNotifier? ==> !IsStopped(ApplyCommands(c, cmds))
    ensures ApplyCommands(c, cmds).registry == c.registry && ApplyCommands(c, cmds).pollItems == c.pollItems
    ensures ApplyCommands(c, cmds).strategy.Polling? == c.strategy.Polling?
    decreases |cmds|
  {
    if |cmds| > 0 {
      StoppedFollowsLastCommand(c, cmds[..|cmds| - 1]);
    }
  }

  function ApplyCommands(c: Ctx, cmds: seq<Command>): Ctx
    decreases |cmds|
  {
    if |cmds| == 0 then c
    else
      var before := ApplyCommands(c, cmds[..|cmds| - 1]);
      if cmds[|cmds| - 1] == StartCmd then Start(before).0 else Stop(before)
  }

  function Wrap(ns: seq<PollNotice>): (r: seq<Notice>)
    ensures |r| == |ns|
  {
    seq(|ns|, i requires 0 <= i < |ns| => Polled(ns[i]))
  }

  /** `PollingZMQContext::run()`: unless stopped, poll with the timeout
      `poll` declares as its default; an exception from the poll becomes one
      `pollError` notification; then, unless the context is stopped by now,
      arm the next run after the configured interval. `stopDuring` says
      whether a receiver of the poll's notifications called `stop()`
      meanwhile. */
  method Run(c: Ctx, defaultTimeout: int, rounds: seq<PollRound>, inboxes: Inboxes, stopDuring: bool)
    returns (r: Ctx, inboxes': Inboxes, notices: seq<Notice>)
    requires c.strategy.Polling? && Aligned(c)
    ensures r.registry == c.registry && r.pollItems == c.pollItems
    ensures IsStopped(c) ==> r == c && inboxes' == inboxes && notices == []
    ensures !IsStopped(c) ==> IsStopped(r) == stopDuring
    ensures !IsStopped(c) ==>
      var o := PollOutcome(c, defaultTimeout, rounds, inboxes);
      && inboxes' == o.inboxes
      && notices == Wrap(o.notices) + (if o.error.Some? then [PollError(o.error.value)] else []) +
                    (if stopDuring then [] else [RunScheduled(c.strategy.interval)])
  {
    if IsStopped(c) {
      return c, inboxes, [];
    }
    var pn, inb, error, used := Poll(c, defaultTimeout, rounds, inboxes);
    inboxes' := inb;
    notices := Wrap(pn);
    if error.Some? {
      notices := notices + [PollError(error.value)];
    } else {
      assert notices + [] == notices;
    }
    r := if stopDuring then Stop(c) else c;
    if !IsStopped(r) {
      notices := notices + [RunScheduled(c.strategy.interval)];
    } else {
      assert notices + [] == notices;
    }
  }
}
