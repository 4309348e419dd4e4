# nzmqt core in Dafny

A model of the nzmqt binding: Qt objects wrapped around a ZeroMQ messaging
engine. The Dafny modules are:

- **Engine** (`engine.dfy`) models the engine the binding talks to. Each
  socket has a receive queue of frames, and each frame carries a "more parts
  follow" bit. A queue entry can also be a pending error that the next
  receive throws as a `ZMQException`. Sends go to a send side that accepts
  frames while it has room. The module also holds the flag bits of `zmq.h`
  and the 32-bit signed/unsigned conversions.
- **Message** (`message.dfy`) models `ZMQMessage` built from bytes, and `clone`.
- **Socket** (`socket.dfy`) models multi-part framing:
  - `sendMessage(QList<QByteArray>)`;
  - `receiveMessage()`, which receives one message;
  - `receiveMessages()`, which receives every queued message.
- **Context** (`context.dfy`) models the socket registry and the ownership
  protocol between a context and its sockets:
  - `createSocket` and `registerSocket`;
  - `unregisterSocket`, both the base and the polling variant, with the
    polling context's poll-item table;
  - `ZMQSocket::close` and `SocketNotifierZMQSocket::close`;
  - the socket destructors and `~ZMQContext`.
- **Polling** (`polling.dfy`) models `PollingZMQContext::poll`. The
  multiplexed wait is an oracle: a sequence of rounds, each giving the ready
  count and the `revents` of every poll item, or the exception the wait threw.
- **Scheduler** (`scheduler.dfy`) models `start`, `stop`, `isStopped` of both
  context kinds, and the polling context's periodic `run`.
- **Notifier** (`notifier.dfy`) models the read and write activity handlers
  of `SocketNotifierZMQSocket`.
- **Legacy** (`legacy.dfy`) models the single-header variant `nzmqt.hpp`:
  - framing with non-blocking default flags;
  - the event-mask dispatch `socketActivity`;
  - a context that deletes the sockets it parents.
- The push/pull sample is modelled by four modules:
  - **Decimal** (`decimal.dfy`): the decimal text `QString::number` produces
    and Qt 5's `QByteArray::toUInt` parse;
  - **Sink** and **PushPullSink**: the two sinks' counter state machines;
  - **Ventilator**: the ventilator's batch;
  - **Pipeline**: the ventilator's output fed into the sink.

Every randomness, timer or engine answer is an explicit parameter:
- `qrand()` draws;
- poll rounds;
- queue contents;
- whether a message receiver stops the context or closes the socket.

## Model

| member | source | states |
|---|---|---|
| Engine.ToInt32 | src/pushpull/Ventilator.h:67-70 | an unsigned 32-bit value stored in an `int` keeps its bits: the same value up to INT_MAX, negative above it, congruent modulo 2^32 |
| Message.FromBytes | include/nzmqt/impl.hpp:68-72 | a message built from bytes has their size and exactly their contents, whatever the fresh buffer held |
| Message.Clone | include/nzmqt/nzmqt.hpp:79-83 | after `clone(src)` with a source other than the target, the target equals the source, in size and bytes, whatever the target held before |
| Message.SelfClone | include/nzmqt/nzmqt.hpp:79-83 | `m.clone(&m)` keeps the size but leaves only the fresh buffer's bytes |
| Message.SelfCloneLosesBytes | include/nzmqt/nzmqt.hpp:79-83 | a message cloned onto itself comes back unchanged exactly when every byte it held already equalled the fresh buffer's contents |
| Socket.SendMessage | include/nzmqt/impl.hpp:191-203 | an empty list sends nothing and succeeds; otherwise the call succeeds exactly when every frame is accepted, and the frames accepted are a prefix of the message in order, all but the last with SNDMORE added |
| Socket.ReceiveMessage | include/nzmqt/impl.hpp:210-225 | a receive consumes at least one entry of a non-empty queue, and returns an empty list without throwing exactly when the queue is empty |
| Socket.ReceiveMessageSuffix | include/nzmqt/impl.hpp:210-225 | a receive consumes a prefix of the queue: what it leaves is a suffix |
| Socket.ReceiveMessageOk | include/nzmqt/impl.hpp:214-222 | a successful receive returns the consumed frames in order; all but the last had the more bit, and the last did not unless the queue ran dry |
| Socket.ReceiveMessageErr | include/nzmqt/impl.hpp:214-222 | a failed receive consumed frames that all had the more bit and then the fault whose code it reports |
| Socket.ReceiveMessageConsumes | include/nzmqt/impl.hpp:210-225 | the frames a successful receive returns are exactly the payload of the queue prefix it consumed |
| Socket.ReceiveMessages | include/nzmqt/impl.hpp:227-240 | a successful `receiveMessages()` leaves the queue empty and never returns an empty message |
| Socket.ReceiveMessagesFailsOnFault | include/nzmqt/impl.hpp:227-240 | `receiveMessages()` throws exactly when the queue holds a fault |
| Socket.ReceiveMessagesDrainsInOrder | include/nzmqt/impl.hpp:227-240 | the messages returned, flattened, are every queued frame in queue order |
| Socket.SendReceiveRoundTrip | include/nzmqt/impl.hpp:191-225 | a non-empty message sent without SNDMORE and delivered first-in first-out is received as the same list, and whatever is queued behind it stays queued |
| Socket.SendAllReceiveAllRoundTrip | include/nzmqt/impl.hpp:191-240 | non-empty messages sent back to back are all returned by one `receiveMessages()`, intact and in order, leaving the queue empty |
| Legacy.SendMessageDefault | include/nzmqt/nzmqt.hpp:166-178 | with the default `ZMQ_NOBLOCK` flags, the call succeeds exactly when every frame is accepted, and an accepted frame carries SNDMORE exactly when it is not the last |
| Legacy.DefaultFlagsRoundTrip | include/nzmqt/nzmqt.hpp:186-205 | a message sent with the default flags is received whole; a single-part message comes back as a one-element list |
| Legacy.SocketActivity | include/nzmqt/nzmqt.hpp:335-348 | `readyRead`, `readyWrite` and `pollError` are raised exactly when POLLIN, POLLOUT and POLLERR are set, each at most once and in that order |
| Legacy.ActivityIgnoresOtherBits | include/nzmqt/nzmqt.hpp:337-347 | bits of the event mask outside the three conditions raise nothing |
| Legacy.CreateSocket | include/nzmqt/nzmqt.hpp:383-399 | a socket created by `createSocket(type)`, or with the context as its parent, becomes the context's last child; one created with another parent, or with none, is not a child of the context |
| Legacy.Destroy | include/nzmqt/nzmqt.hpp:367-372 | destroying the context deletes each child of the snapshot once, in order, and only then terminates the engine context |
| Legacy.CreateAllChildren | include/nzmqt/nzmqt.hpp:383-399 | after any creations from a fresh context, its children are exactly the sockets created with the context as parent, in creation order |
| Legacy.DestroyDeletesOwnedOnce | include/nzmqt/nzmqt.hpp:364-372 | for a context whose history holds only socket creations, destroying it deletes every socket it parents and no other, none twice, before the engine context terminates |
| Context.NewContext | include/nzmqt/impl.hpp:436-443 | a new context has no sockets, an empty registry and poll table, and a polling one starts out not stopped |
| Context.Register | include/nzmqt/impl.hpp:527-536 | registering appends the socket to the registry, and for the polling context one POLLIN poll item alongside; the table stays the registry's positional shadow |
| Context.CreateSocket | include/nzmqt/impl.hpp:372-383 | a new socket gets a fresh id, is attached and open, and is registered as the last entry with its poll item; the log is untouched |
| Context.CreateSocketKeepsWf | include/nzmqt/impl.hpp:372-383 | creating a socket keeps the registry free of repeats, the poll table aligned and every back-reference consistent |
| Context.Unregister | include/nzmqt/impl.hpp:538-556 | deregistering an absent socket changes nothing; otherwise the socket's first registry entry, and in a polling context the poll item at the same position, are removed, and every other entry and poll item keeps its order; the notifier context's table is untouched and the strategy never changes |
| Context.UnregisterRemovesOne | include/nzmqt/impl.hpp:385-395 | deregistering removes exactly one occurrence of the socket from the registry and nothing else |
| Context.UnregisterKeepsTable | include/nzmqt/impl.hpp:538-556 | deregistering keeps the poll table aligned with the registry, keeps every other socket registered, and removes the socket for good when it was registered once |
| Context.Close | include/nzmqt/impl.hpp:109-118 | `close` deregisters exactly when the back-reference is set, clears it, leaves the engine handle closed and does not release notifiers |
| Context.CloseKeepsWf | include/nzmqt/impl.hpp:109-118 | `close` keeps the registry and back-reference invariants |
| Context.CloseIsIdempotent | include/nzmqt/impl.hpp:109-118 | a second `close` changes neither the registry nor the sockets and deregisters nothing more |
| Context.NotifierCloseAsWritten | include/nzmqt/impl.hpp:583-588 | the notifier socket's `close` as written hands its notifiers over for deletion on every call |
| Context.CloseThenDestroyReleasesTwice | include/nzmqt/impl.hpp:578-588 | with that `close`, a notifier socket closed by hand and then deleted releases its notifiers twice |
| Context.NotifierClose | include/nzmqt/impl.hpp:583-588 | the corrected `close` releases the notifiers only while the engine handle is open, then closes like the base class |
| Context.NotifierCloseKeepsWf | include/nzmqt/impl.hpp:583-588 | the notifier socket's `close` keeps the registry and back-reference invariants |
| Context.NotifierCloseAsWrittenKeepsWf | include/nzmqt/impl.hpp:583-588 | the notifier socket's `close` as written keeps the registry and back-reference invariants too |
| Context.SocketClose | include/nzmqt/impl.hpp:103-118 | `close` on either socket kind deregisters exactly when attached, leaves the socket detached and closed, and releases a notifier socket's notifiers on every call as written, only while its handle is open when corrected |
| Context.SocketCloseKeepsWf | include/nzmqt/impl.hpp:109-118 | `close` on either socket kind, as written or corrected, keeps the registry and back-reference invariants |
| Context.DestroySocket | include/nzmqt/impl.hpp:578-581 | deleting a socket (for a notifier socket, its own `close` and then the base destructor's) removes it and deregisters it exactly when attached; a notifier socket's notifiers are released on every deletion as written, including after a manual close, and only while its handle is open when corrected |
| Context.DestroySocketKeepsWf | include/nzmqt/impl.hpp:103-107 | deleting a socket keeps the registry and back-reference invariants |
| Context.ForgetSocketKeepsWf | include/nzmqt/impl.hpp:103-107 | a socket that no longer points at its context can be deleted without breaking the invariants |
| Context.DetachAll | include/nzmqt/impl.hpp:362-369 | each listed socket loses its back-reference and gets one queued `close`, in order; nothing is deregistered or released |
| Context.Teardown | include/nzmqt/impl.hpp:359-370 | `~ZMQContext` detaches exactly the registered sockets and queues one `close` per registered socket in registry order, deregistering nothing |
| Context.TeardownKeepsWf | include/nzmqt/impl.hpp:359-370 | after teardown the invariants hold and no socket is attached |
| Context.Apply | include/nzmqt/impl.hpp:103-118 | one operation is a socket creation while the context lives, a `close` or a deletion of an existing socket with the notifier `close` as written or corrected, or the context's teardown; anything else changes nothing |
| Context.ApplyAllPreservesWf | include/nzmqt/impl.hpp:103-118 | any sequence of creations, closes, deletions and teardown keeps the registry and back-reference invariants, with the notifier socket's `close` as written and as corrected |
| Context.CloseAfterTeardownDeregistersNothing | include/nzmqt/impl.hpp:359-370 | once the context is gone, a (queued) `close` leaves the registry alone and deregisters nothing |
| Context.DeregisteredAtMostOnce | include/nzmqt/impl.hpp:109-118 | whatever happens to a context and its sockets, no socket is deregistered twice, with the notifier socket's `close` as written and as corrected |
| Context.PollTableInLockStep | include/nzmqt/impl.hpp:527-556 | whatever happens to a polling context, its poll table stays the registry's positional POLLIN shadow and the registry has no repeats |
| Context.ReleasedOnceStep | include/nzmqt/impl.hpp:583-588 | a step that closes a socket and releases its notifiers only while its handle is open keeps them released at most once |
| Context.NotifiersReleasedAtMostOnce | include/nzmqt/impl.hpp:578-588 | with the corrected `close`, whatever happens, no socket's notifiers are released twice |
| Context.OpsAsWrittenReleaseTwice | include/nzmqt/impl.hpp:578-588 | over the operation model, creating, closing and deleting a notifier socket releases its notifiers twice as written and once when corrected |
| Polling.ServeErrorSticks | include/nzmqt/impl.hpp:507-515 | once a receive in the walk throws, no later ready socket is served |
| Polling.ServeInOrder | include/nzmqt/impl.hpp:504-518 | the sockets are served in table order: all of them unless a receive throws, otherwise exactly those before it |
| Polling.ServeKeepsOthers | include/nzmqt/impl.hpp:504-518 | the queue of a socket that is not served is left as it was |
| Polling.ServeReadsOriginalQueues | include/nzmqt/impl.hpp:509-514 | each message handed out is what one receive from the socket's original queue returns, and an error is what the next socket's receive throws |
| Polling.ServeConsumesOneMessage | include/nzmqt/impl.hpp:509-514 | every socket served is left with exactly what one receive leaves of its queue |
| Polling.DispatchRound | include/nzmqt/impl.hpp:504-518 | one round serves, in table order, the first `cnt` sockets whose poll item reports POLLIN, one receive and one `messageReceived` each, and stops at a receive that throws |
| Polling.ErrorEndsRound | include/nzmqt/impl.hpp:507-518 | a receive throwing in the walk ends the round as serving all of the first `cnt` ready sockets would |
| Polling.RoundComplete | include/nzmqt/impl.hpp:507 | the walk ends once `cnt` sockets are served or the table is exhausted, having served the first `cnt` ready sockets |
| Polling.ReadySocketsDistinct | include/nzmqt/impl.hpp:504-518 | a registry without repeats never has a socket served twice in one round |
| Polling.Poll | include/nzmqt/impl.hpp:490-520 | `poll` does nothing for an empty table; otherwise its notices, queues, error and number of waits are exactly those of the wait-then-serve rounds |
| Polling.RoundsNotices | include/nzmqt/impl.hpp:493-519 | a poll opens with a wait, shows one wait per round, each with the caller's timeout, and hands messages only to registered sockets |
| Polling.RoundsStopWhenIdle | include/nzmqt/impl.hpp:493-519 | the rounds go on exactly while waits report something ready and every receive succeeds; a wait that throws ends the poll with its code |
| Polling.RoundsKeepUnregistered | include/nzmqt/impl.hpp:504-518 | a poll never touches the queue of an unregistered socket |
| Scheduler.Start | include/nzmqt/impl.hpp:455-459 | `start` clears a polling context's stop flag and arms a run with no delay; for the notifier context it does nothing |
| Scheduler.Stop | include/nzmqt/impl.hpp:461-464 | `stop` sets a polling context's stop flag; for the notifier context it does nothing |
| Scheduler.StoppedFollowsLastCommand | include/nzmqt/impl.hpp:455-469 | after any starts and stops a polling context is stopped exactly when the last command was `stop`; a notifier context never is |
| Scheduler.Run | include/nzmqt/impl.hpp:471-488 | a stopped context does nothing; otherwise `run` makes the poll's notices, turns any exception out of the poll into exactly one `pollError`, and rearms itself after the interval exactly when nobody stopped it meanwhile |
| Notifier.DrainOf | include/nzmqt/impl.hpp:596-600 | a drain emits at most as many messages as the connection checks answered true |
| Notifier.Drain | include/nzmqt/impl.hpp:594-606 | the drain loop hands out exactly what the reference drain does: messages in order while connected and readable, and the exception that ends it |
| Notifier.Activity | include/nzmqt/impl.hpp:590-609 | the activity handler disables its notifier, emits each drained message, one `notifierError` if a receive threw, and re-enables it; the socket ends disconnected exactly when a receiver closed it |
| Notifier.DrainAgreesWithReceiveMessages | include/nzmqt/impl.hpp:596-600 | while connected, the drain returns what `receiveMessages()` would, or fails with the same code and leaves the same queue |
| Notifier.DrainDeliversBeforeFault | include/nzmqt/impl.hpp:594-606 | messages queued ahead of a fault are emitted intact and in order, then the fault ends the drain with its error and the rest stays queued |
| Notifier.DrainStopsWhenClosed | include/nzmqt/impl.hpp:596 | when a receiver closes the socket, the drain stops after that message and the rest, fault included, stays queued |
| Decimal.IntText | src/pushpull/Ventilator.h:97 | the text of a negative number starts with a minus sign; that of any other number is its digits |
| Decimal.ToUInt | src/pushpull/Sink.hpp:82 | the parse yields a value in the unsigned 32-bit range, and a non-zero value is that of the digits left after trimming |
| Decimal.UpToNulStopsAtNul | src/pushpull/Sink.hpp:82 | the parse sees the NUL-free prefix of the bytes, cut at the first NUL |
| Decimal.TrimStartDropsLeadingSpace | src/pushpull/Sink.hpp:82 | leading white space, and only that, is skipped |
| Decimal.TrimEndDropsTrailingSpace | src/pushpull/Sink.hpp:82 | trailing white space, and only that, is skipped |
| Decimal.TextRoundTrip | src/pushpull/PushPullSink.h:73 | the decimal text of any number in the unsigned 32-bit range reads back as that number |
| Decimal.PaddedTextReads | src/pushpull/Sink.hpp:82 | white space around the digits and one leading plus sign do not change the value read |
| Decimal.NegativeTextReadsAsZero | src/pushpull/Sink.hpp:82 | the text of a negative number reads as 0 |
| Decimal.OutOfRangeTextReadsAsZero | src/pushpull/Sink.hpp:82 | the text of a number beyond the unsigned 32-bit range reads as 0 |
| Sink.BatchEvent | src/pushpull/Sink.hpp:77-109 | an idle sink reads the count and signals `batchStarted` with it; a counting sink signals one result and counts down by one; reaching 0 (a zero count included) signals `batchCompleted` once, last, and goes idle; the counter never rests at 0 |
| Sink.CountDown | src/pushpull/Sink.hpp:91-108 | a sink counting down from k takes exactly k messages, one result signal each, and completes the batch once |
| Sink.BatchCompletesOnce | src/pushpull/Sink.hpp:77-109 | an idle sink sent a count's text and then that many results starts one batch of that size, signals each result once and completes once, idle again |
| Sink.StepInvariant | src/pushpull/Sink.hpp:77-109 | one message leaves the counter non-zero, below -1 exactly when it reported a negative batch size |
| Sink.CounterInvariant | src/pushpull/Sink.hpp:77-109 | whatever the sink is sent, its counter drops below -1 only right after a start message announced a count above INT_MAX |
| Sink.OversizedCountLeavesSinkIdle | src/pushpull/Sink.hpp:79-88 | a count above INT_MAX is stored negative, reported as a negative batch size, and the sink stays idle |
| PushPullSink.BatchEvent | src/pushpull/PushPullSink.h:68-97 | an idle sink takes a non-zero count as its counter; a counting sink counts down by one; reaching 0 makes it idle; the counter never rests at 0 |
| PushPullSink.AgreesWithSink | src/pushpull/PushPullSink.h:68-97 | the older sink moves its counter exactly as the signalling sink does on every message |
| PushPullSink.FeedAgreesWithSink | src/pushpull/PushPullSink.h:68-97 | on any message sequence the two sinks end with the same counter |
| PushPullSink.ReturnsToIdle | src/pushpull/PushPullSink.h:70-96 | after a start message announcing n items, exactly n further messages return the sink to idle and no shorter run does |
| PushPullSink.CountsDown | src/pushpull/PushPullSink.h:81-96 | a sink counting from k is left with k minus the messages seen, idle after exactly k |
| Ventilator.Workload | src/pushpull/Ventilator.h:110 | every workload lies between 1 and `maxWorkLoad()` = 100 |
| Ventilator.RunBatch | src/pushpull/Ventilator.h:92-121 | the count goes to the sink first and `batchStarted` carries it; then one work item and one `workItemSent` per item, each workload from the random draw and within [1, 100]; the stop is scheduled last; the total is the workloads' sum, between the count and 100 times it |
| Pipeline.VentilatorDrivesSinkToCompletion | src/pushpull/Ventilator.h:97-116 | for any stored count, the sink fed the ventilator's start message and one result per pushed item starts one batch of that size, counts each result once and completes exactly once, last, idle again |

## Left out

- The engine (`zmq::socket_t`, `context_t`, `zmq::poll`) is modelled only as queues, a send-room count and a poll-round oracle. Transports, high-water marks and the wait itself are not modelled.
- Socket.SendMessage: a single-frame send that throws `ZMQException` is not modelled. A send either is accepted or reports "would block".
- Socket.ReceiveMessage: every receive is non-blocking. A blocking `receiveMessage(flags)` that waits for frames is not modelled, because waiting is outside a sequential model.
- Exceptions thrown by `events()`, `hasMoreMessageParts()`, `isConnected()` and the other `getsockopt` wrappers are not modelled. Only receives can throw.
- Message.Clone: the target and the source are taken to be different objects. The aliased call `m.clone(&m)` is the separate `Message.SelfClone`, and `Message.SelfCloneLosesBytes` shows that it loses the message's bytes.
- `ZMQMessage::toByteArray`'s guard for buffers above INT_MAX bytes (include/nzmqt/impl.hpp:87) is not modelled. Frames are treated as fitting.
- Polling.Poll: the poll oracle is a finite sequence, and past its end a wait reports nothing ready. The source's `do … while (cnt > 0)` (include/nzmqt/impl.hpp:493-519) never returns while the engine keeps reporting ready sockets; that endless case is not modelled.
- Polling.Poll: the registry and poll table are fixed during one poll. A `messageReceived` receiver that closes or creates sockets mid-walk is not modelled. That would mutate the table under the walk's iterators, under the recursive mutex.
- Scheduler.Run: the wait timeout is a parameter. The declaration of `poll`'s default argument is in a header that is not part of this model, and so is the default interval `NZMQT_POLLINGZMQCONTEXT_DEFAULT_POLLINTERVAL`. Both become parameters of `Run` and `NewContext`.
- Scheduler.Run: of everything a receiver can do during the poll, only a `stop()` call is modelled, as `stopDuring`.
- Every round of `poll` reuses the caller's timeout (include/nzmqt/impl.hpp:499), and the model does the same.
- Notifier.Activity: the only change of connection state during a drain is a receiver closing the socket after a given message (`closedBy`). No other disconnect is modelled.
- `socketWriteActivity` drains incoming messages exactly as `socketReadActivity` does. It is modelled by the same `Notifier.Activity`, with the side as a parameter.
- The `close` that `~ZMQContext` requests through `invokeMethod` (include/nzmqt/impl.hpp:368) is modelled as a `CloseQueued` event, followed by a separate `CloseOp` whenever the caller applies one. With Qt's default connection type the call runs synchronously inside the destructor when the socket lives in the destroying thread, and is queued to the socket's thread otherwise; the model covers the synchronous case only as a `CloseOp` applied right after the `TeardownOp`. The model assumes the `close` reaches the socket's own class (`SocketNotifierZMQSocket::close` for a notifier socket) when it runs. The header declaring `close` as virtual is not part of this model.
- Threads, `QMutex` locking and `invokeMethod` delivery across threads are not modelled. Everything runs sequentially.
- Qt timers are not modelled as time. Arming a single-shot timer is the notice `RunScheduled(delay)`.
- `QSocketNotifier` creation and the actual deletion after `deleteLater` are not modelled; only the release is logged.
- Legacy.Destroy: `children()` in the old `~ZMQContext` (include/nzmqt/nzmqt.hpp:369) may hold any Qt object. The model's children are only the sockets the context created.
- Legacy.DestroyDeletesOwnedOnce: the old context's history holds only creations. A socket deleted or re-parented before the context dies, which Qt removes from `children()`, is not modelled.
- The commented-out `ZMQDevice`, and the option, bind/connect, identity, linger, subscribe and high-water-mark wrappers, are not modelled. They only pass values to the engine.
- Ventilator.RunBatch: `totalExpectedCost` is summed as an unbounded integer. The source's `int` (src/pushpull/Ventilator.h:106, 112) overflows, which is undefined behaviour, once the sum passes INT_MAX; that can happen from about 21.5 million items on. The contract proves the sum stays within INT_MAX whenever 100 times the count does, and says nothing about what the source does beyond that.
- Ventilator.RunBatch: the ventilator ignores whether its sends succeed. The model records every message as sent and does not model a refused send.
- `qrand()` is a parameter: `draws[i]` is what its i-th call returns. `qsrand` seeding and the clock are not modelled.
- Stop-watch timing, `qDebug` output and the sample drivers (argument parsing, stdin, sleeps) are not modelled.

## Findings

| source | as written | input that shows it | evidently intended | confidence | as-written member | corrected member |
|---|---|---|---|---|---|---|
| include/nzmqt/impl.hpp:578-588 | `SocketNotifierZMQSocket::close` calls `deleteLater` on both notifiers on every call, and `~SocketNotifierZMQSocket` calls `close` again | a notifier socket closed by hand and then deleted: both notifiers are handed to `deleteLater` twice; if the event loop ran in between, the second call goes through a dangling pointer | the notifiers are released once, by the first `close`; the operation model (`Context.SocketClose`, `Context.DestroySocket`, `Context.Apply`) runs either `close`, chosen by its `asWritten` argument | medium, not executed | Context.NotifierCloseAsWritten, Context.CloseThenDestroyReleasesTwice, Context.OpsAsWrittenReleaseTwice | Context.NotifierClose, Context.NotifiersReleasedAtMostOnce |
