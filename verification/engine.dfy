/** The messaging engine as the adapter layer sees it.

    The engine itself (queues, transports, the multiplexed wait) is not
    modelled; what remains is the part of its interface the adapter relies on:
    frames with a "more parts follow" bit, a receive queue per socket that can
    also hold a pending error, a send side that accepts frames while it has
    room, and the flag and event bits of zmq.h. */
module Engine {

  newtype Byte = x: int | 0 <= x < 256

  /** One indivisible chunk of a multi-part message. */
  type Frame = seq<Byte>

  /** A flag word or event mask, as the engine's C interface passes it. */
  type Flags = bv32

  const INT_MAX: int := 0x7FFF_FFFF
  const UINT_MAX: int := 0xFFFF_FFFF
  const INT_MIN: int := -0x8000_0000

  /** A 32-bit unsigned value stored into an `int`: the same bits read as
      two's complement, so values above INT_MAX come out negative. */
  function ToInt32(u: nat): (i: int)
    requires u <= UINT_MAX
    ensures INT_MIN <= i <= INT_MAX
    ensures i >= 0 <==> u <= INT_MAX
    ensures (i - u) % 0x1_0000_0000 == 0
  {
    if u <= INT_MAX then u else u - 0x1_0000_0000
  }

  /** Send flags of zmq.h (`ZMQ_DONTWAIT`, also spelled `ZMQ_NOBLOCK`, and `ZMQ_SNDMORE`). */
  const DONTWAIT: Flags := 1
  const SNDMORE: Flags := 2

  /** Event bits of zmq.h (`ZMQ_POLLIN`, `ZMQ_POLLOUT`, `ZMQ_POLLERR`). */
  const POLLIN: Flags := 1
  const POLLOUT: Flags := 2
  const POLLERR: Flags := 4

  predicate HasMore(flags: Flags) {
    flags & SNDMORE != 0
  }

  predicate Readable(mask: Flags) {
    mask & POLLIN != 0
  }

  datatype Option<+T> = None | Some(value: T)

  /** The outcome of an engine call: a value, or the `ZMQException` it threw,
      identified by its error number. */
  datatype Result<+T> = Ok(value: T) | Err(code: int)

  /** A received frame together with the engine's "more parts follow" bit. */
  datatype Part = Part(data: Frame, more: bool)

  /** One entry of a socket's receive queue: a frame ready to be read, or an
      error the next receive call reports by throwing. */
  datatype Slot = Arrived(part: Part) | Fault(code: int)

  /** What a non-blocking receive on the socket will meet, in order. An empty
      queue makes the receive report "nothing available". */
  type Inbox = seq<Slot>

  /** A frame handed to the engine's single-frame send, with its flags. */
  datatype SentFrame = SentFrame(data: Frame, flags: Flags)

  /** The send side of a socket: the frames accepted so far and how many more
      the engine accepts before it reports "would block". */
  datatype Outgoing = Outgoing(sent: seq<SentFrame>, room: nat)

  /** The engine's single-frame send: succeeds iff there is room. */
  function SendFrame(out: Outgoing, frame: SentFrame): (r: (bool, Outgoing))
    ensures r.0 <==> out.room > 0
    ensures r.0 ==> r.1.sent == out.sent + [frame] && r.1.room == out.room - 1
    ensures !r.0 ==> r.1 == out
  {
    if out.room > 0 then (true, Outgoing(out.sent + [frame], out.room - 1))
    else (false, out)
  }

  /** A connected peer's receive queue after the frames `sent` went through a
      first-in first-out transport: the more bit of each frame is the SNDMORE
      bit it was sent with. */
  function Deliver(sent: seq<SentFrame>): (q: Inbox)
    ensures |q| == |sent|
  {
    seq(|sent|, i requires 0 <= i < |sent| => Arrived(Part(sent[i].data, HasMore(sent[i].flags))))
  }

  lemma DeliverAppend(a: seq<SentFrame>, b: seq<SentFrame>)
    ensures Deliver(a + b) == Deliver(a) + Deliver(b)
  {
  }
}
