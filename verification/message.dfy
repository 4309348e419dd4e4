/** `ZMQMessage`: an owned byte buffer. A fresh buffer of a given size has
    contents nobody may rely on; the model makes them an arbitrary byte
    `junk`, so that every property proved below holds whatever they were. */
module Message {
  import opened Engine

  datatype ZMQMessage = ZMQMessage(data: Frame)

  function Size(m: ZMQMessage): nat {
    |m.data|
  }

  /** A buffer of `n` bytes whose contents are not initialised. */
  function Allocate(n: nat, junk: Byte): (m: ZMQMessage)
    ensures Size(m) == n
  {
    ZMQMessage(seq(n, _ => junk))
  }

  /** `memcpy(dst.data(), src, n)`: the first `n` bytes of `dst` are replaced. */
  function Memcpy(dst: ZMQMessage, src: Frame, n: nat): (m: ZMQMessage)
    requires n <= Size(dst) && n <= |src|
    ensures Size(m) == Size(dst)
  {
    ZMQMessage(src[..n] + dst.data[n..])
  }

  /** `ZMQMessage(const QByteArray&)`: allocate `b.size()` bytes, then copy. */
  function FromBytes(b: Frame, junk: Byte): (m: ZMQMessage)
    ensures Size(m) == |b|
    ensures m.data == b
  {
    Memcpy(Allocate(|b|, junk), b, |b|)
  }

  /** `ZMQMessage::clone(src)`: `rebuild(src.size())` discards the target's
      buffer for a fresh one of the source's size, then `size()` bytes of the
      source are copied into it. The source is a different object from the
      target, so it stays as it was; `SelfClone` is the call on itself. */
  function Clone(target: ZMQMessage, src: ZMQMessage, junk: Byte): (m: ZMQMessage)
    ensures Size(m) == Size(src)
    ensures m == src
  {
    var rebuilt := Allocate(Size(src), junk);
    Memcpy(rebuilt, src.data, Size(rebuilt))
  }

  /** `m.clone(&m)`: `rebuild` replaces the very buffer the copy was to read,
      so the copy moves the fresh buffer onto itself and the message is left
      with the fresh buffer's contents. */
  function SelfClone(m: ZMQMessage, junk: Byte): (r: ZMQMessage)
    ensures Size(r) == Size(m)
    ensures forall i :: 0 <= i < Size(r) ==> r.data[i] == junk
  {
    var rebuilt := Allocate(Size(m), junk);
    Memcpy(rebuilt, rebuilt.data, Size(rebuilt))
  }

  /** Cloning a message onto itself keeps it only when every byte it held
      already equals what the fresh buffer holds: its own bytes are lost. */
  lemma SelfCloneLosesBytes(m: ZMQMessage, junk: Byte)
    ensures SelfClone(m, junk) == m <==> forall i :: 0 <= i < Size(m) ==> m.data[i] == junk
  {
    var r := SelfClone(m, junk);
    if forall i :: 0 <= i < Size(m) ==> m.data[i] == junk {
      assert r.data == m.data;
    }
  }
}
