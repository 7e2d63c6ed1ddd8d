/** The sound buffer of the native platform (am/src/native/devices/audio.c): a ring that the program writes and the
    sound device drains.
 */
module AudioBuffer {
  import opened Bits

  type byte = x: int | 0 <= x < 256

  const SBUF_SIZE_MAX: nat := 65536

  class Audio {
    const sbuf: array<byte>
    var sbufSize: nat
    var head: nat
    var tail: nat
    var count: nat
    ghost var accepted: seq<byte>
    ghost var played: seq<byte>

    /** The state after a request to initialise with a given size. */
    constructor (size: nat)
      requires size <= SBUF_SIZE_MAX
      ensures Valid() && Contents() == [] && accepted == [] && played == [] && sbufSize == size && fresh(sbuf)
    {
      sbuf := new byte[SBUF_SIZE_MAX](_ => 0);
      sbufSize := size;
      head, tail, count := 0, 0, 0;
      accepted, played := [], [];
    }

    /** The indices run around the ring, and every byte that was accepted has been played or is waiting, in order. */
    ghost predicate Valid()
      reads this, sbuf
    {
      && sbuf.Length == SBUF_SIZE_MAX && sbufSize <= SBUF_SIZE_MAX
      && IsRing(sbufSize, head, tail, count)
      && accepted == played + Contents()
    }

    /** The bytes that wait to be played. */
    ghost function Contents(): (s: seq<byte>)
      requires sbuf.Length == SBUF_SIZE_MAX && sbufSize <= SBUF_SIZE_MAX && IsRing(sbufSize, head, tail, count)
      reads this, sbuf
      ensures |s| == count
    {
      Ring(sbuf[..], sbufSize, tail, count)
    }

    lemma Indices()
      requires Valid() && sbufSize > 0
      ensures head == (tail + count) % sbufSize
      ensures forall k | 0 <= k < count :: Contents()[k] == sbuf[..][(tail + k) % sbufSize]
    {
      SlotIsModulo(tail, count, sbufSize);
      forall k | 0 <= k < count
        ensures Contents()[k] == sbuf[..][(tail + k) % sbufSize]
      {
        SlotIsModulo(tail, k, sbufSize);
      }
    }

    /** The memcpy calls of audio_play: nread bytes from tail on, which moves. */
    method CopyOut(stream: array<byte>, nread: nat)
      requires sbuf.Length == SBUF_SIZE_MAX && nread <= sbufSize <= SBUF_SIZE_MAX && nread <= stream.Length
      requires IsIndex(tail, sbufSize) && stream != sbuf
      modifies `tail, stream
      ensures tail == Slot(old(tail), nread, sbufSize)
      ensures stream[..] == Ring(sbuf[..], sbufSize, old(tail), nread) + old(stream[nread..])
    {
      if nread + tail < sbufSize {
        Copy(stream, 0, sbuf, tail, nread);
        tail := tail + nread;
      } else {
        var first := sbufSize - tail;
        Copy(stream, 0, sbuf, tail, first);
        Copy(stream, first, sbuf, 0, nread - first);
        tail := nread - first;
      }
    }

    /** The memcpy calls of audio_write: nwrite bytes go to head, which moves. */
    method CopyIn(buf: array<byte>, nwrite: nat)
      requires sbuf.Length == SBUF_SIZE_MAX && nwrite <= sbufSize <= SBUF_SIZE_MAX && nwrite <= buf.Length
      requires IsIndex(head, sbufSize) && buf != sbuf
      modifies `head, sbuf
      ensures head == Slot(old(head), nwrite, sbufSize)
      ensures IsWritten(old(sbuf[..]), sbuf[..], sbufSize, old(head), buf[..nwrite])
    {
      if nwrite + head < sbufSize {
        Copy(sbuf, head, buf, 0, nwrite);
        head := head + nwrite;
      } else {
        var first := sbufSize - head;
        Copy(sbuf, head, buf, 0, first);
        Copy(sbuf, 0, buf, first, nwrite - first);
        head := nwrite - first;
      }
    }

    /** The callback of the sound device: stream gets the oldest bytes, and silence where there are none. */
    method AudioPlay(stream: array<byte>, len: nat)
      requires Valid() && len <= stream.Length && stream != sbuf
      modifies `tail, `count, `played, stream
      ensures Valid()
      ensures var nread := if old(count) < len then old(count) else len;
              && stream[..nread] == old(Contents())[..nread] && Contents() == old(Contents())[nread..]
              && played == old(played) + stream[..nread]
              && (forall i | nread <= i < len :: stream[i] == 0)
              && (forall i | len <= i < stream.Length :: stream[i] == old(stream[i]))
    {
      hide Ring, Slot, IsRing, IsIndex;
      var nread := len;
      if count < len {
        nread := count;
      }
      RingSplits(sbuf[..], sbufSize, head, tail, count, nread);
      ghost var taken := Ring(sbuf[..], sbufSize, tail, nread);
      CopyOut(stream, nread);
      count := count - nread;
      Requeued(played, taken, Contents());
      played := played + taken;
      if len > nread {
        Silence(stream, nread, len);
      }
      assert stream[..nread] == taken;
    }

    /** A request to play a buffer: as many bytes as fit are accepted, from its front. */
    method AudioWrite(buf: array<byte>, len: nat) returns (nwrite: nat)
      requires Valid() && len <= buf.Length && buf != sbuf
      modifies `head, `count, `accepted, sbuf
      ensures Valid()
      ensures nwrite == if sbufSize - old(count) < len then sbufSize - old(count) else len
      ensures Contents() == old(Contents()) + buf[..nwrite] && accepted == old(accepted) + buf[..nwrite]
    {
      hide Ring, Slot, IsRing, IsIndex, IsWritten;
      RingBounds(sbufSize, head, tail, count);
      var free := sbufSize - count;
      nwrite := len;
      if free < len {
        nwrite := free;
      }
      ghost var before, head0 := sbuf[..], head;
      CopyIn(buf, nwrite);
      RingGrows(before, sbuf[..], sbufSize, head0, tail, count, buf[..nwrite]);
      Requeued(played, Ring(before, sbufSize, tail, count), buf[..nwrite]);
      count := count + nwrite;
      accepted := accepted + buf[..nwrite];
    }
  }

  lemma Requeued(s: seq<byte>, t: seq<byte>, u: seq<byte>)
    ensures (s + t) + u == s + (t + u)
  {
  }

  predicate IsIndex(i: nat, size: nat) {
    if size == 0 then i == 0 else i < size
  }

  /** The indices of a ring of count bytes: the head is behind the last one. */
  predicate IsRing(size: nat, head: nat, tail: nat, count: nat) {
    count <= size && IsIndex(tail, size) && head == Slot(tail, count, size)
  }

  lemma RingBounds(size: nat, head: nat, tail: nat, count: nat)
    requires IsRing(size, head, tail, count)
    ensures count <= size && IsIndex(tail, size) && IsIndex(head, size) && (size > 0 ==> tail < size && head < size)
  {
  }

  /** The index k steps after i, around the ring. */
  function Slot(i: nat, k: nat, size: nat): nat
    requires i <= size && k <= size
  {
    if i + k < size then i + k else i + k - size
  }

  lemma SlotIsModulo(i: nat, k: nat, size: nat)
    requires 0 < size && i < size && k <= size
    ensures Slot(i, k, size) == (i + k) % size
  {
    DivModUnique(i + k, size, if i + k < size then 0 else 1, Slot(i, k, size));
  }

  /** count bytes of a ring from tail on. */
  function Ring(buf: seq<byte>, size: nat, tail: nat, count: nat): (s: seq<byte>)
    requires count <= size <= |buf| && IsIndex(tail, size)
    ensures |s| == count
    ensures forall k | 0 <= k < count :: s[k] == buf[Slot(tail, k, size)]
  {
    seq(count, k requires 0 <= k < count => buf[Slot(tail, k, size)])
  }

  /** What is read is the front of the ring, and the ring from the new tail on is the rest. */
  lemma RingSplits(buf: seq<byte>, size: nat, head: nat, tail: nat, count: nat, n: nat)
    requires n <= count && size <= |buf| && IsRing(size, head, tail, count)
    ensures n <= size && IsIndex(tail, size) && IsRing(size, head, Slot(tail, n, size), count - n)
    ensures |Ring(buf, size, tail, n)| == n && |Ring(buf, size, tail, count)| == count
    ensures Ring(buf, size, tail, count) == Ring(buf, size, tail, n) + Ring(buf, size, Slot(tail, n, size), count - n)
  {
    var whole, rest := Ring(buf, size, tail, count), Ring(buf, size, Slot(tail, n, size), count - n);
    forall k | 0 <= k < count - n
      ensures whole[n + k] == rest[k]
    {
      assert Slot(tail, n + k, size) == Slot(Slot(tail, n, size), k, size);
    }
  }

  /** more has been written from head on, and the other bytes of the ring are as before. */
  ghost predicate IsWritten(before: seq<byte>, after: seq<byte>, size: nat, head: nat, more: seq<byte>)
    requires |more| <= size <= |before| == |after| && IsIndex(head, size)
  {
    && Ring(after, size, head, |more|) == more
    && forall k | |more| <= k < size :: after[Slot(head, k, size)] == before[Slot(head, k, size)]
  }

  /** What is written behind the last byte of the ring becomes its end. */
  lemma RingGrows(before: seq<byte>, after: seq<byte>, size: nat, head: nat, tail: nat, count: nat, more: seq<byte>)
    requires count + |more| <= size <= |before| == |after| && IsRing(size, head, tail, count) && IsIndex(head, size)
    requires IsWritten(before, after, size, head, more)
    ensures IsRing(size, Slot(head, |more|, size), tail, count + |more|)
    ensures Ring(after, size, tail, count + |more|) == Ring(before, size, tail, count) + more
  {
    var grown, kept := Ring(after, size, tail, count + |more|), Ring(before, size, tail, count);
    forall k | 0 <= k < |more|
      ensures grown[count + k] == more[k]
    {
      assert Slot(tail, count + k, size) == Slot(head, k, size);
      assert Ring(after, size, head, |more|)[k] == more[k];
    }
    forall k | 0 <= k < count
      ensures grown[k] == kept[k]
    {
      assert Slot(tail, k, size) == Slot(head, k + size - count, size);
    }
  }

  /** memcpy between two buffers */
  method Copy(dst: array<byte>, d: nat, src: array<byte>, s: nat, n: nat)
    requires dst != src && d + n <= dst.Length && s + n <= src.Length
    modifies dst
    ensures forall i | d <= i < d + n :: dst[i] == src[s + i - d]
    ensures forall i | 0 <= i < dst.Length && !(d <= i < d + n) :: dst[i] == old(dst[i])
  {
    for i := 0 to n
      invariant forall j | d <= j < d + i :: dst[j] == src[s + j - d]
      invariant forall j | 0 <= j < dst.Length && !(d <= j < d + i) :: dst[j] == old(dst[j])
    {
      dst[d + i] := src[s + i];
    }
  }

  /** memset to zero */
  method Silence(stream: array<byte>, from: nat, to: nat)
    requires from <= to <= stream.Length
    modifies stream
    ensures forall i | from <= i < to :: stream[i] == 0
    ensures forall i | 0 <= i < stream.Length && !(from <= i < to) :: stream[i] == old(stream[i])
  {
    for i := from to to
      invariant forall j | from <= j < i :: stream[j] == 0
      invariant forall j | 0 <= j < stream.Length && !(from <= j < i) :: stream[j] == old(stream[j])
    {
      stream[i] := 0;
    }
  }
}
