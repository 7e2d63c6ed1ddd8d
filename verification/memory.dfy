/** memcpy and memmove of libs/klib/src/string.c over a byte-addressed memory: an address is an index into mem, and a
    word access loads all its bytes before it stores them.
 */
module KlibMemory {
  import opened Bits

  type byte = x: int | 0 <= x < 256

  const THRESHOLD: nat := 32

  /** What a copy is supposed to do: the n bytes at d become the old bytes at s, and nothing else changes. */
  function Moved(m: seq<byte>, d: nat, s: nat, n: nat): (r: seq<byte>)
    requires d + n <= |m| && s + n <= |m|
    ensures |r| == |m|
    ensures forall i | 0 <= i < |m| :: r[i] == if d <= i < d + n then m[s + i - d] else m[i]
  {
    m[..d] + m[s..s + n] + m[d + n..]
  }

  lemma IsMoved(m: seq<byte>, r: seq<byte>, d: nat, s: nat, n: nat)
    requires d + n <= |m| == |r| && s + n <= |m|
    requires forall i | d <= i < d + n :: r[i] == m[s + i - d]
    requires forall i | 0 <= i < |m| && !(d <= i < d + n) :: r[i] == m[i]
    ensures r == Moved(m, d, s, n)
  {
  }

  /** The simple form of memcpy: one byte after the other, upward. */
  function CopiedUp(m: seq<byte>, d: nat, s: nat, n: nat): (r: seq<byte>)
    requires d + n <= |m| && s + n <= |m|
    ensures |r| == |m|
  {
    if n == 0 then m
    else
      var r := CopiedUp(m, d, s, n - 1);
      r[d + n - 1 := r[s + n - 1]]
  }

  lemma {:induction false} CopiedUpInParts(m: seq<byte>, d: nat, s: nat, a: nat, b: nat)
    requires d + a + b <= |m| && s + a + b <= |m|
    ensures CopiedUp(m, d, s, a + b) == CopiedUp(CopiedUp(m, d, s, a), d + a, s + a, b)
  {
    if b > 0 {
      CopiedUpInParts(m, d, s, a, b - 1);
    }
  }

  /** With d above s the copied bytes repeat with the distance as period. */
  lemma {:induction false} CopiedUpRepeats(m: seq<byte>, d: nat, s: nat, n: nat)
    requires s < d && d + n <= |m|
    ensures forall j | d <= j < d + n :: CopiedUp(m, d, s, n)[j] == CopiedUp(m, d, s, n)[j - (d - s)]
    ensures forall j | 0 <= j < |m| && !(d <= j < d + n) :: CopiedUp(m, d, s, n)[j] == m[j]
  {
    if n > 0 {
      CopiedUpRepeats(m, d, s, n - 1);
      var r, r' := CopiedUp(m, d, s, n - 1), CopiedUp(m, d, s, n);
      hide CopiedUp;
      forall j | d <= j < d + n
        ensures r'[j] == r'[j - (d - s)]
      {
        if j < d + n - 1 {
          assert r[j] == r[j - (d - s)];
        }
      }
    }
  }

  /** The simple form moves the bytes if it starts at or below the source, or past its end. */
  lemma {:induction false} CopiedUpIsMoved(m: seq<byte>, d: nat, s: nat, n: nat)
    requires d + n <= |m| && s + n <= |m| && (d <= s || s + n <= d)
    ensures CopiedUp(m, d, s, n) == Moved(m, d, s, n)
  {
    if n > 0 {
      CopiedUpIsMoved(m, d, s, n - 1);
      var r := CopiedUp(m, d, s, n - 1);
      assert r[s + n - 1] == m[s + n - 1];
      IsMoved(m, r[d + n - 1 := r[s + n - 1]], d, s, n);
    } else {
      IsMoved(m, m, d, s, n);
    }
  }

  /** m repeats with the distance as period where source and destination overlap. */
  predicate IsPeriodic(m: seq<byte>, d: nat, s: nat, n: nat)
    requires s < d < s + n <= |m|
  {
    forall j | d <= j < s + n :: m[j] == m[j - (d - s)]
  }

  lemma {:induction false} PeriodicIsMoved(m: seq<byte>, r: seq<byte>, d: nat, s: nat, n: nat, j: nat)
    requires s < d < s + n && d + n <= |m| == |r| && IsPeriodic(m, d, s, n)
    requires forall i | d <= i < d + n :: r[i] == r[i - (d - s)]
    requires forall i | 0 <= i < d :: r[i] == m[i]
    requires d <= j < d + n
    ensures r[j] == m[j - (d - s)]
  {
    if j >= d + (d - s) {
      PeriodicIsMoved(m, r, d, s, n, j - (d - s));
      assert r[j] == r[j - (d - s)];
    }
  }

  /** With the start of the destination inside the source, the simple form moves the bytes exactly if they repeat. */
  lemma CopiedUpIsMovedIfPeriodic(m: seq<byte>, d: nat, s: nat, n: nat)
    requires s < d < s + n && d + n <= |m|
    ensures CopiedUp(m, d, s, n) == Moved(m, d, s, n) <==> IsPeriodic(m, d, s, n)
  {
    hide CopiedUp;
    CopiedUpRepeats(m, d, s, n);
    var r, moved := CopiedUp(m, d, s, n), Moved(m, d, s, n);
    if r == moved {
      forall j | d <= j < s + n
        ensures m[j] == m[j - (d - s)]
      {
        assert moved[j + (d - s)] == m[j] && r[j + (d - s)] == r[j];
      }
    }
    if IsPeriodic(m, d, s, n) {
      forall j | d <= j < d + n
        ensures r[j] == moved[j]
      {
        PeriodicIsMoved(m, r, d, s, n, j);
      }
    }
  }

  /** The simple form moves the bytes exactly if the destination does not start inside the source, or the bytes
      repeat.
   */
  lemma WhenCopiedUpIsMoved(m: seq<byte>, d: nat, s: nat, n: nat)
    requires d + n <= |m| && s + n <= |m|
    ensures CopiedUp(m, d, s, n) == Moved(m, d, s, n) <==> (s < d < s + n ==> IsPeriodic(m, d, s, n))
  {
    hide CopiedUp, IsPeriodic, Moved;
    if s < d < s + n {
      CopiedUpIsMovedIfPeriodic(m, d, s, n);
    } else {
      CopiedUpIsMoved(m, d, s, n);
    }
  }

  /** The store of one unit: *dst ++ = *src ++ for pointers to words of w bytes. */
  method CopyUnit(mem: array<byte>, dst: nat, src: nat, w: nat, ghost m: seq<byte>, ghost out: nat, ghost input: nat)
    returns (dst': nat, src': nat)
    requires out <= dst && dst + w <= mem.Length && src + w <= mem.Length
    requires |m| == mem.Length && input + (dst - out) == src
    requires mem[..] == CopiedUp(m, out, input, dst - out)
    requires dst <= src || w <= dst - src
    modifies mem
    ensures dst' == dst + w && src' == src + w
    ensures mem[..] == CopiedUp(m, out, input, dst' - out)
  {
    hide CopiedUp, Moved;
    CopiedUpInParts(m, out, input, dst - out, w);
    CopiedUpIsMoved(mem[..], dst, src, w);
    ghost var before := mem[..];
    var word := mem[src..src + w];
    forall i | 0 <= i < w {
      mem[dst + i] := word[i];
    }
    IsMoved(before, mem[..], dst, src, w);
    dst', src' := dst + w, src + w;
  }

  // ---------- the alignment gates ----------

  /** A word copy is only entered if the distance is a multiple of the word size, so it is at least one word. */
  lemma GateKeepsApart(dst: nat, src: nat, w: nat)
    requires w > 0 && (dst - src) % w == 0
    ensures dst <= src || w <= dst - src
  {
  }

  /** The loop that is said to align dst to 8 bytes does so exactly if dst is a multiple of 4 already. */
  lemma PrologueAligns8(dst: nat)
    ensures (dst + dst % 8) % 8 == 0 <==> dst % 4 == 0
  {
    var q, r := dst / 8, dst % 8;
    SameModulo(dst + r, 2 * r, q, 8);
    SameModulo(dst, r, 2 * q, 4);
  }

  /** The same for the loop that is said to align dst to 4 bytes. */
  lemma PrologueAligns4(dst: nat)
    ensures (dst + dst % 4) % 4 == 0 <==> dst % 2 == 0
  {
    var q, r := dst / 4, dst % 4;
    SameModulo(dst + r, 2 * r, q, 4);
    SameModulo(dst, r, 2 * q, 2);
  }

  /** At every step of memcpy the memory is what the simple form makes of it up to here. */
  ghost predicate IsCopiedTo(mem: array<byte>, m: seq<byte>, out: nat, input: nat, dst: nat, src: nat, n: nat)
    reads mem
  {
    && out <= dst && input + (dst - out) == src && dst + n <= mem.Length && src + n <= mem.Length
    && |m| == mem.Length && mem[..] == CopiedUp(m, out, input, dst - out)
  }

  /** while (n --) *dst ++ = *src ++, and the loops of the two prologues */
  method CopyBytes(mem: array<byte>, dst: nat, src: nat, n: nat, count: nat, ghost m: seq<byte>, ghost out: nat,
      ghost input: nat)
    returns (dst': nat, src': nat)
    requires IsCopiedTo(mem, m, out, input, dst, src, n) && count <= n
    modifies mem
    ensures dst' == dst + count && src' == src + count && IsCopiedTo(mem, m, out, input, dst', src', n - count)
  {
    dst', src' := dst, src;
    var left := count;
    while left > 0
      invariant 0 <= left <= count && dst' == dst + (count - left) && src' == src + (count - left)
      invariant IsCopiedTo(mem, m, out, input, dst', src', n - (count - left))
    {
      dst', src' := CopyUnit(mem, dst', src', 1, m, out, input);
      left := left - 1;
    }
  }

  /** The unrolled loop over blocks of 32 bytes, and the loop over the words that are left after it. */
  method CopyWords(mem: array<byte>, dst: nat, src: nat, n: nat, w: nat, ghost m: seq<byte>, ghost out: nat,
      ghost input: nat)
    returns (dst': nat, src': nat, n': nat)
    requires IsCopiedTo(mem, m, out, input, dst, src, n) && (w == 4 || w == 8) && (dst - src) % w == 0
    modifies mem
    ensures n' < w && n' <= n && dst' == dst + (n - n') && src' == src + (n - n')
    ensures IsCopiedTo(mem, m, out, input, dst', src', n')
  {
    GateKeepsApart(dst, src, w);
    dst', src', n' := dst, src, n;
    while n' >= THRESHOLD
      invariant n' <= n && dst' == dst + (n - n') && src' == src + (n - n')
      invariant IsCopiedTo(mem, m, out, input, dst', src', n')
    {
      dst', src' := CopyBlock(mem, dst', src', n', w, m, out, input);
      n' := n' - THRESHOLD;
    }
    while n' >= w
      invariant n' <= n && dst' == dst + (n - n') && src' == src + (n - n')
      invariant IsCopiedTo(mem, m, out, input, dst', src', n')
    {
      dst', src' := CopyUnit(mem, dst', src', w, m, out, input);
      n' := n' - w;
    }
  }

  /** The body of an unrolled loop: four words of 8 bytes, or eight of 4. */
  method CopyBlock(mem: array<byte>, dst: nat, src: nat, n: nat, w: nat, ghost m: seq<byte>, ghost out: nat,
      ghost input: nat)
    returns (dst': nat, src': nat)
    requires IsCopiedTo(mem, m, out, input, dst, src, n) && (w == 4 || w == 8) && n >= THRESHOLD
    requires dst <= src || w <= dst - src
    modifies mem
    ensures dst' == dst + THRESHOLD && src' == src + THRESHOLD
    ensures IsCopiedTo(mem, m, out, input, dst', src', n - THRESHOLD)
  {
    dst', src' := CopyUnit(mem, dst, src, w, m, out, input);
    dst', src' := CopyUnit(mem, dst', src', w, m, out, input);
    dst', src' := CopyUnit(mem, dst', src', w, m, out, input);
    dst', src' := CopyUnit(mem, dst', src', w, m, out, input);
    if w == 4 {
      dst', src' := CopyUnit(mem, dst', src', w, m, out, input);
      dst', src' := CopyUnit(mem, dst', src', w, m, out, input);
      dst', src' := CopyUnit(mem, dst', src', w, m, out, input);
      dst', src' := CopyUnit(mem, dst', src', w, m, out, input);
    }
  }

  /** memcpy refines the simple form for all arguments, overlapping or not. */
  method Memcpy(mem: array<byte>, out: nat, input: nat, size: nat) returns (r: nat)
    requires out + size <= mem.Length && input + size <= mem.Length
    modifies mem
    ensures r == out && mem[..] == CopiedUp(old(mem[..]), out, input, size)
  {
    hide *;
    ghost var m := mem[..];
    CopyStarts(mem, out, input, size);
    ThresholdIs();
    var dst: int, src: int, n := out, input, size;
    if n >= THRESHOLD && (dst - src) % 8 == 0 {
      var pad := dst % 8;
      n := n - pad;
      dst, src := CopyBytes(mem, dst, src, n + pad, pad, m, out, input);
      dst, src, n := CopyWords(mem, dst, src, n, 8, m, out, input);
    }
    if n >= THRESHOLD && (dst - src) % 4 == 0 {
      var pad := dst % 4;
      n := n - pad;
      dst, src := CopyBytes(mem, dst, src, n + pad, pad, m, out, input);
      dst, src, n := CopyWords(mem, dst, src, n, 4, m, out, input);
    }
    dst, src := CopyBytes(mem, dst, src, n, n, m, out, input);
    CopyEnds(mem, m, out, input, dst, src);
    r := out;
  }

  lemma ThresholdIs()
    ensures THRESHOLD == 32
  {
  }

  lemma CopyStarts(mem: array<byte>, out: nat, input: nat, size: nat)
    requires out + size <= mem.Length && input + size <= mem.Length
    ensures IsCopiedTo(mem, mem[..], out, input, out, input, size)
  {
  }

  lemma CopyEnds(mem: array<byte>, m: seq<byte>, out: nat, input: nat, dst: nat, src: nat)
    requires IsCopiedTo(mem, m, out, input, dst, src, 0)
    ensures input + (dst - out) == src && mem[..] == CopiedUp(m, out, input, dst - out)
  {
  }

  /** memmove moves the bytes for every overlap and alignment, and changes nothing else. */
  method Memmove(mem: array<byte>, dst: nat, src: nat, size: nat) returns (r: nat)
    requires dst + size <= mem.Length && src + size <= mem.Length
    modifies mem
    ensures r == dst && mem[..] == Moved(old(mem[..]), dst, src, size)
  {
    ghost var m := mem[..];
    if src + size > dst && src < dst {
      var s, d, n := src + size, dst + size, size;
      while n > 0
        invariant 0 <= n <= size && s == src + n && d == dst + n
        invariant forall i | d <= i < dst + size :: mem[i] == m[src + i - dst]
        invariant forall i | 0 <= i < d :: mem[i] == m[i]
        invariant forall i | dst + size <= i < mem.Length :: mem[i] == m[i]
      {
        n := n - 1;
        d, s := d - 1, s - 1;
        mem[d] := mem[s];
      }
      IsMoved(m, mem[..], dst, src, size);
    } else {
      var _ := Memcpy(mem, dst, src, size);
      CopiedUpIsMoved(m, dst, src, size);
    }
    r := dst;
  }
}
