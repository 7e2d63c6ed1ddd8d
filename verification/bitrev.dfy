/** The table of reversed bit patterns (BITREVLUT in apps/fceux/src/ppu.cpp), for any number of bits. */
module BitReversal {
  import opened Bits

  /** The number whose low n bits are those of i in reverse. */
  function Rev(i: nat, n: nat): nat {
    if n == 0 then 0 else (if i % 2 == 1 then Pow2(n - 1) else 0) + Rev(i / 2, n - 1)
  }

  lemma {:induction false} RevIsBelow(i: nat, n: nat)
    ensures Rev(i, n) < Pow2(n)
  {
    if n > 0 {
      RevIsBelow(i / 2, n - 1);
      Pow2Step(n);
    }
  }

  lemma RevStep(i: nat, n: nat)
    requires n > 0
    ensures Rev(i, n) == SetBit(Rev(i / 2, n - 1), n - 1, i % 2 == 1)
  {
    RevIsBelow(i / 2, n - 1);
    TopBitSet(Rev(i / 2, n - 1), n - 1);
  }

  /** Bit j of the reversal is bit n - 1 - j. */
  lemma {:induction false} RevReverses(i: nat, n: nat, j: nat)
    requires j < n
    ensures GetBit(Rev(i, n), j) == GetBit(i, n - 1 - j)
  {
    hide Rev, SetBit, Pow2;
    RevStep(i, n);
    GetSet(Rev(i / 2, n - 1), n - 1, i % 2 == 1, j);
    if j < n - 1 {
      RevReverses(i / 2, n - 1, j);
    }
  }

  /** Reversing twice gives the number back, so that the table is a permutation. */
  lemma RevIsInvolution(i: nat, n: nat)
    requires i < Pow2(n)
    ensures Rev(Rev(i, n), n) == i
  {
    hide Rev, GetBit, Pow2;
    RevIsBelow(Rev(i, n), n);
    forall j: nat | j < n
      ensures GetBit(Rev(Rev(i, n), n), j) == GetBit(i, j)
    {
      RevReverses(Rev(i, n), n, j);
      RevReverses(i, n, n - 1 - j);
    }
    BitsDetermine(Rev(Rev(i, n), n), i, n);
  }

  /** One more bit of the index adds half as much as the bit below it. */
  lemma {:induction false} RevOfUpperHalf(i: nat, k: nat, n: nat)
    requires k < n && i < Pow2(k)
    ensures Rev(i + Pow2(k), n) == Rev(i, n) + Pow2(n - 1 - k)
  {
    if k == 0 {
      RevOfZero(n - 1);
    } else {
      assert (i + Pow2(k)) / 2 == i / 2 + Pow2(k - 1) && (i + Pow2(k)) % 2 == i % 2;
      RevOfUpperHalf(i / 2, k - 1, n - 1);
    }
  }

  lemma {:induction false} RevOfZero(n: nat)
    ensures Rev(0, n) == 0
  {
    if n > 0 {
      RevOfZero(n - 1);
    }
  }

  /** The constructor fills the table by doubling the part that is filled; j goes over every entry once. */
  method MakeTable(bitCount: nat) returns (lut: array<nat>)
    requires bitCount >= 1
    ensures fresh(lut) && lut.Length == Pow2(bitCount)
    ensures forall i | 0 <= i < lut.Length :: lut[i] == Rev(i, bitCount) < lut.Length
  {
    hide Rev, Pow2;
    Pow2Step(bitCount);
    PowerOfZero();
    var n := Power(bitCount);
    lut := new nat[n];
    var bits, m, a, j := bitCount, 1, n / 2, 2;
    lut[0] := 0;
    lut[1] := a;
    RevOfZero(bitCount);
    RevOfUpperHalf(0, 0, bitCount);
    bits := bits - 1;
    Pow2Step(1);
    Pow2Monotone(1, bitCount);
    ghost var stage := 0;
    while bits > 0
      invariant bits == bitCount - 1 - stage && stage < bitCount && m == Pow2(stage) && a == Pow2(bitCount - 1 - stage)
      invariant j == 2 * m == Pow2(stage + 1) <= n
      invariant forall i | 0 <= i < j :: lut[i] == Rev(i, bitCount)
    {
      stage := stage + 1;
      Pow2Step(bitCount - stage);
      Pow2Step(stage + 1);
      Pow2Monotone(stage + 1, bitCount);
      m := 2 * m;
      a := a / 2;
      for i := 0 to m
        invariant j == m + i
        invariant forall k | 0 <= k < j :: lut[k] == Rev(k, bitCount)
      {
        RevOfUpperHalf(i, stage, bitCount);
        lut[j] := lut[i] + a;
        j := j + 1;
      }
      bits := bits - 1;
    }
    forall i | 0 <= i < n
      ensures Rev(i, bitCount) < n
    {
      RevIsBelow(i, bitCount);
    }
  }

  lemma PowerOfZero()
    ensures Pow2(0) == 1
  {
  }

  /** 1 << n */
  method Power(n: nat) returns (p: nat)
    ensures p == Pow2(n)
  {
    p := 1;
    for i := 0 to n
      invariant p == Pow2(i)
    {
      p := 2 * p;
    }
  }
}
