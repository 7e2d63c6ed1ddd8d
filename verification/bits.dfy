/** Machine words as natural numbers: powers of two, and the bitwise operators defined bit by bit. */
module Bits {
  const TWO32: nat := 0x1_0000_0000
  const TWO63: nat := 0x8000_0000_0000_0000
  const TWO64: nat := 0x1_0000_0000_0000_0000

  type u32 = x: int | 0 <= x < 0x1_0000_0000
  type u64 = x: int | 0 <= x < 0x1_0000_0000_0000_0000
  type i64 = x: int | -0x8000_0000_0000_0000 <= x < 0x8000_0000_0000_0000

  function Pow2(n: nat): (p: nat)
    ensures p > 0
  {
    if n == 0 then 1 else 2 * Pow2(n - 1)
  }

  function And(a: nat, b: nat): nat {
    if a == 0 || b == 0 then 0
    else 2 * And(a / 2, b / 2) + (if a % 2 == 1 && b % 2 == 1 then 1 else 0)
  }

  function Or(a: nat, b: nat): nat
    decreases a + b
  {
    if a == 0 && b == 0 then 0
    else 2 * Or(a / 2, b / 2) + (if a % 2 == 1 || b % 2 == 1 then 1 else 0)
  }

  function Xor(a: nat, b: nat): nat
    decreases a + b
  {
    if a == 0 && b == 0 then 0
    else 2 * Xor(a / 2, b / 2) + (if a % 2 != b % 2 then 1 else 0)
  }

  /** The index of the highest set bit. */
  function Log2(x: nat): (k: nat)
    requires x > 0
    ensures Pow2(k) <= x < Pow2(k + 1)
  {
    if x == 1 then 0 else 1 + Log2(x / 2)
  }

  /** __builtin_clz: the number of zero bits above the highest set bit of a 32-bit word. */
  function Clz(x: u32): (k: nat)
    requires x > 0
    ensures k < 32 && k == 31 - Log2(x)
  {
    Pow2Constants();
    Log2Below(x, 32);
    31 - Log2(x)
  }

  /** __builtin_ctz: the number of zero bits below the lowest set bit. */
  function Ctz(x: nat): nat
    requires x > 0
  {
    if x % 2 == 1 then 0 else 1 + Ctz(x / 2)
  }

  lemma Pow2Step(n: nat)
    requires n > 0
    ensures Pow2(n) == 2 * Pow2(n - 1)
  {
  }

  lemma {:induction false} Pow2Add(m: nat, n: nat)
    ensures Pow2(m + n) == Pow2(m) * Pow2(n)
  {
    if m > 0 {
      Pow2Add(m - 1, n);
      assert Pow2(m + n) == 2 * Pow2(m - 1 + n);
      assert Pow2(m) == 2 * Pow2(m - 1);
    }
  }

  lemma {:induction false} Pow2Monotone(m: nat, n: nat)
    requires m <= n
    ensures Pow2(m) <= Pow2(n)
    decreases n - m
  {
    if m < n {
      Pow2Monotone(m + 1, n);
    }
  }

  lemma Pow2Of4()
    ensures Pow2(4) == 16
  {
  }

  lemma SmallPow2()
    ensures Pow2(0) == 1 && Pow2(8) == 256 && Pow2(9) == 512
  {
    Pow2Of4();
    Pow2Add(4, 4);
  }

  lemma Pow2Constants()
    ensures Pow2(31) == 0x8000_0000 && Pow2(32) == TWO32 && Pow2(63) == TWO63 && Pow2(64) == TWO64
  {
    hide Pow2;
    Pow2Of4();
    Pow2Add(4, 4);
    Pow2Add(8, 8);
    Pow2Add(16, 16);
    Pow2Add(32, 32);
    Pow2Step(32);
    Pow2Step(64);
  }

  lemma Log2Below(x: nat, n: nat)
    requires 0 < x
    ensures Log2(x) < n <==> x < Pow2(n)
  {
    if n <= Log2(x) {
      Pow2Monotone(n, Log2(x));
    } else {
      Pow2Monotone(Log2(x) + 1, n);
    }
  }

  /** Disjoint bit ranges: or is sum. */
  lemma {:induction false} OrDisjoint(a: nat, b: nat, k: nat)
    requires a % Pow2(k) == 0 && b < Pow2(k)
    ensures Or(a, b) == a + b
    decreases k
  {
    if k == 0 {
      OrZero(a);
    } else if a != 0 || b != 0 {
      var p := Pow2(k - 1);
      HalfOfMultiple(a, p);
      OrDisjoint(a / 2, b / 2, k - 1);
    }
  }

  lemma HalfOfMultiple(a: nat, p: nat)
    requires p > 0 && a % (2 * p) == 0
    ensures a % 2 == 0 && (a / 2) % p == 0
  {
    var m := a / (2 * p);
    assert a == 2 * p * m;
    assert a == 2 * (p * m);
    assert a / 2 == p * m;
    MultipleMod(m, p);
  }

  lemma MultipleMod(m: nat, p: nat)
    requires p > 0
    ensures (p * m) % p == 0 && (m * p) % p == 0 && (m * p) / p == m
  {
    DivModUnique(m * p, p, m, 0);
    assert p * m == m * p;
  }

  /** Euclid: quotient and remainder are determined by their defining equation. */
  lemma DivModUnique(n: nat, d: nat, q: nat, r: nat)
    requires d > 0 && n == q * d + r && r < d
    ensures n / d == q && n % d == r
  {
    var q' := n / d;
    assert n == q' * d + n % d;
    assert (q - q') * d == n % d - r;
    ZeroMultiple(q - q', d);
  }

  lemma DivModOf(n: nat, d: nat)
    requires d > 0
    ensures n == n / d * d + n % d && 0 <= n % d < d && n / d >= 0
  {
  }

  lemma SumTimes(a: int, b: int, p: int)
    ensures (a + b) * p == a * p + b * p
  {
  }

  /** A multiple of the modulus vanishes. */
  lemma SameModulo(a: nat, b: nat, z: nat, p: nat)
    requires p > 0 && a == z * p + b
    ensures a % p == b % p
  {
    var k, m := b / p, b % p;
    DivModOf(b, p);
    SumTimes(z, k, p);
    DivModUnique(a, p, z + k, m);
  }

  lemma MulGrows(y: nat, p: nat)
    requires p > 0
    ensures y * p >= y
  {
    MulMonotone(1, p, y);
  }

  lemma MulMonotone(a: nat, b: nat, p: nat)
    requires a <= b
    ensures a * p <= b * p
  {
    assert b * p == a * p + (b - a) * p;
  }

  lemma ZeroMultiple(x: int, d: int)
    requires -d < x * d < d
    ensures x == 0
  {
    assert x >= 1 ==> x * d >= d;
    assert x <= -1 ==> x * d <= -d;
  }

  lemma {:induction false} OrZero(a: nat)
    ensures Or(a, 0) == a
  {
    if a > 0 {
      OrZero(a / 2);
    }
  }

  /** A mask of k ones takes the remainder modulo 2^k. */
  lemma {:induction false} AndMask(a: nat, k: nat)
    ensures And(a, Pow2(k) - 1) == a % Pow2(k)
    decreases k
  {
    if k == 0 {
      assert Pow2(k) == 1 && a % 1 == 0;
    } else {
      hide *;
      AndMask(a / 2, k - 1);
      MaskHalves(k);
      AndHalves(a, Pow2(k) - 1);
      ModStep(a, k);
      SameHalves(And(a, Pow2(k) - 1), a % Pow2(k));
    }
  }

  lemma MaskHalves(k: nat)
    requires k > 0
    ensures Pow2(k) - 1 >= 0 && (Pow2(k) - 1) / 2 == Pow2(k - 1) - 1 && (Pow2(k) - 1) % 2 == 1
  {
    assert Pow2(k) == 2 * Pow2(k - 1);
  }

  lemma ModByDoubling(a: nat, p: nat)
    requires p > 0
    ensures a % (2 * p) == 2 * (a / 2 % p) + a % 2
    ensures a / (2 * p) == a / 2 / p
  {
    var m := a / 2;
    assert m == m / p * p + m % p;
    assert a == m / p * (2 * p) + (2 * (m % p) + a % 2);
    DivModUnique(a, 2 * p, m / p, 2 * (m % p) + a % 2);
  }

  lemma {:induction false} AndSelf(a: nat)
    ensures And(a, a) == a
  {
    if a > 0 {
      AndSelf(a / 2);
    }
  }

  /** x & (x - 1) is zero exactly for the powers of two. */
  lemma {:induction false} PowerOfTwoTest(x: nat)
    requires x > 0
    ensures And(x, x - 1) == 0 <==> x == Pow2(Ctz(x))
  {
    if x % 2 == 1 {
      AndSelf(x / 2);
      assert (x - 1) / 2 == x / 2;
    } else {
      PowerOfTwoTest(x / 2);
      assert (x - 1) / 2 == x / 2 - 1;
    }
  }

  /** Xor with k ones is the complement. */
  lemma {:induction false} XorOnes(a: nat, k: nat)
    requires a < Pow2(k)
    ensures Xor(a, Pow2(k) - 1) == Pow2(k) - 1 - a
    decreases k
  {
    if k > 0 {
      assert Pow2(k) - 1 == 2 * (Pow2(k - 1) - 1) + 1;
      XorOnes(a / 2, k - 1);
    }
  }

  lemma {:induction false} XorZero(a: nat)
    ensures Xor(a, 0) == a
  {
    if a > 0 {
      XorZero(a / 2);
    }
  }

  // ---------- single bits ----------

  function GetBit(x: nat, k: nat): bool {
    if k == 0 then x % 2 == 1 else GetBit(x / 2, k - 1)
  }

  function SetBit(x: nat, k: nat, b: bool): nat {
    if k == 0 then x / 2 * 2 + (if b then 1 else 0) else 2 * SetBit(x / 2, k - 1, b) + x % 2
  }

  /** Setting one bit changes that bit and no other. */
  lemma {:induction false} GetSet(x: nat, k: nat, b: bool, j: nat)
    ensures GetBit(SetBit(x, k, b), j) == if j == k then b else GetBit(x, j)
  {
    if k > 0 && j > 0 {
      GetSet(x / 2, k - 1, b, j - 1);
    }
  }

  lemma {:induction false} SetBitBelow(x: nat, k: nat, b: bool, n: nat)
    requires k < n && x < Pow2(n)
    ensures SetBit(x, k, b) < Pow2(n)
  {
    hide Pow2, SetBit;
    Pow2Step(n);
    if k == 0 {
      SetBitZero(x, b);
    } else {
      SetBitBelow(x / 2, k - 1, b, n - 1);
      SetBitHalves(x, k, b);
    }
  }

  lemma SetBitZero(x: nat, b: bool)
    ensures SetBit(x, 0, b) / 2 == x / 2
  {
  }

  lemma ModStep(x: nat, k: nat)
    requires k > 0
    ensures x % Pow2(k) / 2 == x / 2 % Pow2(k - 1) && x % Pow2(k) % 2 == x % 2
  {
    hide Pow2;
    Pow2Step(k);
    ModByDoubling(x, Pow2(k - 1));
  }

  lemma SameHalves(x: nat, y: nat)
    requires x / 2 == y / 2 && x % 2 == y % 2
    ensures x == y
  {
  }

  lemma SetBitHalves(x: nat, k: nat, b: bool)
    requires k > 0
    ensures SetBit(x, k, b) / 2 == SetBit(x / 2, k - 1, b) && SetBit(x, k, b) % 2 == x % 2
  {
  }

  /** A bit does not touch the bits below it. */
  lemma {:induction false} SetBitAbove(x: nat, k: nat, b: bool, m: nat)
    requires m <= k
    ensures SetBit(x, k, b) % Pow2(m) == x % Pow2(m)
  {
    if m > 0 {
      hide *;
      SetBitAbove(x / 2, k - 1, b, m - 1);
      SetBitHalves(x, k, b);
      ModStep(SetBit(x, k, b), m);
      ModStep(x, m);
      SameHalves(SetBit(x, k, b) % Pow2(m), x % Pow2(m));
    }
  }

  /** The low k bits of a bitwise operator only depend on the low k bits of its operands. */
  lemma {:induction false} AndMod(a: nat, b: nat, k: nat)
    ensures And(a, b) % Pow2(k) == And(a % Pow2(k), b % Pow2(k))
    decreases k
  {
    if k > 0 {
      hide *;
      AndMod(a / 2, b / 2, k - 1);
      AndHalves(a, b);
      AndHalves(a % Pow2(k), b % Pow2(k));
      ModStep(a, k);
      ModStep(b, k);
      ModStep(And(a, b), k);
      SameHalves(And(a, b) % Pow2(k), And(a % Pow2(k), b % Pow2(k)));
    }
  }

  lemma AndHalves(a: nat, b: nat)
    ensures And(a, b) / 2 == And(a / 2, b / 2)
    ensures And(a, b) % 2 == if a % 2 == 1 && b % 2 == 1 then 1 else 0
  {
  }

  lemma {:induction false} OrMod(a: nat, b: nat, k: nat)
    ensures Or(a, b) % Pow2(k) == Or(a % Pow2(k), b % Pow2(k))
    decreases k
  {
    if k > 0 {
      hide *;
      OrMod(a / 2, b / 2, k - 1);
      OrHalves(a, b);
      OrHalves(a % Pow2(k), b % Pow2(k));
      ModStep(a, k);
      ModStep(b, k);
      ModStep(Or(a, b), k);
      SameHalves(Or(a, b) % Pow2(k), Or(a % Pow2(k), b % Pow2(k)));
    }
  }

  lemma OrHalves(a: nat, b: nat)
    ensures Or(a, b) / 2 == Or(a / 2, b / 2)
    ensures Or(a, b) % 2 == if a % 2 == 1 || b % 2 == 1 then 1 else 0
  {
  }

  lemma {:induction false} XorMod(a: nat, b: nat, k: nat)
    ensures Xor(a, b) % Pow2(k) == Xor(a % Pow2(k), b % Pow2(k))
    decreases k
  {
    if k > 0 {
      hide *;
      XorMod(a / 2, b / 2, k - 1);
      XorHalves(a, b);
      XorHalves(a % Pow2(k), b % Pow2(k));
      ModStep(a, k);
      ModStep(b, k);
      ModStep(Xor(a, b), k);
      SameHalves(Xor(a, b) % Pow2(k), Xor(a % Pow2(k), b % Pow2(k)));
    }
  }

  lemma XorHalves(a: nat, b: nat)
    ensures Xor(a, b) / 2 == Xor(a / 2, b / 2)
    ensures Xor(a, b) % 2 == if a % 2 != b % 2 then 1 else 0
  {
  }

  lemma {:induction false} XorSelf(a: nat)
    ensures Xor(a, a) == 0
  {
    if a > 0 {
      XorSelf(a / 2);
    }
  }

  /** A number from its parts above and below a bit position. */
  function Joined(high: nat, p: nat, low: nat): nat {
    JoinedIsNat(high, p, low);
    high * p + low
  }

  lemma JoinedIsNat(high: nat, p: nat, low: nat)
    ensures high * p + low >= 0
  {
  }

  lemma JoinedHalves(high: nat, p: nat, low: nat)
    ensures Joined(high, 2 * p, low) / 2 == Joined(high, p, low / 2) && Joined(high, 2 * p, low) % 2 == low % 2
  {
    assert high * (2 * p) == 2 * (high * p);
  }

  /** Xor and and work on the parts above and below a bit position. */
  lemma {:induction false} XorParts(a: nat, b: nat, a0: nat, b0: nat, k: nat)
    requires a0 < Pow2(k) && b0 < Pow2(k)
    ensures Xor(Joined(a, Pow2(k), a0), Joined(b, Pow2(k), b0)) == Joined(Xor(a, b), Pow2(k), Xor(a0, b0))
    decreases k
  {
    if k == 0 {
      assert Pow2(k) == 1 && a0 == 0 && b0 == 0;
    } else {
      Pow2Step(k);
      hide *;
      var p, q := Pow2(k - 1), Pow2(k);
      JoinedHalves(a, p, a0);
      JoinedHalves(b, p, b0);
      JoinedHalves(Xor(a, b), p, Xor(a0, b0));
      XorParts(a, b, a0 / 2, b0 / 2, k - 1);
      XorHalves(Joined(a, q, a0), Joined(b, q, b0));
      XorHalves(a0, b0);
      SameHalves(Xor(Joined(a, q, a0), Joined(b, q, b0)), Joined(Xor(a, b), q, Xor(a0, b0)));
    }
  }

  lemma {:induction false} AndParts(a: nat, b: nat, a0: nat, b0: nat, k: nat)
    requires a0 < Pow2(k) && b0 < Pow2(k)
    ensures And(Joined(a, Pow2(k), a0), Joined(b, Pow2(k), b0)) == Joined(And(a, b), Pow2(k), And(a0, b0))
    decreases k
  {
    if k == 0 {
      assert Pow2(k) == 1 && a0 == 0 && b0 == 0;
    } else {
      Pow2Step(k);
      hide *;
      var p, q := Pow2(k - 1), Pow2(k);
      JoinedHalves(a, p, a0);
      JoinedHalves(b, p, b0);
      JoinedHalves(And(a, b), p, And(a0, b0));
      AndParts(a, b, a0 / 2, b0 / 2, k - 1);
      AndHalves(Joined(a, q, a0), Joined(b, q, b0));
      AndHalves(a0, b0);
      SameHalves(And(Joined(a, q, a0), Joined(b, q, b0)), Joined(And(a, b), q, And(a0, b0)));
    }
  }

  lemma {:induction false} AndBelow(a: nat, b: nat)
    ensures And(a, b) <= b
  {
    if a != 0 && b != 0 {
      AndBelow(a / 2, b / 2);
    }
  }

  lemma AndLow(a: nat, b: nat, k: nat)
    requires b < Pow2(k)
    ensures And(a, b) == And(a % Pow2(k), b)
  {
    hide *;
    AndMod(a, b, k);
    AndBelow(a, b);
    SmallMod(b, Pow2(k));
    SmallMod(And(a, b), Pow2(k));
  }

  lemma SmallMod(x: nat, p: nat)
    requires x < p
    ensures x % p == x
  {
  }

  lemma OrXorBelow(a: nat, b: nat, k: nat)
    requires a < Pow2(k) && b < Pow2(k)
    ensures Or(a, b) < Pow2(k) && Xor(a, b) < Pow2(k)
  {
    hide *;
    OrMod(a, b, k);
    XorMod(a, b, k);
    SmallMod(a, Pow2(k));
    SmallMod(b, Pow2(k));
    ModIsBelow(Or(a, b), k);
    ModIsBelow(Xor(a, b), k);
  }

  lemma ModIsBelow(x: nat, k: nat)
    ensures x % Pow2(k) < Pow2(k)
  {
  }

  lemma OrXorLow(a: nat, b: nat, k: nat)
    requires b < Pow2(k)
    ensures Or(a, b) % Pow2(k) == Or(a % Pow2(k), b) % Pow2(k)
    ensures Xor(a, b) % Pow2(k) == Xor(a % Pow2(k), b) % Pow2(k)
  {
    hide *;
    OrMod(a, b, k);
    XorMod(a, b, k);
    SmallMod(b, Pow2(k));
    ModIsBelow(a, k);
    OrXorBelow(a % Pow2(k), b, k);
    SmallMod(Or(a % Pow2(k), b), Pow2(k));
    SmallMod(Xor(a % Pow2(k), b), Pow2(k));
  }

  /** A bit by arithmetic. */
  lemma {:induction false} BitIs(p: nat, k: nat)
    ensures GetBit(p, k) <==> p % Pow2(k + 1) >= Pow2(k)
  {
    ModStep(p, k + 1);
    if k > 0 {
      BitIs(p / 2, k - 1);
    }
  }

  /** A bit by division. */
  lemma {:induction false} GetBitIs(a: nat, k: nat)
    ensures GetBit(a, k) <==> a / Pow2(k) % 2 == 1
    decreases k
  {
    if k > 0 {
      GetBitIs(a / 2, k - 1);
      ModByDoubling(a, Pow2(k - 1));
    }
  }

  /** Toggling one bit. */
  lemma {:induction false} XorBit(a: nat, k: nat)
    ensures Xor(a, Pow2(k)) == if a / Pow2(k) % 2 == 1 then a - Pow2(k) else a + Pow2(k)
    decreases k
  {
    if k == 0 {
      XorZero(a / 2);
    } else {
      XorBit(a / 2, k - 1);
      XorHalves(a, Pow2(k));
      Pow2Step(k);
      hide *;
      ModByDoubling(a, Pow2(k - 1));
      ToggledDouble(a, Xor(a, Pow2(k)), Pow2(k - 1));
    }
  }

  lemma ToggledDouble(a: nat, x: nat, p: nat)
    requires p > 0 && x / 2 == (if a / 2 / p % 2 == 1 then a / 2 - p else a / 2 + p) && x % 2 == a % 2
    ensures x == if a / 2 / p % 2 == 1 then a - 2 * p else a + 2 * p
  {
  }

  /** Words are equal if their bits are. */
  lemma {:induction false} BitsDetermine(p: nat, q: nat, n: nat)
    requires p < Pow2(n) && q < Pow2(n)
    requires forall j: nat | j < n :: GetBit(p, j) == GetBit(q, j)
    ensures p == q
  {
    if n > 0 {
      assert GetBit(p, 0) == GetBit(q, 0);
      forall j: nat | j < n - 1
        ensures GetBit(p / 2, j) == GetBit(q / 2, j)
      {
        assert GetBit(p, j + 1) == GetBit(q, j + 1);
      }
      BitsDetermine(p / 2, q / 2, n - 1);
    }
  }

  /** A bit above all others. */
  lemma {:induction false} TopBitSet(x: nat, k: nat)
    requires x < Pow2(k)
    ensures x + Pow2(k) == SetBit(x, k, true) && x == SetBit(x, k, false)
    decreases k
  {
    if k > 0 {
      assert Pow2(k) == 2 * Pow2(k - 1);
      TopBitSet(x / 2, k - 1);
    }
  }
}
