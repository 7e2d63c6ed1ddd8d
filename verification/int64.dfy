/** 64-bit division on a 32-bit machine (libs/klib/src/int64.c).

    The two halves of a 64-bit word are the variables High and Low; the shifts of the source are written on the
    halves as they are there.
 */
module Int64Division {
  import opened Bits

  function Wide(high: u32, low: u32): u64 {
    high * 0x1_0000_0000 + low
  }

  function High(x: u64): u32 {
    x / 0x1_0000_0000
  }

  function Low(x: u64): u32 {
    x % 0x1_0000_0000
  }

  /** The part of x above bit k, and the part below it. */
  function Above(x: nat, k: nat): nat {
    QuotientIsSmaller(x, Pow2(k));
    x / Pow2(k)
  }

  function Below(x: nat, k: nat): nat {
    x % Pow2(k)
  }

  /** x << k on a 32-bit word. */
  function Shl(x: u32, k: nat): u32 {
    x * Pow2(k) % 0x1_0000_0000
  }

  /** x >> k on a 32-bit word. */
  function Shr(x: u32, k: nat): u32 {
    AboveIsSmaller(x, k);
    Above(x, k)
  }

  lemma QuotientIsSmaller(x: nat, p: nat)
    requires p > 0
    ensures 0 <= x / p <= x
  {
    MulGrows(x / p, p);
  }

  lemma AboveIsSmaller(x: nat, k: nat)
    ensures Above(x, k) <= x
  {
    QuotientIsSmaller(x, Pow2(k));
  }

  /** A number is made up of its two parts. */
  lemma PartsOf(x: nat, k: nat)
    ensures Pow2(k) > 0 && x == Above(x, k) * Pow2(k) + Below(x, k) && Below(x, k) < Pow2(k)
  {
  }

  lemma PartsAre(x: nat, k: nat, above: nat, below: nat)
    requires x == above * Pow2(k) + below && below < Pow2(k)
    ensures Above(x, k) == above && Below(x, k) == below
  {
    DivModUnique(x, Pow2(k), above, below);
  }

  // ---------- words and halves ----------

  lemma QuotientBelow(y: nat, p: nat, q: nat)
    requires y * p < p * q
    ensures y < q
  {
    if q <= y {
      MulMonotone(q, y, p);
    }
  }

  /** The part above bit s of a word of s + t bits has t bits. */
  lemma AboveFits(x: nat, s: nat, t: nat)
    requires x < Pow2(s + t)
    ensures Above(x, s) < Pow2(t)
  {
    hide *;
    Pow2Add(s, t);
    PartsOf(x, s);
    QuotientBelow(Above(x, s), Pow2(s), Pow2(t));
  }

  lemma ShiftedProduct(x: nat, upper: nat, lower: nat, p: nat, q: nat)
    requires x == upper * p + lower
    ensures x * q == upper * (p * q) + lower * q
  {
    assert upper * p * q == upper * (p * q);
  }

  /** Shifting a word left leaves the lower part on top. */
  lemma ShlIs(x: u32, s: nat)
    requires s <= 32
    ensures Shl(x, 32 - s) == Below(x, s) * Pow2(32 - s)
    ensures Below(x, s) * Pow2(32 - s) + Pow2(32 - s) <= 0x1_0000_0000
  {
    hide Pow2, Above, Below;
    var p, q := Pow2(s), Pow2(32 - s);
    Pow2Add(s, 32 - s);
    Pow2Constants();
    PartsOf(x, s);
    MulMonotone(Below(x, s) + 1, p, q);
    ShiftedProduct(x, Above(x, s), Below(x, s), p, q);
    DivModUnique(x * q, 0x1_0000_0000, Above(x, s), Below(x, s) * q);
  }

  lemma ShrIs(x: u32, s: nat)
    requires s <= 32
    ensures Shr(x, s) == Above(x, s) < Pow2(32 - s)
  {
    hide Above, Pow2;
    Pow2Constants();
    AboveFits(x, s, 32 - s);
  }

  lemma MultipleIsAbove(x: nat, k: nat)
    ensures Pow2(k) > 0 && x * Pow2(k) % Pow2(k) == 0
  {
    MultipleMod(x, Pow2(k));
  }

  /** (a << (32 - s)) | (b >> s) is the sum of two disjoint parts. */
  lemma ShiftedOr(a: u32, b: u32, s: nat)
    requires 0 < s < 32
    ensures Shl(a, 32 - s) == Below(a, s) * Pow2(32 - s)
    ensures Or(Shl(a, 32 - s), Shr(b, s)) == Below(a, s) * Pow2(32 - s) + Above(b, s) < 0x1_0000_0000
  {
    hide *;
    ShlIs(a, s);
    ShrIs(b, s);
    MultipleIsAbove(Below(a, s), 32 - s);
    OrDisjoint(Below(a, s) * Pow2(32 - s), Above(b, s), 32 - s);
  }

  /** The state in which the loop starts: r:q is n shifted left by 64 - sr. */
  ghost predicate IsStart(n: u64, sr: nat, q: u64, r: u64) {
    && 1 <= sr <= 63
    && r == Above(n, sr)
    && q == Below(n, sr) * Pow2(64 - sr)
  }

  lemma WideQuotient(h1: nat, h0: nat, l1: nat, l0: nat, p: nat, q: nat)
    ensures (h1 * p + h0) * (p * q) + (l1 * p + l0) == (h1 * (p * q) + (h0 * q + l1)) * p + l0
  {
    assert h0 * (p * q) == h0 * q * p;
    assert h1 * p * (p * q) == h1 * (p * q) * p;
  }

  lemma ProductRegrouped(x: nat, q: nat)
    ensures x * q * 0x1_0000_0000 == x * (q * 0x1_0000_0000)
  {
  }

  lemma WideIs(high: u32, low: u32)
    ensures Wide(high, low) == high * 0x1_0000_0000 + low
  {
  }

  lemma StartBelow32(nHigh: u32, nLow: u32, sr: nat)
    requires 1 <= sr <= 31
    ensures Or(Shl(nHigh, 32 - sr), Shr(nLow, sr)) < 0x1_0000_0000
    ensures IsStart(Wide(nHigh, nLow), sr, Wide(Shl(nLow, 32 - sr), 0),
                    Wide(Shr(nHigh, sr), Or(Shl(nHigh, 32 - sr), Shr(nLow, sr))))
  {
    hide Pow2, Or, Above, Below, Shl, Shr, Wide;
    var n := Wide(nHigh, nLow);
    var p, q := Pow2(sr), Pow2(32 - sr);
    ShiftedOr(nHigh, nLow, sr);
    ShlIs(nLow, sr);
    ShrIs(nHigh, sr);
    Pow2Add(sr, 32 - sr);
    Pow2Add(32 - sr, 32);
    Pow2Constants();
    PartsOf(nHigh, sr);
    PartsOf(nLow, sr);
    var h1, h0, l1, l0 := Above(nHigh, sr), Below(nHigh, sr), Above(nLow, sr), Below(nLow, sr);
    WideQuotient(h1, h0, l1, l0, p, q);
    ProductRegrouped(l0, q);
    WideIs(nHigh, nLow);
    WideIs(Shl(nLow, 32 - sr), 0);
    WideIs(Shr(nHigh, sr), Or(Shl(nHigh, 32 - sr), Shr(nLow, sr)));
    MulNonNegative(h0, q);
    PartsAre(n, sr, h1 * 0x1_0000_0000 + (h0 * q + l1), l0);
  }

  lemma StartAt32(nHigh: u32, nLow: u32)
    ensures IsStart(Wide(nHigh, nLow), 32, Wide(nLow, 0), Wide(0, nHigh))
  {
    hide Above, Below, Pow2;
    Pow2Constants();
    PartsAre(Wide(nHigh, nLow), 32, nHigh, nLow);
  }

  lemma WideRemainder(h1: nat, h0: nat, nLow: nat, l1: nat, l0: nat, p: nat, q: nat, w: nat)
    requires nLow == l1 * p + l0 && w == p * q
    ensures (h1 * p + h0) * w + nLow == h1 * (p * w) + (h0 * w + nLow)
    ensures (h0 * w + nLow) * q == (h0 * q + l1) * w + l0 * q
  {
    assert h0 * w * q == h0 * q * w;
    assert l1 * p * q == l1 * w;
    assert h1 * p * w == h1 * (p * w);
  }

  lemma StartAbove32(nHigh: u32, nLow: u32, sr: nat)
    requires 33 <= sr <= 63
    ensures Or(Shl(nHigh, 64 - sr), Shr(nLow, sr - 32)) < 0x1_0000_0000
    ensures IsStart(Wide(nHigh, nLow), sr,
                    Wide(Or(Shl(nHigh, 64 - sr), Shr(nLow, sr - 32)), Shl(nLow, 64 - sr)),
                    Wide(0, Shr(nHigh, sr - 32)))
  {
    hide Pow2, Or, Above, Below, Shl, Shr, Wide;
    var n := Wide(nHigh, nLow);
    var s := sr - 32;
    var p, q, w := Pow2(s), Pow2(32 - s), 0x1_0000_0000;
    ShiftedOr(nHigh, nLow, s);
    ShlIs(nLow, s);
    ShrIs(nHigh, s);
    Pow2Add(s, 32 - s);
    Pow2Add(s, 32);
    Pow2Constants();
    PartsOf(nHigh, s);
    PartsOf(nLow, s);
    var h1, h0, l1, l0 := Above(nHigh, s), Below(nHigh, s), Above(nLow, s), Below(nLow, s);
    WideRemainder(h1, h0, nLow, l1, l0, p, q, w);
    MulMonotone(h0 + 1, p, w);
    WideIs(nHigh, nLow);
    WideIs(0, Shr(nHigh, s));
    WideIs(Or(Shl(nHigh, 64 - sr), Shr(nLow, s)), Shl(nLow, 64 - sr));
    PartsAre(n, sr, h1, h0 * w + nLow);
  }

  lemma MulNonNegative(x: nat, y: nat)
    ensures x * y >= 0
  {
  }

  // ---------- the shift-subtract loop ----------

  /** x << 1 on a 64-bit word, and the bit that it loses. */
  function Doubled(x: u64): u64 {
    2 * x % 0x1_0000_0000_0000_0000
  }

  function Top(x: u64): nat {
    x / 0x8000_0000_0000_0000
  }

  lemma DoubledIs(x: u64)
    ensures Top(x) == (if x < 0x8000_0000_0000_0000 then 0 else 1)
    ensures Doubled(x) == 2 * x - Top(x) * 0x1_0000_0000_0000_0000
  {
    var t := if x < 0x8000_0000_0000_0000 then 0 else 1;
    DivModUnique(x, 0x8000_0000_0000_0000, t, x - t * 0x8000_0000_0000_0000);
    DivModUnique(2 * x, 0x1_0000_0000_0000_0000, t, 2 * x - t * 0x1_0000_0000_0000_0000);
  }

  /** a - b on 64-bit words. */
  function Minus(a: u64, b: u64): u64 {
    (a - b) % 0x1_0000_0000_0000_0000
  }

  lemma MinusIs(a: u64, b: u64)
    ensures Minus(a, b) == if b <= a then a - b else a - b + 0x1_0000_0000_0000_0000
  {
  }

  /** (x << 1) | b for a single bit b, on a half. */
  lemma ShlOne(x: u32, b: u32)
    requires b < 2
    ensures Shr(x, 31) == (if x < 0x8000_0000 then 0 else 1)
    ensures Shl(x, 1) == 2 * x - Shr(x, 31) * 0x1_0000_0000
    ensures Or(Shl(x, 1), b) == 2 * x - Shr(x, 31) * 0x1_0000_0000 + b < 0x1_0000_0000
  {
    hide Or, Above, Below, Pow2;
    PowerOfOne();
    Pow2Constants();
    var t := if x < 0x8000_0000 then 0 else 1;
    PartsAre(x, 31, t, x - t * 0x8000_0000);
    DivModUnique(2 * x, 0x1_0000_0000, t, 2 * x - t * 0x1_0000_0000);
    DivModUnique(2 * x - t * 0x1_0000_0000, 2, x - t * 0x8000_0000, 0);
    OrDisjoint(2 * x - t * 0x1_0000_0000, b, 1);
  }

  lemma PowerOfOne()
    ensures Pow2(1) == 2 && Pow2(0) == 1
  {
  }

  /** Doubling a word doubles its halves, with a carry from the lower to the upper one. */
  lemma DoubledHalves(h: u32, l: u32)
    ensures Top(Wide(h, l)) == (if h < 0x8000_0000 then 0 else 1)
    ensures Doubled(Wide(h, l)) == (2 * h - Top(Wide(h, l)) * 0x1_0000_0000) * 0x1_0000_0000 + 2 * l
  {
    hide Doubled, Top;
    DoubledIs(Wide(h, l));
  }

  /** r:q = ((r:q) << 1) | carry, on the four halves. */
  method ShiftLeft128(rHigh0: u32, rLow0: u32, qHigh0: u32, qLow0: u32, carry: u32)
    returns (rHigh: u32, rLow: u32, qHigh: u32, qLow: u32)
    requires carry < 2
    ensures Wide(rHigh, rLow) == Doubled(Wide(rHigh0, rLow0)) + Top(Wide(qHigh0, qLow0))
    ensures Wide(qHigh, qLow) == Doubled(Wide(qHigh0, qLow0)) + carry
  {
    hide Or, Shl, Shr, Pow2, Doubled, Top;
    DoubledHalves(rHigh0, rLow0);
    DoubledHalves(qHigh0, qLow0);
    ShlOne(qLow0, carry);
    ShlOne(qHigh0, Shr(qLow0, 31));
    ShlOne(rLow0, Shr(qHigh0, 31));
    ShlOne(rHigh0, Shr(rLow0, 31));
    rHigh := Or(Shl(rHigh0, 1), Shr(rLow0, 31));
    rLow := Or(Shl(rLow0, 1), Shr(qHigh0, 31));
    qHigh := Or(Shl(qHigh0, 1), Shr(qLow0, 31));
    qLow := Or(Shl(qLow0, 1), carry);
  }

  /** The signed reading of a 64-bit word. */
  function Signed(x: u64): i64 {
    if x < 0x8000_0000_0000_0000 then x else x - 0x1_0000_0000_0000_0000
  }

  /** The arithmetic shift s >> 63. */
  function Sar63(s: i64): i64 {
    if s < 0 then -1 else 0
  }

  function Unsigned(s: i64): u64 {
    if s < 0 then s + 0x1_0000_0000_0000_0000 else s
  }

  /** (di_int)(d - r - 1) >> 63, as a mask. */
  function SignMask(d: u64, r: u64): u64 {
    Unsigned(Sar63(Signed((d - r - 1) % 0x1_0000_0000_0000_0000)))
  }

  /** The sign mask says r >= d exactly if d does not exceed r by more than 2^63. */
  lemma SignMaskComparesExactly(d: u64, r: u64)
    requires r - d < 0x8000_0000_0000_0000
    ensures SignMask(d, r) == (if r >= d then 0xFFFF_FFFF_FFFF_FFFF else 0) <==> d <= r + 0x8000_0000_0000_0000
  {
  }

  lemma MaskBits(d: u64, s: u64)
    requires s == 0 || s == 0xFFFF_FFFF_FFFF_FFFF
    ensures And(s, 1) == (if s == 0 then 0 else 1) && And(d, s) == (if s == 0 then 0 else d)
  {
    hide And;
    AndOnes(d);
    AndOne(s);
    AndZero(d);
  }

  lemma AndZero(d: nat)
    ensures And(d, 0) == 0
  {
  }

  lemma AndOnes(d: u64)
    ensures And(d, 0xFFFF_FFFF_FFFF_FFFF) == d
  {
    hide And, Pow2;
    Pow2Constants();
    AndMask(d, 64);
    SmallMod(d, 0x1_0000_0000_0000_0000);
  }

  lemma AndOne(s: u64)
    requires s == 0 || s == 0xFFFF_FFFF_FFFF_FFFF
    ensures And(s, 1) == if s == 0 then 0 else 1
  {
    hide And, Pow2;
    PowerOfOne();
    AndMask(s, 1);
  }

  /** Before a turn, quotient * d + r is the part of n above bit sr, where the last bit of the quotient is in carry and
      the others are in half; q holds the part of n below bit sr and half.
   */
  ghost predicate IsDividing(n: u64, d: u64, sr: nat, q: u64, r: u64, carry: u32, half: nat) {
    && sr <= 63 && carry < 2
    && Above(n, sr) == (2 * half + carry) * d + r && r < d
    && 2 * half + carry < Pow2(64 - sr)
    && q == Below(n, sr) * Pow2(64 - sr) + half
  }

  /** The mask is right in the turn at sr: the remainder there is n >> (sr - 1), if the divisor is above 2^63. */
  ghost predicate MaskSuffices(n: u64, d: u64, sr: nat)
    requires sr > 0
  {
    d <= 0x8000_0000_0000_0000 + Above(n, sr - 1)
  }

  lemma SmallDivisorSuffices(n: u64, d: u64, sr: nat)
    requires sr > 0 && d <= 0x8000_0000_0000_0000
    ensures MaskSuffices(n, d, sr)
  {
    hide Above;
  }

  /** Once the mask is right, it is right in every later turn. */
  lemma MaskStillSuffices(n: u64, d: u64, sr: nat)
    requires sr > 1 && MaskSuffices(n, d, sr)
    ensures MaskSuffices(n, d, sr - 1)
  {
    hide Above, Below;
    var bit := NextBit(n, sr - 1);
  }

  /** The lowest bit above bit k - 1 joins the part above bit k. */
  lemma NextBit(n: nat, k: nat) returns (bit: nat)
    requires k > 0
    ensures bit < 2 && Above(n, k - 1) == 2 * Above(n, k) + bit && Below(n, k) == bit * Pow2(k - 1) + Below(n, k - 1)
  {
    hide Above, Below, Pow2;
    PartsOf(n, k - 1);
    Pow2Step(k);
    var h, a := Above(n, k - 1), Pow2(k - 1);
    bit := if h % 2 == 0 then 0 else 1;
    var half := h / 2;
    assert h == 2 * half + bit;
    BitJoins(h, half, bit, a);
    MulMonotone(bit, 1, a);
    PartsAre(n, k, half, bit * a + Below(n, k - 1));
  }

  lemma BitJoins(h: nat, half: nat, bit: nat, a: nat)
    requires h == 2 * half + bit
    ensures h * a == half * (2 * a) + bit * a
  {
  }

  /** q = (bit * a + rest) * b + half with a * b = 2^63: the bit is on top of q. */
  lemma BitOnTop(bit: nat, rest: nat, a: nat, b: nat, half: nat, q: u64)
    requires a * b == 0x8000_0000_0000_0000 && bit < 2 && rest < a && half < b
    requires q == (bit * a + rest) * b + half
    ensures Top(q) == bit && Doubled(q) == rest * (2 * b) + 2 * half
  {
    hide Doubled, Top;
    MulMonotone(rest + 1, a, b);
    BitTimes(bit, rest, a, b);
    DoubledIs(q);
  }

  lemma BitTimes(bit: nat, rest: nat, a: nat, b: nat)
    requires bit < 2
    ensures (bit * a + rest) * b == (if bit == 0 then 0 else a * b) + rest * b
    ensures rest * (2 * b) == 2 * (rest * b) && (rest + 1) * b == rest * b + b
  {
  }

  /** One more bit of n comes down into the remainder. */
  lemma BringDown(n: u64, d: u64, sr: nat, q: u64, r: u64, carry: u32, half: nat)
    requires IsDividing(n, d, sr, q, r, carry, half) && sr > 0
    ensures 2 * r + Top(q) < 0x1_0000_0000_0000_0000 && Top(q) < 2 && Doubled(r) == 2 * r
    ensures Above(n, sr - 1) == 2 * ((2 * half + carry) * d) + (2 * r + Top(q))
    ensures Doubled(q) + carry == Below(n, sr - 1) * Pow2(64 - (sr - 1)) + (2 * half + carry)
  {
    hide Above, Below, Pow2, Top, Doubled;
    var a, b := Pow2(sr - 1), Pow2(64 - sr);
    Pow2Add(sr - 1, 64 - sr);
    Pow2Constants();
    Pow2Step(64 - (sr - 1));
    var bit := NextBit(n, sr);
    PartsOf(n, sr - 1);
    BitOnTop(bit, Below(n, sr - 1), a, b, half, q);
    AboveIsSmaller(n, sr - 1);
    MulNonNegative(2 * half + carry, d);
    DoubledIs(r);
  }

  /** A start state of the loop is a state of the division with quotient 0. */
  lemma StartIsDividing(n: u64, d: u64, sr: nat, q: u64, r: u64)
    requires IsStart(n, sr, q, r) && Above(n, sr) < d
    ensures IsDividing(n, d, sr, q, r, 0, 0)
  {
    hide Above, Below;
    assert (2 * 0 + 0) * d == 0;
  }

  lemma WholeWord(n: u64)
    ensures Above(n, 0) == n && Below(n, 0) == 0
  {
    hide Above, Below, Pow2;
    PowerOfOne();
    PartsAre(n, 0, n, 0);
  }

  lemma EndOfDivision(n: u64, d: u64, q: u64, r: u64, carry: u32, half: nat)
    requires IsDividing(n, d, 0, q, r, carry, half)
    ensures n == (2 * half + carry) * d + r && r < d
    ensures Doubled(q) + carry == 2 * half + carry < 0x1_0000_0000_0000_0000
  {
    hide Pow2, Above, Below, Doubled, Top;
    WholeWord(n);
    Pow2Constants();
    assert 0 * Pow2(64) == 0;
    DoubledIs(q);
  }

  lemma NextProduct(quotient: nat, bit: nat, d: nat)
    requires bit < 2
    ensures (2 * quotient + bit) * d == 2 * (quotient * d) + if bit == 1 then d else 0
  {
  }

  /** What a turn of the loop makes of the words, as the mask has it. */
  ghost predicate IsTurn(d: u64, q: u64, r: u64, carry: u32, q': u64, r': u64, carry': u32) {
    var r1 := Doubled(r) + Top(q);
    && r1 < 0x1_0000_0000_0000_0000
    && q' == Doubled(q) + carry
    && carry' == (if SignMask(d, r1) == 0 then 0 else 1)
    && r' == Minus(r1, if SignMask(d, r1) == 0 then 0 else d)
  }

  lemma MaskIsRight(d: u64, r1: u64)
    requires r1 - d < 0x8000_0000_0000_0000 && d <= 0x8000_0000_0000_0000 + r1
    ensures SignMask(d, r1) == if r1 >= d then 0xFFFF_FFFF_FFFF_FFFF else 0
  {
    hide SignMask;
    SignMaskComparesExactly(d, r1);
  }

  /** The remainder of a turn is below the divisor. */
  lemma Subtracted(d: u64, r: u64, bit: nat, r1: u64, r': u64, carry: u32)
    requires r < d && bit < 2 && r1 == 2 * r + bit && d <= 0x8000_0000_0000_0000 + r1
    requires carry == (if SignMask(d, r1) == 0 then 0 else 1)
    requires r' == Minus(r1, if SignMask(d, r1) == 0 then 0 else d)
    ensures r' < d && r1 == r' + (if carry == 1 then d else 0) && carry < 2
  {
    hide SignMask, Minus;
    if r1 - d < 0x8000_0000_0000_0000 {
      MaskIsRight(d, r1);
    } else {
      LargeRemainder(d, r, bit, r1);
    }
    MinusIs(r1, d);
    MinusIs(r1, 0);
  }

  lemma LargeRemainder(d: u64, r: u64, bit: nat, r1: u64)
    requires r < d && bit < 2 && r1 == 2 * r + bit
    ensures r1 - d < 0x8000_0000_0000_0000
  {
  }

  lemma MaskMayDecide(n: u64, d: u64, k: nat, quotient: nat, r1: nat)
    requires MaskSuffices(n, d, k + 1) && Above(n, k) == 2 * (quotient * d) + r1
    ensures d <= 0x8000_0000_0000_0000 + r1
  {
    hide Above;
    AboveIsSmaller(n, k);
    if d > 0x8000_0000_0000_0000 {
      OneBitQuotient(quotient, d, Above(n, k), r1);
    }
  }

  /** The quotient takes in its next bit. */
  lemma QuotientGrows(above: nat, quotient: nat, d: u64, r1: nat, r': nat, bit: nat)
    requires above == 2 * (quotient * d) + r1 && r1 == r' + (if bit == 1 then d else 0) && bit < 2
    ensures above == (2 * quotient + bit) * d + r'
  {
    NextProduct(quotient, bit, d);
  }

  lemma DividingIs(n: u64, d: u64, sr: nat, q: u64, r: u64, carry: u32, half: nat)
    ensures IsDividing(n, d, sr, q, r, carry, half) <==>
            && sr <= 63 && carry < 2
            && Above(n, sr) == (2 * half + carry) * d + r && r < d
            && 2 * half + carry < Pow2(64 - sr)
            && q == Below(n, sr) * Pow2(64 - sr) + half
  {
  }

  /** A turn in which the mask is right is a turn of the division. */
  lemma MaskedTurn(n: u64, d: u64, sr: nat, q: u64, r: u64, carry: u32, half: nat, q': u64, r': u64, carry': u32)
    requires IsDividing(n, d, sr, q, r, carry, half) && sr > 0 && MaskSuffices(n, d, sr)
    requires IsTurn(d, q, r, carry, q', r', carry')
    ensures IsDividing(n, d, sr - 1, q', r', carry', 2 * half + carry)
  {
    hide IsDividing, MaskSuffices, Above, Below, Pow2, SignMask, Minus, Doubled, Top;
    BringDown(n, d, sr, q, r, carry, half);
    var quotient, r1 := 2 * half + carry, Doubled(r) + Top(q);
    MaskMayDecide(n, d, sr - 1, quotient, r1);
    DividingBounds(n, d, sr, q, r, carry, half);
    Subtracted(d, r, Top(q), r1, r', carry');
    Pow2Step(64 - (sr - 1));
    QuotientGrows(Above(n, sr - 1), quotient, d, r1, r', carry');
    DividingIs(n, d, sr - 1, q', r', carry', quotient);
  }

  lemma DividingBounds(n: u64, d: u64, sr: nat, q: u64, r: u64, carry: u32, half: nat)
    requires IsDividing(n, d, sr, q, r, carry, half)
    ensures sr <= 63 && carry < 2 && r < d && 2 * half + carry < Pow2(64 - sr)
  {
  }

  /** With a divisor above 2^63 nothing but 0 fits as twice a quotient. */
  lemma OneBitQuotient(quotient: nat, d: u64, n: nat, r1: nat)
    requires d > 0x8000_0000_0000_0000 && n == 2 * (quotient * d) + r1
    ensures n < 0x1_0000_0000_0000_0000 ==> n == r1
  {
    if quotient >= 1 {
      MulMonotone(1, quotient, d);
    }
  }

  /** The quotient bits so far, t of them, start with a one that does not belong there. */
  ghost predicate IsSpoiled(q: u64, carry: u32, t: nat) {
    1 <= t <= 63 && Below(2 * q + carry, t) >= Pow2(t - 1)
  }

  lemma MaskIsWrong(d: u64, r: u64)
    requires d > 0x8000_0000_0000_0000 + r
    ensures SignMask(d, r) == 0xFFFF_FFFF_FFFF_FFFF
  {
  }

  lemma SpoiltBit(q: u64)
    ensures IsSpoiled(q, 1, 1)
  {
    hide Above, Below, Pow2;
    PowerOfOne();
    PartsAre(2 * q + 1, 1, q, 1);
  }

  /** If the mask is wrong in the first turn, that turn subtracts what is not there. */
  lemma FirstTurnSpoils(n: u64, d: u64, sr: nat, q: u64, r: u64, q': u64, r': u64, carry': u32)
    requires IsDividing(n, d, sr, q, r, 0, 0) && sr > 0 && !MaskSuffices(n, d, sr)
    requires IsTurn(d, q, r, 0, q', r', carry')
    ensures IsSpoiled(q', carry', 1)
  {
    hide IsSpoiled, SignMask, Pow2, Above, Below, Doubled, Top, Minus;
    BringDown(n, d, sr, q, r, 0, 0);
    assert (2 * 0 + 0) * d == 0;
    MaskIsWrong(d, Doubled(r) + Top(q));
    SpoiltBit(q');
  }

  lemma DroppedTop(x: nat, y: nat, top: nat, t: nat)
    requires x == top * 0x1_0000_0000_0000_0000 + y && t <= 64
    ensures Below(x, t) == Below(y, t)
  {
    hide Above, Below, Pow2;
    Pow2Add(t, 64 - t);
    Pow2Constants();
    PartsOf(y, t);
    var k := Pow2(64 - t);
    TopTimes(top, k, Pow2(t), Above(y, t));
    PartsAre(x, t, top * k + Above(y, t), Below(y, t));
  }

  lemma TopTimes(top: nat, k: nat, p: nat, a: nat)
    ensures (top * k + a) * p == top * (p * k) + a * p && top * k + a >= 0
  {
    assert top * k * p == top * (p * k);
  }

  lemma BelowDoubled(q: nat, bit: nat, t: nat)
    requires bit < 2
    ensures Below(2 * q + bit, t + 1) == 2 * Below(q, t) + bit
  {
    hide Above, Below, Pow2;
    Pow2Step(t + 1);
    PartsOf(q, t);
    assert 2 * (Above(q, t) * Pow2(t)) == Above(q, t) * (2 * Pow2(t));
    PartsAre(2 * q + bit, t + 1, Above(q, t), 2 * Below(q, t) + bit);
  }

  /** The bit stays. */
  lemma TurnStaysSpoiled(d: u64, q: u64, r: u64, carry: u32, q': u64, r': u64, carry': u32, t: nat)
    requires IsSpoiled(q, carry, t) && t < 63 && carry < 2
    requires IsTurn(d, q, r, carry, q', r', carry')
    ensures IsSpoiled(q', carry', t + 1)
  {
    hide Pow2, Above, Below, Doubled, Top, Minus, SignMask;
    Pow2Step(t);
    DoubledIs(q);
    DroppedTop(2 * q + carry, q', Top(q), t);
    BelowDoubled(q', carry', t);
  }

  /** A quotient with that bit is too large. */
  lemma SpoiledIsWrong(n: u64, d: u64, sr: nat, q: u64, carry: u32, r: u64)
    requires 1 <= sr <= 63 && !MaskSuffices(n, d, sr) && IsSpoiled(q, carry, sr) && carry < 2
    ensures n != (Doubled(q) + carry) * d + r
  {
    hide Pow2, Above, Below, Doubled, Top;
    var result := Doubled(q) + carry;
    DoubledIs(q);
    DroppedTop(2 * q + carry, result, Top(q), sr);
    PartsOf(result, sr);
    MulNonNegative(Above(result, sr), Pow2(sr));
    if sr == 1 {
      WholeWord(n);
      PowerOfOne();
      MulMonotone(1, result, d);
    } else {
      PowerOfOne();
      Pow2Monotone(1, sr - 1);
      MulMonotone(2, result, d);
    }
  }

  lemma HalvesMakeWord(x: u64)
    ensures Wide(High(x), Low(x)) == x
  {
  }

  /** One turn of the loop. */
  method Turn(dAll: u64, rHigh0: u32, rLow0: u32, qHigh0: u32, qLow0: u32, carry0: u32)
    returns (rHigh: u32, rLow: u32, qHigh: u32, qLow: u32, carry: u32)
    requires carry0 < 2
    ensures IsTurn(dAll, Wide(qHigh0, qLow0), Wide(rHigh0, rLow0), carry0, Wide(qHigh, qLow), Wide(rHigh, rLow), carry)
    ensures carry < 2
  {
    hide And, Wide, High, Low, Doubled, Top;
    rHigh, rLow, qHigh, qLow := ShiftLeft128(rHigh0, rLow0, qHigh0, qLow0, carry0);
    var s := SignMask(dAll, Wide(rHigh, rLow));
    MaskBits(dAll, s);
    carry := And(s, 1);
    var rAll := Minus(Wide(rHigh, rLow), And(dAll, s));
    rHigh, rLow := High(rAll), Low(rAll);
    HalvesMakeWord(rAll);
  }

  /** The loop that was started with shift sr0, before the turn at sr. */
  ghost predicate IsRunning(n: u64, d: u64, sr0: nat, sr: nat, q: u64, r: u64, carry: u32, half: nat)
    requires sr0 > 0
  {
    && sr <= sr0 <= 63 && carry < 2
    && if MaskSuffices(n, d, sr0) then
         IsDividing(n, d, sr, q, r, carry, half) && (sr > 0 ==> MaskSuffices(n, d, sr))
       else if sr == sr0 then
         IsDividing(n, d, sr, q, r, 0, 0) && carry == 0
       else
         IsSpoiled(q, carry, sr0 - sr)
  }

  lemma RunningContinues(n: u64, d: u64, sr0: nat, sr: nat, q: u64, r: u64, carry: u32, half: nat,
                         q': u64, r': u64, carry': u32)
    requires 0 < sr <= sr0 && IsRunning(n, d, sr0, sr, q, r, carry, half)
    requires IsTurn(d, q, r, carry, q', r', carry') && carry' < 2
    ensures IsRunning(n, d, sr0, sr - 1, q', r', carry', 2 * half + carry)
  {
    hide IsDividing, IsSpoiled, IsTurn, MaskSuffices;
    if MaskSuffices(n, d, sr0) {
      MaskedTurn(n, d, sr, q, r, carry, half, q', r', carry');
      if sr > 1 {
        MaskStillSuffices(n, d, sr);
      }
    } else if sr == sr0 {
      FirstTurnSpoils(n, d, sr, q, r, q', r', carry');
    } else {
      TurnStaysSpoiled(d, q, r, carry, q', r', carry', sr0 - sr);
    }
  }

  lemma RunningEnds(n: u64, d: u64, sr0: nat, q: u64, r: u64, carry: u32, half: nat)
    requires sr0 > 0 && IsRunning(n, d, sr0, 0, q, r, carry, half)
    ensures Doubled(q) + carry < 0x1_0000_0000_0000_0000
    ensures n == (Doubled(q) + carry) * d + r && r < d <==> MaskSuffices(n, d, sr0)
  {
    hide IsDividing, IsSpoiled, MaskSuffices, Doubled, Top;
    DoubledIs(q);
    if MaskSuffices(n, d, sr0) {
      EndOfDivision(n, d, q, r, carry, half);
    } else {
      SpoiledIsWrong(n, d, sr0, q, carry, r);
    }
  }

  /** A start shift of 2 with n >> 2 below d, for which the loop does not divide. */
  lemma NotEveryShiftWorks()
    ensures Above(0, 2) < 0xFFFF_FFFF_FFFF_FFFF && !MaskSuffices(0, 0xFFFF_FFFF_FFFF_FFFF, 2)
  {
    hide Above;
    AboveIsSmaller(0, 2);
    AboveIsSmaller(0, 1);
  }

  lemma RunningStarts(n: u64, d: u64, sr: nat, q: u64, r: u64)
    requires sr > 0 && IsStart(n, sr, q, r) && Above(n, sr) < d
    ensures IsRunning(n, d, sr, sr, q, r, 0, 0)
  {
    hide IsDividing, MaskSuffices;
    StartIsDividing(n, d, sr, q, r);
  }

  /** The loop of the division: one bit of the quotient per turn. It divides exactly if the mask is right. */
  method ShiftSubtract(ghost n: u64, dAll: u64, sr0: nat,
                       qHigh0: u32, qLow0: u32, rHigh0: u32, rLow0: u32)
    returns (q: u64, r: u64)
    requires 1 <= sr0 <= 63
    requires IsStart(n, sr0, Wide(qHigh0, qLow0), Wide(rHigh0, rLow0)) && Above(n, sr0) < dAll
    ensures n == q * dAll + r && r < dAll <==> MaskSuffices(n, dAll, sr0)
  {
    hide IsRunning, IsStart, IsTurn, MaskSuffices, Wide, Doubled, Above;
    var sr, qHigh, qLow, rHigh, rLow := sr0, qHigh0, qLow0, rHigh0, rLow0;
    var carry: u32 := 0;
    ghost var half: nat := 0;
    RunningStarts(n, dAll, sr, Wide(qHigh, qLow), Wide(rHigh, rLow));
    while sr > 0
      invariant sr <= sr0 && carry < 2
      invariant IsRunning(n, dAll, sr0, sr, Wide(qHigh, qLow), Wide(rHigh, rLow), carry, half)
    {
      ghost var q1, r1, carry1 := Wide(qHigh, qLow), Wide(rHigh, rLow), carry;
      rHigh, rLow, qHigh, qLow, carry := Turn(dAll, rHigh, rLow, qHigh, qLow, carry);
      RunningContinues(n, dAll, sr0, sr, q1, r1, carry1, half, Wide(qHigh, qLow), Wide(rHigh, rLow), carry);
      half := 2 * half + carry1;
      sr := sr - 1;
    }
    RunningEnds(n, dAll, sr0, Wide(qHigh, qLow), Wide(rHigh, rLow), carry, half);
    q := Doubled(Wide(qHigh, qLow)) + carry;
    r := Wide(rHigh, rLow);
  }

  // ---------- the special cases ----------

  lemma BelowPower(nTop: u32, n: u64)
    requires nTop > 0 && n < (nTop + 1) * 0x1_0000_0000
    ensures n < Pow2(Log2(nTop) + 33)
  {
    hide Pow2, Log2;
    LogBounds(nTop);
    Pow2Add(Log2(nTop) + 1, 32);
    Pow2Constants();
    MulMonotone(nTop + 1, Pow2(Log2(nTop) + 1), 0x1_0000_0000);
  }

  /** The start shift that two leading-zero counts give leaves a remainder below d: d has a high half. */
  lemma HighShiftFits(n: u64, nTop: u32, d: u64, dTop: u32)
    requires nTop > 0 && dTop > 0 && Log2(dTop) <= Log2(nTop)
    requires n < (nTop + 1) * 0x1_0000_0000 && dTop * 0x1_0000_0000 <= d
    ensures Above(n, Log2(nTop) - Log2(dTop) + 1) < d
  {
    hide Pow2, Log2;
    BelowPower(nTop, n);
    LogBounds(dTop);
    Pow2Add(Log2(dTop), 32);
    Pow2Constants();
    MulMonotone(Pow2(Log2(dTop)), dTop, 0x1_0000_0000);
    AboveFits(n, Log2(nTop) - Log2(dTop) + 1, Log2(dTop) + 32);
  }

  /** The same for a divisor of 32 bits. */
  lemma LowShiftFits(n: u64, nTop: u32, d: u32)
    requires nTop > 0 && d > 0 && n < (nTop + 1) * 0x1_0000_0000
    ensures Log2(d) < 32 && Above(n, Log2(nTop) + 33 - Log2(d)) < d
  {
    hide Pow2, Log2;
    BelowPower(nTop, n);
    LogBounds(d);
    AboveFits(n, Log2(nTop) + 33 - Log2(d), Log2(d));
  }

  lemma LogBounds(x: u32)
    requires x > 0
    ensures Pow2(Log2(x)) <= x < Pow2(Log2(x) + 1) && Log2(x) < 32
  {
    Pow2Constants();
    Log2Below(x, 32);
  }

  lemma SmallerLogIsSmaller(x: u32, y: u32)
    requires x > 0 && y > 0 && Log2(x) < Log2(y)
    ensures x < y
  {
    hide Log2, Pow2;
    LogBounds(x);
    LogBounds(y);
    Pow2Monotone(Log2(x) + 1, Log2(y));
  }

  /** A high half with its top bit set: then the counts give one turn only. */
  lemma TopLog(x: u32)
    requires x > 0
    ensures Log2(x) == 31 <==> x >= 0x8000_0000
  {
    Pow2Constants();
    LogBounds(x);
    Log2Below(x, 31);
  }

  /** Division by a power of two, on the halves. */
  lemma PowerOfTwoDivision(x: u32, d: u32)
    requires d > 0 && And(d, d - 1) == 0
    ensures d == Pow2(Ctz(d)) && Ctz(d) < 32
    ensures And(x, d - 1) == x % d && Shr(x, Ctz(d)) == x / d
  {
    hide And, Pow2, Ctz;
    PowerOfTwoTest(d);
    Pow2Constants();
    if Ctz(d) >= 32 {
      Pow2Monotone(32, Ctz(d));
    }
    AndMask(x, Ctz(d));
  }

  /** n % d for a divisor and a dividend with empty low halves, and the remainder of the low half. */
  lemma HighDivision(nHigh: u32, nLow: u32, dHigh: u32)
    requires dHigh > 0
    ensures 0 <= nHigh / dHigh < 0x1_0000_0000
    ensures Wide(nHigh, nLow) == nHigh / dHigh * Wide(dHigh, 0) + Wide(nHigh % dHigh, nLow)
    ensures Wide(nHigh % dHigh, nLow) < Wide(dHigh, 0)
  {
    QuotientIsSmaller(nHigh, dHigh);
    var h := nHigh / dHigh;
    assert nHigh == h * dHigh + nHigh % dHigh;
    assert h * (dHigh * 0x1_0000_0000) == h * dHigh * 0x1_0000_0000;
  }

  // ---------- the division ----------

  ghost predicate IsDivision(a: u64, b: u64, q: u64, r: u64) {
    a == q * b + r && r < b
  }

  /** Clz(x) - Clz(y) on unsigned ints is a small number exactly if y has no higher bit than x. */
  lemma ClzDifference(y: u32, x: u32)
    requires x > 0 && y > 0
    ensures var sr := (Clz(y) - Clz(x)) % 0x1_0000_0000;
            if Log2(y) <= Log2(x) then sr == Log2(x) - Log2(y) < 32 else sr > 31 && x < y
  {
    hide Log2, Pow2;
    LogBounds(x);
    LogBounds(y);
    if Log2(x) < Log2(y) {
      SmallerLogIsSmaller(x, y);
    }
  }

  lemma HighHalfDecides(n: u64, d: u64)
    requires High(n) < High(d)
    ensures n < d
  {
  }

  /** The dividend is shifted right by sr = 1..32 to start with. */
  method StartFromHigh(nHigh: u32, nLow: u32, sr: nat) returns (qHigh: u32, qLow: u32, rHigh: u32, rLow: u32)
    requires 1 <= sr <= 32
    ensures IsStart(Wide(nHigh, nLow), sr, Wide(qHigh, qLow), Wide(rHigh, rLow))
  {
    qLow := 0;
    if sr == 32 {
      StartAt32(nHigh, nLow);
      qHigh := nLow;
      rHigh := 0;
      rLow := nHigh;
    } else {
      StartBelow32(nHigh, nLow, sr);
      qHigh := Shl(nLow, 32 - sr);
      rHigh := Shr(nHigh, sr);
      rLow := Or(Shl(nHigh, 32 - sr), Shr(nLow, sr));
    }
  }

  /** K X / K X: both high halves are in use. */
  method DivideByWide(n: u64, d: u64) returns (q: u64, r: u64)
    requires High(n) != 0 && High(d) != 0
    ensures IsDivision(n, d, q, r)
  {
    hide Pow2, Log2, Or, Shl, Shr, IsStart;
    ClzDifference(High(d), High(n));
    var sr := (Clz(High(d)) - Clz(High(n))) % 0x1_0000_0000;
    if sr > 31 {
      HighHalfDecides(n, d);
      return 0, n;
    }
    sr := sr + 1;
    HighShiftFits(n, High(n), d, High(d));
    WideMaskSuffices(n, d);
    var qHigh, qLow, rHigh, rLow := StartFromHigh(High(n), Low(n), sr);
    HalvesMakeWord(n);
    q, r := ShiftSubtract(n, d, sr, qHigh, qLow, rHigh, rLow);
  }

  lemma WideMaskSuffices(n: u64, d: u64)
    requires High(n) != 0 && High(d) != 0 && Log2(High(d)) <= Log2(High(n))
    ensures MaskSuffices(n, d, Log2(High(n)) - Log2(High(d)) + 1)
  {
    hide Log2, Pow2;
    TopLog(High(d));
    TopLog(High(n));
    LogBounds(High(n));
    if d <= 0x8000_0000_0000_0000 {
      SmallDivisorSuffices(n, d, Log2(High(n)) - Log2(High(d)) + 1);
    } else {
      WholeWord(n);
    }
  }

  /** K X / K 0: the low half of the divisor is empty. */
  method DivideByHigh(n: u64, d: u64) returns (q: u64, r: u64)
    requires High(n) != 0 && High(d) != 0 && Low(d) == 0
    ensures IsDivision(n, d, q, r)
  {
    hide Pow2, Log2, And, Ctz, Or, Shl, Shr, IsStart;
    var nHigh, nLow, dHigh := High(n), Low(n), High(d);
    HighDivision(nHigh, nLow, dHigh);
    HalvesMakeWord(n);
    HalvesMakeWord(d);
    if nLow == 0 {
      r := Wide(nHigh % dHigh, 0);
      q := nHigh / dHigh;
      return;
    }
    if And(dHigh, dHigh - 1) == 0 {
      PowerOfTwoDivision(nHigh, dHigh);
      r := Wide(And(nHigh, dHigh - 1), nLow);
      q := Shr(nHigh, Ctz(dHigh));
      return;
    }
    LogOfOddLooking(dHigh);
    LogBounds(nHigh);
    ClzDifference(dHigh, nHigh);
    var sr := (Clz(dHigh) - Clz(nHigh)) % 0x1_0000_0000;
    if sr > 30 {
      HighHalfDecides(n, d);
      return 0, n;
    }
    sr := sr + 1;
    HighShiftFits(n, nHigh, d, dHigh);
    WideMaskSuffices(n, d);
    StartBelow32(nHigh, nLow, sr);
    var qHigh := Shl(nLow, 32 - sr);
    var rHigh := Shr(nHigh, sr);
    var rLow := Or(Shl(nHigh, 32 - sr), Shr(nLow, sr));
    q, r := ShiftSubtract(n, d, sr, qHigh, 0, rHigh, rLow);
  }

  /** K X / 0 K: the divisor has 32 bits. */
  method DivideByLow(n: u64, dLow: u32) returns (q: u64, r: u64)
    requires High(n) != 0 && dLow != 0
    ensures IsDivision(n, dLow, q, r)
  {
    hide Pow2, Log2, And, Ctz, Or, Shl, Shr, IsStart;
    var nHigh, nLow := High(n), Low(n);
    HalvesMakeWord(n);
    if And(dLow, dLow - 1) == 0 {
      LowPowerOfTwo(n, dLow);
      r := And(nLow, dLow - 1);
      if dLow == 1 {
        return n, r;
      }
      var sr := Ctz(dLow);
      q := Wide(Shr(nHigh, sr), Or(Shl(nHigh, 32 - sr), Shr(nLow, sr)));
      return;
    }
    LogBounds(nHigh);
    LowShiftFits(n, nHigh, dLow);
    LogOfOddLooking(dLow);
    var sr := 1 + 32 + Clz(dLow) - Clz(nHigh);
    var qHigh, qLow, rHigh, rLow;
    if sr <= 32 {
      qHigh, qLow, rHigh, rLow := StartFromHigh(nHigh, nLow, sr);
    } else {
      StartAbove32(nHigh, nLow, sr);
      qLow := Shl(nLow, 64 - sr);
      qHigh := Or(Shl(nHigh, 64 - sr), Shr(nLow, sr - 32));
      rHigh := 0;
      rLow := Shr(nHigh, sr - 32);
    }
    SmallDivisorSuffices(n, dLow, sr);
    q, r := ShiftSubtract(n, dLow, sr, qHigh, qLow, rHigh, rLow);
  }

  /** A divisor that is no power of two is at least 3. */
  lemma LogOfOddLooking(d: u32)
    requires d > 0 && And(d, d - 1) != 0
    ensures 1 <= Log2(d) < 32
  {
    LogBounds(d);
    assert And(1, 0) == 0;
    Log2Below(d, 1);
    assert Pow2(1) == 2;
  }

  lemma LowPowerOfTwo(n: u64, d: u32)
    requires d > 0 && And(d, d - 1) == 0
    ensures And(Low(n), d - 1) < d
    ensures d == 1 ==> And(Low(n), d - 1) == 0
    ensures d != 1 ==>
              && 0 < Ctz(d) < 32
              && Or(Shl(High(n), 32 - Ctz(d)), Shr(Low(n), Ctz(d))) < 0x1_0000_0000
              && n == Wide(Shr(High(n), Ctz(d)), Or(Shl(High(n), 32 - Ctz(d)), Shr(Low(n), Ctz(d)))) * d
                      + And(Low(n), d - 1)
  {
    hide And, Or, Shl, Shr, Ctz, Pow2;
    PowerOfTwoDivision(Low(n), d);
    if d != 1 {
      CtzOfEven(d);
      var p := Pow2(Ctz(d));
      StartBelow32(High(n), Low(n), Ctz(d));
      HalvesMakeWord(n);
      LowRemainder(n, d, Ctz(d));
    }
  }

  lemma CtzOfEven(d: u32)
    requires d > 1 && d == Pow2(Ctz(d))
    ensures Ctz(d) > 0
  {
  }

  /** A power of two below 2^32 leaves the same remainder of a word as of its low half. */
  lemma LowRemainder(n: u64, d: u32, k: nat)
    requires d == Pow2(k) && k < 32
    ensures n == n / d * d + Low(n) % d
  {
    hide Pow2;
    Pow2Add(k, 32 - k);
    Pow2Constants();
    var q := Pow2(32 - k);
    var l := Low(n) / d;
    QuotientIsSmaller(Low(n), d);
    assert n == (High(n) * q + l) * d + Low(n) % d by {
      assert High(n) * q * d == High(n) * (d * q);
      assert Low(n) == l * d + Low(n) % d;
    }
    DivModUnique(n, d, High(n) * q + l, Low(n) % d);
  }

  /** Unsigned division of 64-bit words. */
  method UDivModDi4(a: u64, b: u64) returns (q: u64, r: u64)
    requires b != 0
    ensures a == q * b + r && r < b
  {
    if High(a) == 0 {
      if High(b) == 0 {
        QuotientIsSmaller(Low(a), Low(b));
        return Low(a) / Low(b), Low(a) % Low(b);
      }
      return 0, Low(a);
    }
    if Low(b) == 0 {
      q, r := DivideByHigh(a, b);
    } else if High(b) == 0 {
      q, r := DivideByLow(a, Low(b));
    } else {
      q, r := DivideByWide(a, b);
    }
  }

  // ---------- signed division ----------

  /** Two's complement: the word that an operation on signed words leaves. */
  function Wrapped(x: int): i64 {
    Signed(x % 0x1_0000_0000_0000_0000)
  }

  /** a ^ b on signed words. */
  function XorSigned(a: i64, b: i64): i64
    requires Xor(Unsigned(a), Unsigned(b)) < 0x1_0000_0000_0000_0000
  {
    Signed(Xor(Unsigned(a), Unsigned(b)))
  }

  lemma XorWithSign(x: u64, s: i64)
    requires s == 0 || s == -1
    ensures Xor(x, Unsigned(s)) == if s == 0 then x else 0xFFFF_FFFF_FFFF_FFFF - x
  {
    hide Xor, Pow2;
    if s == 0 {
      XorZero(x);
    } else {
      Pow2Constants();
      XorOnes(x, 64);
    }
  }

  function Magnitude(x: int): nat {
    if x < 0 then -x else x
  }

  /** (x ^ s) - s with s the sign of x. */
  method NegateIfNegative(x: i64, s: i64) returns (y: i64)
    requires s == Sar63(x)
    ensures Unsigned(y) == Magnitude(x)
  {
    hide Xor;
    XorWithSign(Unsigned(x), s);
    y := Wrapped(XorSigned(x, s) - s);
  }

  /** Division as in C: the quotient is truncated toward zero, the remainder has the sign of the dividend. */
  ghost predicate IsTruncatedDivision(a: int, b: int, q: int, r: int) {
    && a == q * b + r
    && Magnitude(r) < Magnitude(b)
    && (r == 0 || (r < 0 <==> a < 0))
  }

  ghost function TruncatedQuotient(a: int, b: int): int
    requires b != 0
  {
    var m := Magnitude(a) / Magnitude(b);
    if a < 0 <==> b < 0 then m else -m
  }

  /** The quotient of the magnitudes, with the sign that the operands give it. */
  lemma SignedFromMagnitudes(a: int, b: int, q: int, r: int)
    requires b != 0 && q >= 0 && r >= 0 && Magnitude(a) == q * Magnitude(b) + r && r < Magnitude(b)
    ensures q == Magnitude(a) / Magnitude(b)
    ensures IsTruncatedDivision(a, b, if a < 0 <==> b < 0 then q else -q, if a < 0 then -r else r)
    ensures TruncatedQuotient(a, b) == if a < 0 <==> b < 0 then q else -q
  {
    DivModUnique(Magnitude(a), Magnitude(b), q, r);
    assert q * (-b) == (-q) * b == -(q * b);
  }

  /** Truncated division has one quotient and one remainder only. */
  lemma TruncatedDivisionIsUnique(a: int, b: int, q: int, r: int)
    requires b != 0 && IsTruncatedDivision(a, b, q, r)
    ensures q == TruncatedQuotient(a, b)
  {
    hide TruncatedQuotient;
    QuotientNonNegative(Magnitude(a), Magnitude(b));
    var m, n := Magnitude(a) / Magnitude(b), Magnitude(a) % Magnitude(b);
    SignedFromMagnitudes(a, b, m, n);
    var q', r' := if a < 0 <==> b < 0 then m else -m, if a < 0 then -n else n;
    TwoTruncatedDivisions(a, b, q, r, q', r');
  }

  lemma DifferenceTimes(q: int, q': int, b: int)
    ensures (q - q') * b == q * b - q' * b
    ensures (q' - q) * (-b) == q * b - q' * b
  {
  }

  lemma TwoTruncatedDivisions(a: int, b: int, q: int, r: int, q': int, r': int)
    requires b != 0 && IsTruncatedDivision(a, b, q, r) && IsTruncatedDivision(a, b, q', r')
    ensures q == q'
  {
    DifferenceTimes(q, q', b);
    var product, product' := q * b, q' * b;
    if b > 0 {
      ZeroMultiple(q - q', b);
    } else {
      ZeroMultiple(q' - q, -b);
    }
  }

  lemma QuotientNonNegative(x: nat, p: nat)
    requires p > 0
    ensures x / p >= 0 && x == x / p * p + x % p && x / p <= x
  {
    QuotientIsSmaller(x, p);
  }

  const MIN: i64 := -0x8000_0000_0000_0000

  /** a / b for signed words; only MIN / -1 does not fit and wraps. */
  method DivDi3(a: i64, b: i64) returns (q: i64)
    requires b != 0
    ensures q == Wrapped(TruncatedQuotient(a, b))
    ensures IsTruncatedDivision(a, b, q, a - q * b) <==> !(a == MIN && b == -1)
  {
    hide Xor, TruncatedQuotient, IsTruncatedDivision;
    var s_a := Sar63(a);
    var s_b := Sar63(b);
    var a' := NegateIfNegative(a, s_a);
    var b' := NegateIfNegative(b, s_b);
    XorWithSign(Unsigned(s_a), s_b);
    s_a := XorSigned(s_a, s_b);
    var u, r := UDivModDi4(Unsigned(a'), Unsigned(b'));
    XorWithSign(u, s_a);
    q := Signed((Xor(u, Unsigned(s_a)) - Unsigned(s_a)) % 0x1_0000_0000_0000_0000);
    SignedFromMagnitudes(a, b, u, r);
    QuotientFits(a, b, u, r);
    OverflowIsTheOnlyMiss(a, b, u, r, q);
  }

  lemma QuotientFits(a: i64, b: i64, u: nat, r: nat)
    requires b != 0 && Magnitude(a) == u * Magnitude(b) + r && r < Magnitude(b)
    ensures u <= 0x8000_0000_0000_0000
    ensures u == 0x8000_0000_0000_0000 && (a < 0 <==> b < 0) <==> a == MIN && b == -1
  {
    MulGrows(u, Magnitude(b));
    if Magnitude(b) >= 2 {
      MulMonotone(2, Magnitude(b), u);
    } else {
      assert Magnitude(b) == 1 && u * 1 == u;
    }
  }

  lemma OverflowIsTheOnlyMiss(a: i64, b: i64, u: nat, r: nat, q: i64)
    requires b != 0 && Magnitude(a) == u * Magnitude(b) + r && r < Magnitude(b)
    requires u <= 0x8000_0000_0000_0000
    requires u == 0x8000_0000_0000_0000 && (a < 0 <==> b < 0) <==> a == MIN && b == -1
    requires q == Wrapped(TruncatedQuotient(a, b))
    ensures IsTruncatedDivision(a, b, q, a - q * b) <==> !(a == MIN && b == -1)
  {
    SignedFromMagnitudes(a, b, u, r);
    if a == MIN && b == -1 {
      assert q == MIN;
      assert q * b == 0x8000_0000_0000_0000;
    } else {
      assert q == TruncatedQuotient(a, b);
    }
  }

  /** a % b for signed words. */
  method ModDi3(a: i64, b: i64) returns (r: i64)
    requires b != 0
    ensures IsTruncatedDivision(a, b, TruncatedQuotient(a, b), r)
  {
    hide Xor, TruncatedQuotient, IsTruncatedDivision;
    var s := Sar63(b);
    var b' := NegateIfNegative(b, s);
    s := Sar63(a);
    var a' := NegateIfNegative(a, s);
    var q, u := UDivModDi4(Unsigned(a'), Unsigned(b'));
    WithSign(u, s);
    r := Wrapped(XorSigned(Signed(u), s) - s);
    hide *;
    SignedFromMagnitudes(a, b, q, u);
  }

  /** (u ^ s) - s for a sign mask s */
  lemma WithSign(u: int, s: i64)
    requires 0 <= u < 0x8000_0000_0000_0000 && (s == 0 || s == -1)
    ensures Xor(Unsigned(Signed(u)), Unsigned(s)) < 0x1_0000_0000_0000_0000
    ensures Wrapped(XorSigned(Signed(u), s) - s) == if s == 0 then u else -u
  {
    hide Xor;
    XorWithSign(Unsigned(Signed(u)), s);
  }

  /** Quotient and remainder at once, the remainder by multiplying back. */
  method DivModDi4(a: i64, b: i64) returns (d: i64, rem: i64)
    requires b != 0
    ensures d == Wrapped(TruncatedQuotient(a, b))
    ensures IsTruncatedDivision(a, b, TruncatedQuotient(a, b), rem)
  {
    d := DivDi3(a, b);
    rem := Wrapped(a - Wrapped(d * b));
    RemainderByMultiplyingBack(a, b, d, rem);
  }

  lemma RemainderByMultiplyingBack(a: i64, b: i64, d: i64, rem: i64)
    requires b != 0 && rem == Wrapped(a - Wrapped(d * b)) && d == Wrapped(TruncatedQuotient(a, b))
    requires IsTruncatedDivision(a, b, d, a - d * b) <==> !(a == MIN && b == -1)
    ensures IsTruncatedDivision(a, b, TruncatedQuotient(a, b), rem)
  {
    if a == MIN && b == -1 {
      assert TruncatedQuotient(a, b) == 0x8000_0000_0000_0000;
      assert d == MIN && d * b == 0x8000_0000_0000_0000;
    } else {
      TruncatedDivisionIsUnique(a, b, d, a - d * b);
      WrapTwice(a, d * b);
    }
  }

  /** Wrapping the product does not matter when the difference fits. */
  lemma WrapTwice(a: i64, x: int)
    requires MIN <= a - x < 0x8000_0000_0000_0000
    ensures Wrapped(a - Wrapped(x)) == a - x
  {
    var k := x / 0x1_0000_0000_0000_0000;
    assert x == k * 0x1_0000_0000_0000_0000 + x % 0x1_0000_0000_0000_0000;
  }

  // ---------- the bit counts of the library ----------

  /** __clzsi2 of this file: despite its name, the index of the highest set bit. */
  method ClzSi2(a: u32) returns (bit: int)
    ensures a == 0 ==> bit == 0
    ensures a != 0 ==> bit == Log2(a)
    ensures a != 0 ==> bit != Clz(a)
  {
    if a == 0 {
      return 0;
    }
    LogBounds(a);
    bit := 31;
    while a / Pow2(bit) % 2 == 0
      invariant 0 <= Log2(a) <= bit <= 31
      decreases bit
    {
      BitsAboveTheTop(a, bit);
      bit := bit - 1;
    }
    BitsAboveTheTop(a, bit);
  }

  lemma BitsAboveTheTop(a: u32, bit: nat)
    requires a > 0 && Log2(a) <= bit
    ensures a / Pow2(bit) == if bit == Log2(a) then 1 else 0
  {
    hide Pow2, Log2;
    LogBounds(a);
    if bit == Log2(a) {
      Pow2Step(bit + 1);
      DivModUnique(a, Pow2(bit), 1, a - Pow2(bit));
    } else {
      Pow2Monotone(Log2(a) + 1, bit);
      DivModUnique(a, Pow2(bit), 0, a);
    }
  }
}
