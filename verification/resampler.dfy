/** The resampling filter of the sound output (apps/fceux/src/filter.cpp) and the carry-over of samples from one frame
    to the next (apps/fceux/src/sound.cpp). Positions have 16 bits after the point.
 */
module Resampler {
  import opened Bits

  const ONE: nat := 65536

  /** A signed word of 32 bits that wraps. */
  function Signed32(x: int): int {
    (x + 0x8000_0000) % TWO32 - 0x8000_0000
  }

  /** The first n taps of a filter that ends at the sample hi, in 32-bit words. */
  function Taps(s: seq<int>, hi: nat, coeffs: seq<int>, n: nat): int
    requires n <= |coeffs| && hi < |s| && n <= hi + 1
  {
    if n == 0 then 0
    else Signed32(Taps(s, hi, coeffs, n - 1) + Signed32(s[hi + 1 - n] * coeffs[n - 1]) / 64)
  }

  function ExactTaps(s: seq<int>, hi: nat, coeffs: seq<int>, n: nat): int
    requires n <= |coeffs| && hi < |s| && n <= hi + 1
  {
    if n == 0 then 0 else ExactTaps(s, hi, coeffs, n - 1) + s[hi + 1 - n] * coeffs[n - 1] / 64
  }

  function Abs(x: int): nat {
    if x < 0 then -x else x
  }

  /** How large 64 times the sum of the first n taps can get, for samples of at most m. */
  function Budget(coeffs: seq<int>, n: nat, m: nat): nat
    requires n <= |coeffs|
  {
    if n == 0 then 0 else Budget(coeffs, n - 1, m) + m * Abs(coeffs[n - 1]) + 64
  }

  /** Samples of at most m do not overflow the filter if neither a product nor the sum can. */
  lemma {:induction false} TapsFit(s: seq<int>, hi: nat, coeffs: seq<int>, n: nat, m: nat)
    requires n <= |coeffs| && hi < |s| && n <= hi + 1
    requires forall i | 0 <= i < |s| :: Abs(s[i]) <= m
    requires forall i | 0 <= i < |coeffs| :: m * Abs(coeffs[i]) < 0x8000_0000
    requires Budget(coeffs, n, m) < 64 * 0x8000_0000
    ensures Taps(s, hi, coeffs, n) == ExactTaps(s, hi, coeffs, n)
    ensures 64 * Abs(ExactTaps(s, hi, coeffs, n)) <= Budget(coeffs, n, m)
  {
    hide Signed32, Abs;
    ZeroIsSmall();
    if n > 0 {
      var a, c, t := s[hi + 1 - n], coeffs[n - 1], ExactTaps(s, hi, coeffs, n - 1);
      TapsFit(s, hi, coeffs, n - 1, m);
      ProductFits(a, c, m);
      TapFits(t, a * c, m * Abs(c), Budget(coeffs, n - 1, m));
    }
  }

  lemma ZeroIsSmall()
    ensures Abs(0) == 0
  {
  }

  /** One product, of at most m, on top of a sum of at most b / 64. */
  lemma TapFits(t: int, p: int, m: nat, b: nat)
    requires Abs(p) <= m < 0x8000_0000 && 64 * Abs(t) <= b && b + m + 64 < 64 * 0x8000_0000
    ensures Signed32(t + Signed32(p) / 64) == t + p / 64 && 64 * Abs(t + p / 64) <= b + m + 64
  {
    SmallSigned(p);
    SmallSigned(t + p / 64);
  }

  lemma ProductFits(a: int, c: int, m: nat)
    requires Abs(a) <= m
    ensures Abs(a * c) <= m * Abs(c)
  {
    MulMonotone(Abs(a), m, Abs(c));
    assert Abs(a * c) == Abs(a) * Abs(c);
  }

  lemma SmallSigned(x: int)
    requires -0x8000_0000 <= x < 0x8000_0000
    ensures Signed32(x) == x
  {
    SmallMod(x + 0x8000_0000, TWO32);
  }

  /** The filter at position x reads the samples up to the next one after x. */
  predicate IsInside(s: seq<int>, coeffs: seq<int>, x: nat) {
    |coeffs| <= x / ONE + 1 && x / ONE + 1 < |s|
  }

  /** Two neighbouring windows, weighted by the part of the position after the point. */
  function Filtered(s: seq<int>, coeffs: seq<int>, x: nat): int
    requires IsInside(s, coeffs, x)
  {
    var acc, acc2 := Taps(s, x / ONE, coeffs, |coeffs|), Taps(s, x / ONE + 1, coeffs, |coeffs|);
    (acc * (ONE - x % ONE) + acc2 * (x % ONE)) / 0x800_0000
  }

  lemma SignedRange(x: int)
    ensures -0x8000_0000 <= Signed32(x) < 0x8000_0000
  {
  }

  lemma TapsRange(s: seq<int>, hi: nat, coeffs: seq<int>, n: nat)
    requires n <= |coeffs| && hi < |s| && n <= hi + 1
    ensures -0x8000_0000 <= Taps(s, hi, coeffs, n) < 0x8000_0000
  {
    hide Signed32;
    if n > 0 {
      SignedRange(Taps(s, hi, coeffs, n - 1) + Signed32(s[hi + 1 - n] * coeffs[n - 1]) / 64);
    }
  }

  lemma Scaled(a: int, b: int, f: nat)
    requires a <= b
    ensures a * f <= b * f
  {
    assert (b - a) * f == b * f - a * f;
  }

  /** A weighted mean is between the bounds of its parts. */
  lemma MeanFits(a: int, b: int, low: int, high: int, g: nat, f: nat)
    requires low <= a <= high && low <= b <= high
    ensures low * (g + f) <= a * g + b * f <= high * (g + f)
  {
    Scaled(low, a, g);
    Scaled(a, high, g);
    Scaled(low, b, f);
    Scaled(b, high, f);
    assert low * (g + f) == low * g + low * f && high * (g + f) == high * g + high * f;
  }

  /** The 64-bit mean of two windows always fits into a 32-bit sample. */
  lemma FilteredFits(s: seq<int>, coeffs: seq<int>, x: nat)
    requires IsInside(s, coeffs, x)
    ensures -0x10_0000 <= Filtered(s, coeffs, x) < 0x10_0000
  {
    hide Taps;
    var acc, acc2 := Taps(s, x / ONE, coeffs, |coeffs|), Taps(s, x / ONE + 1, coeffs, |coeffs|);
    TapsRange(s, x / ONE, coeffs, |coeffs|);
    TapsRange(s, x / ONE + 1, coeffs, |coeffs|);
    MeanFits(acc, acc2, -0x8000_0000, 0x7FFF_FFFF, ONE - x % ONE, x % ONE);
  }

  // ---------- what a window and an output are ----------

  /** A single sample v at position j goes through the coefficient that is as far from the front as the sample is from
      the end of the window.
   */
  lemma {:induction false} ImpulseResponse(s: seq<int>, j: nat, v: int, hi: nat, coeffs: seq<int>, n: nat)
    requires n <= |coeffs| && hi < |s| && n <= hi + 1 && j < |s| && s[j] == v
    requires forall i | 0 <= i < |s| && i != j :: s[i] == 0
    ensures Taps(s, hi, coeffs, n) == if hi - n < j <= hi then Signed32(v * coeffs[hi - j]) / 64 else 0
  {
    hide Signed32;
    if n > 0 {
      ImpulseResponse(s, j, v, hi, coeffs, n - 1);
      SmallSigned(0);
      if hi + 1 - n == j {
        HalfRange(v * coeffs[n - 1]);
        SmallSigned(Signed32(v * coeffs[n - 1]) / 64);
      } else {
        assert s[hi + 1 - n] * coeffs[n - 1] == 0;
        if hi - n < j <= hi {
          HalfRange(v * coeffs[hi - j]);
          SmallSigned(Signed32(v * coeffs[hi - j]) / 64);
        }
      }
    }
  }

  lemma HalfRange(x: int)
    ensures -0x8000_0000 <= Signed32(x) / 64 < 0x8000_0000
  {
    SignedRange(x);
  }

  /** An output at a whole position is the window there. */
  lemma WholePosition(s: seq<int>, coeffs: seq<int>, k: nat)
    requires IsInside(s, coeffs, k * ONE)
    ensures |coeffs| <= k + 1 && k + 1 < |s| && Filtered(s, coeffs, k * ONE) == Taps(s, k, coeffs, |coeffs|) / 2048
  {
    DivModUnique(k * ONE, ONE, k, 0);
    hide Taps;
    ScaledDown(Taps(s, k, coeffs, |coeffs|));
  }

  lemma ScaledDown(a: int)
    ensures a * ONE / 0x800_0000 == a / 2048
  {
    var q, r := a / 2048, a % 2048;
    assert a * ONE == q * 0x800_0000 + r * ONE;
  }

  /** The mean of a and b at f of 65536 parts of the way. */
  function Between(a: int, b: int, f: nat): int
    requires f <= ONE
  {
    (a * (ONE - f) + b * f) / 0x800_0000
  }

  lemma FilteredIs(s: seq<int>, coeffs: seq<int>, k: nat, f: nat)
    requires f < ONE && IsInside(s, coeffs, k * ONE + f)
    ensures |coeffs| <= k + 1 && k + 1 < |s|
    ensures Filtered(s, coeffs, k * ONE + f) ==
            Between(Taps(s, k, coeffs, |coeffs|), Taps(s, k + 1, coeffs, |coeffs|), f)
  {
    hide Taps;
    DivModUnique(k * ONE + f, ONE, k, f);
  }

  lemma BetweenEnds(a: int, b: int)
    ensures Between(a, b, 0) == a / 2048 && Between(a, b, ONE) == b / 2048
  {
    ScaledDown(a);
    ScaledDown(b);
  }

  /** From one whole position to the next an output moves from the window of the one to that of the other, in one
      direction, and never leaves the range between them.
   */
  lemma Interpolates(s: seq<int>, coeffs: seq<int>, k: nat, f: nat, g: nat)
    requires f <= g < ONE && IsInside(s, coeffs, k * ONE + f) && IsInside(s, coeffs, k * ONE + g)
    ensures |coeffs| <= k + 1 && k + 1 < |s|
    ensures var a, b := Taps(s, k, coeffs, |coeffs|), Taps(s, k + 1, coeffs, |coeffs|);
            var y, z := Filtered(s, coeffs, k * ONE + f), Filtered(s, coeffs, k * ONE + g);
            if a <= b then a / 2048 <= y <= z <= b / 2048 else a / 2048 >= y >= z >= b / 2048
  {
    hide *;
    FilteredIs(s, coeffs, k, f);
    FilteredIs(s, coeffs, k, g);
    var a, b := Taps(s, k, coeffs, |coeffs|), Taps(s, k + 1, coeffs, |coeffs|);
    BetweenEnds(a, b);
    MeanMoves(a, b, 0, f);
    MeanMoves(a, b, f, g);
    MeanMoves(a, b, g, ONE);
  }

  /** What an output at position x is, without the formula of the weights: the window at a whole position, and between
      two of them a value between the windows.
   */
  ghost predicate IsBlend(y: int, s: seq<int>, coeffs: seq<int>, x: nat) {
    var k := x / ONE;
    && |coeffs| <= k + 1 && k + 1 < |s|
    && var a, b := Taps(s, k, coeffs, |coeffs|), Taps(s, k + 1, coeffs, |coeffs|);
    && (x % ONE == 0 ==> y == a / 2048)
    && if a <= b then a / 2048 <= y <= b / 2048 else b / 2048 <= y <= a / 2048
  }

  lemma OutputBlends(s: seq<int>, coeffs: seq<int>, x: nat)
    requires IsInside(s, coeffs, x)
    ensures IsBlend(Filtered(s, coeffs, x), s, coeffs, x)
  {
    hide Taps;
    var k, f := x / ONE, x % ONE;
    DivModUnique(k * ONE, ONE, k, 0);
    WholePosition(s, coeffs, k);
    Interpolates(s, coeffs, k, f, f);
  }

  lemma OutputsBlend(produced: seq<int>, history: seq<int>, coeffs: seq<int>, start: nat, ratio: nat)
    requires AreOutputs(produced, history, coeffs, start, ratio)
    ensures AreBlends(produced, history, coeffs, start, ratio)
  {
    hide Filtered, IsInside, IsBlend;
    forall k: nat | k < |produced|
      ensures IsBlend(produced[k], history, coeffs, start + k * ratio)
    {
      assert IsOutput(produced[k], history, coeffs, Position(start, ratio, k));
      OutputBlends(history, coeffs, start + k * ratio);
    }
  }

  ghost predicate AreBlends(produced: seq<int>, history: seq<int>, coeffs: seq<int>, start: nat, ratio: nat) {
    forall k: nat | k < |produced| :: IsBlend(produced[k], history, coeffs, start + k * ratio)
  }

  /** The weighted mean moves towards the second part. */
  lemma MeanMoves(a: int, b: int, f: nat, g: nat)
    requires f <= g <= ONE
    ensures if a <= b then Between(a, b, f) <= Between(a, b, g) else Between(a, b, f) >= Between(a, b, g)
  {
    hide ONE;
    if a <= b {
      MeanGrows(a, b, f, g);
    } else {
      MeanGrows(-a, -b, f, g);
      assert -a * (ONE - f) + -b * f == -(a * (ONE - f) + b * f);
      assert -a * (ONE - g) + -b * g == -(a * (ONE - g) + b * g);
    }
  }

  lemma MeanGrows(a: int, b: int, f: nat, g: nat)
    requires f <= g <= ONE && a <= b
    ensures a * (ONE - f) + b * f <= a * (ONE - g) + b * g
  {
    hide ONE;
    Scaled(a, b, g - f);
    assert a * (ONE - f) == a * (ONE - g) + a * (g - f) && b * g == b * f + b * (g - f);
  }

  /** A window does not depend on where the recording starts or ends. */
  lemma {:induction false} TapsShifted(s: seq<int>, t: seq<int>, base: nat, hi: nat, coeffs: seq<int>, n: nat)
    requires n <= |coeffs| && hi < |t| && n <= hi + 1 && base + |t| <= |s|
    requires forall i | 0 <= i < |t| :: t[i] == s[base + i]
    ensures Taps(s, base + hi, coeffs, n) == Taps(t, hi, coeffs, n)
  {
    hide Signed32;
    if n > 0 {
      TapsShifted(s, t, base, hi, coeffs, n - 1);
      assert t[hi + 1 - n] == s[base + (hi + 1 - n)];
    }
  }

  lemma FilteredShifted(s: seq<int>, t: seq<int>, base: nat, coeffs: seq<int>, x: nat)
    requires IsInside(t, coeffs, x) && base + |t| <= |s|
    requires forall i | 0 <= i < |t| :: t[i] == s[base + i]
    ensures IsInside(s, coeffs, base * ONE + x) && Filtered(s, coeffs, base * ONE + x) == Filtered(t, coeffs, x)
  {
    DivModUnique(base * ONE + x, ONE, base + x / ONE, x % ONE);
    hide Taps;
    TapsShifted(s, t, base, x / ONE, coeffs, |coeffs|);
    TapsShifted(s, t, base, x / ONE + 1, coeffs, |coeffs|);
  }

  // ---------- the smoothing behind it ----------

  /** The factors that SexyFilter computes from the settings, and its two running levels; lowpass says whether
      SexyFilter2 follows.
   */
  datatype Gains = Gains(mul1: int, mul2: int, vmul: int, lowpass: bool)
  datatype Level = Level(acc1: int, acc2: int)

  function Next(level: Level, sample: int, gains: Gains): Level {
    var ino := sample * gains.vmul;
    var acc1 := level.acc1 + (ino - level.acc1) * gains.mul1 / ONE;
    Level(acc1, level.acc2 + (ino - acc1 - level.acc2) * gains.mul2 / ONE)
  }

  /** What is between the two levels and the scaled sample, cut to 16 bits. */
  function Output(level: Level, sample: int, gains: Gains): int {
    var t := (level.acc1 - sample * gains.vmul + level.acc2) / ONE;
    if t > 32767 then 32767 else if t < -32768 then -32768 else t
  }

  /** A step of the levels: each moves towards its aim, by the share that its factor is of 65536. */
  lemma LevelsMove(level: Level, sample: int, gains: Gains)
    ensures var ino, next := sample * gains.vmul, Next(level, sample, gains);
            && 0 <= (ino - level.acc1) * gains.mul1 - (next.acc1 - level.acc1) * ONE < ONE
            && 0 <= (ino - next.acc1 - level.acc2) * gains.mul2 - (next.acc2 - level.acc2) * ONE < ONE
  {
    var ino := sample * gains.vmul;
    Floored((ino - level.acc1) * gains.mul1);
    var acc1 := Next(level, sample, gains).acc1;
    Floored((ino - acc1 - level.acc2) * gains.mul2);
  }

  lemma Floored(x: int)
    ensures 0 <= x - x / ONE * ONE < ONE
  {
  }

  /** A constant input is taken away: at rest the first level is the scaled sample, and nothing is heard. */
  lemma SteadyInputIsSilent(sample: int, gains: Gains)
    ensures var rest := Level(sample * gains.vmul, 0);
            Next(rest, sample, gains) == rest && Output(rest, sample, gains) == 0
  {
  }

  /** What is heard is what the sample lacks of both levels, in whole units, cut to 16 bits. */
  lemma HeardIsTheRest(level: Level, sample: int, gains: Gains)
    ensures var t, rest := Output(level, sample, gains), level.acc1 + level.acc2 - sample * gains.vmul;
            && -32768 <= t <= 32767
            && (t < 32767 ==> rest < (t + 1) * ONE) && (t > -32768 ==> t * ONE <= rest)
  {
  }

  function LevelAfter(level: Level, s: seq<int>, gains: Gains): Level {
    if s == [] then level else Next(LevelAfter(level, s[..|s| - 1], gains), s[|s| - 1], gains)
  }

  function Smoothed(level: Level, s: seq<int>, gains: Gains): (t: seq<int>)
    ensures |t| == |s|
  {
    if s == [] then []
    else Smoothed(level, s[..|s| - 1], gains) + [Output(LevelAfter(level, s, gains), s[|s| - 1], gains)]
  }

  lemma NextIs(level: Level, sample: int, gains: Gains)
    ensures var ino := sample * gains.vmul;
            var acc1 := level.acc1 + (ino - level.acc1) * gains.mul1 / ONE;
            var acc2 := level.acc2 + (ino - acc1 - level.acc2) * gains.mul2 / ONE;
            var t := (acc1 - ino + acc2) / ONE;
            && Next(level, sample, gains) == Level(acc1, acc2)
            && Output(Level(acc1, acc2), sample, gains) == if t > 32767 then 32767 else if t < -32768 then -32768 else t
  {
  }

  lemma SmoothedContinues(level: Level, s: seq<int>, i: nat, gains: Gains)
    requires i < |s|
    ensures LevelAfter(level, s[..i + 1], gains) == Next(LevelAfter(level, s[..i], gains), s[i], gains)
    ensures Smoothed(level, s[..i + 1], gains) ==
            Smoothed(level, s[..i], gains) + [Output(LevelAfter(level, s[..i + 1], gains), s[i], gains)]
  {
    hide Next, Output;
    assert s[..i + 1][..i] == s[..i];
  }

  /** Smoothing in two parts is smoothing at once, if the second part takes over the levels. */
  lemma {:induction false} SmoothedInParts(level: Level, s: seq<int>, t: seq<int>, gains: Gains)
    ensures LevelAfter(level, s + t, gains) == LevelAfter(LevelAfter(level, s, gains), t, gains)
    ensures Smoothed(level, s + t, gains) == Smoothed(level, s, gains) + Smoothed(LevelAfter(level, s, gains), t, gains)
  {
    hide Next, Output;
    if t == [] {
      assert s + t == s;
    } else {
      var u, last := t[..|t| - 1], |s + t| - 1;
      assert (s + t)[..last] == s + u && (s + t)[last] == t[|t| - 1];
      SmoothedInParts(level, s, u, gains);
    }
  }

  /** SexyFilter2: an eighth of the way from the running level to the sample. */
  function LowNext(low: int, sample: int): int {
    low + (sample * ONE - low) / 8
  }

  /** The second filter moves an eighth of the way, and stays where the sample is. */
  lemma LowMoves(low: int, sample: int)
    ensures 0 <= sample * ONE - low - 8 * (LowNext(low, sample) - low) < 8
    ensures LowNext(sample * ONE, sample) == sample * ONE
  {
  }

  function LowAfter(low: int, s: seq<int>): int {
    if s == [] then low else LowNext(LowAfter(low, s[..|s| - 1]), s[|s| - 1])
  }

  function Lowered(low: int, s: seq<int>): (t: seq<int>)
    ensures |t| == |s|
  {
    if s == [] then [] else Lowered(low, s[..|s| - 1]) + [LowAfter(low, s) / ONE]
  }

  lemma LoweredContinues(low: int, s: seq<int>, i: nat)
    requires i < |s|
    ensures LowAfter(low, s[..i + 1]) == LowNext(LowAfter(low, s[..i]), s[i])
    ensures Lowered(low, s[..i + 1]) == Lowered(low, s[..i]) + [LowAfter(low, s[..i + 1]) / ONE]
  {
    hide LowNext, ONE;
    assert s[..i + 1][..i] == s[..i];
  }

  lemma {:induction false} LoweredInParts(low: int, s: seq<int>, t: seq<int>)
    ensures LowAfter(low, s + t) == LowAfter(LowAfter(low, s), t)
    ensures Lowered(low, s + t) == Lowered(low, s) + Lowered(LowAfter(low, s), t)
  {
    hide LowNext;
    if t == [] {
      assert s + t == s;
    } else {
      var u, last := t[..|t| - 1], |s + t| - 1;
      assert (s + t)[..last] == s + u && (s + t)[last] == t[|t| - 1];
      LoweredInParts(low, s, u);
    }
  }

  /** All of the smoothing, and the level that the second filter is left with. */
  function Heard(level: Level, low: int, s: seq<int>, gains: Gains): seq<int> {
    var t := Smoothed(level, s, gains);
    if gains.lowpass then Lowered(low, t) else t
  }

  function LowLevel(level: Level, low: int, s: seq<int>, gains: Gains): int {
    if gains.lowpass then LowAfter(low, Smoothed(level, s, gains)) else low
  }

  lemma HeardInParts(level: Level, low: int, s: seq<int>, t: seq<int>, gains: Gains)
    ensures LevelAfter(level, s + t, gains) == LevelAfter(LevelAfter(level, s, gains), t, gains)
    ensures LowLevel(level, low, s + t, gains) ==
            LowLevel(LevelAfter(level, s, gains), LowLevel(level, low, s, gains), t, gains)
    ensures Heard(level, low, s + t, gains) ==
            Heard(level, low, s, gains) + Heard(LevelAfter(level, s, gains), LowLevel(level, low, s, gains), t, gains)
  {
    hide Smoothed, LevelAfter, Lowered, LowAfter;
    SmoothedInParts(level, s, t, gains);
    LoweredInParts(low, Smoothed(level, s, gains), Smoothed(LevelAfter(level, s, gains), t, gains));
  }

  /** A single sample is heard through the levels that it has moved, not through those before it. */
  lemma OneSample(level: Level, low: int, sample: int, gains: Gains)
    ensures var next := Next(level, sample, gains);
            && LevelAfter(level, [sample], gains) == next
            && Heard(level, low, [sample], gains) ==
               [if gains.lowpass then LowNext(low, Output(next, sample, gains)) / ONE else Output(next, sample, gains)]
            && LowLevel(level, low, [sample], gains) ==
               if gains.lowpass then LowNext(low, Output(next, sample, gains)) else low
  {
    hide Next, Output, LowNext;
    var one, heard := [sample], [Output(Next(level, sample, gains), sample, gains)];
    assert one[..0] == [] && heard[..0] == [];
    assert LevelAfter(level, one, gains) == Next(LevelAfter(level, [], gains), sample, gains);
    assert Smoothed(level, one, gains) == heard;
    assert LowAfter(low, heard) == LowNext(LowAfter(low, []), heard[0]);
  }

  class Filter {
    const coeffs: array<int>
    const mrratio: u32
    const gains: Gains
    var mrindex: u32
    var level: Level
    var low: int

    /** MakeFilters: the table is one half of a symmetric filter. */
    constructor (table: seq<int>, mrratio: u32, gains: Gains)
      requires table != [] && mrratio > 0 && (2 * |table| + 1) * ONE < TWO32
      ensures coeffs.Length == 2 * |table| && this.mrratio == mrratio && mrindex == (coeffs.Length + 1) * ONE
      ensures fresh(coeffs) && this.gains == gains && level == Level(0, 0) && low == 0
      ensures forall i | 0 <= i < |table| :: coeffs[i] == coeffs[coeffs.Length - 1 - i] == table[i]
    {
      coeffs := new int[2 * |table|];
      this.mrratio, this.gains, level, low := mrratio, gains, Level(0, 0), 0;
      mrindex := (2 * |table| + 1) * ONE;
      new;
      for x := 0 to |table|
        invariant mrindex == (2 * |table| + 1) * ONE && level == Level(0, 0) && low == 0
        invariant forall i | 0 <= i < x :: coeffs[i] == coeffs[coeffs.Length - 1 - i] == table[i]
      {
        coeffs[x] := table[x];
        coeffs[coeffs.Length - 1 - x] := table[x];
      }
    }

    /** The inner loops: all taps of two neighbouring windows. */
    method Convolve(input: array<int>, hi: nat) returns (acc: int, acc2: int)
      requires coeffs.Length <= hi + 1 && hi + 1 < input.Length
      ensures acc == Taps(input[..], hi, coeffs[..], coeffs.Length)
      ensures acc2 == Taps(input[..], hi + 1, coeffs[..], coeffs.Length)
    {
      hide Signed32;
      acc, acc2 := 0, 0;
      var start := hi - coeffs.Length;
      var c, d := coeffs.Length, 0;
      while c > 0
        invariant 0 <= c && d == coeffs.Length - c
        invariant acc == Taps(input[..], hi, coeffs[..], d)
        invariant acc2 == Taps(input[..], hi + 1, coeffs[..], d)
      {
        acc := Signed32(acc + Signed32(input[start + c] * coeffs[d]) / 64);
        acc2 := Signed32(acc2 + Signed32(input[start + 1 + c] * coeffs[d]) / 64);
        c := c - 1;
        d := d + 1;
      }
    }

    /** The sample at position x. */
    method Sample(input: array<int>, inlen: nat, x: nat) returns (sample: int)
      requires inlen <= input.Length && coeffs.Length <= x / ONE && x / ONE + 1 < inlen
      ensures IsInside(input[..inlen], coeffs[..], x) && sample == Filtered(input[..inlen], coeffs[..], x)
    {
      hide Taps;
      var acc, acc2 := Convolve(input, x / ONE);
      TapsShifted(input[..], input[..inlen], 0, x / ONE, coeffs[..], coeffs.Length);
      TapsShifted(input[..], input[..inlen], 0, x / ONE + 1, coeffs[..], coeffs.Length);
      sample := (acc * (ONE - x % ONE) + acc2 * (x % ONE)) / 0x800_0000;
    }

    /** The resampling loop: one output for every position before the last sample. In the stream the next position is
        where the last one left off, because leftover and mrindex move together. Positions are 32-bit words, which do
        not wrap as long as the whole input and one step fit.
     */
    method Resample(input: array<int>, inlen: nat, out: array<int>) returns (count: nat, leftover: nat)
      requires out != input && out != coeffs && 0 < coeffs.Length && coeffs.Length + 1 <= inlen <= input.Length
      requires mrratio > 0 && mrindex >= coeffs.Length * ONE && (inlen - 1) * ONE <= out.Length * mrratio
      requires (inlen - 1) * ONE + mrratio < TWO32
      modifies `mrindex, out
      ensures leftover == coeffs.Length + 1 && mrindex >= coeffs.Length * ONE && count <= out.Length
      ensures mrindex + (inlen - leftover) * ONE == Position(old(mrindex), mrratio, count)
      ensures Position(old(mrindex), mrratio, count) >= (inlen - 1) * ONE
      ensures AreOutputs(out[..count], input[..inlen], coeffs[..], old(mrindex), mrratio)
    {
      SmallMod((inlen - 1) * ONE, TWO32);
      var max: u32 := (inlen - 1) * ONE % TWO32;
      var x: u32 := mrindex;
      count := 0;
      while x < max
        invariant x == Position(mrindex, mrratio, count) && mrindex == old(mrindex) && count <= out.Length
        invariant AreOutputs(out[..count], input[..inlen], coeffs[..], mrindex, mrratio)
        decreases max - x
      {
        PositionIsInside(x, coeffs.Length, inlen);
        RoomLeft(count, out.Length, mrratio);
        MulStep(count, mrratio);
        var acc := Sample(input, inlen, x);
        out[count] := acc;
        SmallMod(x + mrratio, TWO32);
        x := (x + mrratio) % TWO32;
        count := count + 1;
      }
      NextIndexFits(x, max, coeffs.Length * ONE);
      mrindex := (x - max) % TWO32;
      mrindex := (mrindex + coeffs.Length * ONE) % TWO32;
      leftover := coeffs.Length + 1;
    }

    /** SexyFilter, in place as it is called: the levels live on from one call to the next. */
    method SexyFilter(buf: array<int>, count: nat)
      requires count <= buf.Length
      modifies `level, buf
      ensures buf[..count] == Smoothed(old(level), old(buf[..count]), gains)
      ensures level == LevelAfter(old(level), old(buf[..count]), gains)
      ensures forall i | count <= i < buf.Length :: buf[i] == old(buf[i])
    {
      hide Next, Output;
      for i := 0 to count
        invariant buf[..i] == Smoothed(old(level), old(buf[..i]), gains)
        invariant level == LevelAfter(old(level), old(buf[..i]), gains)
        invariant forall j | i <= j < buf.Length :: buf[j] == old(buf[j])
      {
        SmoothedContinues(old(level), old(buf[..]), i, gains);
        NextIs(level, buf[i], gains);
        var ino := buf[i] * gains.vmul;
        var acc1 := level.acc1 + (ino - level.acc1) * gains.mul1 / ONE;
        var acc2 := level.acc2 + (ino - acc1 - level.acc2) * gains.mul2 / ONE;
        level := Level(acc1, acc2);
        buf[i] := 0;
        var t := (acc1 - ino + acc2) / ONE;
        if t > 32767 {
          t := 32767;
        }
        if t < -32768 {
          t := -32768;
        }
        buf[i] := t;
      }
    }

    /** SexyFilter2, in place */
    method SexyFilter2(buf: array<int>, count: nat)
      requires count <= buf.Length
      modifies `low, buf
      ensures buf[..count] == Lowered(old(low), old(buf[..count])) && low == LowAfter(old(low), old(buf[..count]))
      ensures forall i | count <= i < buf.Length :: buf[i] == old(buf[i])
    {
      for i := 0 to count
        invariant buf[..i] == Lowered(old(low), old(buf[..i])) && low == LowAfter(old(low), old(buf[..i]))
        invariant forall j | i <= j < buf.Length :: buf[j] == old(buf[j])
      {
        LoweredContinues(old(low), old(buf[..]), i);
        var dropcurrent := (buf[i] * ONE - low) / 8;
        low := low + dropcurrent;
        buf[i] := low / ONE;
      }
    }

    /** NeoFilterSound: the outputs, of which raw are those before the smoothing. */
    method NeoFilterSound(input: array<int>, inlen: nat, out: array<int>)
      returns (count: nat, leftover: nat, ghost raw: seq<int>)
      requires out != input && out != coeffs && 0 < coeffs.Length && coeffs.Length + 1 <= inlen <= input.Length
      requires mrratio > 0 && mrindex >= coeffs.Length * ONE && (inlen - 1) * ONE <= out.Length * mrratio
      requires (inlen - 1) * ONE + mrratio < TWO32
      modifies `mrindex, `level, `low, out
      ensures leftover == coeffs.Length + 1 && mrindex >= coeffs.Length * ONE && count == |raw| <= out.Length
      ensures mrindex + (inlen - leftover) * ONE == Position(old(mrindex), mrratio, count)
      ensures Position(old(mrindex), mrratio, count) >= (inlen - 1) * ONE
      ensures AreOutputs(raw, input[..inlen], coeffs[..], old(mrindex), mrratio)
      ensures AreBlends(raw, input[..inlen], coeffs[..], old(mrindex), mrratio)
      ensures out[..count] == Heard(old(level), old(low), raw, gains)
      ensures level == LevelAfter(old(level), raw, gains) && low == LowLevel(old(level), old(low), raw, gains)
    {
      hide *;
      count, leftover := Resample(input, inlen, out);
      raw := out[..count];
      OutputsBlend(raw, input[..inlen], coeffs[..], old(mrindex), mrratio);
      SexyFilter(out, count);
      HeardIs(old(level), low, raw, gains);
      if gains.lowpass {
        SexyFilter2(out, count);
      }
    }
  }

  lemma HeardIs(level: Level, low: int, s: seq<int>, gains: Gains)
    ensures Heard(level, low, s, gains) ==
            if gains.lowpass then Lowered(low, Smoothed(level, s, gains)) else Smoothed(level, s, gains)
    ensures LowLevel(level, low, s, gains) == if gains.lowpass then LowAfter(low, Smoothed(level, s, gains)) else low
  {
  }

  /** The 40000 samples of the buffer and a step at the CPU rate of 1789772.7 Hz fit into 32 bits at every usable
      rate.
   */
  lemma WordsSuffice(rate: nat)
    requires rate >= 71
    ensures 40000 * ONE + 1_789_773 * ONE / rate < TWO32
  {
    var ratio := 1_789_773 * ONE / rate;
    DivModOf(1_789_773 * ONE, rate);
    if ratio >= 1_652_100_000 {
      MulMonotone(71, rate, ratio);
    }
  }

  lemma NextIndexFits(x: u32, max: u32, taps: nat)
    requires max <= x && taps <= max
    ensures (x - max) % TWO32 == x - max && (x - max + taps) % TWO32 == x - max + taps
  {
    SmallMod(x - max, TWO32);
    SmallMod(x - max + taps, TWO32);
  }

  lemma RoomLeft(count: nat, length: nat, ratio: nat)
    ensures count * ratio < length * ratio ==> count < length
  {
    if length <= count {
      MulMonotone(length, count, ratio);
    }
  }

  lemma MulStep(count: nat, ratio: nat)
    ensures (count + 1) * ratio == count * ratio + ratio
  {
  }

  lemma PositionIsInside(x: nat, taps: nat, inlen: nat)
    requires taps * ONE <= x < (inlen - 1) * ONE
    ensures taps <= x / ONE && x / ONE + 1 < inlen
  {
  }

  // ---------- many frames ----------

  /** The position of the k-th output. */
  function Position(start: nat, ratio: nat, k: nat): nat {
    start + k * ratio
  }

  ghost predicate IsOutput(y: int, history: seq<int>, coeffs: seq<int>, x: nat) {
    x < (|history| - 1) * ONE && IsInside(history, coeffs, x) && y == Filtered(history, coeffs, x)
  }

  /** The outputs that a stream should give, from the position start on. */
  ghost predicate AreOutputs(produced: seq<int>, history: seq<int>, coeffs: seq<int>, start: nat, ratio: nat) {
    forall k: nat | k < |produced| :: IsOutput(produced[k], history, coeffs, Position(start, ratio, k))
  }

  lemma OutputShifted(y: int, history: seq<int>, wave: seq<int>, base: nat, coeffs: seq<int>, x: nat)
    requires IsOutput(y, wave, coeffs, x) && base + |wave| <= |history|
    requires forall i | 0 <= i < |wave| :: wave[i] == history[base + i]
    ensures IsOutput(y, history, coeffs, base * ONE + x)
  {
    hide Filtered, IsInside;
    FilteredShifted(history, wave, base, coeffs, x);
  }

  lemma OutputsExtended(produced: seq<int>, history: seq<int>, more: seq<int>, coeffs: seq<int>, start: nat, ratio: nat)
    requires AreOutputs(produced, history, coeffs, start, ratio)
    ensures AreOutputs(produced, history + more, coeffs, start, ratio)
  {
    hide IsOutput, Position;
    forall k: nat | k < |produced|
      ensures IsOutput(produced[k], history + more, coeffs, Position(start, ratio, k))
    {
      OutputShifted(produced[k], history + more, history, 0, coeffs, Position(start, ratio, k));
    }
  }

  /** The outputs of one more frame, which were computed on the last samples of the history. */
  lemma OutputsAppended(produced: seq<int>, latest: seq<int>, history: seq<int>, wave: seq<int>, base: nat,
      mrindex: nat, coeffs: seq<int>, start: nat, ratio: nat)
    requires AreOutputs(produced, history, coeffs, start, ratio) && AreOutputs(latest, wave, coeffs, mrindex, ratio)
    requires base + |wave| == |history| && forall i | 0 <= i < |wave| :: wave[i] == history[base + i]
    requires base * ONE + mrindex == Position(start, ratio, |produced|)
    ensures AreOutputs(produced + latest, history, coeffs, start, ratio)
  {
    hide IsOutput, Position;
    var n := |produced|;
    forall k: nat | k < |produced + latest|
      ensures IsOutput((produced + latest)[k], history, coeffs, Position(start, ratio, k))
    {
      if k < n {
        assert IsOutput(produced[k], history, coeffs, Position(start, ratio, k));
      } else {
        OutputShifted(latest[k - n], history, wave, base, coeffs, Position(mrindex, ratio, k - n));
        PositionsAdd(start, mrindex, base, ratio, n, k - n);
      }
    }
  }

  lemma NextPosition(base: nat, inlen: nat, left: nat, mrindex: nat, position: nat)
    requires left <= inlen && mrindex + (inlen - left) * ONE == position >= (inlen - 1) * ONE
    ensures (base + inlen - left) * ONE + mrindex == base * ONE + position >= (base + inlen - 1) * ONE
  {
  }

  lemma PositionsAdd(start: nat, mrindex: nat, base: nat, ratio: nat, n: nat, k: nat)
    requires base * ONE + mrindex == Position(start, ratio, n)
    ensures Position(start, ratio, n + k) == base * ONE + Position(mrindex, ratio, k)
  {
    assert (n + k) * ratio == n * ratio + k * ratio;
  }

  /** The buffer of one sound channel mix, and what has gone through it. */
  class Sound {
    const filter: Filter
    const waveHi: array<int>
    var soundTs: nat
    ghost var history: seq<int>
    ghost var produced: seq<int>
    ghost var heard: seq<int>

    constructor (filter: Filter, size: nat)
      requires 0 < filter.coeffs.Length && 0 < filter.mrratio && filter.mrindex == (filter.coeffs.Length + 1) * ONE
      requires size * ONE + filter.mrratio < TWO32 && filter.level == Level(0, 0) && filter.low == 0
      ensures Valid() && history == [] && produced == [] && this.filter == filter && waveHi.Length == size
      ensures fresh(waveHi)
    {
      this.filter := filter;
      waveHi := new int[size](_ => 0);
      soundTs := 0;
      history, produced, heard := [], [], [];
    }

    function StartPosition(): nat
      reads filter
    {
      (filter.coeffs.Length + 1) * ONE
    }

    /** The buffer has the last samples of the stream, with silence behind; all outputs so far are right, and mrindex
        is the position of the next.
     */
    ghost predicate Valid()
      reads this, filter, filter.coeffs, waveHi
    {
      && waveHi != filter.coeffs && 0 < filter.coeffs.Length && 0 < filter.mrratio
      && filter.mrindex >= filter.coeffs.Length * ONE && waveHi.Length * ONE + filter.mrratio < TWO32
      && IsBuffered(soundTs)
      && (|history| - soundTs) * ONE + filter.mrindex == Position(StartPosition(), filter.mrratio, |produced|)
      && AreOutputs(produced, history, filter.coeffs[..], StartPosition(), filter.mrratio)
      && heard == Heard(Level(0, 0), 0, produced, filter.gains)
      && filter.level == LevelAfter(Level(0, 0), produced, filter.gains)
      && filter.low == LowLevel(Level(0, 0), 0, produced, filter.gains)
    }

    /** The buffer has the last n samples of the stream, and then silence. */
    ghost predicate IsBuffered(n: nat)
      reads this`history, waveHi
    {
      && n <= waveHi.Length && n <= |history|
      && waveHi[..n] == history[|history| - n..]
      && (forall i | n <= i < waveHi.Length :: waveHi[i] == 0)
    }

    lemma BufferIs()
      requires IsBuffered(soundTs)
      ensures soundTs <= waveHi.Length && soundTs <= |history|
      ensures forall i | 0 <= i < soundTs :: waveHi[..soundTs][i] == history[|history| - soundTs + i]
    {
    }

    /** Every position before the last sample has had its output. */
    ghost predicate IsComplete()
      reads this, filter
    {
      Position(StartPosition(), filter.mrratio, |produced|) >= (|history| - 1) * ONE
    }

    /** The channels add their samples behind those that are left over. */
    method Emulate(samples: seq<int>)
      requires Valid() && soundTs + |samples| <= waveHi.Length
      modifies `soundTs, `history, waveHi
      ensures Valid() && history == old(history) + samples && soundTs == old(soundTs) + |samples|
    {
      hide AreOutputs;
      BufferIs();
      OutputsExtended(produced, history, samples, filter.coeffs[..], StartPosition(), filter.mrratio);
      for i := 0 to |samples|
        invariant soundTs == old(soundTs) + i && history == old(history) + samples[..i]
        invariant forall j | 0 <= j < soundTs :: waveHi[j] == history[|history| - soundTs + j]
        invariant forall j | soundTs <= j < waveHi.Length :: waveHi[j] == 0
      {
        waveHi[soundTs] := waveHi[soundTs] + samples[i];
        history := history + [samples[i]];
        soundTs := soundTs + 1;
      }
      assert samples[..|samples|] == samples;
    }

    /** The end of a frame in FlushEmulateSound: the filter runs, the samples it still needs go to the front, and the
        rest of the buffer is silenced.
     */
    method Flush(out: array<int>) returns (count: nat)
      requires Valid() && filter.coeffs.Length + 1 <= soundTs && out != waveHi && out != filter.coeffs
      requires (soundTs - 1) * ONE <= out.Length * filter.mrratio
      modifies `soundTs, `produced, `heard, waveHi, out, filter`mrindex, filter`level, filter`low
      ensures Valid() && IsComplete() && history == old(history)
      ensures AreBlends(produced, history, filter.coeffs[..], StartPosition(), filter.mrratio)
      ensures count <= out.Length && heard == old(heard) + out[..count] && soundTs == filter.coeffs.Length + 1
    {
      hide AreOutputs, AreBlends, Position, Heard, LevelAfter, LowLevel, IsBuffered;
      BufferIs();
      var left;
      ghost var raw;
      ghost var base, mrindex, n := |history| - soundTs, filter.mrindex, |produced|;
      count, left, raw := filter.NeoFilterSound(waveHi, soundTs, out);
      HeardInParts(Level(0, 0), 0, produced, raw, filter.gains);
      OutputsAppended(produced, raw, history, waveHi[..soundTs], base, mrindex, filter.coeffs[..], StartPosition(),
                      filter.mrratio);
      PositionsAdd(StartPosition(), mrindex, base, filter.mrratio, n, count);
      NextPosition(base, soundTs, left, filter.mrindex, Position(mrindex, filter.mrratio, count));
      produced, heard := produced + raw, heard + out[..count];
      OutputsBlend(produced, history, filter.coeffs[..], StartPosition(), filter.mrratio);
      CarryOver(left);
      soundTs := left;
    }

    /** memmove(WaveHi, WaveHi + SOUNDTS - left, ...) and memset(WaveHi + left, 0, ...) */
    method CarryOver(left: nat)
      requires left <= soundTs && IsBuffered(soundTs)
      modifies waveHi
      ensures IsBuffered(left)
      ensures waveHi[..left] == old(waveHi[soundTs - left..soundTs])
    {
      LastOfLast(waveHi[..], history, soundTs, left);
      MoveDown(waveHi, soundTs - left, left);
      Silence(waveHi, left);
    }
  }

  /** The last samples of the last samples. */
  lemma LastOfLast(wave: seq<int>, history: seq<int>, n: nat, left: nat)
    requires left <= n <= |wave| && n <= |history| && wave[..n] == history[|history| - n..]
    ensures wave[n - left..n] == history[|history| - left..]
  {
    assert wave[n - left..n] == wave[..n][n - left..];
    assert history[|history| - left..] == history[|history| - n..][n - left..];
  }

  method MoveDown(a: array<int>, from: nat, n: nat)
    requires from + n <= a.Length
    modifies a
    ensures a[..n] == old(a[from..from + n])
  {
    for i := 0 to n
      invariant a[..i] == old(a[from..from + i]) && a[i..] == old(a[i..])
    {
      assert a[i..][from] == old(a[i..])[from];
      a[i] := a[from + i];
    }
  }

  method Silence(a: array<int>, from: nat)
    requires from <= a.Length
    modifies a
    ensures a[..from] == old(a[..from])
    ensures forall i | from <= i < a.Length :: a[i] == 0
  {
    for i := from to a.Length
      invariant a[..from] == old(a[..from])
      invariant forall j | from <= j < i :: a[j] == 0
    {
      a[i] := 0;
    }
  }

  /** However the stream was cut into frames: the same samples have given the same outputs. */
  lemma FramingDoesNotMatter(a: Sound, b: Sound)
    requires a.Valid() && b.Valid() && a.IsComplete() && b.IsComplete() && a.history == b.history
    requires a.filter.coeffs[..] == b.filter.coeffs[..] && a.filter.mrratio == b.filter.mrratio
    ensures a.produced == b.produced
    ensures a.filter.gains == b.filter.gains ==> a.heard == b.heard
  {
    NotLonger(a.produced, b.produced, a.history, a.filter.coeffs[..], a.StartPosition(), a.filter.mrratio);
    NotLonger(b.produced, a.produced, a.history, a.filter.coeffs[..], a.StartPosition(), a.filter.mrratio);
  }

  lemma NotLonger(complete: seq<int>, produced: seq<int>, history: seq<int>, coeffs: seq<int>, start: nat, ratio: nat)
    requires AreOutputs(complete, history, coeffs, start, ratio) && AreOutputs(produced, history, coeffs, start, ratio)
    requires Position(start, ratio, |complete|) >= (|history| - 1) * ONE
    ensures |produced| <= |complete| && produced == complete[..|produced|]
  {
    hide Filtered, IsInside, Position;
    forall k: nat | k < |produced|
      ensures Position(start, ratio, k) < (|history| - 1) * ONE
    {
      assert IsOutput(produced[k], history, coeffs, Position(start, ratio, k));
    }
    assert |produced| <= |complete|;
    forall k: nat | k < |produced|
      ensures produced[k] == complete[k]
    {
      assert IsOutput(produced[k], history, coeffs, Position(start, ratio, k));
      assert IsOutput(complete[k], history, coeffs, Position(start, ratio, k));
    }
  }
}
