/** The square-wave channels of the sound output (RDoSQ in apps/fceux/src/sound.cpp). */
module SquareWave {
  import opened Bits

  /** The duty step at the i-th sample from now: the current one for rc more samples, and then one after the other,
      for cf samples each.
   */
  function Duty(dc: nat, rc: nat, cf: nat, i: nat): nat
    requires cf > 0
  {
    if i < rc then dc else (dc + 1 + (i - rc) / cf) % 8
  }

  /** How many samples the duty step at the i-th sample has still got. */
  function Rest(rc: nat, cf: nat, i: nat): nat
    requires cf > 0
  {
    if i < rc then rc - i else cf - (i - rc) % cf
  }

  lemma NextSample(dc: nat, rc: nat, cf: nat, i: nat)
    requires cf > 0 && rc > 0 && dc < 8
    ensures Rest(rc, cf, i) > 0 && Duty(dc, rc, cf, i) < 8
    ensures Rest(rc, cf, i) > 1 ==>
              Rest(rc, cf, i + 1) == Rest(rc, cf, i) - 1 && Duty(dc, rc, cf, i + 1) == Duty(dc, rc, cf, i)
    ensures Rest(rc, cf, i) == 1 ==>
              Rest(rc, cf, i + 1) == cf && Duty(dc, rc, cf, i + 1) == (Duty(dc, rc, cf, i) + 1) % 8
  {
    hide Duty, Rest;
    if i < rc {
      FirstStep(dc, rc, cf, i);
      if i + 1 < rc {
        FirstStep(dc, rc, cf, i + 1);
      } else {
        DivModUnique(0, cf, 0, 0);
        LaterStep(dc, rc, cf, i + 1, 0, 0);
      }
    } else {
      var q, r := (i - rc) / cf, (i - rc) % cf;
      DivModOf(i - rc, cf);
      LaterStep(dc, rc, cf, i, q, r);
      if r + 1 < cf {
        LaterStep(dc, rc, cf, i + 1, q, r + 1);
      } else {
        SumTimes(q, 1, cf);
        LaterStep(dc, rc, cf, i + 1, q + 1, 0);
        EighthStep(dc + 1 + q);
      }
    }
  }

  lemma FirstStep(dc: nat, rc: nat, cf: nat, i: nat)
    requires cf > 0 && i < rc
    ensures Duty(dc, rc, cf, i) == dc && Rest(rc, cf, i) == rc - i
  {
  }

  /** In the duty step number q after the first one. */
  lemma LaterStep(dc: nat, rc: nat, cf: nat, i: nat, q: nat, r: nat)
    requires cf > 0 && i >= rc && i - rc == q * cf + r && r < cf
    ensures Duty(dc, rc, cf, i) == (dc + 1 + q) % 8 && Rest(rc, cf, i) == cf - r
  {
    DivModUnique(i - rc, cf, q, r);
  }

  lemma EighthStep(x: nat)
    ensures (x + 1) % 8 == (x % 8 + 1) % 8
  {
    var q, r := x / 8, x % 8;
    SameModulo(x + 1, r + 1, q, 8);
  }

  /** Duty step and rest after n samples lead on as they would have without a break. */
  lemma {:induction false} Continues(dc: nat, rc: nat, cf: nat, n: nat, i: nat)
    requires cf > 0 && rc > 0 && dc < 8
    ensures Rest(rc, cf, n) > 0 && Duty(dc, rc, cf, n) < 8
    ensures Duty(Duty(dc, rc, cf, n), Rest(rc, cf, n), cf, i) == Duty(dc, rc, cf, n + i)
    ensures Rest(Rest(rc, cf, n), cf, i) == Rest(rc, cf, n + i)
  {
    hide Duty, Rest;
    NextSample(dc, rc, cf, n);
    if i == 0 {
      NowIs(Duty(dc, rc, cf, n), Rest(rc, cf, n), cf);
    } else {
      Continues(dc, rc, cf, n, i - 1);
      NextSample(dc, rc, cf, n + i - 1);
      NextSample(Duty(dc, rc, cf, n), Rest(rc, cf, n), cf, i - 1);
    }
  }

  lemma NowIs(dc: nat, rc: nat, cf: nat)
    requires cf > 0 && rc > 0
    ensures Duty(dc, rc, cf, 0) == dc && Rest(rc, cf, 0) == rc
  {
  }

  // ---------- the registers ----------

  /** What a channel is set to: its frequency, the first two bytes of its registers, its length counter, its envelope,
      and the volume from the settings.
   */
  datatype Registers = Registers(curfreq: nat, psg0: byte, psg1: byte, length: nat, mode: nat, speed: nat,
                                 decvolume: nat, volume: nat)

  type byte = x: int | 0 <= x < 256

  /** Bit 3 of the sweep byte negates; otherwise the swept frequency must not have its bit 11 set. */
  predicate CheckFreq(cf: nat, sr: byte) {
    sr / 8 % 2 == 1 || (Swept(cf, sr % 8) + cf) / 0x800 % 2 == 0
  }

  function Swept(cf: nat, shift: nat): nat {
    SweptIsSmaller(cf, shift);
    cf / Pow2(shift)
  }

  lemma SweptIsSmaller(cf: nat, shift: nat)
    ensures 0 <= cf / Pow2(shift) <= cf
  {
    DivModOf(cf, Pow2(shift));
    MulGrows(cf / Pow2(shift), Pow2(shift));
  }

  /** Whether anything is heard: the frequency and the target of its sweep fit in 11 bits, and the note goes on. */
  predicate IsAudible(r: Registers) {
    8 <= r.curfreq <= 0x7FF && CheckFreq(r.curfreq, r.psg1) && r.length > 0
  }

  /** For an 11-bit frequency the bit test is a comparison. */
  lemma AudibleMeans(r: Registers)
    ensures IsAudible(r) <==>
            && 8 <= r.curfreq <= 0x7FF && r.length > 0
            && (r.psg1 / 8 % 2 == 1 || r.curfreq + Swept(r.curfreq, r.psg1 % 8) <= 0x7FF)
  {
    hide Pow2;
    if r.curfreq <= 0x7FF {
      var target := Swept(r.curfreq, r.psg1 % 8) + r.curfreq;
      SweptIsSmaller(r.curfreq, r.psg1 % 8);
      var top := if target < 0x800 then 0 else 1;
      DivModUnique(target, 0x800, top, target - top * 0x800);
    }
  }

  /** Constant volume or the envelope, scaled by the settings, in the high byte. */
  function Amplitude(r: Registers): nat {
    var amp := if r.mode % 2 == 1 then r.speed else r.decvolume;
    (if r.volume != 256 then amp * r.volume / 256 else amp) * 0x100_0000
  }

  /** At full volume the scaling is the identity. */
  lemma AmplitudeIsScaled(r: Registers)
    ensures Amplitude(r) == (if r.mode % 2 == 1 then r.speed else r.decvolume) * r.volume / 256 * 0x100_0000
  {
  }

  /** RectDuties */
  function Threshold(r: Registers): nat {
    [1, 2, 4, 6][r.psg0 / 64]
  }

  // ---------- a full period ----------

  /** How many of the first n samples are high. */
  function High(dc: nat, rc: nat, cf: nat, threshold: nat, n: nat): nat
    requires cf > 0
  {
    if n == 0 then 0
    else High(dc, rc, cf, threshold, n - 1) + if Duty(dc, rc, cf, n - 1) < threshold then 1 else 0
  }

  lemma {:induction false} HighIsCount(dc: nat, rc: nat, cf: nat, threshold: nat, n: nat)
    requires cf > 0
    ensures High(dc, rc, cf, threshold, n) == |set i: nat | i < n && Duty(dc, rc, cf, i) < threshold|
  {
    hide Duty;
    if n > 0 {
      HighIsCount(dc, rc, cf, threshold, n - 1);
      var before := set i: nat | i < n - 1 && Duty(dc, rc, cf, i) < threshold;
      var all := set i: nat | i < n && Duty(dc, rc, cf, i) < threshold;
      if Duty(dc, rc, cf, n - 1) < threshold {
        assert all == before + {n - 1};
      } else {
        assert all == before;
      }
    }
  }

  /** Over samples of one duty step all are high or none. */
  lemma {:induction false} HighInStep(dc: nat, rc: nat, cf: nat, threshold: nat, n: nat, m: nat, duty: nat)
    requires cf > 0 && forall i | n <= i < n + m :: Duty(dc, rc, cf, i) == duty
    ensures High(dc, rc, cf, threshold, n + m) == High(dc, rc, cf, threshold, n) + if duty < threshold then m else 0
  {
    hide Duty;
    if m > 0 {
      HighInStep(dc, rc, cf, threshold, n, m - 1, duty);
    }
  }

  /** The samples of the whole step number q after the first one. */
  lemma HighInLaterStep(dc: nat, rc: nat, cf: nat, threshold: nat, q: nat)
    requires cf > 0 && q < 7
    ensures High(dc, rc, cf, threshold, rc + (q + 1) * cf) ==
            High(dc, rc, cf, threshold, rc + q * cf) + Below(dc, threshold, q + 1) * cf
  {
    forall i | rc + q * cf <= i < rc + q * cf + cf
      ensures Duty(dc, rc, cf, i) == (dc + 1 + q) % 8
    {
      LaterStep(dc, rc, cf, i, q, i - rc - q * cf);
    }
    hide Duty;
    HighInStep(dc, rc, cf, threshold, rc + q * cf, cf, (dc + 1 + q) % 8);
    assert rc + (q + 1) * cf == rc + q * cf + cf;
  }

  /** Wherever a period of eight duty steps starts, as many eighths of it are high as the threshold says. */
  lemma PeriodIsHigh(dc: nat, rc: nat, cf: nat, threshold: nat)
    requires 0 < rc <= cf && dc < 8 && threshold <= 8
    ensures |set i: nat | i < 8 * cf && Duty(dc, rc, cf, i) < threshold| == threshold * cf
  {
    hide *;
    HighIsCount(dc, rc, cf, threshold, 8 * cf);
    NoHigh(dc, rc, cf, threshold);
    OwnStep(dc, rc, cf);
    HighInStep(dc, rc, cf, threshold, 0, rc, dc);
    HighInSteps(dc, rc, cf, threshold);
    HighInStep(dc, rc, cf, threshold, rc + 7 * cf, cf - rc, dc);
    assert (threshold - 1) * cf == threshold * cf - cf;
  }

  /** The step that the period starts in, before and after the seven others. */
  lemma OwnStep(dc: nat, rc: nat, cf: nat)
    requires 0 < rc <= cf && dc < 8
    ensures forall i | 0 <= i < rc :: Duty(dc, rc, cf, i) == dc
    ensures forall i | rc + 7 * cf <= i < 8 * cf :: Duty(dc, rc, cf, i) == dc
  {
    forall i | rc + 7 * cf <= i < 8 * cf
      ensures Duty(dc, rc, cf, i) == dc
    {
      LaterStep(dc, rc, cf, i, 7, i - rc - 7 * cf);
    }
  }

  lemma NoHigh(dc: nat, rc: nat, cf: nat, threshold: nat)
    requires cf > 0
    ensures High(dc, rc, cf, threshold, 0) == 0
  {
  }

  /** The seven whole steps after the first one: of all eight, as many are high as the threshold says. */
  lemma HighInSteps(dc: nat, rc: nat, cf: nat, threshold: nat)
    requires cf > 0 && dc < 8 && threshold <= 8
    ensures High(dc, rc, cf, threshold, rc + 7 * cf) - High(dc, rc, cf, threshold, rc) ==
            (threshold - if dc < threshold then 1 else 0) * cf
  {
    hide *;
    HighInLaterStep(dc, rc, cf, threshold, 0);
    HighInLaterStep(dc, rc, cf, threshold, 1);
    HighInLaterStep(dc, rc, cf, threshold, 2);
    HighInLaterStep(dc, rc, cf, threshold, 3);
    HighInLaterStep(dc, rc, cf, threshold, 4);
    HighInLaterStep(dc, rc, cf, threshold, 5);
    HighInLaterStep(dc, rc, cf, threshold, 6);
    FirstEighth(dc, threshold);
    EighthsBelow(dc, threshold);
    SumOfSeven(Below(dc, threshold, 1), Below(dc, threshold, 2), Below(dc, threshold, 3), Below(dc, threshold, 4),
               Below(dc, threshold, 5), Below(dc, threshold, 6), Below(dc, threshold, 7), cf,
               threshold - if dc < threshold then 1 else 0);
  }

  /** Whether the k-th step after the step dc is below the threshold, as a number. */
  function Below(dc: nat, threshold: nat, k: nat): nat {
    if (dc + k) % 8 < threshold then 1 else 0
  }

  lemma FirstEighth(dc: nat, threshold: nat)
    requires dc < 8
    ensures Below(dc, threshold, 0) == if dc < threshold then 1 else 0
  {
  }

  lemma SumOfSeven(a: nat, b: nat, c: nat, d: nat, e: nat, f: nat, g: nat, cf: nat, n: int)
    requires a + b + c + d + e + f + g == n
    ensures a * cf + b * cf + c * cf + d * cf + e * cf + f * cf + g * cf == n * cf
  {
  }

  lemma EighthsBelow(dc: nat, threshold: nat)
    requires dc < 8 && threshold <= 8
    ensures Below(dc, threshold, 0) + Below(dc, threshold, 1) + Below(dc, threshold, 2) + Below(dc, threshold, 3) +
            Below(dc, threshold, 4) + Below(dc, threshold, 5) + Below(dc, threshold, 6) + Below(dc, threshold, 7) ==
            threshold
  {
    if dc == 0 {
    } else if dc == 1 {
    } else if dc == 2 {
    } else if dc == 3 {
    } else if dc == 4 {
    } else if dc == 5 {
    } else if dc == 6 {
    } else {
      assert dc == 7;
    }
  }

  /** The four settings of the register sound for an eighth, a quarter, a half and three quarters of the period. */
  lemma ShareOfPeriod(r: Registers, dc: nat, rc: nat)
    requires 0 < rc <= (r.curfreq + 1) * 2 && dc < 8
    ensures var cf := (r.curfreq + 1) * 2;
            8 * |set i: nat | i < 8 * cf && Duty(dc, rc, cf, i) < Threshold(r)| ==
            8 * cf * (if r.psg0 < 64 then 1 else if r.psg0 < 128 then 2 else if r.psg0 < 192 then 4 else 6)
  {
    hide Duty;
    PeriodIsHigh(dc, rc, (r.curfreq + 1) * 2, Threshold(r));
  }

  class Square {
    var dutyCount: nat
    var wlCount: nat
    var bc: nat

    constructor ()
      ensures Valid() && bc == 0
    {
      dutyCount, wlCount, bc := 0, 2048, 0;
    }

    predicate Valid()
      reads this
    {
      dutyCount < 8 && wlCount > 0
    }

    /** RDoSQ: renders the samples from bc up to ts; nothing is heard if the frequency or the length counter forbid
        it.
     */
    method Render(wave: array<int>, ts: nat, r: Registers)
      requires Valid() && bc <= ts <= wave.Length
      modifies this, wave
      ensures Valid() && bc == ts
      ensures !IsAudible(r) ==> wave[..] == old(wave[..]) && dutyCount == old(dutyCount) && wlCount == old(wlCount)
      ensures var cf := (r.curfreq + 1) * 2;
              IsAudible(r) ==>
                && dutyCount == Duty(old(dutyCount), old(wlCount), cf, ts - old(bc))
                && wlCount == Rest(old(wlCount), cf, ts - old(bc))
                && (forall i | 0 <= i < wave.Length ::
                      wave[i] == old(wave[i]) +
                                 if old(bc) <= i < ts
                                    && Duty(old(dutyCount), old(wlCount), cf, i - old(bc)) < Threshold(r)
                                 then Amplitude(r) else 0)
    {
      hide Duty, Rest, CheckFreq;
      if r.curfreq < 8 || r.curfreq > 0x7FF || !CheckFreq(r.curfreq, r.psg1) || r.length == 0 {
        bc := ts;
        return;
      }
      var amp := if r.mode % 2 == 1 then r.speed else r.decvolume;
      if r.volume != 256 {
        amp := amp * r.volume / 256;
      }
      amp := amp * 0x100_0000;
      var rthresh := [1, 2, 4, 6][r.psg0 / 64];
      assert amp == Amplitude(r) && rthresh == Threshold(r);
      hide Amplitude, Threshold;
      Oscillate(wave, ts, (r.curfreq + 1) * 2, amp, rthresh);
    }

    /** The loop of RDoSQ. */
    method Oscillate(wave: array<int>, ts: nat, cf: nat, amp: int, rthresh: nat)
      requires Valid() && bc <= ts <= wave.Length && cf > 0
      modifies this, wave
      ensures Valid() && bc == ts
      ensures dutyCount == Duty(old(dutyCount), old(wlCount), cf, ts - old(bc))
      ensures wlCount == Rest(old(wlCount), cf, ts - old(bc))
      ensures forall i | 0 <= i < wave.Length ::
                wave[i] == old(wave[i]) +
                           if old(bc) <= i < ts && Duty(old(dutyCount), old(wlCount), cf, i - old(bc)) < rthresh
                           then amp else 0
    {
      hide Duty, Rest;
      var d, v := bc, ts - bc;
      var currdc, rc := dutyCount, wlCount;
      NowIs(currdc, rc, cf);
      while v > 0
        invariant 0 <= v && d == ts - v && bc == old(bc) && bc <= d && Valid()
        invariant dutyCount == old(dutyCount) && wlCount == old(wlCount)
        invariant currdc == Duty(dutyCount, wlCount, cf, d - bc) && rc == Rest(wlCount, cf, d - bc)
        invariant forall i | 0 <= i < wave.Length ::
                    wave[i] == old(wave[i]) +
                               if bc <= i < d && Duty(dutyCount, wlCount, cf, i - bc) < rthresh then amp else 0
      {
        NextSample(dutyCount, wlCount, cf, d - bc);
        if currdc < rthresh {
          wave[d] := wave[d] + amp;
        }
        rc := rc - 1;
        if rc == 0 {
          rc := cf;
          currdc := (currdc + 1) % 8;
        }
        v := v - 1;
        d := d + 1;
      }
      NextSample(dutyCount, wlCount, cf, ts - bc);
      dutyCount := currdc;
      wlCount := rc;
      bc := ts;
    }
  }

  /** A frame that is rendered in two parts, with unchanged registers, sounds as if it had been rendered at once. */
  method RenderInParts(parts: Square, whole: Square, wave: array<int>, wave': array<int>, mid: nat, ts: nat,
                       r: Registers)
    requires parts.Valid() && parts != whole && wave != wave' && parts.bc <= mid <= ts <= wave.Length == wave'.Length
    requires whole.dutyCount == parts.dutyCount && whole.wlCount == parts.wlCount && whole.bc == parts.bc
    requires wave[..] == wave'[..]
    modifies parts, whole, wave, wave'
    ensures wave[..] == wave'[..]
    ensures parts.dutyCount == whole.dutyCount && parts.wlCount == whole.wlCount && parts.bc == whole.bc == ts
  {
    hide Duty, Rest, IsAudible, Amplitude, Threshold;
    ghost var dc, rc, cf, bc := parts.dutyCount, parts.wlCount, (r.curfreq + 1) * 2, parts.bc;
    ghost var start := wave[..];
    SameStart(wave, wave');
    parts.Render(wave, mid, r);
    parts.Render(wave, ts, r);
    whole.Render(wave', ts, r);
    Continues(dc, rc, cf, mid - bc, ts - mid);
    forall i | 0 <= i < wave.Length
      ensures wave[i] == wave'[i]
    {
      if mid <= i < ts {
        Continues(dc, rc, cf, mid - bc, i - mid);
      }
    }
  }

  lemma SameStart(wave: array<int>, wave': array<int>)
    requires wave[..] == wave'[..]
    ensures forall i | 0 <= i < wave.Length :: wave[i] == wave'[i]
  {
    assert forall i | 0 <= i < wave.Length :: wave[..][i] == wave'[..][i];
  }
}
