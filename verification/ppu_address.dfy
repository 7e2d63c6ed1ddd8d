/** The address registers of the picture processing unit (apps/fceux/src/ppu.cpp), which exist twice: packed into the
    words TempAddr and RefreshAddr, and as the counters of PPUREGS. A mask selects a field of bits, so that a mask and a
    shift are written as a quotient and a remainder.
 */
module PpuAddress {
  import opened Bits

  type byte = x: int | 0 <= x < 256

  /** The field of size values that starts at the bit of weight lo. */
  function Field(x: nat, lo: nat, size: nat): nat
    requires lo > 0 && size > 0
  {
    x / lo % size
  }

  /** A word with a field set to zero, as by a mask with a hole. */
  function Cleared(x: nat, lo: nat, size: nat): int
    requires lo > 0 && size > 0
  {
    x - Field(x, lo, size) * lo
  }

  /** FV:V:H:VT:HT as one 15-bit address. */
  function Pack(fv: nat, v: nat, h: nat, vt: nat, ht: nat): nat {
    0x1000 * fv + 0x800 * v + 0x400 * h + 0x20 * vt + ht
  }

  predicate AreCounters(fv: nat, v: nat, h: nat, vt: nat, ht: nat) {
    fv < 8 && v < 2 && h < 2 && vt < 32 && ht < 32
  }

  lemma FieldIs(x: nat, lo: nat, size: nat, above: nat, field: nat, below: nat)
    requires lo > 0 && x == (above * size + field) * lo + below && field < size && below < lo
    ensures Field(x, lo, size) == field
  {
    DivModUnique(x, lo, above * size + field, below);
    DivModUnique(above * size + field, size, above, field);
  }

  /** The fields of a word with any number of bits above bit 14. */
  lemma FieldsOf(x: nat, fv: nat, v: nat, h: nat, vt: nat, ht: nat)
    requires AreCounters(fv, v, h, vt, ht) && x % 0x8000 == Pack(fv, v, h, vt, ht)
    ensures Field(x, 0x1000, 8) == fv && Field(x, 0x800, 2) == v && Field(x, 0x400, 2) == h
    ensures Field(x, 0x20, 32) == vt && Field(x, 1, 32) == ht && Field(x, 0x400, 4) == 2 * v + h
  {
    hide Field;
    var k := x / 0x8000;
    FieldIs(x, 0x1000, 8, k, fv, Pack(0, v, h, vt, ht));
    FieldIs(x, 0x800, 2, 8 * k + fv, v, Pack(0, 0, h, vt, ht));
    FieldIs(x, 0x400, 2, 16 * k + 2 * fv + v, h, Pack(0, 0, 0, vt, ht));
    FieldIs(x, 0x400, 4, 8 * k + fv, 2 * v + h, Pack(0, 0, 0, vt, ht));
    FieldIs(x, 0x20, 32, 32 * k + 4 * fv + 2 * v + h, vt, ht);
    FieldIs(x, 1, 32, 1024 * k + 128 * fv + 64 * v + 32 * h + vt, ht, 0);
  }

  /** The next line of the picture: row and fine row count the lines 0 to 255 together; after line 239 the next name
      table begins, after line 255 the same one.
   */
  function NextLine(x: nat): nat
    requires x < 0x8000
  {
    var line := 8 * Field(x, 0x20, 32) + Field(x, 0x1000, 8);
    var v := Field(x, 0x800, 2);
    var line' := if line == 239 || line == 255 then 0 else line + 1;
    Pack(line' % 8, if line == 239 then 1 - v else v, Field(x, 0x400, 2), line' / 8, Field(x, 1, 32))
  }

  lemma NextLineIs(fv: nat, v: nat, h: nat, vt: nat, ht: nat)
    requires AreCounters(fv, v, h, vt, ht)
    ensures Pack(fv, v, h, vt, ht) < 0x8000 && fv < 8 && v < 2 && h < 2 && vt < 32 && ht < 32
    ensures fv < 7 ==> AreCounters(fv + 1, v, h, vt, ht)
    ensures AreCounters(0, 1 - v, h, 0, ht) && AreCounters(0, v, h, 0, ht)
    ensures vt != 31 ==> AreCounters(0, v, h, vt + 1, ht)
    ensures NextLine(Pack(fv, v, h, vt, ht)) ==
            (if fv < 7 then Pack(fv + 1, v, h, vt, ht)
             else if vt == 29 then Pack(0, 1 - v, h, 0, ht)
             else if vt == 31 then Pack(0, v, h, 0, ht)
             else Pack(0, v, h, vt + 1, ht))
  {
    hide Field;
    SmallMod(Pack(fv, v, h, vt, ht), 0x8000);
    FieldsOf(Pack(fv, v, h, vt, ht), fv, v, h, vt, ht);
    if fv < 7 {
      DivModUnique(8 * vt + fv + 1, 8, vt, fv + 1);
    } else if vt == 29 || vt == 31 {
      DivModUnique(0, 8, 0, 0);
    } else {
      DivModUnique(8 * vt + fv + 1, 8, vt + 1, 0);
    }
  }

  /** The carries of increment_vs. */
  lemma LineStep(fv: nat, v: nat, vt: nat)
    requires fv < 8 && v < 2 && vt < 32
    ensures (fv + 1) / 8 == if fv == 7 then 1 else 0
    ensures (fv + 1) % 8 == if fv == 7 then 0 else fv + 1
    ensures vt % 32 == vt && (vt + 1) % 32 == if vt == 31 then 0 else vt + 1
    ensures v % 2 == v && (v + 1) % 2 == 1 - v
  {
    DivModUnique(fv + 1, 8, if fv == 7 then 1 else 0, if fv == 7 then 0 else fv + 1);
    DivModUnique(vt + 1, 32, if vt == 31 then 1 else 0, if vt == 31 then 0 else vt + 1);
  }

  /** A counter of size n that has been clocked once: its carry, and its value. */
  lemma Clocked(x: nat, n: nat)
    requires 0 < n && x <= n
    ensures 0 <= x / n <= 1 && x % n == x - x / n * n && x % n < n && (n == 2 ==> x / n % 2 == x / n)
    ensures x / n % 2 == x / n
  {
    DivModUnique(x, n, if x == n then 1 else 0, if x == n then 0 else x);
  }

  /** Five counters that have been clocked with the carries c0 to c4. */
  lemma ChainSum(fv: nat, v: nat, h: nat, vt: nat, ht: nat, by32: bool, c0: nat, c1: nat, c2: nat, c3: nat, c4: nat,
      fv': nat, v': nat, h': nat, vt': nat, ht': nat)
    requires AreCounters(fv', v', h', vt', ht')
    requires ht' + 32 * c0 == ht + (if by32 then 0 else 1) && vt' + 32 * c1 == vt + (if by32 then 1 else c0)
    requires by32 ==> c0 == 0
    requires h' + 2 * c2 == h + c1 && v' + 2 * c3 == v + c2 && fv' + 8 * c4 == fv + c3
    ensures Pack(fv', v', h', vt', ht') == (Pack(fv, v, h, vt, ht) + if by32 then 32 else 1) % 0x8000
  {
    DivModUnique(Pack(fv, v, h, vt, ht) + if by32 then 32 else 1, 0x8000, c4, Pack(fv', v', h', vt', ht'));
  }

  lemma Ranges(fv: nat, v: nat, h: nat, vt: nat, ht: nat)
    ensures AreCounters(fv, v, h, vt, ht) <==> fv < 8 && v < 2 && h < 2 && vt < 32 && ht < 32
  {
  }

  /** PPUREGS: the clocked counters, and the latches that writes go to. */
  class PpuRegs {
    var fv: nat
    var v: nat
    var h: nat
    var vt: nat
    var ht: nat
    var latchFv: nat
    var latchV: nat
    var latchH: nat
    var latchVt: nat
    var latchHt: nat
    var fh: nat

    constructor ()
      ensures IsValid() && fh == 0
      ensures Pack(fv, v, h, vt, ht) == Pack(latchFv, latchV, latchH, latchVt, latchHt) == 0
    {
      fv, v, h, vt, ht := 0, 0, 0, 0, 0;
      latchFv, latchV, latchH, latchVt, latchHt, fh := 0, 0, 0, 0, 0, 0;
    }

    /** Every counter and every latch is in its range. */
    predicate IsValid()
      reads this
    {
      AreCounters(fv, v, h, vt, ht) && AreCounters(latchFv, latchV, latchH, latchVt, latchHt)
    }

    method InstallLatches()
      requires IsValid()
      modifies `fv, `v, `h, `vt, `ht
      ensures IsValid() && Pack(fv, v, h, vt, ht) == Pack(latchFv, latchV, latchH, latchVt, latchHt)
    {
      fv := latchFv;
      v := latchV;
      h := latchH;
      vt := latchVt;
      ht := latchHt;
    }

    method InstallHLatches()
      requires IsValid()
      modifies `ht, `h
      ensures IsValid() && ht == latchHt && h == latchH
    {
      ht := latchHt;
      h := latchH;
    }

    /** The line counter steps to the next line, as NextLine says. */
    method IncrementVs()
      requires AreCounters(fv, v, h, vt, ht)
      modifies `fv, `vt, `v
      ensures AreCounters(fv, v, h, vt, ht) && old(Pack(fv, v, h, vt, ht)) < 0x8000
      ensures Pack(fv, v, h, vt, ht) == NextLine(old(Pack(fv, v, h, vt, ht)))
    {
      hide *;
      NextLineIs(fv, v, h, vt, ht);
      LineStep(fv, v, vt);
      fv := fv + 1;
      var fvOverflow := fv / 8;
      vt := vt + fvOverflow;
      vt := vt % 32;
      if vt == 30 && fvOverflow == 1 {
        v := v + 1;
        vt := 0;
      }
      fv := fv % 8;
      v := v % 2;
    }

    /** increment_hsc: the horizontal scroll counter, of six bits */
    method IncrementHsc()
      requires AreCounters(fv, v, h, vt, ht)
      modifies `h, `ht
      ensures AreCounters(fv, v, h, vt, ht) && old(Pack(fv, v, h, vt, ht)) < 0x8000
      ensures Pack(fv, v, h, vt, ht) == NextTile(old(Pack(fv, v, h, vt, ht)))
    {
      hide *;
      NextTileIs(fv, v, h, vt, ht);
      ht := ht + 1;
      Clocked(ht, 32);
      h := h + ht / 32;
      Clocked(h, 2);
      ht := ht % 32;
      h := h % 2;
    }

    /** get_2007access */
    function Access2007(): nat
      reads this
    {
      0x1000 * (fv % 4) + 0x800 * v + 0x400 * h + 0x20 * vt + ht
    }

    /** Off the picture the counters are one 15-bit counter, clocked at HT or at VT. */
    method Increment2007(rendering: bool, by32: bool)
      requires AreCounters(fv, v, h, vt, ht)
      modifies `fv, `v, `h, `vt, `ht
      ensures AreCounters(fv, v, h, vt, ht) && old(Pack(fv, v, h, vt, ht)) < 0x8000
      ensures Pack(fv, v, h, vt, ht) == if rendering then NextLine(old(Pack(fv, v, h, vt, ht)))
                            else (old(Pack(fv, v, h, vt, ht)) + if by32 then 32 else 1) % 0x8000
    {
      hide *;
      NextLineIs(fv, v, h, vt, ht);
      if rendering {
        IncrementVs();
        return;
      }
      ClockCounters(by32);
    }

    /** increment2007 off the picture: the carry out of each counter clocks the next. */
    method ClockCounters(by32: bool)
      requires AreCounters(fv, v, h, vt, ht)
      modifies `fv, `v, `h, `vt, `ht
      ensures AreCounters(fv, v, h, vt, ht)
      ensures Pack(fv, v, h, vt, ht) == (old(Pack(fv, v, h, vt, ht)) + if by32 then 32 else 1) % 0x8000
    {
      hide *;
      ghost var fv0, v0, h0, vt0, ht0 := fv, v, h, vt, ht;
      Ranges(fv, v, h, vt, ht);
      if by32 {
        vt := vt + 1;
      } else {
        ht := ht + 1;
        Clocked(ht, 32);
        vt := vt + ht / 32 % 2;
      }
      Clocked(ht, 32);
      Clocked(vt, 32);
      ghost var c0, c1 := ht / 32, vt / 32;
      h := h + vt / 32;
      Clocked(h, 2);
      ghost var c2 := h / 2;
      v := v + h / 2;
      Clocked(v, 2);
      ghost var c3 := v / 2;
      fv := fv + v / 2;
      Clocked(fv, 8);
      ghost var c4 := fv / 8;
      ht := ht % 32;
      vt := vt % 32;
      h := h % 2;
      v := v % 2;
      fv := fv % 8;
      Ranges(fv, v, h, vt, ht);
      ChainSum(fv0, v0, h0, vt0, ht0, by32, c0, c1, c2, c3, c4, fv, v, h, vt, ht);
    }
  }

  // ---------- the packed words ----------

  /** A word with counters in its low 15 bits. */
  lemma WordIs(x: nat, k: nat, fv: nat, v: nat, h: nat, vt: nat, ht: nat)
    requires AreCounters(fv, v, h, vt, ht) && x == 0x8000 * k + Pack(fv, v, h, vt, ht)
    ensures x % 0x8000 == Pack(fv, v, h, vt, ht)
    ensures Field(x, 0x1000, 8) == fv && Field(x, 0x800, 2) == v && Field(x, 0x400, 2) == h
    ensures Field(x, 0x20, 32) == vt && Field(x, 1, 32) == ht && Field(x, 0x400, 4) == 2 * v + h
    ensures Cleared(x, 0x1000, 8) == 0x8000 * k + Pack(0, v, h, vt, ht)
    ensures Cleared(x, 0x20, 32) == 0x8000 * k + Pack(fv, v, h, 0, ht)
    ensures Cleared(x, 0x400, 2) == 0x8000 * k + Pack(fv, v, 0, vt, ht)
    ensures Cleared(x, 1, 32) == 0x8000 * k + Pack(fv, v, h, vt, 0)
    ensures x + 0x1000 == 0x8000 * k + Pack(fv + 1, v, h, vt, ht)
    ensures x + 0x20 == 0x8000 * k + Pack(fv, v, h, vt + 1, ht)
    ensures (if v == 1 then x - 0x800 else x + 0x800) == 0x8000 * k + Pack(fv, 1 - v, h, vt, ht)
    ensures AreCounters(0, v, h, vt, ht) && AreCounters(fv, v, h, 0, ht) && AreCounters(fv, 1 - v, h, vt, ht)
    ensures fv != 7 ==> AreCounters(fv + 1, v, h, vt, ht)
    ensures vt != 31 ==> AreCounters(fv, v, h, vt + 1, ht)
    ensures k < 0x20000 ==> x + 0x1000 < 0x1_0000_0000 || fv == 7
    ensures k < 0x20000 ==> x + 0x20 < 0x1_0000_0000 || vt == 31
    ensures k < 0x20000 ==> x + 0x800 < 0x1_0000_0000 || v == 1
    ensures 0 <= Cleared(x, 0x1000, 8) <= x && 0 <= Cleared(x, 0x20, 32) <= x && (v == 1 ==> x >= 0x800)
  {
    DivModUnique(x, 0x8000, k, Pack(fv, v, h, vt, ht));
    hide Field;
    FieldsOf(x, fv, v, h, vt, ht);
  }

  /** Every word is one. */
  lemma SplitWord(x: nat)
    ensures var k, fv, v, h, vt, ht :=
              x / 0x8000, Field(x, 0x1000, 8), Field(x, 0x800, 2), Field(x, 0x400, 2), Field(x, 0x20, 32),
              Field(x, 1, 32);
            AreCounters(fv, v, h, vt, ht) && x == 0x8000 * k + Pack(fv, v, h, vt, ht)
    ensures x < 0x1_0000_0000 ==> x / 0x8000 < 0x20000
  {
    hide Field;
    var q5, ht := x / 32, x % 32;
    var q10, vt := q5 / 32, q5 % 32;
    var q11, h := q10 / 2, q10 % 2;
    var q12, v := q11 / 2, q11 % 2;
    var k, fv := q12 / 8, q12 % 8;
    assert x == 32 * q5 + ht && q5 == 32 * q10 + vt && q10 == 2 * q11 + h && q11 == 2 * q12 + v && q12 == 8 * k + fv;
    JoinedWord(x, k, fv, v, h, vt, ht);
  }

  lemma JoinedWord(x: nat, k: nat, fv: nat, v: nat, h: nat, vt: nat, ht: nat)
    requires AreCounters(fv, v, h, vt, ht)
    requires x == 32 * (32 * (2 * (2 * (8 * k + fv) + v) + h) + vt) + ht
    ensures x == 0x8000 * k + Pack(fv, v, h, vt, ht) && x / 0x8000 == k
    ensures Field(x, 0x1000, 8) == fv && Field(x, 0x800, 2) == v && Field(x, 0x400, 2) == h
    ensures Field(x, 0x20, 32) == vt && Field(x, 1, 32) == ht
    ensures x < 0x1_0000_0000 ==> k < 0x20000
  {
    hide Field;
    DivModUnique(x, 0x8000, k, Pack(fv, v, h, vt, ht));
    FieldsOf(x, fv, v, h, vt, ht);
  }

  lemma SmallPowers()
    ensures Pow2(2) == 4 && Pow2(3) == 8 && Pow2(5) == 32 && Pow2(11) == 0x800 && Pow2(12) == 0x1000
  {
    Pow2Of4();
    Pow2Step(5);
    Pow2Add(4, 4);
    Pow2Add(8, 4);
    Pow2Step(12);
  }

  /** x & mask for a mask of j ones above k zeroes is the field there. */
  lemma AndField(x: nat, k: nat, j: nat, p: nat, ones: nat)
    requires p == Pow2(k) > 0 && ones == Pow2(j) - 1
    ensures And(x, Joined(ones, p, 0)) == Joined(Field(x, p, ones + 1), p, 0)
  {
    hide And, Pow2;
    var above, below := x / p, x % p;
    DivModOf(x, p);
    AndParts(above, ones, below, 0, k);
    AndZero(below);
    AndMask(above, j);
  }

  lemma AndZero(a: nat)
    ensures And(a, 0) == 0
  {
  }

  /** The masks of the source. */
  lemma MasksAre(x: nat)
    ensures And(x, 0x7000) == Field(x, 0x1000, 8) * 0x1000
    ensures And(x, 0x3E0) == Field(x, 0x20, 32) * 0x20
    ensures And(x, 0x1F) == Field(x, 1, 32)
  {
    hide And, Field, Pow2;
    SmallPowers();
    PowerOfZero();
    AndField(x, 12, 3, 0x1000, 7);
    AndField(x, 5, 5, 0x20, 31);
    AndField(x, 0, 5, 1, 31);
  }

  lemma PowerOfZero()
    ensures Pow2(0) == 1
  {
  }

  /** A field is xored by a mask that has it and nothing else, or nothing of it. */
  lemma XorAt(above: nat, mask: nat, below: nat, mask0: nat, k: nat)
    requires below < Pow2(k) && mask0 < Pow2(k) && (mask0 == 0 || mask0 == below)
    ensures Xor(Joined(above, Pow2(k), below), Joined(mask, Pow2(k), mask0)) ==
            Joined(Xor(above, mask), Pow2(k), if mask0 == 0 then below else 0)
  {
    hide Xor, Pow2, Joined;
    XorParts(above, mask, below, mask0, k);
    XorZero(below);
    XorSelf(below);
  }

  /** rad ^= 0x7000 clears the fine row if all its bits are set. */
  lemma FineRowXor(x: nat, k: nat, v: nat, h: nat, vt: nat, ht: nat)
    requires AreCounters(7, v, h, vt, ht) && x == 0x8000 * k + Pack(7, v, h, vt, ht)
    ensures Xor(x, 0x7000) == 0x8000 * k + Pack(0, v, h, vt, ht)
  {
    hide Xor, Pow2;
    SmallPowers();
    var low := Pack(0, v, h, vt, ht);
    XorAt(8 * k + 7, 7, low, 0, 12);
    XorAt(k, 0, 7, 7, 3);
    XorZero(k);
  }

  /** rad ^= 0x3e0 clears a row of 31. */
  lemma RowXor(x: nat, k: nat, fv: nat, v: nat, h: nat, ht: nat)
    requires AreCounters(fv, v, h, 31, ht) && x == 0x8000 * k + Pack(fv, v, h, 31, ht)
    ensures Xor(x, 0x3E0) == 0x8000 * k + Pack(fv, v, h, 0, ht)
  {
    hide Xor, Pow2;
    SmallPowers();
    var y := 32 * k + 4 * fv + 2 * v + h;
    XorAt(32 * y + 31, 31, ht, 0, 5);
    XorAt(y, 0, 31, 31, 5);
    XorZero(y);
  }

  /** rad ^= 0xBA0 clears a row of 29 and changes the name table. */
  lemma LastRowXor(x: nat, k: nat, fv: nat, v: nat, h: nat, ht: nat)
    requires AreCounters(fv, v, h, 29, ht) && x == 0x8000 * k + Pack(fv, v, h, 29, ht)
    ensures Xor(x, 0xBA0) == 0x8000 * k + Pack(fv, 1 - v, h, 0, ht)
  {
    hide Xor, Pow2;
    SmallPowers();
    var y := 32 * k + 4 * fv + 2 * v + h;
    XorAt(32 * y + 29, 93, ht, 0, 5);
    XorAt(y, 2, 29, 29, 5);
    NameTableXor(8 * k + fv, v, h);
  }

  lemma NameTableXor(z: nat, v: nat, h: nat)
    requires v < 2 && h < 2
    ensures Xor(4 * z + 2 * v + h, 2) == 4 * z + 2 * (1 - v) + h
    ensures Xor(2 * v + h, 1) == 2 * v + (1 - h)
  {
    hide Xor, Pow2;
    SmallPowers();
    XorParts(z, 0, 2 * v + h, 2, 2);
    XorZero(z);
    SmallXors();
  }

  lemma SmallXors()
    ensures Xor(0, 2) == 2 && Xor(1, 2) == 3 && Xor(2, 2) == 0 && Xor(3, 2) == 1
    ensures Xor(0, 1) == 1 && Xor(1, 1) == 0 && Xor(2, 1) == 3 && Xor(3, 1) == 2
  {
  }

  /** RefreshAddr ^= 0x41F clears a column of 31 and changes the name table next to it. */
  lemma LastColumnXor(x: nat, k: nat, fv: nat, v: nat, h: nat, vt: nat)
    requires AreCounters(fv, v, h, vt, 31) && x == 0x8000 * k + Pack(fv, v, h, vt, 31)
    ensures Xor(x, 0x41F) == 0x8000 * k + Pack(fv, v, 1 - h, vt, 0)
  {
    hide Xor, Pow2;
    SmallPowers();
    var y := 32 * k + 4 * fv + 2 * v + h;
    XorAt(32 * y + vt, 32, 31, 31, 5);
    XorAt(y, 1, vt, 0, 5);
    XorParts(8 * k + fv, 0, 2 * v + h, 1, 2);
    XorZero(8 * k + fv);
    NameTableXor(0, v, h);
  }

  /** RefreshAddr with the step to the next line: the body that Fixit1 and reads of $2007 share. */
  method StepLine(rad: u32) returns (r: u32)
    ensures r % 0x8000 == NextLine(rad % 0x8000)
  {
    hide *;
    ghost var k, fv, v, h, vt, ht :=
      rad / 0x8000, Field(rad, 0x1000, 8), Field(rad, 0x800, 2), Field(rad, 0x400, 2), Field(rad, 0x20, 32),
      Field(rad, 1, 32);
    SplitWord(rad);
    WordIs(rad, k, fv, v, h, vt, ht);
    NextLineIs(fv, v, h, vt, ht);
    MasksAre(rad);
    if And(rad, 0x7000) == 0x7000 {
      FineRowXor(rad, k, v, h, vt, ht);
      r := Xor(rad, 0x7000);
      WordIs(r, k, 0, v, h, vt, ht);
      MasksAre(r);
      if And(r, 0x3E0) == 0x3A0 {
        LastRowXor(r, k, 0, v, h, ht);
        WordIs(Xor(r, 0xBA0), k, 0, 1 - v, h, 0, ht);
        r := Xor(r, 0xBA0);
      } else if And(r, 0x3E0) == 0x3E0 {
        RowXor(r, k, 0, v, h, ht);
        r := Xor(r, 0x3E0);
        WordIs(r, k, 0, v, h, 0, ht);
      } else {
        r := r + 0x20;
        WordIs(r, k, 0, v, h, vt + 1, ht);
      }
    } else {
      r := rad + 0x1000;
      WordIs(r, k, fv + 1, v, h, vt, ht);
    }
  }

  /** Name table and column as one counter of six bits, one step on. */
  function NextTable(h: nat, ht: nat): nat {
    (32 * h + ht + 1) / 32 % 2
  }

  function NextColumn(h: nat, ht: nat): nat {
    (32 * h + ht + 1) % 32
  }

  /** The next tile of a line: the column counts on into the name table next to it. */
  function NextTile(x: nat): nat
    requires x < 0x8000
  {
    var h, ht := Field(x, 0x400, 2), Field(x, 1, 32);
    Pack(Field(x, 0x1000, 8), Field(x, 0x800, 2), NextTable(h, ht), Field(x, 0x20, 32), NextColumn(h, ht))
  }

  lemma NextTileIs(fv: nat, v: nat, h: nat, vt: nat, ht: nat)
    requires AreCounters(fv, v, h, vt, ht)
    ensures Pack(fv, v, h, vt, ht) < 0x8000 && h < 2 && ht < 32
    ensures AreCounters(fv, v, 1 - h, vt, 0) && (ht < 31 ==> AreCounters(fv, v, h, vt, ht + 1))
    ensures NextTile(Pack(fv, v, h, vt, ht)) ==
            if ht < 31 then Pack(fv, v, h, vt, ht + 1) else Pack(fv, v, 1 - h, vt, 0)
  {
    WordFits(0, fv, v, h, vt, ht);
    hide Field, Pack, NextTable, NextColumn;
    SmallMod(Pack(fv, v, h, vt, ht), 0x8000);
    FieldsOf(Pack(fv, v, h, vt, ht), fv, v, h, vt, ht);
    NextColumnIs(h, ht);
  }

  lemma NextColumnIs(h: nat, ht: nat)
    requires h < 2 && ht < 32
    ensures NextTable(h, ht) == (if ht < 31 then h else 1 - h) && NextColumn(h, ht) == (if ht < 31 then ht + 1 else 0)
  {
    if ht < 31 {
      DivModUnique(32 * h + ht + 1, 32, h, ht + 1);
      SmallMod(h, 2);
    } else {
      DivModUnique(32 * h + ht + 1, 32, h + 1, 0);
      DivModUnique(h + 1, 2, if h == 1 then 1 else 0, 1 - h);
    }
  }

  /** RefreshAddr after a tile (pputile.inc). */
  method StepTile(rad: u32) returns (r: u32)
    ensures r % 0x8000 == NextTile(rad % 0x8000)
  {
    hide *;
    ghost var k, fv, v, h, vt, ht :=
      rad / 0x8000, Field(rad, 0x1000, 8), Field(rad, 0x800, 2), Field(rad, 0x400, 2), Field(rad, 0x20, 32),
      Field(rad, 1, 32);
    SplitWord(rad);
    WordIs(rad, k, fv, v, h, vt, ht);
    NextTileIs(fv, v, h, vt, ht);
    MasksAre(rad);
    if And(rad, 0x1F) == 0x1F {
      LastColumnXor(rad, k, fv, v, h, vt);
      WordFits(k, fv, v, 1 - h, vt, 0);
      r := Xor(rad, 0x41F);
      WordIs(r, k, fv, v, 1 - h, vt, 0);
    } else {
      WordFits(k, fv, v, h, vt, ht + 1);
      r := rad + 1;
      WordIs(r, k, fv, v, h, vt, ht + 1);
    }
  }

  lemma WordFits(k: nat, fv: nat, v: nat, h: nat, vt: nat, ht: nat)
    requires AreCounters(fv, v, h, vt, ht)
    ensures Pack(fv, v, h, vt, ht) < 0x8000 && (k < 0x20000 ==> 0x8000 * k + Pack(fv, v, h, vt, ht) < 0x1_0000_0000)
    ensures ht > 0 ==> Pack(fv, v, h, vt, ht) == Pack(fv, v, h, vt, ht - 1) + 1
  {
  }

  // ---------- writes to the latches ----------

  lemma NameTableWritten(fv: nat, v: nat, h: nat, vt: nat, ht: nat, value: byte)
    requires AreCounters(fv, v, h, vt, ht)
    ensures AreCounters(fv, value / 2 % 2, value % 2, vt, ht)
    ensures Cleared(Pack(fv, v, h, vt, ht), 0x400, 4) + value % 4 * 0x400 == Pack(fv, value / 2 % 2, value % 2, vt, ht)
  {
    hide Field;
    TwoBits(value);
    SmallMod(Pack(fv, v, h, vt, ht), 0x8000);
    FieldsOf(Pack(fv, v, h, vt, ht), fv, v, h, vt, ht);
  }

  lemma TwoBits(value: byte)
    ensures value % 4 == 2 * (value / 2 % 2) + value % 2 && value / 2 % 2 < 2 && value % 2 < 2
  {
  }

  lemma ScrollXWritten(fv: nat, v: nat, h: nat, vt: nat, ht: nat, value: byte)
    requires AreCounters(fv, v, h, vt, ht)
    ensures AreCounters(fv, v, h, vt, value / 8)
    ensures Cleared(Pack(fv, v, h, vt, ht), 1, 32) + value / 8 == Pack(fv, v, h, vt, value / 8)
  {
    hide Field;
    SmallMod(Pack(fv, v, h, vt, ht), 0x8000);
    FieldsOf(Pack(fv, v, h, vt, ht), fv, v, h, vt, ht);
  }

  lemma ScrollYWritten(fv: nat, v: nat, h: nat, vt: nat, ht: nat, value: byte)
    requires AreCounters(fv, v, h, vt, ht)
    ensures AreCounters(value % 8, v, h, value / 8, ht)
    ensures Cleared(Pack(fv, v, h, vt, ht), 0x20, 32) >= 0
    ensures Cleared(Cleared(Pack(fv, v, h, vt, ht), 0x20, 32), 0x1000, 8) + value / 8 * 0x20 + value % 8 * 0x1000 ==
            Pack(value % 8, v, h, value / 8, ht)
  {
    var q, r := value / 8, value % 8;
    ScrollYCleared(fv, v, h, vt, ht);
    hide Cleared;
  }

  lemma ScrollYCleared(fv: nat, v: nat, h: nat, vt: nat, ht: nat)
    requires AreCounters(fv, v, h, vt, ht)
    ensures Cleared(Pack(fv, v, h, vt, ht), 0x20, 32) == Pack(fv, v, h, 0, ht)
    ensures Cleared(Pack(fv, v, h, 0, ht), 0x1000, 8) == Pack(0, v, h, 0, ht)
  {
    hide Field;
    SmallMod(Pack(fv, v, h, vt, ht), 0x8000);
    SmallMod(Pack(fv, v, h, 0, ht), 0x8000);
    FieldsOf(Pack(fv, v, h, vt, ht), fv, v, h, vt, ht);
    FieldsOf(Pack(fv, v, h, 0, ht), fv, v, h, 0, ht);
  }

  lemma HighWritten(fv: nat, v: nat, h: nat, vt: nat, ht: nat, value: byte)
    requires AreCounters(fv, v, h, vt, ht)
    ensures AreCounters(value / 16 % 4, value / 8 % 2, value / 4 % 2, vt % 8 + value % 4 * 8, ht)
    ensures Pack(fv, v, h, vt, ht) % 256 + value % 64 * 256 ==
            Pack(value / 16 % 4, value / 8 % 2, value / 4 % 2, vt % 8 + value % 4 * 8, ht)
  {
    SixBits(value);
    LowByte(fv, v, h, vt, ht);
    ThreeBits(vt);
  }

  lemma SixBits(value: byte)
    ensures value % 64 == 16 * (value / 16 % 4) + 8 * (value / 8 % 2) + 4 * (value / 4 % 2) + value % 4
    ensures value / 16 % 4 < 4 && value / 8 % 2 < 2 && value / 4 % 2 < 2 && value % 4 < 4
  {
    var q4, r, b, c := value / 4, value % 4, value / 4 % 2, value / 4 / 2 % 2;
    var q8 := q4 / 2;
    var q16 := q8 / 2;
    assert value == 4 * q4 + r && q4 == 2 * q8 + b && q8 == 2 * q16 + c;
    SixBitsOf(value, q16, c, b, r);
  }

  lemma SixBitsOf(value: nat, q: nat, c: nat, b: nat, r: nat)
    requires value == 16 * q + 8 * c + 4 * b + r && c < 2 && b < 2 && r < 4
    ensures value / 16 == q && value / 8 % 2 == c && value / 4 % 2 == b && value % 4 == r
    ensures value % 64 == 16 * (q % 4) + 8 * c + 4 * b + r
  {
    DivModUnique(value, 16, q, 8 * c + 4 * b + r);
    FieldIs(value, 8, 2, q, c, 4 * b + r);
    FieldIs(value, 4, 2, 2 * q + c, b, r);
    DivModUnique(value, 4, 4 * q + 2 * c + b, r);
    DivModUnique(value, 64, q / 4, 16 * (q % 4) + 8 * c + 4 * b + r);
  }

  lemma ThreeBits(vt: nat)
    requires vt < 32
    ensures vt % 8 < 8
  {
  }

  lemma LowByte(fv: nat, v: nat, h: nat, vt: nat, ht: nat)
    requires AreCounters(fv, v, h, vt, ht)
    ensures Pack(fv, v, h, vt, ht) % 256 == 0x20 * (vt % 8) + ht
  {
    DivModUnique(Pack(fv, v, h, vt, ht), 256, 16 * fv + 8 * v + 4 * h + vt / 8, 0x20 * (vt % 8) + ht);
  }

  lemma LowWritten(fv: nat, v: nat, h: nat, vt: nat, ht: nat, value: byte)
    requires AreCounters(fv, v, h, vt, ht)
    ensures AreCounters(fv, v, h, vt / 8 * 8 + value / 32, value % 32)
    ensures Pack(fv, v, h, vt, ht) / 256 * 256 + value == Pack(fv, v, h, vt / 8 * 8 + value / 32, value % 32)
  {
    var x := Pack(fv, v, h, vt, ht);
    DivModUnique(x, 256, 16 * fv + 8 * v + 4 * h + vt / 8, 0x20 * (vt % 8) + ht);
  }

  // ---------- both forms side by side ----------

  /** What can happen to the address registers: the writes to $2000, $2005 and $2006, an access to $2007, and what the
      picture does after a tile, at the end of a line, at its start, and at the top.
   */
  datatype Event =
    | Write2000(value: byte)
    | Write2005(value: byte)
    | Write2006(value: byte)
    | Read2007(packedRendering: bool, rendering: bool, by32: bool)
    | Write2007(rendering: bool, by32: bool)
    | TileEnd
    | LineEnd
    | LineStart
    | PictureStart

  /** What a program can see of the registers: TempAddr, the 15 bits of RefreshAddr, the fine column, and which half of
      a double write comes next.
   */
  datatype Scroll = Scroll(temp: nat, refresh: nat, fineX: nat, second: bool)

  predicate IsScroll(s: Scroll) {
    s.temp < 0x8000 && s.refresh < 0x8000
  }

  /** The registers after an event, by the fields of the addresses: fine row, vertical and horizontal name table, row
      and column, from the top down.
   */
  function After(s: Scroll, event: Event): Scroll
    requires IsScroll(s)
  {
    var t, r := s.temp, s.refresh;
    match event
    case Write2000(value) => s.(temp := t / 0x1000 * 0x1000 + value % 4 * 0x400 + t % 0x400)
    case Write2005(value) =>
      if s.second then
        s.(temp := value % 8 * 0x1000 + t / 0x400 % 4 * 0x400 + value / 8 * 0x20 + t % 0x20, second := false)
      else s.(temp := t / 0x20 * 0x20 + value / 8, fineX := value % 8, second := true)
    case Write2006(value) =>
      if s.second then s.(temp := t / 256 * 256 + value, refresh := t / 256 * 256 + value, second := false)
      else s.(temp := value % 64 * 256 + t % 256, second := true)
    case Read2007(packedRendering, _, by32) =>
      s.(refresh := if packedRendering then NextLine(r) else (r + if by32 then 32 else 1) % 0x8000)
    case Write2007(_, by32) => s.(refresh := (r + if by32 then 32 else 1) % 0x8000)
    case TileEnd => s.(refresh := NextTile(r))
    case LineEnd => s.(refresh := NextLine(r))
    case LineStart =>
      s.(refresh := r / 0x800 * 0x800 + t / 0x400 % 2 * 0x400 + r / 0x20 % 0x20 * 0x20 + t % 0x20)
    case PictureStart => s.(refresh := t)
  }

  /** The fields of a packed address by quotients and remainders. */
  lemma PartsOf(fv: nat, v: nat, h: nat, vt: nat, ht: nat)
    requires AreCounters(fv, v, h, vt, ht)
    ensures var x := Pack(fv, v, h, vt, ht);
            && x < 0x8000 && x % 0x20 == ht && x / 0x20 == 128 * fv + 64 * v + 32 * h + vt && x / 0x20 % 0x20 == vt
            && x % 0x400 == 0x20 * vt + ht && x / 0x400 % 4 == 2 * v + h && x / 0x400 % 2 == h
            && x / 0x800 == 2 * fv + v && x / 0x1000 == fv && x / 0x800 % 2 == v
  {
    var x := Pack(fv, v, h, vt, ht);
    DivModUnique(x, 0x20, 128 * fv + 64 * v + 32 * h + vt, ht);
    DivModUnique(128 * fv + 64 * v + 32 * h + vt, 0x20, 4 * fv + 2 * v + h, vt);
    DivModUnique(x, 0x400, 4 * fv + 2 * v + h, 0x20 * vt + ht);
    DivModUnique(4 * fv + 2 * v + h, 4, fv, 2 * v + h);
    DivModUnique(4 * fv + 2 * v + h, 2, 2 * fv + v, h);
    DivModUnique(x, 0x800, 2 * fv + v, 0x400 * h + 0x20 * vt + ht);
    DivModUnique(2 * fv + v, 2, fv, v);
    DivModUnique(x, 0x1000, fv, 0x800 * v + 0x400 * h + 0x20 * vt + ht);
  }

  class Ppu {
    var tempAddr: nat
    var refreshAddr: u32
    var xOffset: nat
    var vtoggle: bool
    const ppur: PpuRegs

    constructor ()
      ensures Agree() && !vtoggle && fresh(ppur)
    {
      tempAddr, refreshAddr, xOffset, vtoggle := 0, 0, 0, false;
      ppur := new PpuRegs();
    }

    /** Packing PPUREGS gives the packed words, of which RefreshAddr may count past 15 bits. */
    ghost predicate Agree()
      reads `tempAddr, `refreshAddr, `xOffset, ppur
    {
      && ppur.IsValid()
      && refreshAddr % 0x8000 == Pack(ppur.fv, ppur.v, ppur.h, ppur.vt, ppur.ht)
      && tempAddr == Pack(ppur.latchFv, ppur.latchV, ppur.latchH, ppur.latchVt, ppur.latchHt)
      && xOffset == ppur.fh
    }

    function State(): Scroll
      reads `tempAddr, `refreshAddr, `xOffset, `vtoggle
    {
      Scroll(tempAddr, refreshAddr % 0x8000, xOffset, vtoggle)
    }

    /** Addresses that agree are in range. */
    lemma StateFits()
      requires Agree()
      ensures IsScroll(State())
    {
      LatchesFit();
    }

    method B2000(value: byte)
      requires Agree()
      modifies `tempAddr, ppur
      ensures Agree() && old(IsScroll(State())) && State() == After(old(State()), Write2000(value))
      ensures Field(tempAddr, 0x400, 4) == value % 4 && Cleared(tempAddr, 0x400, 4) == old(Cleared(tempAddr, 0x400, 4))
    {
      hide Field, Cleared, Pack;
      PartsOf(ppur.latchFv, ppur.latchV, ppur.latchH, ppur.latchVt, ppur.latchHt);
      NameTableIs(ppur.latchFv, ppur.latchV, ppur.latchH, ppur.latchVt, ppur.latchHt, value);
      NameTableWritten(ppur.latchFv, ppur.latchV, ppur.latchH, ppur.latchVt, ppur.latchHt, value);
      NameTableField(tempAddr, value % 4);
      tempAddr := Cleared(tempAddr, 0x400, 4) + value % 4 * 0x400;
      ppur.latchH := value % 2;
      ppur.latchV := value / 2 % 2;
    }

    /** The first write sets the column and the fine column, the second the row and the fine row. */
    method B2005(value: byte)
      requires Agree()
      modifies `tempAddr, `xOffset, `vtoggle, ppur
      ensures Agree() && old(IsScroll(State())) && State() == After(old(State()), Write2005(value))
      ensures vtoggle == !old(vtoggle) && Field(tempAddr, 0x400, 4) == old(Field(tempAddr, 0x400, 4))
      ensures Field(tempAddr, 0x20, 32) == if old(vtoggle) then value / 8 else old(Field(tempAddr, 0x20, 32))
      ensures Field(tempAddr, 0x1000, 8) == if old(vtoggle) then value % 8 else old(Field(tempAddr, 0x1000, 8))
      ensures Field(tempAddr, 1, 32) == if old(vtoggle) then old(Field(tempAddr, 1, 32)) else value / 8
      ensures xOffset == if old(vtoggle) then old(xOffset) else value % 8
    {
      hide Field, Cleared, Pack;
      LatchFields();
      PartsOf(ppur.latchFv, ppur.latchV, ppur.latchH, ppur.latchVt, ppur.latchHt);
      ScrollIs(ppur.latchFv, ppur.latchV, ppur.latchH, ppur.latchVt, ppur.latchHt, value);
      var tmp := tempAddr;
      if !vtoggle {
        ScrollXWritten(ppur.latchFv, ppur.latchV, ppur.latchH, ppur.latchVt, ppur.latchHt, value);
        tmp := Cleared(tmp, 1, 32) + value / 8;
        xOffset := value % 8;
        ppur.latchHt := value / 8;
        ppur.fh := value % 8;
      } else {
        ScrollYWritten(ppur.latchFv, ppur.latchV, ppur.latchH, ppur.latchVt, ppur.latchHt, value);
        tmp := Cleared(Cleared(tmp, 0x20, 32), 0x1000, 8);
        tmp := tmp + value / 8 * 0x20;
        tmp := tmp + value % 8 * 0x1000;
        ppur.latchVt := value / 8;
        ppur.latchFv := value % 8;
      }
      tempAddr := tmp;
      vtoggle := !vtoggle;
      LatchFields();
    }

    /** The first write sets the high byte, without its two top bits; the second sets the low byte, and the address is
        taken over.
     */
    method B2006(value: byte)
      requires Agree()
      modifies this, ppur
      ensures Agree() && old(IsScroll(State())) && State() == After(old(State()), Write2006(value))
      ensures vtoggle == !old(vtoggle)
      ensures if old(vtoggle) then tempAddr == old(tempAddr) / 256 * 256 + value && refreshAddr == tempAddr
              else tempAddr == old(tempAddr) % 256 + value % 64 * 256 && refreshAddr == old(refreshAddr)
    {
      hide Agree;
      StateFits();
      if !vtoggle {
        WriteHigh(value);
      } else {
        WriteLow(value);
        TakeOver();
        TempIs();
      }
      vtoggle := !vtoggle;
    }

    lemma TempIs()
      requires Agree()
      ensures tempAddr < 0x8000 && tempAddr % 0x8000 == tempAddr
    {
      LatchesFit();
    }

    /** The first half of a write to $2006 */
    method WriteHigh(value: byte)
      requires Agree()
      modifies `tempAddr, ppur`latchFv, ppur`latchV, ppur`latchH, ppur`latchVt
      ensures Agree() && tempAddr == old(tempAddr) % 256 + value % 64 * 256
    {
      hide Field, Cleared, Pack;
      HighWritten(ppur.latchFv, ppur.latchV, ppur.latchH, ppur.latchVt, ppur.latchHt, value);
      tempAddr := tempAddr % 256;
      tempAddr := tempAddr + value % 64 * 256;
      ppur.latchVt := ppur.latchVt % 8;
      ppur.latchVt := ppur.latchVt + value % 4 * 8;
      ppur.latchH := value / 4 % 2;
      ppur.latchV := value / 8 % 2;
      ppur.latchFv := value / 16 % 4;
    }

    /** The second half of a write to $2006, before the address is taken over. */
    method WriteLow(value: byte)
      requires Agree()
      modifies `tempAddr, ppur`latchVt, ppur`latchHt
      ensures Agree() && tempAddr == old(tempAddr) / 256 * 256 + value
    {
      hide Field, Cleared, Pack;
      LowWritten(ppur.latchFv, ppur.latchV, ppur.latchH, ppur.latchVt, ppur.latchHt, value);
      tempAddr := tempAddr / 256 * 256;
      tempAddr := tempAddr + value;
      ppur.latchVt := ppur.latchVt / 8 * 8;
      ppur.latchVt := ppur.latchVt + value / 32;
      ppur.latchHt := value % 32;
    }

    /** RefreshAddr = TempAddr against install_latches: a write to $2006, and the top of the picture */
    method TakeOver()
      requires Agree()
      modifies `refreshAddr, ppur
      ensures Agree() && old(IsScroll(State())) && State() == After(old(State()), PictureStart)
      ensures refreshAddr == tempAddr
    {
      hide Field, Cleared, Pack;
      StateFits();
      LatchesFit();
      refreshAddr := tempAddr;
      ppur.InstallLatches();
    }

    /** The step to the next tile against increment_hsc */
    method EndTile()
      requires Agree()
      modifies `refreshAddr, ppur
      ensures Agree() && old(IsScroll(State())) && State() == After(old(State()), TileEnd)
      ensures refreshAddr % 0x8000 == NextTile(old(refreshAddr) % 0x8000)
    {
      hide Field, Cleared, Pack, NextTile;
      StateFits();
      refreshAddr := StepTile(refreshAddr);
      ppur.IncrementHsc();
    }

    /** Fixit1 against increment_vs, while the picture is on */
    method EndLine()
      requires Agree()
      modifies `refreshAddr, ppur
      ensures Agree() && old(IsScroll(State())) && State() == After(old(State()), LineEnd)
      ensures refreshAddr % 0x8000 == NextLine(old(refreshAddr) % 0x8000)
    {
      hide Field, Cleared, Pack, NextLine;
      StateFits();
      refreshAddr := StepLine(refreshAddr);
      ppur.IncrementVs();
    }

    /** Fixit2 against install_h_latches, while the picture is on: H and HT are reloaded. */
    method StartLine()
      requires Agree()
      modifies `refreshAddr, ppur
      ensures Agree() && old(IsScroll(State())) && State() == After(old(State()), LineStart)
      ensures Field(refreshAddr, 1, 32) == Field(tempAddr, 1, 32)
      ensures Field(refreshAddr, 0x400, 2) == Field(tempAddr, 0x400, 2)
      ensures Field(refreshAddr, 0x20, 32) == old(Field(refreshAddr, 0x20, 32))
      ensures Field(refreshAddr, 0x800, 2) == old(Field(refreshAddr, 0x800, 2))
      ensures Field(refreshAddr, 0x1000, 8) == old(Field(refreshAddr, 0x1000, 8))
    {
      hide Field, Cleared, Pack;
      StateFits();
      LatchFields();
      CounterFields();
      PartsOf(ppur.fv, ppur.v, ppur.h, ppur.vt, ppur.ht);
      PartsOf(ppur.latchFv, ppur.latchV, ppur.latchH, ppur.latchVt, ppur.latchHt);
      LineIs(ppur.fv, ppur.v, ppur.latchH, ppur.vt, ppur.latchHt);
      Reloaded(refreshAddr, ppur.fv, ppur.v, ppur.h, ppur.vt, ppur.ht, ppur.latchH, ppur.latchHt);
      var rad: nat := refreshAddr % 0x10000;
      rad := Cleared(Cleared(rad, 0x400, 2), 1, 32);
      rad := rad + Field(tempAddr, 0x400, 2) * 0x400 + Field(tempAddr, 1, 32);
      refreshAddr := rad;
      ppur.InstallHLatches();
      CounterFields();
    }

    /** A read of $2007. Each form decides for itself whether a picture is being drawn, the packed one by scanline <
        240, the counters by 0 <= sl < 241; they keep up with each other exactly if both decide alike.
     */
    method A2007(packedRendering: bool, rendering: bool, by32: bool)
      requires Agree()
      modifies `refreshAddr, ppur
      ensures Agree() <==> packedRendering == rendering
      ensures old(IsScroll(State())) && State() == After(old(State()), Read2007(packedRendering, rendering, by32))
      ensures refreshAddr % 0x8000 == if packedRendering then NextLine(old(refreshAddr) % 0x8000)
                                      else (old(refreshAddr) + if by32 then 32 else 1) % 0x8000
    {
      hide Field, Cleared, Pack, NextLine;
      StateFits();
      NextLineIsFar(ppur.fv, ppur.v, ppur.h, ppur.vt, ppur.ht, by32);
      AddedBelow(refreshAddr, if by32 then 32 else 1);
      if packedRendering {
        refreshAddr := StepLine(refreshAddr);
      } else {
        refreshAddr := (refreshAddr + if by32 then 32 else 1) % TWO32;
      }
      ppur.Increment2007(rendering, by32);
    }

    /** A write of $2007: the packed form does not look whether a picture is being drawn, and keeps up exactly if none
        is.
     */
    method B2007(rendering: bool, by32: bool)
      requires Agree()
      modifies `refreshAddr, ppur
      ensures Agree() <==> !rendering
      ensures old(IsScroll(State())) && State() == After(old(State()), Write2007(rendering, by32))
      ensures refreshAddr % 0x8000 == (old(refreshAddr) + if by32 then 32 else 1) % 0x8000
    {
      hide Field, Cleared, Pack, NextLine;
      StateFits();
      AddedBelow(refreshAddr, if by32 then 32 else 1);
      NextLineIsFar(ppur.fv, ppur.v, ppur.h, ppur.vt, ppur.ht, by32);
      refreshAddr := (refreshAddr + if by32 then 32 else 1) % TWO32;
      ppur.Increment2007(rendering, by32);
    }

    /** get_2007access is RefreshAddr cut to the 14 bits of the bus. */
    lemma AccessAgrees()
      requires Agree()
      ensures ppur.Access2007() == refreshAddr % 0x4000
      ensures 0x2000 + 0x800 * ppur.v + 0x400 * ppur.h + 0x20 * ppur.vt + ppur.ht == 0x2000 + refreshAddr % 0x1000
    {
      LowBits(refreshAddr, ppur.fv, ppur.v, ppur.h, ppur.vt, ppur.ht);
    }

    /** The attribute byte that get_atread fetches is the one that the tile fetch takes from the packed word. */
    lemma AttributeAgrees()
      requires Agree()
      ensures var zz := refreshAddr / 4 % 256;
              0x3C0 + zz % 8 + zz / 4 / 8 * 8 == 0x3C0 + ppur.vt / 4 * 8 + ppur.ht / 4
    {
      AttributeIs(refreshAddr, ppur.fv, ppur.v, ppur.h, ppur.vt, ppur.ht);
    }

    lemma CounterFields()
      requires Agree()
      ensures Field(refreshAddr, 0x20, 32) == ppur.vt && Field(refreshAddr, 0x1000, 8) == ppur.fv
      ensures Field(refreshAddr, 1, 32) == ppur.ht && Field(refreshAddr, 0x400, 2) == ppur.h
      ensures Field(refreshAddr, 0x800, 2) == ppur.v
    {
      hide Field;
      FieldsOf(refreshAddr, ppur.fv, ppur.v, ppur.h, ppur.vt, ppur.ht);
    }

    lemma LatchFields()
      requires Agree()
      ensures Field(tempAddr, 0x20, 32) == ppur.latchVt && Field(tempAddr, 0x1000, 8) == ppur.latchFv
      ensures Field(tempAddr, 1, 32) == ppur.latchHt && Field(tempAddr, 0x400, 4) == 2 * ppur.latchV + ppur.latchH
      ensures Field(tempAddr, 0x400, 2) == ppur.latchH
    {
      hide Field;
      LatchesFit();
      FieldsOf(tempAddr, ppur.latchFv, ppur.latchV, ppur.latchH, ppur.latchVt, ppur.latchHt);
    }

    lemma LatchesFit()
      requires AreCounters(ppur.latchFv, ppur.latchV, ppur.latchH, ppur.latchVt, ppur.latchHt)
      ensures var x := Pack(ppur.latchFv, ppur.latchV, ppur.latchH, ppur.latchVt, ppur.latchHt);
              x < 0x8000 && x % 0x8000 == x
    {
      SmallMod(Pack(ppur.latchFv, ppur.latchV, ppur.latchH, ppur.latchVt, ppur.latchHt), 0x8000);
    }
  }

  lemma NameTableIs(fv: nat, v: nat, h: nat, vt: nat, ht: nat, value: byte)
    ensures Pack(fv, value / 2 % 2, value % 2, vt, ht) == fv * 0x1000 + value % 4 * 0x400 + (0x20 * vt + ht)
  {
    TwoBits(value);
  }

  lemma ScrollIs(fv: nat, v: nat, h: nat, vt: nat, ht: nat, value: byte)
    ensures Pack(fv, v, h, vt, value / 8) == 0x20 * (128 * fv + 64 * v + 32 * h + vt) + value / 8
    ensures Pack(value % 8, v, h, value / 8, ht) ==
            value % 8 * 0x1000 + (2 * v + h) * 0x400 + value / 8 * 0x20 + ht
  {
  }

  lemma LineIs(fv: nat, v: nat, h: nat, vt: nat, ht: nat)
    ensures Pack(fv, v, h, vt, ht) == (2 * fv + v) * 0x800 + h * 0x400 + vt * 0x20 + ht
  {
  }

  lemma NameTableField(x: nat, field: nat)
    requires field < 4
    ensures Cleared(x, 0x400, 4) >= 0
    ensures Field(Cleared(x, 0x400, 4) + field * 0x400, 0x400, 4) == field
    ensures Cleared(Cleared(x, 0x400, 4) + field * 0x400, 0x400, 4) == Cleared(x, 0x400, 4)
  {
    var q, below := x / 0x400, x % 0x400;
    var above, before := q / 4, q % 4;
    assert x == 0x400 * q + below && q == 4 * above + before;
    hide Field;
    NameTableParts(x, above, before, below, field);
  }

  lemma NameTableParts(x: nat, above: nat, before: nat, below: nat, field: nat)
    requires x == 0x400 * (4 * above + before) + below && before < 4 && field < 4 && below < 0x400
    ensures Cleared(x, 0x400, 4) == 0x1000 * above + below
    ensures Field(0x1000 * above + below + field * 0x400, 0x400, 4) == field
  {
    hide Field;
    FieldIs(x, 0x400, 4, above, before, below);
    FieldIs(0x1000 * above + below + field * 0x400, 0x400, 4, above, field, below);
  }

  lemma Reloaded(x: u32, fv: nat, v: nat, h: nat, vt: nat, ht: nat, h': nat, ht': nat)
    requires AreCounters(fv, v, h, vt, ht) && h' < 2 && ht' < 32 && x % 0x8000 == Pack(fv, v, h, vt, ht)
    ensures Cleared(x % 0x10000, 0x400, 2) >= 0 && Cleared(Cleared(x % 0x10000, 0x400, 2), 1, 32) >= 0
    ensures var rad := Cleared(Cleared(x % 0x10000, 0x400, 2), 1, 32) + h' * 0x400 + ht';
            0 <= rad < TWO32 && rad % 0x8000 == Pack(fv, v, h', vt, ht')
    ensures AreCounters(fv, v, h', vt, ht')
  {
    hide Field, Cleared;
    HalfWord(x);
    var y := x % 0x10000;
    var k := y / 0x8000;
    ReloadedHalf(y, k, fv, v, h, vt, ht, h', ht');
  }

  lemma ReloadedHalf(y: nat, k: nat, fv: nat, v: nat, h: nat, vt: nat, ht: nat, h': nat, ht': nat)
    requires AreCounters(fv, v, h, vt, ht) && h' < 2 && ht' < 32 && y == 0x8000 * k + Pack(fv, v, h, vt, ht) && k < 2
    ensures Cleared(y, 0x400, 2) >= 0 && Cleared(Cleared(y, 0x400, 2), 1, 32) >= 0
    ensures var rad := Cleared(Cleared(y, 0x400, 2), 1, 32) + h' * 0x400 + ht';
            0 <= rad < TWO32 && rad % 0x8000 == Pack(fv, v, h', vt, ht')
    ensures AreCounters(fv, v, h', vt, ht')
  {
    hide Field, Cleared;
    WordIs(y, k, fv, v, h, vt, ht);
    var y1 := Cleared(y, 0x400, 2);
    WordIs(y1, k, fv, v, 0, vt, ht);
    DivModUnique(0x8000 * k + Pack(fv, v, h', vt, ht'), 0x8000, k, Pack(fv, v, h', vt, ht'));
  }

  lemma HalfWord(x: nat)
    ensures x % 0x10000 % 0x8000 == x % 0x8000 && x % 0x10000 < 0x10000
    ensures x % 0x10000 == 0x8000 * (x % 0x10000 / 0x8000) + x % 0x8000 && x % 0x10000 / 0x8000 < 2
  {
    var q, y := x / 0x10000, x % 0x10000;
    SameModulo(x, y, 2 * q, 0x8000);
    var top := if y < 0x8000 then 0 else 1;
    DivModUnique(y, 0x8000, top, y - top * 0x8000);
  }

  lemma AddedBelow(x: u32, amount: nat)
    ensures (x + amount) % TWO32 % 0x8000 == (x + amount) % 0x8000 == (x % 0x8000 + amount) % 0x8000
  {
    var k, y := x / 0x8000, x % 0x8000;
    SameModulo(x + amount, y + amount, k, 0x8000);
    LowOfWord(x + amount);
  }

  lemma LowOfWord(x: nat)
    ensures x % TWO32 % 0x8000 == x % 0x8000
  {
    var q, y := x / TWO32, x % TWO32;
    SameModulo(x, y, 0x2_0000 * q, 0x8000);
  }

  lemma LowBits(x: nat, fv: nat, v: nat, h: nat, vt: nat, ht: nat)
    requires AreCounters(fv, v, h, vt, ht) && x % 0x8000 == Pack(fv, v, h, vt, ht)
    ensures x % 0x4000 == Pack(fv % 4, v, h, vt, ht) && x % 0x1000 == Pack(0, v, h, vt, ht)
  {
    var k := x / 0x8000;
    DivModUnique(x, 0x4000, 2 * k + fv / 4, Pack(fv % 4, v, h, vt, ht));
    DivModUnique(x, 0x1000, 8 * k + fv, Pack(0, v, h, vt, ht));
  }

  lemma AttributeIs(x: nat, fv: nat, v: nat, h: nat, vt: nat, ht: nat)
    requires AreCounters(fv, v, h, vt, ht) && x % 0x8000 == Pack(fv, v, h, vt, ht)
    ensures var zz := x / 4 % 256; zz % 8 == ht / 4 && zz / 4 / 8 == vt / 4
  {
    var k, q, r := x / 0x8000, ht / 4, ht % 4;
    var s, t := vt / 4, vt % 4;
    var above := 32 * k + 4 * fv + 2 * v + h;
    DivModUnique(x, 4, 256 * above + (8 * vt + q), r);
    DivModUnique(256 * above + (8 * vt + q), 256, above, 8 * vt + q);
    DivModUnique(8 * vt + q, 8, vt, q);
    DivModUnique(8 * vt + q, 4, 8 * s + 2 * t + q / 4, q % 4);
    DivModUnique(8 * s + 2 * t + q / 4, 8, s, 2 * t + q / 4);
  }

  /** A step to the next line is never a step of 1 or 32. */
  lemma NextLineIsFar(fv: nat, v: nat, h: nat, vt: nat, ht: nat, by32: bool)
    requires AreCounters(fv, v, h, vt, ht)
    ensures Pack(fv, v, h, vt, ht) < 0x8000
    ensures NextLine(Pack(fv, v, h, vt, ht)) != (Pack(fv, v, h, vt, ht) + if by32 then 32 else 1) % 0x8000
  {
    hide NextLine;
    NextLineIs(fv, v, h, vt, ht);
    var sum := Pack(fv, v, h, vt, ht) + if by32 then 32 else 1;
    SmallSum(sum);
  }

  lemma SmallSum(sum: nat)
    requires sum < 0x8000 + 0x8000
    ensures sum % 0x8000 == if sum < 0x8000 then sum else sum - 0x8000
  {
    var top := if sum < 0x8000 then 0 else 1;
    DivModUnique(sum, 0x8000, top, sum - top * 0x8000);
  }

  /** The event keeps both forms equal: an access to $2007 does if the two forms agree on whether a picture is drawn. */
  predicate IsCommon(event: Event) {
    match event
    case Read2007(packedRendering, rendering, _) => packedRendering == rendering
    case Write2007(rendering, _) => !rendering
    case _ => true
  }

  method Perform(ppu: Ppu, event: Event)
    requires ppu.Agree()
    modifies ppu, ppu.ppur
    ensures ppu.Agree() <==> IsCommon(event)
    ensures old(IsScroll(ppu.State())) && ppu.State() == After(old(ppu.State()), event)
  {
    hide After, Ppu.Agree, Ppu.State;
    match event
    case Write2000(value) => ppu.B2000(value);
    case Write2005(value) => ppu.B2005(value);
    case Write2006(value) => ppu.B2006(value);
    case Read2007(packedRendering, rendering, by32) => ppu.A2007(packedRendering, rendering, by32);
    case Write2007(rendering, by32) => ppu.B2007(rendering, by32);
    case TileEnd => ppu.EndTile();
    case LineEnd => ppu.EndLine();
    case LineStart => ppu.StartLine();
    case PictureStart => ppu.TakeOver();
  }

  /** The registers after a list of events. */
  function AfterAll(s: Scroll, events: seq<Event>): (t: Scroll)
    requires IsScroll(s)
    ensures IsScroll(t)
  {
    if events == [] then s
    else
      AfterFits(AfterAll(s, events[..|events| - 1]), events[|events| - 1]);
      After(AfterAll(s, events[..|events| - 1]), events[|events| - 1])
  }

  lemma AfterFits(s: Scroll, event: Event)
    requires IsScroll(s)
    ensures IsScroll(After(s, event))
  {
  }

  lemma AfterMore(s: Scroll, events: seq<Event>, n: nat)
    requires IsScroll(s) && n < |events|
    ensures AfterAll(s, events[..n + 1]) == After(AfterAll(s, events[..n]), events[n])
  {
    hide After;
    assert events[..n + 1][..n] == events[..n];
  }

  /** A run that goes on as long as the two forms agree: they agree after every prefix of the events, and so to the end,
      exactly if all events are common. The first that is not makes them differ. Up to it, and after it, the packed
      registers are those that the events say.
   */
  method Run(ppu: Ppu, events: seq<Event>) returns (n: nat)
    requires ppu.Agree()
    modifies ppu, ppu.ppur
    ensures n <= |events| && forall i | 0 <= i < n :: IsCommon(events[i])
    ensures n < |events| ==> !IsCommon(events[n]) && !ppu.Agree()
    ensures n == |events| ==> ppu.Agree()
    ensures old(IsScroll(ppu.State()))
    ensures ppu.State() == AfterAll(old(ppu.State()), events[..if n < |events| then n + 1 else n])
  {
    hide IsCommon, Ppu.Agree, Ppu.State, After, AfterAll;
    n := 0;
    ppu.StateFits();
    AfterNone(ppu.State(), events);
    while n < |events|
      invariant n <= |events| && ppu.Agree() && forall i | 0 <= i < n :: IsCommon(events[i])
      invariant ppu.State() == AfterAll(old(ppu.State()), events[..n])
    {
      AfterMore(old(ppu.State()), events, n);
      Perform(ppu, events[n]);
      if !IsCommon(events[n]) {
        return;
      }
      n := n + 1;
    }
  }

  lemma AfterNone(s: Scroll, events: seq<Event>)
    requires IsScroll(s)
    ensures AfterAll(s, events[..0]) == s
  {
  }

  // ---------- what lists of events do ----------

  /** An event n times. */
  function Times(event: Event, n: nat): seq<Event> {
    seq(n, _ => event)
  }

  lemma OnceMore(s: Scroll, event: Event, n: nat)
    requires IsScroll(s)
    ensures AfterAll(s, Times(event, 0)) == s
    ensures AfterAll(s, Times(event, n + 1)) == After(AfterAll(s, Times(event, n)), event)
  {
    hide After;
    assert Times(event, n + 1)[..n] == Times(event, n);
  }

  lemma AfterTwo(s: Scroll, first: Event, second: Event)
    requires IsScroll(s)
    ensures IsScroll(After(s, first)) && AfterAll(s, [first, second]) == After(After(s, first), second)
  {
    hide After;
    assert [first, second][..1] == [first] && [first][..0] == [];
    assert AfterAll(s, [first]) == After(AfterAll(s, []), first);
  }

  lemma {:induction false} AfterBoth(s: Scroll, first: seq<Event>, second: seq<Event>)
    requires IsScroll(s)
    ensures AfterAll(s, first + second) == AfterAll(AfterAll(s, first), second)
  {
    hide After;
    if second == [] {
      assert first + second == first;
    } else {
      var n := |second| - 1;
      assert (first + second)[..|first + second| - 1] == first + second[..n];
      AfterBoth(s, first, second[..n]);
    }
  }

  /** Every address has its fields. */
  lemma HasFields(x: nat) returns (fv: nat, v: nat, h: nat, vt: nat, ht: nat)
    requires x < 0x8000
    ensures AreCounters(fv, v, h, vt, ht) && x == Pack(fv, v, h, vt, ht)
  {
    SplitWord(x);
    fv, v, h := Field(x, 0x1000, 8), Field(x, 0x800, 2), Field(x, 0x400, 2);
    vt, ht := Field(x, 0x20, 32), Field(x, 1, 32);
    assert x / 0x8000 == 0;
  }

  /** The address of a line of a name table. */
  function AtLine(line: nat, v: nat, h: nat, ht: nat): nat {
    line % 8 * 0x1000 + v * 0x800 + h * 0x400 + line / 8 * 0x20 + ht
  }

  /** Within a name table the line ends count the lines. */
  lemma {:induction false} LinesCount(s: Scroll, line: nat, v: nat, h: nat, ht: nat, n: nat)
    requires IsScroll(s) && v < 2 && h < 2 && ht < 32 && line + n < 240 && s.refresh == AtLine(line, v, h, ht)
    ensures AfterAll(s, Times(LineEnd, n)) == s.(refresh := AtLine(line + n, v, h, ht))
  {
    hide After, AfterAll, NextLine, AtLine, Times;
    OnceMore(s, LineEnd, if n > 0 then n - 1 else 0);
    if n > 0 {
      LinesCount(s, line, v, h, ht, n - 1);
      AfterLine(AfterAll(s, Times(LineEnd, n - 1)));
      LineAdvances(line + n - 1, v, h, ht);
    }
  }

  lemma AfterLine(s: Scroll)
    requires IsScroll(s)
    ensures After(s, LineEnd) == s.(refresh := NextLine(s.refresh))
    ensures After(s, TileEnd) == s.(refresh := NextTile(s.refresh))
  {
  }

  lemma LineAdvances(line: nat, v: nat, h: nat, ht: nat)
    requires line < 240 && v < 2 && h < 2 && ht < 32
    ensures AtLine(line, v, h, ht) < 0x8000
    ensures NextLine(AtLine(line, v, h, ht)) ==
            if line < 239 then AtLine(line + 1, v, h, ht) else AtLine(0, 1 - v, h, ht)
  {
    hide NextLine;
    NextLineIs(line % 8, v, h, line / 8, ht);
  }

  /** 240 line ends from the top lead to the top of the other name table, 480 back. */
  lemma TwoPictures(s: Scroll, v: nat, h: nat, ht: nat)
    requires IsScroll(s) && v < 2 && h < 2 && ht < 32 && s.refresh == v * 0x800 + h * 0x400 + ht
    ensures AfterAll(s, Times(LineEnd, 240)) == s.(refresh := (1 - v) * 0x800 + h * 0x400 + ht)
    ensures AfterAll(s, Times(LineEnd, 480)) == s
  {
    hide After, AfterAll, NextLine, Times;
    OnePicture(s, v, h, ht);
    var t := AfterAll(s, Times(LineEnd, 240));
    OnePicture(t, 1 - v, h, ht);
    AfterBoth(s, Times(LineEnd, 240), Times(LineEnd, 240));
    TimesAdd(LineEnd, 240, 240);
  }

  lemma TimesAdd(event: Event, m: nat, n: nat)
    ensures Times(event, m) + Times(event, n) == Times(event, m + n)
  {
  }

  lemma OnePicture(s: Scroll, v: nat, h: nat, ht: nat)
    requires IsScroll(s) && v < 2 && h < 2 && ht < 32 && s.refresh == v * 0x800 + h * 0x400 + ht
    ensures AfterAll(s, Times(LineEnd, 240)) == s.(refresh := (1 - v) * 0x800 + h * 0x400 + ht)
  {
    TopLine(v, h, ht);
    TopLine(1 - v, h, ht);
    hide After, AfterAll, NextLine, Times, AtLine;
    LinesCount(s, 0, v, h, ht, 239);
    OnceMore(s, LineEnd, 239);
    AfterLine(AfterAll(s, Times(LineEnd, 239)));
    LineAdvances(239, v, h, ht);
  }

  lemma TopLine(v: nat, h: nat, ht: nat)
    ensures AtLine(0, v, h, ht) == v * 0x800 + h * 0x400 + ht
  {
  }

  /** Eight line ends from fine row 0: the next row; after row 29 the top of the other name table, after row 31 the top
      of the same one.
   */
  lemma EightLines(s: Scroll, v: nat, h: nat, vt: nat, ht: nat)
    requires IsScroll(s) && v < 2 && h < 2 && vt < 32 && ht < 32
    requires s.refresh == v * 0x800 + h * 0x400 + vt * 0x20 + ht
    ensures AfterAll(s, Times(LineEnd, 8)) ==
            s.(refresh := if vt == 29 then (1 - v) * 0x800 + h * 0x400 + ht
                          else if vt == 31 then v * 0x800 + h * 0x400 + ht
                          else v * 0x800 + h * 0x400 + (vt + 1) * 0x20 + ht)
  {
    hide After, AfterAll, NextLine;
    FineRows(s, v, h, vt, ht, 7);
    OnceMore(s, LineEnd, 7);
    AfterLine(AfterAll(s, Times(LineEnd, 7)));
    NextLineIs(7, v, h, vt, ht);
  }

  lemma {:induction false} FineRows(s: Scroll, v: nat, h: nat, vt: nat, ht: nat, n: nat)
    requires IsScroll(s) && v < 2 && h < 2 && vt < 32 && ht < 32 && n < 8
    requires s.refresh == v * 0x800 + h * 0x400 + vt * 0x20 + ht
    ensures AfterAll(s, Times(LineEnd, n)) == s.(refresh := n * 0x1000 + v * 0x800 + h * 0x400 + vt * 0x20 + ht)
  {
    hide After, AfterAll, NextLine;
    OnceMore(s, LineEnd, if n > 0 then n - 1 else 0);
    if n > 0 {
      FineRows(s, v, h, vt, ht, n - 1);
      AfterLine(AfterAll(s, Times(LineEnd, n - 1)));
      NextLineIs(n - 1, v, h, vt, ht);
    }
  }

  /** The address of a tile of a row of two name tables. */
  function AtTile(fv: nat, v: nat, vt: nat, across: nat): nat {
    Pack(fv, v, across / 32, vt, across % 32)
  }

  /** Tile ends count column and horizontal name table as one number of six bits; the rows stay. */
  lemma {:induction false} TilesCount(s: Scroll, fv: nat, v: nat, vt: nat, across: nat, n: nat)
    requires IsScroll(s) && fv < 8 && v < 2 && vt < 32 && across < 64 && s.refresh == AtTile(fv, v, vt, across)
    ensures AfterAll(s, Times(TileEnd, n)) == s.(refresh := AtTile(fv, v, vt, (across + n) % 64))
  {
    hide After, AfterAll, NextTile, AtTile, Times;
    OnceMore(s, TileEnd, if n > 0 then n - 1 else 0);
    if n == 0 {
      SmallMod(across, 64);
    } else {
      TilesCount(s, fv, v, vt, across, n - 1);
      AfterLine(AfterAll(s, Times(TileEnd, n - 1)));
      OneFurther(across + n - 1);
      TileAdvances(fv, v, vt, (across + n - 1) % 64);
    }
  }

  lemma OneFurther(x: nat)
    ensures x % 64 < 64 && (x + 1) % 64 == if x % 64 < 63 then x % 64 + 1 else 0
  {
    var q, a := x / 64, x % 64;
    DivModUnique(x + 1, 64, if a < 63 then q else q + 1, if a < 63 then a + 1 else 0);
  }

  lemma AtTileIs(fv: nat, v: nat, vt: nat, h: nat, ht: nat)
    requires ht < 32
    ensures AtTile(fv, v, vt, 32 * h + ht) == Pack(fv, v, h, vt, ht)
  {
    DivModUnique(32 * h + ht, 32, h, ht);
  }

  lemma ColumnOf(a: nat) returns (h: nat, ht: nat)
    requires a < 64
    ensures a == 32 * h + ht && h < 2 && ht < 32
  {
    h, ht := a / 32, a % 32;
  }

  lemma TileAdvances(fv: nat, v: nat, vt: nat, a: nat)
    requires fv < 8 && v < 2 && vt < 32 && a < 64
    ensures AtTile(fv, v, vt, a) < 0x8000
    ensures NextTile(AtTile(fv, v, vt, a)) == AtTile(fv, v, vt, if a < 63 then a + 1 else 0)
  {
    hide *;
    var h, ht := ColumnOf(a);
    Ranges(fv, v, h, vt, ht);
    NextTileIs(fv, v, h, vt, ht);
    AtTileIs(fv, v, vt, h, ht);
    if ht < 31 {
      AtTileIs(fv, v, vt, h, ht + 1);
    } else {
      AtTileIs(fv, v, vt, 1 - h, 0);
    }
  }

  /** 32 tile ends lead to the same column of the other name table, 64 back. */
  lemma LineOfTiles(s: Scroll, fv: nat, v: nat, h: nat, vt: nat, ht: nat)
    requires IsScroll(s) && AreCounters(fv, v, h, vt, ht)
    requires s.refresh == fv * 0x1000 + v * 0x800 + h * 0x400 + vt * 0x20 + ht
    ensures AfterAll(s, Times(TileEnd, 32)) ==
            s.(refresh := fv * 0x1000 + v * 0x800 + (1 - h) * 0x400 + vt * 0x20 + ht)
    ensures AfterAll(s, Times(TileEnd, 64)) == s
  {
    Across(h, ht);
    hide AfterAll, Times;
    TilesCount(s, fv, v, vt, 32 * h + ht, 32);
    TilesCount(s, fv, v, vt, 32 * h + ht, 64);
  }

  lemma Across(h: nat, ht: nat)
    requires h < 2 && ht < 32
    ensures (32 * h + ht) / 32 == h && (32 * h + ht) % 32 == ht && (32 * h + ht + 64) % 64 == 32 * h + ht
    ensures (32 * h + ht + 32) % 64 / 32 == 1 - h && (32 * h + ht + 32) % 64 % 32 == ht
  {
    DivModUnique(32 * h + ht, 32, h, ht);
    DivModUnique(32 * h + ht + 64, 64, 1, 32 * h + ht);
    DivModUnique(32 * h + ht + 32, 64, h, 32 * (1 - h) + ht);
    DivModUnique(32 * (1 - h) + ht, 32, 1 - h, ht);
  }

  /** Two writes to $2006 set the address, of which bit 14 is left out. */
  lemma AddressWritten(s: Scroll, a: byte, b: byte)
    requires IsScroll(s) && !s.second
    ensures AfterAll(s, [Write2006(a), Write2006(b)]) == s.(temp := 256 * (a % 64) + b, refresh := 256 * (a % 64) + b)
  {
    AfterTwo(s, Write2006(a), Write2006(b));
    DivModUnique(256 * (a % 64) + s.temp % 256, 256, a % 64, s.temp % 256);
  }

  /** Two writes to $2005 set the scroll position, and that comes into effect at the top of the picture. */
  lemma ScrollWritten(s: Scroll, x: byte, y: byte)
    requires IsScroll(s) && !s.second
    ensures AfterAll(s, [Write2005(x), Write2005(y)]) ==
            s.(temp := y % 8 * 0x1000 + s.temp / 0x400 % 4 * 0x400 + y / 8 * 0x20 + x / 8, fineX := x % 8)
  {
    AfterTwo(s, Write2005(x), Write2005(y));
    var q := s.temp / 0x20;
    DivModUnique(q * 0x20 + x / 8, 0x20, q, x / 8);
    DivModUnique(q * 0x20 + x / 8, 0x400, q / 32, q % 32 * 0x20 + x / 8);
    DivModUnique(s.temp, 0x400, q / 32, q % 32 * 0x20 + s.temp % 0x20);
  }

  /** The usual set-up: name table, scroll position, and the top of the picture. */
  lemma PictureSetUp(s: Scroll, a: byte, x: byte, y: byte)
    requires IsScroll(s) && !s.second
    ensures var start := y % 8 * 0x1000 + a % 4 * 0x400 + y / 8 * 0x20 + x / 8;
            AfterAll(s, [Write2000(a), PictureStart] + [Write2005(x), Write2005(y)] + [PictureStart]) ==
            Scroll(start, start, x % 8, false)
  {
    hide After, AfterAll;
    AfterTwo(s, Write2000(a), PictureStart);
    AfterBoth(s, [Write2000(a), PictureStart], [Write2005(x), Write2005(y)]);
    AfterBoth(s, [Write2000(a), PictureStart] + [Write2005(x), Write2005(y)], [PictureStart]);
    var t := After(After(s, Write2000(a)), PictureStart);
    AfterNameTable(s, a);
    AfterTop(After(s, Write2000(a)));
    ScrollWritten(t, x, y);
    AfterOne(AfterAll(t, [Write2005(x), Write2005(y)]), PictureStart);
    AfterTop(AfterAll(t, [Write2005(x), Write2005(y)]));
  }

  lemma AfterTop(s: Scroll)
    requires IsScroll(s)
    ensures After(s, PictureStart) == s.(refresh := s.temp)
  {
  }

  lemma AfterNameTable(s: Scroll, a: byte)
    requires IsScroll(s)
    ensures var t := After(s, Write2000(a));
            t == s.(temp := t.temp) && t.temp / 0x400 % 4 == a % 4 && t.temp % 0x400 == s.temp % 0x400
            && t.temp / 0x1000 == s.temp / 0x1000
  {
    var q, r := s.temp / 0x1000, s.temp % 0x400;
    var x := q * 0x1000 + a % 4 * 0x400 + r;
    DivModUnique(x, 0x400, 4 * q + a % 4, r);
    DivModUnique(4 * q + a % 4, 4, q, a % 4);
    DivModUnique(x, 0x1000, q, a % 4 * 0x400 + r);
  }

  /** n accesses off the picture advance the address by n steps. */
  lemma {:induction false} AccessesCount(s: Scroll, by32: bool, n: nat)
    requires IsScroll(s)
    ensures AfterAll(s, Times(Write2007(false, by32), n)) ==
            s.(refresh := (s.refresh + if by32 then 32 * n else n) % 0x8000)
    ensures AfterAll(s, Times(Read2007(false, false, by32), n)) ==
            AfterAll(s, Times(Write2007(false, by32), n))
  {
    hide AfterAll, After, Times;
    var w, r := Write2007(false, by32), Read2007(false, false, by32);
    OnceMore(s, w, if n > 0 then n - 1 else 0);
    OnceMore(s, r, if n > 0 then n - 1 else 0);
    if n == 0 {
      SmallMod(s.refresh, 0x8000);
    } else {
      AccessesCount(s, by32, n - 1);
      AfterAccess(AfterAll(s, Times(w, n - 1)), by32);
      var x, step := s.refresh + (if by32 then 32 * (n - 1) else n - 1), if by32 then 32 else 1;
      SumOfRemainder(x, step);
      assert x + step == s.refresh + if by32 then 32 * n else n;
    }
  }

  lemma SumOfRemainder(x: nat, step: nat)
    ensures (x % 0x8000 + step) % 0x8000 == (x + step) % 0x8000
  {
    SameModulo(x + step, x % 0x8000 + step, x / 0x8000, 0x8000);
  }

  lemma AfterAccess(s: Scroll, by32: bool)
    requires IsScroll(s)
    ensures After(s, Write2007(false, by32)) == s.(refresh := (s.refresh + if by32 then 32 else 1) % 0x8000)
    ensures After(s, Read2007(false, false, by32)) == After(s, Write2007(false, by32))
  {
  }

  /** However many tiles are drawn, the next line starts at the column where this one did. */
  lemma LineReturns(s: Scroll, n: nat)
    requires IsScroll(s) && s.temp % 0x20 == s.refresh % 0x20 && s.temp / 0x400 % 2 == s.refresh / 0x400 % 2
    ensures AfterAll(s, Times(TileEnd, n) + [LineStart]) == s
  {
    hide After, AfterAll, Times;
    var fv, v, h, vt, ht := HasFields(s.refresh);
    PartsOf(fv, v, h, vt, ht);
    Across(h, ht);
    TilesCount(s, fv, v, vt, 32 * h + ht, n);
    AfterBoth(s, Times(TileEnd, n), [LineStart]);
    var t := AfterAll(s, Times(TileEnd, n));
    AfterOne(t, LineStart);
    OneFurther(32 * h + ht + n);
    Restarted(t, fv, v, h, vt, ht, (32 * h + ht + n) % 64);
  }

  lemma Restarted(s: Scroll, fv: nat, v: nat, h: nat, vt: nat, ht: nat, end: nat)
    requires IsScroll(s) && AreCounters(fv, v, h, vt, ht) && end < 64 && s.refresh == AtTile(fv, v, vt, end)
    requires s.temp % 0x20 == ht && s.temp / 0x400 % 2 == h
    ensures After(s, LineStart) == s.(refresh := Pack(fv, v, h, vt, ht))
  {
    hide After;
    AfterStart(s);
    PartsOf(fv, v, end / 32, vt, end % 32);
  }

  lemma AfterOne(s: Scroll, event: Event)
    requires IsScroll(s)
    ensures AfterAll(s, [event]) == After(s, event)
  {
    assert [event][..0] == [];
  }

  lemma AfterStart(s: Scroll)
    requires IsScroll(s)
    ensures var r, t := s.refresh, s.temp;
            After(s, LineStart) ==
            s.(refresh := r / 0x800 * 0x800 + t / 0x400 % 2 * 0x400 + r / 0x20 % 0x20 * 0x20 + t % 0x20)
  {
  }
}
