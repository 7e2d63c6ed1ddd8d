/** The checksum of CoreMark (apps/coremark/src/core_util.c): a 16-bit cyclic redundancy check, one bit at a time. */
module CoreMarkCrc {
  import opened Bits

  type u8 = x: int | 0 <= x < 0x100
  type u16 = x: int | 0 <= x < 0x1_0000

  /** The polynomial x^16 + x^15 + x^2 + 1 without its leading term, with the coefficients reversed. */
  const POLYNOMIAL: u16 := 0xA001

  /** A step of reflected division: the bit is added at the low end, and the polynomial is subtracted if that is odd. */
  function Step(bit: nat, crc: u16): u16
    requires bit < 2
  {
    XorBelow16(crc / 2, POLYNOMIAL);
    if bit != crc % 2 then Xor(crc / 2, POLYNOMIAL) else crc / 2
  }

  /** The checksum after the low n bits of data, lowest first. */
  function CrcBits(data: nat, crc: u16, n: nat): u16
    decreases n
  {
    if n == 0 then crc else CrcBits(data / 2, Step(data % 2, crc), n - 1)
  }

  function Crc8(data: u8, crc: u16): u16 {
    CrcBits(data, crc, 8)
  }

  /** The checksum of a string of bytes. */
  function Crc(message: seq<u8>, seed: u16): u16 {
    if message == [] then seed else Crc8(message[|message| - 1], Crc(message[..|message| - 1], seed))
  }

  lemma XorBelow16(a: nat, b: nat)
    requires a < 0x1_0000 && b < 0x1_0000
    ensures Xor(a, b) < 0x1_0000
  {
    Pow2Of16();
    OrXorBelow(a, b, 16);
  }

  lemma Pow2Of16()
    ensures Pow2(15) == 0x8000 && Pow2(16) == 0x1_0000 && Pow2(8) == 0x100
  {
    Pow2Of4();
    Pow2Add(8, 8);
    Pow2Step(16);
    Pow2Add(4, 4);
  }

  // ---------- the polynomial ----------

  /** A step in figures: the register is halved; if the bit differs from its last one, then bit 15 is set and the bits
      13 and 0 are toggled.
   */
  function Toggled(bit: nat, crc: u16): nat {
    var x := crc / 2;
    if bit == crc % 2 then x
    else 0x8000 + (if x / 0x2000 % 2 == 0 then x + 0x2000 else x - 0x2000) + (if x % 2 == 0 then 1 else -1)
  }

  lemma SmallXors(q: nat, r: nat)
    requires q < 4
    ensures Xor(q, 5) == 4 + (if q % 2 == 0 then q + 1 else q - 1) && Xor(r, 1) == if r % 2 == 0 then r + 1 else r - 1
  {
    XorZero(r / 2);
    assert q == 0 || q == 1 || q == 2 || q == 3;
  }

  lemma StepToggles(bit: nat, crc: u16)
    requires bit < 2
    ensures Step(bit, crc) == Toggled(bit, crc)
  {
    hide Xor, Pow2, Joined;
    var x := crc / 2;
    var q, r := x / 0x2000, x % 0x2000;
    Power13();
    SmallXors(q, r);
    XorParts(q, 5, r, 1, 13);
    JoinedIs(q, r);
    JoinedIs(5, 1);
    JoinedIs(Xor(q, 5), Xor(r, 1));
  }

  lemma Power13()
    ensures Pow2(13) == 0x2000
  {
    Pow2Of4();
    Pow2Add(8, 4);
    Pow2Add(12, 1);
  }

  lemma JoinedIs(q: nat, r: nat)
    ensures Joined(q, 0x2000, r) == 0x2000 * q + r
  {
  }

  /** The eight steps of a byte. */
  lemma Eight(data: u8, c0: u16, c1: u16, c2: u16, c3: u16, c4: u16, c5: u16, c6: u16, c7: u16, c8: u16)
    requires c1 == Toggled(data % 2, c0) && c2 == Toggled(data / 2 % 2, c1) && c3 == Toggled(data / 2 / 2 % 2, c2)
    requires c4 == Toggled(data / 2 / 2 / 2 % 2, c3)
    requires var high := data / 2 / 2 / 2 / 2;
             && c5 == Toggled(high % 2, c4) && c6 == Toggled(high / 2 % 2, c5)
             && c7 == Toggled(high / 2 / 2 % 2, c6) && c8 == Toggled(high / 2 / 2 / 2 % 2, c7)
    ensures Crc8(data, c0) == c8
  {
    hide *;
    Nibble(data, 8, c0, c1, c2, c3, c4);
    Nibble(data / 2 / 2 / 2 / 2, 4, c4, c5, c6, c7, c8);
    NoBits(data, c0, data / 2 / 2 / 2 / 2 / 2 / 2 / 2 / 2, c8);
  }

  lemma NoBits(data: u8, c0: u16, rest: nat, crc: u16)
    ensures Crc8(data, c0) == CrcBits(data, c0, 8) && CrcBits(rest, crc, 0) == crc
  {
  }

  lemma Nibble(data: nat, n: nat, c0: u16, c1: u16, c2: u16, c3: u16, c4: u16)
    requires n >= 4 && c1 == Toggled(data % 2, c0) && c2 == Toggled(data / 2 % 2, c1)
    requires c3 == Toggled(data / 2 / 2 % 2, c2) && c4 == Toggled(data / 2 / 2 / 2 % 2, c3)
    ensures CrcBits(data, c0, n) == CrcBits(data / 2 / 2 / 2 / 2, c4, n - 4)
  {
    hide *;
    OneBit(data, c0, n);
    OneBit(data / 2, c1, n - 1);
    OneBit(data / 2 / 2, c2, n - 2);
    OneBit(data / 2 / 2 / 2, c3, n - 3);
  }

  lemma OneBit(data: nat, crc: u16, n: nat)
    requires n > 0
    ensures 0 <= Toggled(data % 2, crc) < 0x1_0000
    ensures CrcBits(data, crc, n) == CrcBits(data / 2, Toggled(data % 2, crc), n - 1)
  {
    hide Toggled;
    StepToggles(data % 2, crc);
  }

  lemma CrcAdded(message: seq<u8>, data: u8, crc: u16, next: u16)
    requires Crc(message, 0) == crc && Crc8(data, crc) == next
    ensures Crc(message + [data], 0) == next
  {
    hide Crc8;
    assert (message + [data])[..|message|] == message;
  }

  lemma DigitsTo3()
    ensures Crc8(0x31, 0) == 0xD4C1 && Crc8(0x32, 0xD4C1) == 0x4594 && Crc8(0x33, 0x4594) == 0xBA04
  {
    hide Crc8;
    Eight(0x31, 0x0, 0xA001, 0xF001, 0xD801, 0xCC01, 0x6600, 0x9301, 0xE981, 0xD4C1);
    Eight(0x32, 0xD4C1, 0xCA61, 0x6530, 0x3298, 0x194C, 0xACA7, 0x5653, 0x8B28, 0x4594);
    Eight(0x33, 0x4594, 0x82CB, 0x4165, 0x80B3, 0xE058, 0xD02D, 0x6816, 0x340B, 0xBA04);
  }

  lemma DigitsTo6()
    ensures Crc8(0x34, 0xBA04) == 0x14BA && Crc8(0x35, 0x14BA) == 0xA455 && Crc8(0x36, 0xA455) == 0x29E4
  {
    hide Crc8;
    Eight(0x34, 0xBA04, 0x5D02, 0x2E81, 0x1740, 0xBA0, 0xA5D1, 0x52E8, 0x2974, 0x14BA);
    Eight(0x35, 0x14BA, 0xAA5C, 0x552E, 0x8A96, 0x454B, 0x22A5, 0x1152, 0x8A9, 0xA455);
    Eight(0x36, 0xA455, 0xF22B, 0x7915, 0x3C8A, 0x1E45, 0xF22, 0xA790, 0x53C8, 0x29E4);
  }

  lemma DigitsTo9()
    ensures Crc8(0x37, 0x29E4) == 0x9D68 && Crc8(0x38, 0x9D68) == 0x3C9D && Crc8(0x39, 0x3C9D) == 0xBB3D
  {
    hide Crc8;
    Eight(0x37, 0x29E4, 0xB4F3, 0x5A79, 0x2D3C, 0x169E, 0xAB4E, 0xF5A6, 0x7AD3, 0x9D68);
    Eight(0x38, 0x9D68, 0x4EB4, 0x275A, 0x13AD, 0x9D6, 0xA4EA, 0xF274, 0x793A, 0x3C9D);
    Eight(0x39, 0x3C9D, 0x1E4E, 0xF27, 0xA792, 0xF3C8, 0xD9E5, 0x6CF2, 0x3679, 0xBB3D);
  }

  /** The check value of this checksum: the digits 1 to 9 give 0xBB3D. */
  lemma CheckValue()
    ensures Crc([0x31, 0x32, 0x33, 0x34, 0x35, 0x36, 0x37, 0x38, 0x39], 0) == 0xBB3D
  {
    hide Crc8, Crc;
    DigitsTo3();
    DigitsTo6();
    DigitsTo9();
    CrcOfNone(0);
    CrcAdded([], 0x31, 0, 0xD4C1);
    CrcAdded([] + [0x31], 0x32, 0xD4C1, 0x4594);
    CrcAdded([] + [0x31] + [0x32], 0x33, 0x4594, 0xBA04);
    CrcAdded([] + [0x31] + [0x32] + [0x33], 0x34, 0xBA04, 0x14BA);
    var four: seq<u8> := [] + [0x31] + [0x32] + [0x33] + [0x34];
    CrcAdded(four, 0x35, 0x14BA, 0xA455);
    CrcAdded(four + [0x35], 0x36, 0xA455, 0x29E4);
    CrcAdded(four + [0x35] + [0x36], 0x37, 0x29E4, 0x9D68);
    CrcAdded(four + [0x35] + [0x36] + [0x37], 0x38, 0x9D68, 0x3C9D);
    CrcAdded(four + [0x35] + [0x36] + [0x37] + [0x38], 0x39, 0x3C9D, 0xBB3D);
    assert four + [0x35] + [0x36] + [0x37] + [0x38] + [0x39] ==
           [0x31, 0x32, 0x33, 0x34, 0x35, 0x36, 0x37, 0x38, 0x39];
  }

  lemma CrcOfNone(crc: u16)
    ensures Crc([], crc) == crc
  {
  }

  // ---------- linearity ----------

  lemma {:induction false} XorCommutes(a: nat, b: nat)
    ensures Xor(a, b) == Xor(b, a)
    decreases a + b
  {
    if a + b > 0 {
      XorCommutes(a / 2, b / 2);
    }
  }

  lemma {:induction false} XorAssociates(a: nat, b: nat, c: nat)
    ensures Xor(Xor(a, b), c) == Xor(a, Xor(b, c))
    decreases a + b + c
  {
    if a + b + c > 0 {
      XorAssociates(a / 2, b / 2, c / 2);
      XorHalves(a, b);
      XorHalves(b, c);
      XorHalves(Xor(a, b), c);
      XorHalves(a, Xor(b, c));
      SameHalves(Xor(Xor(a, b), c), Xor(a, Xor(b, c)));
    }
  }

  /** (a ^ p) ^ (b ^ p) == a ^ b */
  lemma XorCancels(a: nat, b: nat, p: nat)
    ensures Xor(Xor(a, p), Xor(b, p)) == Xor(a, b)
    ensures Xor(Xor(a, p), b) == Xor(Xor(a, b), p) == Xor(a, Xor(b, p))
  {
    hide Xor;
    XorAssociates(a, p, Xor(b, p));
    XorCommutes(b, p);
    XorAssociates(p, p, b);
    XorSelf(p);
    XorZero(b);
    XorCommutes(0, b);
    XorAssociates(a, p, b);
    XorAssociates(a, b, p);
  }

  lemma StepIsLinear(bit: nat, bit': nat, crc: u16, crc': u16)
    requires bit < 2 && bit' < 2
    ensures Xor(bit, bit') < 2 && Xor(crc, crc') < 0x1_0000
    ensures Step(Xor(bit, bit'), Xor(crc, crc')) == Xor(Step(bit, crc), Step(bit', crc'))
  {
    XorOfBits(bit, bit');
    hide Xor;
    XorBelow16(crc, crc');
    XorHalves(crc, crc');
    XorCancels(crc / 2, crc' / 2, POLYNOMIAL);
  }

  lemma XorOfBits(bit: nat, bit': nat)
    requires bit < 2 && bit' < 2
    ensures Xor(bit, bit') == if bit == bit' then 0 else 1
  {
  }

  lemma {:induction false} CrcBitsIsLinear(data: nat, data': nat, crc: u16, crc': u16, n: nat)
    ensures Xor(crc, crc') < 0x1_0000
    ensures CrcBits(Xor(data, data'), Xor(crc, crc'), n) == Xor(CrcBits(data, crc, n), CrcBits(data', crc', n))
    decreases n
  {
    hide Xor, Step;
    XorBelow16(crc, crc');
    if n > 0 {
      XorHalves(data, data');
      XorOfBits(data % 2, data' % 2);
      StepIsLinear(data % 2, data' % 2, crc, crc');
      CrcBitsIsLinear(data / 2, data' / 2, Step(data % 2, crc), Step(data' % 2, crc'), n - 1);
    }
  }

  function XorStrings(s: seq<u8>, t: seq<u8>): (r: seq<u8>)
    requires |s| == |t|
    ensures |r| == |s|
  {
    if s == [] then []
    else
      XorBelow8(s[|s| - 1], t[|s| - 1]);
      XorStrings(s[..|s| - 1], t[..|s| - 1]) + [Xor(s[|s| - 1], t[|s| - 1])]
  }

  lemma XorBelow8(a: nat, b: nat)
    requires a < 0x100 && b < 0x100
    ensures Xor(a, b) < 0x100
  {
    Pow2Of16();
    OrXorBelow(a, b, 8);
  }

  /** The checksum is linear in the message and the seed together. */
  lemma {:induction false} CrcIsLinear(s: seq<u8>, t: seq<u8>, seed: u16, seed': u16)
    requires |s| == |t|
    ensures Xor(seed, seed') < 0x1_0000
    ensures Crc(XorStrings(s, t), Xor(seed, seed')) == Xor(Crc(s, seed), Crc(t, seed'))
  {
    hide Xor, CrcBits;
    XorBelow16(seed, seed');
    if s != [] {
      var last := |s| - 1;
      CrcIsLinear(s[..last], t[..last], seed, seed');
      assert XorStrings(s, t)[..last] == XorStrings(s[..last], t[..last]);
      CrcBitsIsLinear(s[last], t[last], Crc(s[..last], seed), Crc(t[..last], seed'), 8);
    }
  }

  // ---------- reversibility ----------

  /** A step backwards: the top bit says whether the polynomial was subtracted. */
  function StepBack(bit: nat, crc: u16): u16
    requires bit < 2
  {
    var odd := crc >= 0x8000;
    StepBackIsBelow(crc);
    2 * (if odd then Xor(crc, POLYNOMIAL) else crc) + (if odd then 1 - bit else bit)
  }

  lemma StepBackIsBelow(crc: u16)
    ensures crc >= 0x8000 ==> Xor(crc, POLYNOMIAL) < 0x8000
  {
    if crc >= 0x8000 {
      TopBits(crc);
    }
  }

  /** Xor with a word that has the top bit flips the top bit. */
  lemma TopBits(crc: u16)
    ensures crc >= 0x8000 <==> Xor(crc, POLYNOMIAL) < 0x8000
    ensures Xor(crc, POLYNOMIAL) < 0x1_0000
  {
    hide Xor, Pow2;
    Pow2Of16();
    XorBelow16(crc, POLYNOMIAL);
    Pow2Step(16);
    GetXor(crc, POLYNOMIAL, 15);
    BitIs(crc, 15);
    BitIs(POLYNOMIAL, 15);
    BitIs(Xor(crc, POLYNOMIAL), 15);
  }

  lemma {:induction false} GetXor(a: nat, b: nat, k: nat)
    ensures GetBit(Xor(a, b), k) == (GetBit(a, k) != GetBit(b, k))
    decreases k
  {
    XorHalves(a, b);
    if k > 0 {
      GetXor(a / 2, b / 2, k - 1);
    }
  }

  /** Steps forth and back undo each other. */
  lemma StepAndBack(bit: nat, crc: u16)
    requires bit < 2
    ensures StepBack(bit, Step(bit, crc)) == crc
    ensures Step(bit, StepBack(bit, crc)) == crc
  {
    hide Xor;
    TopBits(crc);
    TopBits(crc / 2);
    XorTwice(crc, POLYNOMIAL);
    XorTwice(crc / 2, POLYNOMIAL);
  }

  lemma XorTwice(a: nat, b: nat)
    ensures Xor(Xor(a, b), b) == a
  {
    XorAssociates(a, b, b);
    XorSelf(b);
    XorZero(a);
  }

  function CrcBitsBack(data: nat, crc: u16, n: nat): u16
    decreases n
  {
    if n == 0 then crc else StepBack(data % 2, CrcBitsBack(data / 2, crc, n - 1))
  }

  /** For fixed data the checksum is a bijection of the seeds. */
  lemma {:induction false} CrcBitsAndBack(data: nat, crc: u16, n: nat)
    ensures CrcBitsBack(data, CrcBits(data, crc, n), n) == crc
    ensures CrcBits(data, CrcBitsBack(data, crc, n), n) == crc
    decreases n
  {
    hide Step, StepBack;
    if n > 0 {
      CrcBitsAndBack(data / 2, Step(data % 2, crc), n - 1);
      CrcBitsAndBack(data / 2, crc, n - 1);
      StepAndBack(data % 2, crc);
      StepAndBack(data % 2, CrcBitsBack(data / 2, crc, n - 1));
    }
  }

  // ---------- error detection ----------

  /** Data that equal the seed cancel it. */
  lemma {:induction false} CrcOfItself(data: u16, n: nat)
    requires data < Pow2(n)
    ensures CrcBits(data, data, n) == 0
    decreases n
  {
    if n > 0 {
      CrcOfItself(data / 2, n - 1);
    }
  }

  /** A byte acts as if it had been added to the low byte of the checksum before. */
  lemma ByteIsAdded(data: u8, crc: u16)
    ensures Xor(crc, data) < 0x1_0000 && Crc8(data, crc) == Crc8(0, Xor(crc, data))
  {
    hide Xor, CrcBits;
    Pow2Of16();
    CrcOfItself(data, 8);
    CrcBitsIsLinear(data, data, crc, data, 8);
    XorSelf(data);
    XorZero(Crc8(data, crc));
  }

  /** For a fixed seed different bytes have different checksums, and for a fixed byte different seeds have. */
  lemma Crc8IsInjective(data: u8, data': u8, crc: u16, crc': u16)
    ensures Crc8(data, crc) == Crc8(data', crc') <==> Xor(crc, data) == Xor(crc', data')
    ensures data == data' ==> (Crc8(data, crc) == Crc8(data', crc') <==> crc == crc')
    ensures crc == crc' ==> (Crc8(data, crc) == Crc8(data', crc') <==> data == data')
  {
    hide Xor, CrcBits, CrcBitsBack;
    ByteIsAdded(data, crc);
    ByteIsAdded(data', crc');
    CrcBitsAndBack(0, Xor(crc, data), 8);
    CrcBitsAndBack(0, Xor(crc', data'), 8);
    XorTwice(crc, data);
    XorTwice(crc', data');
    XorCommutes(crc, data);
    XorCommutes(crc', data');
    XorTwice(data, crc);
    XorTwice(data', crc');
  }

  /** The same bytes after different checksums keep them different. */
  lemma {:induction false} CrcKeepsDifferences(message: seq<u8>, seed: u16, seed': u16)
    ensures Crc(message, seed) == Crc(message, seed') <==> seed == seed'
  {
    hide Crc8;
    if message != [] {
      var front, last := message[..|message| - 1], message[|message| - 1];
      CrcKeepsDifferences(front, seed, seed');
      Crc8IsInjective(last, last, Crc(front, seed), Crc(front, seed'));
    }
  }

  lemma {:induction false} CrcOfConcatenation(s: seq<u8>, t: seq<u8>, seed: u16)
    ensures Crc(s + t, seed) == Crc(t, Crc(s, seed))
  {
    hide Crc8;
    if t == [] {
      assert s + t == s;
    } else {
      CrcOfConcatenation(s, t[..|t| - 1], seed);
      assert (s + t)[..|s + t| - 1] == s + t[..|t| - 1];
    }
  }

  /** Messages that differ in exactly one byte never have the same checksum. */
  lemma OneByteIsDetected(before: seq<u8>, data: u8, data': u8, after: seq<u8>, seed: u16)
    requires data != data'
    ensures Crc(before + [data] + after, seed) != Crc(before + [data'] + after, seed)
  {
    hide Crc8;
    CrcOfConcatenation(before + [data], after, seed);
    CrcOfConcatenation(before + [data'], after, seed);
    assert (before + [data])[..|before|] == before && (before + [data'])[..|before|] == before;
    Crc8IsInjective(data, data', Crc(before, seed), Crc(before, seed));
    CrcKeepsDifferences(after, Crc(before + [data], seed), Crc(before + [data'], seed));
  }

  function Dropped(data: nat, m: nat): nat
    decreases m
  {
    if m == 0 then data else Dropped(data / 2, m - 1)
  }

  lemma {:induction false} BitsInParts(data: nat, crc: u16, m: nat, n: nat)
    ensures CrcBits(data, crc, m + n) == CrcBits(Dropped(data, m), CrcBits(data, crc, m), n)
    decreases m
  {
    hide Step;
    if m > 0 {
      BitsInParts(data / 2, Step(data % 2, crc), m - 1, n);
    }
  }

  lemma DroppedByte(data: nat)
    ensures Dropped(data, 8) == data / 256
  {
    var x := Dropped(data, 4);
    assert x == data / 2 / 2 / 2 / 2 == data / 16;
    assert Dropped(data, 8) == Dropped(x, 4) == x / 2 / 2 / 2 / 2 == x / 16;
  }

  lemma {:induction false} LowBitsOnly(data: nat, crc: u16, n: nat)
    ensures CrcBits(data % Pow2(n), crc, n) == CrcBits(data, crc, n)
    decreases n
  {
    hide Step;
    if n > 0 {
      ModStep(data, n);
      LowBitsOnly(data / 2, Step(data % 2, crc), n - 1);
    }
  }

  /** A message followed by its checksum has the checksum 0. */
  lemma ChecksumAppended(message: seq<u8>, seed: u16)
    ensures var c := Crc(message, seed); Crc(message + [c % 256, c / 256], seed) == 0
  {
    hide Crc, Crc8, CrcBits, Dropped;
    var c := Crc(message, seed);
    Pow2Of16();
    CrcOfConcatenation(message, [c % 256, c / 256], seed);
    CrcOfTwo(c % 256, c / 256, c);
    CrcOfItself(c, 16);
    BitsInParts(c, c, 8, 8);
    DroppedByte(c);
    LowBitsOnly(c, c, 8);
    Crc8Is(c % 256, c);
    Crc8Is(c / 256, CrcBits(c, c, 8));
  }

  lemma Crc8Is(data: u8, crc: u16)
    ensures Crc8(data, crc) == CrcBits(data, crc, 8)
  {
  }

  // ---------- the code ----------

  /** One turn of the loop of crcu8: the shift and the two masks make a step of reflected division. */
  method Turn(x16: nat, crc0: u16) returns (crc: u16)
    requires x16 < 2
    ensures forall bit: nat | bit < 2 && x16 == Xor(bit, crc0 % 2) :: crc == Step(bit, crc0)
  {
    hide Step;
    StepInCode(x16, crc0);
    crc := crc0;
    var carry := false;
    if x16 == 1 {
      crc := Xor(crc, 0x4002);
      carry := true;
    }
    crc := crc / 2;
    if carry {
      crc := Or(crc, 0x8000);
    } else {
      crc := And(crc, 0x7FFF);
    }
  }

  lemma StepInCode(x16: nat, crc: u16)
    requires x16 < 2
    ensures Xor(crc, 0x4002) < 0x1_0000 && And(crc / 2, 0x7FFF) == crc / 2
    ensures Or(Xor(crc, 0x4002) / 2, 0x8000) == Xor(crc / 2, POLYNOMIAL) < 0x1_0000
    ensures forall bit: nat | bit < 2 && x16 == Xor(bit, crc % 2) ::
              Step(bit, crc) == if x16 == 1 then Xor(crc / 2, POLYNOMIAL) else crc / 2
  {
    forall bit: nat | bit < 2
      ensures Xor(bit, crc % 2) == if bit == crc % 2 then 0 else 1
    {
      XorOfBits(bit, crc % 2);
    }
    hide Xor, Or, And, Pow2;
    Pow2Of16();
    XorBelow16(crc, 0x4002);
    XorBelow16(crc / 2, POLYNOMIAL);
    AndMask(crc / 2, 15);
    SmallMod(crc / 2, 0x8000);
    XorHalves(crc, 0x4002);
    HighBitAdded(crc / 2);
  }

  /** or with the top bit after xor with the rest of the polynomial is xor with the polynomial. */
  lemma HighBitAdded(x: nat)
    requires x < 0x8000
    ensures Or(Xor(x, 0x2001), 0x8000) == Xor(x, 0xA001)
  {
    hide Xor, Or, Pow2;
    Pow2Of16();
    OrXorBelow(x, 0x2001, 15);
    BitOnTop(Xor(x, 0x2001), 15);
    BitOnTop(0x2001, 15);
    XorAssociates(x, 0x2001, 0x8000);
  }

  /** A bit above all others is added by or as by xor. */
  lemma {:induction false} BitOnTop(x: nat, k: nat)
    requires x < Pow2(k)
    ensures Or(x, Pow2(k)) == Xor(x, Pow2(k)) == x + Pow2(k)
    decreases k
  {
    if k > 0 {
      assert Pow2(k) / 2 == Pow2(k - 1) && Pow2(k) % 2 == 0;
      BitOnTop(x / 2, k - 1);
    } else {
      assert Pow2(k) == 1 && x == 0;
    }
  }

  /** crcu8 */
  method Crcu8(data0: u8, crc0: u16) returns (crc: u16)
    ensures crc == Crc8(data0, crc0)
  {
    hide Step;
    var data: u8 := data0;
    crc := crc0;
    for i := 0 to 8
      invariant CrcBits(data, crc, 8 - i) == Crc8(data0, crc0)
    {
      XorOfBits(data % 2, crc % 2);
      var x16 := Xor(data % 2, crc % 2);
      crc := Turn(x16, crc);
      data := data / 2;
    }
  }

  /** crcu16: the low byte first */
  method Crcu16(newval: u16, crc0: u16) returns (crc: u16)
    ensures crc == Crc([newval % 256, newval / 256], crc0)
  {
    hide Crc8;
    crc := Crcu8(newval % 256, crc0);
    crc := Crcu8(newval / 256, crc);
    CrcOfTwo(newval % 256, newval / 256, crc0);
  }

  lemma CrcOfTwo(low: u8, high: u8, seed: u16)
    ensures Crc([low, high], seed) == Crc8(high, Crc8(low, seed))
  {
    hide Crc8;
    var s, t := [low, high], [low];
    assert s[..|s| - 1] == t && t[..|t| - 1] == [];
    assert Crc(t, seed) == Crc8(low, Crc([], seed));
    assert Crc(s, seed) == Crc8(high, Crc(t, seed));
  }

  /** crcu32: the low half first */
  method Crcu32(newval: u32, crc0: u16) returns (crc: u16)
    ensures crc == Crc([newval % 0x1_0000 % 256, newval % 0x1_0000 / 256,
                        newval / 0x1_0000 % 256, newval / 0x1_0000 / 256], crc0)
  {
    hide Crc8;
    var low: u16, high: u16 := newval % 0x1_0000, newval / 0x1_0000;
    crc := Crcu16(low, crc0);
    crc := Crcu16(high, crc);
    CrcOfConcatenation([low % 256, low / 256], [high % 256, high / 256], crc0);
    assert [low % 256, low / 256] + [high % 256, high / 256] == [low % 256, low / 256, high % 256, high / 256];
  }
}
