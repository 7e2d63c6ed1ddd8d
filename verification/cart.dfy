/** Program banking of cartridges (apps/fceux/src/cart.cpp): the address space is a table of 2 KiB pages, and a bank is
    mapped in one piece or page by page, depending on the size of the chip.
 */
module Cart {
  import opened Bits

  type byte = x: int | 0 <= x < 256

  const PAGE: nat := 2048
  const PAGES: nat := 32

  /** A page pointer: the address itself is the index, behind an offset that may be negative. */
  datatype Pointer = Null | To(base: array<byte>, offset: int)

  /** A chip as SetupCartPRGMapping registers it; the masks of the bank sizes follow from the size. */
  datatype Chip = Chip(ptr: array?<byte>, size: u32, ram: bool)

  /** (size >> shift) - 1 */
  function Mask(size: u32, shift: nat): u32 {
    MaskFits(size, Pow2(shift));
    (size / Pow2(shift) - 1) % TWO32
  }

  lemma MaskFits(size: u32, p: nat)
    requires p > 0
    ensures 0 <= (size / p - 1) % TWO32 < TWO32
  {
  }

  // ---------- banks by modular arithmetic ----------

  lemma UnitSplits(v: nat, q: nat, n: nat, r: nat, unit: nat, below: nat)
    requires v == q * n + r && r < n && below < unit
    ensures v * unit + below == q * (n * unit) + (r * unit + below) && r * unit + below < n * unit
  {
    MulMonotone(r + 1, n, unit);
    SumTimes(r, 1, unit);
    SumTimes(q * n, r, unit);
    MulAssociates(q, n, unit);
  }

  /** A chip of n units: the unit that the masked number selects is where the unmasked one leads modulo the size. */
  lemma UnitIsModular(v: nat, n: nat, unit: nat, below: nat)
    requires n > 0 && below < unit
    ensures n * unit > 0 && (v * unit + below) % (n * unit) == v % n * unit + below
  {
    var q, r := v / n, v % n;
    DivModOf(v, n);
    UnitSplits(v, q, n, r, unit, below);
    MulNonNegative(v, unit);
    MulNonNegative(r, unit);
    MulNonNegative(q, n * unit);
    DivModUnique(v * unit + below, n * unit, q, r * unit + below);
  }

  lemma MulNonNegative(x: nat, y: nat)
    ensures x * y >= 0
  {
  }

  lemma MulAssociates(a: nat, b: nat, c: nat)
    ensures a * b * c == a * (b * c)
  {
  }

  /** Wrapping at 32 bits does not matter modulo a smaller power of two. */
  lemma WrapDoesNotMatter(x: nat, y: nat, j: nat)
    requires j <= 32
    ensures (x % TWO32 + y) % Pow2(j) == (x + y) % Pow2(j)
  {
    hide *;
    WordIs(x);
    var q, low := x / TWO32, x % TWO32;
    var p, k := Pow2(j), Pow2(32 - j);
    PowersMakeWord(j);
    MulAssociates(q, k, p);
    MulNonNegative(q, k);
    SameModulo(x + y, low + y, q * k, p);
  }

  lemma WordIs(x: nat)
    ensures TWO32 > 0 && x == x / TWO32 * TWO32 + x % TWO32 && x % TWO32 >= 0 && x / TWO32 >= 0
  {
  }

  lemma PowersMakeWord(j: nat)
    requires j <= 32
    ensures Pow2(32 - j) * Pow2(j) == TWO32 && Pow2(j) > 0
  {
    hide Pow2;
    Pow2Add(32 - j, j);
    Pow2Constants();
  }

  /** V & mask for a chip of 2^k bytes and units of 2^s bytes. */
  lemma MaskIsModulo(v: nat, k: nat, s: nat)
    requires s <= k < 32
    ensures Pow2(k) < TWO32 && And(v, Mask(Pow2(k), s)) == v % Pow2(k - s) && Pow2(k - s) * Pow2(s) == Pow2(k)
  {
    hide Pow2, And;
    Pow2Add(k - s, s);
    Pow2Constants();
    Pow2Monotone(k + 1, 32);
    Pow2Step(k + 1);
    DivModUnique(Pow2(k), Pow2(s), Pow2(k - s), 0);
    Pow2Monotone(k - s, k);
    SmallMod(Pow2(k - s) - 1, TWO32);
    AndMask(v, k - s);
  }

  /** Both ways to map a bank of 2^s bytes lead page x to the same place. */
  lemma PagesAgree(v: u32, k: nat, s: nat, x: nat)
    requires 11 <= k < 32 && 11 <= s <= 15 && x < Pow2(s - 11)
    ensures Pow2(k) < TWO32 && Pow2(k) > 0
    ensures k >= s ==>
              And(v, Mask(Pow2(k), s)) * Pow2(s) + x * PAGE == (v * Pow2(s) + x * PAGE) % Pow2(k)
    ensures And((v * Pow2(s - 11) % TWO32 + x) % TWO32, Mask(Pow2(k), 11)) * PAGE == (v * Pow2(s) + x * PAGE) % Pow2(k)
  {
    hide *;
    if k >= s {
      WholeAgrees(v, k, s, x);
    }
    PageAgrees(v, k, s, x);
  }

  lemma WholeAgrees(v: u32, k: nat, s: nat, x: nat)
    requires k < 32 && 11 <= s <= k && x < Pow2(s - 11)
    ensures 0 < Pow2(k) < TWO32
    ensures And(v, Mask(Pow2(k), s)) * Pow2(s) + x * PAGE == (v * Pow2(s) + x * PAGE) % Pow2(k)
  {
    hide *;
    MaskIsModulo(v, k, s);
    PowerIsPositive(k);
    PageSize();
    Pow2Add(s - 11, 11);
    PageInBank(x, Pow2(s - 11), Pow2(s));
    PowerIsPositive(k - s);
    UnitIsModular(v, Pow2(k - s), Pow2(s), x * PAGE);
  }

  lemma PowerIsPositive(k: nat)
    ensures Pow2(k) > 0
  {
  }

  lemma PageAgrees(v: u32, k: nat, s: nat, x: nat)
    requires 11 <= k < 32 && 11 <= s <= 15
    ensures 0 < Pow2(k) < TWO32
    ensures And((v * Pow2(s - 11) % TWO32 + x) % TWO32, Mask(Pow2(k), 11)) * PAGE == (v * Pow2(s) + x * PAGE) % Pow2(k)
  {
    hide *;
    PageSize();
    PowerIsPositive(k);
    PowerIsPositive(k - 11);
    Pow2Add(s - 11, 11);
    var c := Pow2(s - 11);
    PowerIsPositive(s - 11);
    MulNonNegative(v, c);
    WordIs(v * c);
    var va := v * c % TWO32 + x;
    WordIs(va);
    MaskIsModulo(va % TWO32, k, 11);
    WrapDoesNotMatter(va, 0, k - 11);
    WrapDoesNotMatter(v * c, x, k - 11);
    UnitIsModular(v * c + x, Pow2(k - 11), PAGE, 0);
    PagesOfBank(v, c, x);
  }

  lemma PageSize()
    ensures Pow2(11) == PAGE == 2048
  {
    Pow2Of4();
  }

  lemma PageInBank(x: nat, pages: nat, bank: nat)
    requires x < pages && bank == pages * PAGE
    ensures x * PAGE < bank
  {
  }

  lemma PagesOfBank(v: nat, c: nat, x: nat)
    ensures v * (c * PAGE) + x * PAGE == (v * c + x) * PAGE
  {
  }

  // ---------- the page table ----------

  /** p - A, or no page */
  function Shifted(ptr: array?<byte>, index: nat, address: nat): Pointer {
    if ptr == null then Null else To(ptr, index - address)
  }

  /** Where the source wants page x of a bank of 2^s bytes to lead: V * 2^s + x * 2048, modulo the size of the chip. */
  function Target(chip: Chip, address: nat, v: u32, s: nat, x: nat): Pointer
    requires chip.size > 0
  {
    Shifted(chip.ptr, (v * Pow2(s) + x * PAGE) % chip.size, address + x * PAGE)
  }

  class Bus {
    const page: array<Pointer>
    const isRam: array<bool>

    constructor ()
      ensures Valid() && fresh(page) && fresh(isRam)
    {
      page := new Pointer[PAGES](_ => Null);
      isRam := new bool[PAGES](_ => false);
    }

    predicate Valid() {
      page.Length == 32 && isRam.Length == 32
    }

    /** Pages from first on, count of them, are as before outside of the window. */
    twostate predicate OthersKept(first: nat, count: nat)
      reads page, isRam
    {
      && Valid() && (forall i | 0 <= i < 32 && !(first <= i < first + count) :: page[i] == old(page[i]))
      && forall i | 0 <= i < 32 && !(first <= i < first + count) :: isRam[i] == old(isRam[i])
    }

    /** setpageptr: count pages from an address on, filled from the last to the first. */
    method SetPagePtr(count: nat, address: nat, ptr: array?<byte>, index: nat, ram: bool)
      requires Valid() && address / PAGE + count <= 32
      modifies page, isRam
      ensures forall i | address / PAGE <= i < address / PAGE + count :: page[i] == Shifted(ptr, index, address)
      ensures forall i | address / PAGE <= i < address / PAGE + count :: isRam[i] == (ptr != null && ram)
      ensures OthersKept(address / PAGE, count)
    {
      var ab := address / PAGE;
      var x: int := count - 1;
      while x >= 0
        invariant -1 <= x < count
        invariant forall i | ab + x < i < ab + count :: page[i] == Shifted(ptr, index, address)
        invariant forall i | ab + x < i < ab + count :: isRam[i] == (ptr != null && ram)
        invariant forall i | 0 <= i < 32 && !(ab + x < i < ab + count) :: page[i] == old(page[i])
        invariant forall i | 0 <= i < 32 && !(ab + x < i < ab + count) :: isRam[i] == old(isRam[i])
      {
        if ptr != null {
          isRam[ab + x] := ram;
          page[ab + x] := To(ptr, index - address);
        } else {
          isRam[ab + x] := false;
          page[ab + x] := Null;
        }
        x := x - 1;
      }
    }

    /** The window has been mapped up to page x: every page leads to its target, and is RAM if the chip is. */
    ghost predicate IsMapped(chip: Chip, address: nat, v: u32, s: nat, x: nat)
      requires Valid() && chip.size > 0 && address / PAGE + x <= 32
      reads page, isRam
    {
      forall i | address / PAGE <= i < address / PAGE + x ::
        page[i] == Target(chip, address, v, s, i - address / PAGE) && isRam[i] == (chip.ptr != null && chip.ram)
    }

    /** setprg8r, setprg16r and setprg32r, for s == 13, 14 and 15 */
    method SetPrg(chip: Chip, address: nat, v: u32, s: nat, ghost k: nat)
      requires Valid() && 13 <= s <= 15 && 11 <= k < 32 && chip.size == Pow2(k)
      requires address % PAGE == 0 && address / PAGE + Pow2(s - 11) <= 32
      modifies page, isRam
      ensures IsMapped(chip, address, v, s, Pow2(s - 11)) && OthersKept(address / PAGE, Pow2(s - 11))
    {
      hide *;
      WholeBank(k, s);
      if chip.size >= Pow2(s) {
        MapWhole(chip, address, v, s, k);
      } else {
        MapPages(chip, address, v, s, k);
      }
    }

    method MapWhole(chip: Chip, address: nat, v: u32, s: nat, ghost k: nat)
      requires Valid() && 11 <= s <= 15 && 11 <= k < 32 && chip.size == Pow2(k) && k >= s
      requires address % PAGE == 0 && address / PAGE + Pow2(s - 11) <= 32
      modifies page, isRam
      ensures IsMapped(chip, address, v, s, Pow2(s - 11)) && OthersKept(address / PAGE, Pow2(s - 11))
    {
      hide Pow2, And, Mask, Target, Shifted;
      var w := And(v, Mask(chip.size, s));
      SetPagePtr(Pow2(s - 11), address, chip.ptr, w * Pow2(s), chip.ram);
      forall i | address / PAGE <= i < address / PAGE + Pow2(s - 11)
        ensures page[i] == Target(chip, address, v, s, i - address / PAGE)
      {
        TargetOfBank(chip, address, v, s, i - address / PAGE, k);
      }
    }

    method MapPages(chip: Chip, address: nat, v: u32, s: nat, ghost k: nat)
      requires Valid() && 11 <= s <= 15 && 11 <= k < 32 && chip.size == Pow2(k)
      requires address % PAGE == 0 && address / PAGE + Pow2(s - 11) <= 32
      modifies page, isRam
      ensures IsMapped(chip, address, v, s, Pow2(s - 11)) && OthersKept(address / PAGE, Pow2(s - 11))
    {
      hide Pow2, And, Mask, Target, Shifted;
      var va := v * Pow2(s - 11) % TWO32;
      for x := 0 to Pow2(s - 11)
        invariant IsMapped(chip, address, v, s, x) && OthersKept(address / PAGE, Pow2(s - 11))
      {
        PageAddress(address, x);
        TargetOfPage(chip, address, v, s, x, k);
        SetPagePtr(1, address + x * PAGE, chip.ptr, And((va + x) % TWO32, Mask(chip.size, 11)) * PAGE, chip.ram);
      }
    }

    /** setprg2r */
    method SetPrg2r(chip: Chip, address: nat, v: u32, ghost k: nat)
      requires Valid() && 11 <= k < 32 && chip.size == Pow2(k) && address % PAGE == 0 && address / PAGE < 32
      modifies page, isRam
      ensures IsMapped(chip, address, v, 11, 1) && OthersKept(address / PAGE, 1)
    {
      hide *;
      SmallPowers();
      MapWhole(chip, address, v, 11, k);
    }

    /** setprg4r: without a second branch, so that a chip of 2 KiB is overrun. The window is modular exactly if the chip
        has 4 KiB or more.
     */
    method SetPrg4r(chip: Chip, address: nat, v: u32, ghost k: nat)
      requires Valid() && 11 <= k < 32 && chip.size == Pow2(k) && address % PAGE == 0 && address / PAGE + 2 <= 32
      modifies page, isRam
      ensures chip.size > 0 && OthersKept(address / PAGE, 2)
      ensures IsMapped(chip, address, v, 12, 2) <==> chip.ptr == null || chip.size >= 4096
    {
      hide Pow2, And, Mask, Target, Shifted, IsMapped;
      SmallPowers();
      WordsOfSize(k);
      WholeBank(k, 12);
      var w := And(v, Mask(chip.size, 12));
      var index := w * 4096 % TWO32;
      SetPagePtr(2, address, chip.ptr, index, chip.ram);
      if chip.ptr == null {
        NoPages(index, chip, address, v);
      } else if chip.size >= 4096 {
        IndexFits(v, k);
        TargetOfBank(chip, address, v, 12, 0, k);
        TargetOfBank(chip, address, v, 12, 1, k);
      } else {
        SmallestChip(k);
        SecondPageIsWrong(chip, address, v, index);
      }
      MappedMeans(chip, address, v);
    }

    lemma MappedMeans(chip: Chip, address: nat, v: u32)
      requires Valid() && chip.size > 0 && address / PAGE + 2 <= 32
      ensures IsMapped(chip, address, v, 12, 2) <==>
              forall x | 0 <= x < 2 ::
                && page[address / PAGE + x] == Target(chip, address, v, 12, x)
                && isRam[address / PAGE + x] == (chip.ptr != null && chip.ram)
    {
      hide Target;
      var first := address / PAGE;
      assert page[first + 0] == page[first];
      assert IsMapped(chip, address, v, 12, 2) <==>
             && page[first] == Target(chip, address, v, 12, 0) && isRam[first] == (chip.ptr != null && chip.ram)
             && page[first + 1] == Target(chip, address, v, 12, 1)
             && isRam[first + 1] == (chip.ptr != null && chip.ram);
    }

    /** The page for an address leads to a byte of base at index. */
    predicate LeadsTo(address: nat, base: array<byte>, index: nat)
      requires Valid() && address < 65536
      reads page
    {
      page[address / PAGE].To? && page[address / PAGE].base == base && page[address / PAGE].offset + address == index
      && index < base.Length
    }

    /** CartBR */
    function Read(address: nat, ghost base: array<byte>, ghost index: nat): (value: byte)
      requires Valid() && address < 65536 && LeadsTo(address, base, index)
      reads page, base
      ensures value == base[index]
    {
      page[address / PAGE].base[page[address / PAGE].offset + address]
    }

    /** A read in the window gives the byte at V * 2^s + o, modulo the size of the chip. */
    lemma WindowIsModular(chip: Chip, address: nat, v: u32, s: nat, k: nat, o: nat)
      requires Valid() && 11 <= s <= 15 && 11 <= k < 32 && chip.size == Pow2(k)
      requires address % PAGE == 0 && address / PAGE + Pow2(s - 11) <= 32 && o < Pow2(s)
      requires IsMapped(chip, address, v, s, Pow2(s - 11)) && chip.ptr != null && chip.size <= chip.ptr.Length
      ensures address + o < 65536 && LeadsTo(address + o, chip.ptr, (v * Pow2(s) + o) % chip.size)
    {
      hide Pow2;
      PageSize();
      Pow2Add(s - 11, 11);
      Pow2Add(k - 11, 11);
      PageOfOffset(address, o, Pow2(s - 11));
      OffsetInChip(v * Pow2(s), o, Pow2(k - 11), v * Pow2(s - 11));
      PagesOfBank(v, Pow2(s - 11), 0);
    }

    /** CartBW: a byte of RAM changes, and is read back through every address that leads to it. */
    method Write(address: nat, value: byte)
      requires Valid() && address < 65536
      requires page[address / PAGE].To? ==>
                 0 <= page[address / PAGE].offset + address < page[address / PAGE].base.Length
      modifies if page[address / PAGE].To? then {page[address / PAGE].base} else {}
      ensures isRam[address / PAGE] && page[address / PAGE].To? ==>
                var base, index := page[address / PAGE].base, page[address / PAGE].offset + address;
                && (forall i | 0 <= i < base.Length :: base[i] == if i == index then value else old(base[i]))
                && forall alias | 0 <= alias < 65536 && LeadsTo(alias, base, index) :: Read(alias, base, index) == value
      ensures !isRam[address / PAGE] && page[address / PAGE].To? ==>
                page[address / PAGE].base[..] == old(page[address / PAGE].base[..])
    {
      var p := page[address / PAGE];
      if isRam[address / PAGE] && p.To? {
        p.base[p.offset + address] := value;
      }
    }
  }

  lemma PageOfOffset(address: nat, o: nat, pages: nat)
    requires address % PAGE == 0 && address / PAGE + pages <= 32 && o < pages * PAGE
    ensures (address + o) / PAGE == address / PAGE + o / PAGE && o / PAGE < pages && address + o < 65536
  {
  }

  lemma OffsetInChip(start: nat, o: nat, n: nat, pages: nat)
    requires n > 0 && start == pages * PAGE
    ensures n * PAGE > 0
    ensures (start + o / PAGE * PAGE) % (n * PAGE) + o % PAGE == (start + o) % (n * PAGE)
  {
    UnitIsModular(pages + o / PAGE, n, PAGE, 0);
    UnitIsModular(pages + o / PAGE, n, PAGE, o % PAGE);
  }

  lemma WholeBank(k: nat, s: nat)
    ensures Pow2(k) >= Pow2(s) <==> k >= s
  {
    if k < s {
      Pow2Monotone(k + 1, s);
      Pow2Step(k + 1);
    } else {
      Pow2Monotone(s, k);
    }
  }

  lemma PageAddress(address: nat, x: nat)
    requires address % PAGE == 0
    ensures (address + x * PAGE) / PAGE == address / PAGE + x && (address + x * PAGE) % PAGE == 0
  {
    DivModUnique(address + x * PAGE, PAGE, address / PAGE + x, 0);
  }

  lemma TargetOfBank(chip: Chip, address: nat, v: u32, s: nat, x: nat, k: nat)
    requires 11 <= k < 32 && 11 <= s <= 15 && x < Pow2(s - 11) && chip.size == Pow2(k) && k >= s
    ensures Shifted(chip.ptr, And(v, Mask(chip.size, s)) * Pow2(s), address) == Target(chip, address, v, s, x)
  {
    hide Pow2, And, Mask;
    PagesAgree(v, k, s, x);
  }

  lemma TargetOfPage(chip: Chip, address: nat, v: u32, s: nat, x: nat, k: nat)
    requires 11 <= k < 32 && 11 <= s <= 15 && x < Pow2(s - 11) && chip.size == Pow2(k)
    ensures Shifted(chip.ptr, And((v * Pow2(s - 11) % TWO32 + x) % TWO32, Mask(chip.size, 11)) * PAGE,
                    address + x * PAGE) == Target(chip, address, v, s, x)
  {
    hide Pow2, And, Mask;
    PagesAgree(v, k, s, x);
  }

  /** A bank number that has been masked stays inside the chip when it is shifted. */
  lemma IndexFits(v: u32, k: nat)
    requires 12 <= k < 32
    ensures 0 < Pow2(k) < TWO32 && Pow2(12) == 4096
    ensures And(v, Mask(Pow2(k), 12)) * 4096 % TWO32 == And(v, Mask(Pow2(k), 12)) * Pow2(12)
  {
    hide *;
    PageSize();
    Pow2Step(12);
    PowerIsPositive(k);
    PowerIsPositive(k - 12);
    MaskIsModulo(v, k, 12);
    BelowProduct(v % Pow2(k - 12), Pow2(k - 12), 4096);
    SmallMod(v % Pow2(k - 12) * 4096, TWO32);
  }

  lemma SmallPowers()
    ensures Pow2(0) == 1 && Pow2(1) == 2 && Pow2(12) == 4096
  {
    PageSize();
    Pow2Step(12);
  }

  lemma WordsOfSize(k: nat)
    requires k < 32
    ensures 0 < Pow2(k) < TWO32
  {
    PowerIsPositive(k);
    Pow2Monotone(k + 1, 32);
    Pow2Step(k + 1);
    hide Pow2;
    Pow2Constants();
  }

  lemma NoPages(index: nat, chip: Chip, address: nat, v: u32)
    requires chip.ptr == null && chip.size > 0
    ensures Shifted(null, index, address) == Target(chip, address, v, 12, 0) == Target(chip, address, v, 12, 1)
  {
  }

  lemma BelowProduct(x: nat, n: nat, unit: nat)
    requires x < n
    ensures 0 <= x * unit <= n * unit
    ensures unit > 0 ==> x * unit < n * unit
  {
    MulMonotone(x + 1, n, unit);
    SumTimes(x, 1, unit);
  }

  lemma SmallestChip(k: nat)
    requires 11 <= k && Pow2(k) < 4096
    ensures Pow2(k) == 2048
  {
    hide Pow2;
    PageSize();
    Pow2Step(12);
    if k >= 12 {
      Pow2Monotone(12, k);
    }
  }

  /** On a chip of one page the second page of a window should lead to the first byte, and is mapped behind it. */
  lemma SecondPageIsWrong(chip: Chip, address: nat, v: u32, index: nat)
    requires chip.ptr != null && chip.size == 2048
    ensures Shifted(chip.ptr, index, address) != Target(chip, address, v, 12, 1)
  {
    var start := v * Pow2(12) + 1 * PAGE;
    assert 0 <= start % 2048;
  }
}
