/** The precomputed tables of the optimised picture unit (apps/litenes_opt/src/ppu.c) against the direct decoding of the
    original (apps/litenes/src/ppu.c).
 */
module LiteNesOptPpu {
  import opened Bits

  type byte = x: int | 0 <= x < 256

  const PATTERN_SIZE: nat := 0x2000

  /** The colour of pixel x of a line whose two bit planes are high and low; the leftmost pixel is the top bit. */
  function Colour(high: byte, low: byte, x: nat): nat
    requires x < 8
  {
    (if GetBit(high, 7 - x) then 2 else 0) + (if GetBit(low, 7 - x) then 1 else 0)
  }

  /** A pixel by arithmetic: the bit of the high plane is worth 2, that of the low plane 1. */
  lemma ColourIs(high: byte, low: byte, x: nat)
    requires x < 8
    ensures var p := [128, 64, 32, 16, 8, 4, 2, 1][x]; Colour(high, low, x) == high / p % 2 * 2 + low / p % 2
  {
    hide GetBit;
    BitOfByte(high, 7 - x);
    BitOfByte(low, 7 - x);
  }

  lemma BitOfByte(b: byte, k: nat)
    requires k < 8
    ensures GetBit(b, k) <==> b / [1, 2, 4, 8, 16, 32, 64, 128][k] % 2 == 1
  {
    GetBitIs(b, k);
    Pow2Of4();
  }

  /** The loops over the pairs of bytes in table_init. */
  method MakeColours() returns (xhl: array2<nat>)
    ensures fresh(xhl) && xhl.Length0 == 0x1_0000 && xhl.Length1 == 8
    ensures forall high: byte, low: byte, x: nat | x < 8 :: xhl[high * 256 + low, x] == Colour(high, low, x)
  {
    hide GetBit;
    xhl := new nat[0x1_0000, 8];
    for h := 0 to 256
      invariant forall i, x | 0 <= i < h * 256 && 0 <= x < 8 :: xhl[i, x] == Colour(i / 256, i % 256, x)
    {
      for l := 0 to 256
        invariant forall i, x | 0 <= i < h * 256 + l && 0 <= x < 8 :: xhl[i, x] == Colour(i / 256, i % 256, x)
      {
        assert (h * 256 + l) / 256 == h && (h * 256 + l) % 256 == l;
        for x := 0 to 8
          invariant forall i, k | 0 <= i < h * 256 + l && 0 <= k < 8 :: xhl[i, k] == Colour(i / 256, i % 256, k)
          invariant forall k | 0 <= k < x :: xhl[h * 256 + l, k] == Colour(h, l, k)
        {
          xhl[h * 256 + l, x] := (if GetBit(h, 7 - x) then 2 else 0) + (if GetBit(l, 7 - x) then 1 else 0);
        }
      }
    }
    forall high: byte, low: byte, x: nat | x < 8
      ensures xhl[high * 256 + low, x] == Colour(high, low, x)
    {
      PairOf(high, low);
    }
  }

  lemma PairOf(high: byte, low: byte)
    ensures high * 256 + low < 0x1_0000 && (high * 256 + low) / 256 == high && (high * 256 + low) % 256 == low
  {
  }

  /** Where the low plane of a line of a tile is, for row = bank * 8 + line; the high plane is 8 bytes further on. */
  function PlaneAddress(row: nat, tile: nat): nat {
    row / 8 * 0x1000 + tile * 16 + row % 8
  }

  function Entry(low: nat, high: byte): nat {
    low + 256 * high
  }

  /** What is known of a table entry once the addresses below addr have been gone through. */
  ghost predicate IsEntry(entry: nat, ram: seq<byte>, addr: nat, row: nat, tile: nat)
    requires |ram| == PATTERN_SIZE && row < 16 && tile < 256
  {
    var low := PlaneAddress(row, tile);
    && (low < addr <= low + 8 ==> entry == ram[low])
    && (low + 8 < addr ==> entry == Entry(ram[low], ram[low + 8]))
  }

  /** The fields of an address are those of its table entry. */
  lemma AddressOf(row: nat, tile: nat, plane: nat)
    requires row < 16 && tile < 256 && plane < 2
    ensures var addr := PlaneAddress(row, tile) + 8 * plane;
            addr / 0x1000 * 8 + addr % 8 == row && addr / 16 % 256 == tile && addr / 8 % 2 == plane
  {
    var b, y := row / 8, row % 8;
    var addr := PlaneAddress(row, tile) + 8 * plane;
    DivModUnique(addr, 0x1000, b, 16 * tile + 8 * plane + y);
    DivModUnique(addr, 16, 256 * b + tile, 8 * plane + y);
    DivModUnique(256 * b + tile, 256, b, tile);
    DivModUnique(addr, 8, 512 * b + 2 * tile + plane, y);
    DivModUnique(512 * b + 2 * tile + plane, 2, 256 * b + tile, plane);
  }

  /** An address is in the one or the other plane of the entry that its fields lead to. */
  lemma AddressIs(addr: nat)
    requires addr < PATTERN_SIZE
    ensures addr / 0x1000 * 8 + addr % 8 < 16
    ensures addr == PlaneAddress(addr / 0x1000 * 8 + addr % 8, addr / 16 % 256) + 8 * (addr / 8 % 2)
  {
    var b, y, q := addr / 0x1000, addr % 8, addr / 8;
    DivModUnique(b * 8 + y, 8, b, y);
    assert addr == 8 * q + y;
    var p, t := q % 2, q / 2;
    assert q == 2 * t + p;
    DivModUnique(addr, 16, t, 8 * p + y);
    var c, tile := t / 256, t % 256;
    assert t == 256 * c + tile;
    DivModUnique(addr, 0x1000, c, 16 * tile + 8 * p + y);
  }

  /** One turn of the loop brings the entry of the address on and leaves all others as they are. */
  lemma EntryContinues(entry: nat, ram: seq<byte>, addr: nat, row': nat, tile': nat, plane: nat, row: nat, tile: nat)
    requires |ram| == PATTERN_SIZE && row < 16 && tile < 256 && addr < PATTERN_SIZE
    requires row' < 16 && tile' < 256 && plane < 2 && addr == PlaneAddress(row', tile') + 8 * plane
    requires IsEntry(entry, ram, addr, row, tile)
    ensures row == row' && tile == tile' ==>
              IsEntry(if plane == 1 then Entry(entry, ram[addr]) else ram[addr], ram, addr + 1, row, tile)
    ensures row != row' || tile != tile' ==> IsEntry(entry, ram, addr + 1, row, tile)
  {
    hide PlaneAddress, Entry;
    AddressOf(row, tile, 0);
    AddressOf(row, tile, 1);
    AddressOf(row', tile', plane);
  }

  /** The loop over the pattern table in table_init. */
  method MakeIndex(ram: array<byte>) returns (index: array2<nat>)
    requires ram.Length == PATTERN_SIZE
    ensures fresh(index) && index.Length0 == 16 && index.Length1 == 256
    ensures forall row, tile | 0 <= row < 16 && 0 <= tile < 256 ::
              index[row, tile] == Entry(ram[..][PlaneAddress(row, tile)], ram[..][PlaneAddress(row, tile) + 8])
  {
    hide IsEntry, PlaneAddress, Entry;
    index := new nat[16, 256];
    forall row, tile | 0 <= row < 16 && 0 <= tile < 256
      ensures IsEntry(index[row, tile], ram[..], 0, row, tile)
    {
      NoEntry(index[row, tile], ram[..], row, tile);
    }
    for addr := 0 to PATTERN_SIZE
      invariant forall row, tile | 0 <= row < 16 && 0 <= tile < 256 ::
                  IsEntry(index[row, tile], ram[..], addr, row, tile)
    {
      AddressIs(addr);
      var yInTile, bitplane, bank, tileIdx := addr % 8, addr / 8 % 2, addr / 0x1000, addr / 16 % 256;
      ghost var before := seq(16, r requires 0 <= r < 16 reads index =>
        seq(256, t requires 0 <= t < 256 reads index => index[r, t]));
      if bitplane == 1 {
        index[bank * 8 + yInTile, tileIdx] := Entry(index[bank * 8 + yInTile, tileIdx], ram[addr]);
      } else {
        index[bank * 8 + yInTile, tileIdx] := ram[addr];
      }
      forall row, tile | 0 <= row < 16 && 0 <= tile < 256
        ensures IsEntry(index[row, tile], ram[..], addr + 1, row, tile)
      {
        EntryContinues(before[row][tile], ram[..], addr, bank * 8 + yInTile, tileIdx, bitplane, row, tile);
      }
    }
    forall row, tile | 0 <= row < 16 && 0 <= tile < 256
      ensures PlaneAddress(row, tile) + 8 < PATTERN_SIZE
      ensures index[row, tile] == Entry(ram[..][PlaneAddress(row, tile)], ram[..][PlaneAddress(row, tile) + 8])
    {
      EntryEnds(index[row, tile], ram[..], row, tile);
    }
  }

  lemma NoEntry(entry: nat, ram: seq<byte>, row: nat, tile: nat)
    requires |ram| == PATTERN_SIZE && row < 16 && tile < 256
    ensures IsEntry(entry, ram, 0, row, tile)
  {
  }

  lemma EntryEnds(entry: nat, ram: seq<byte>, row: nat, tile: nat)
    requires |ram| == PATTERN_SIZE && row < 16 && tile < 256 && IsEntry(entry, ram, PATTERN_SIZE, row, tile)
    ensures PlaneAddress(row, tile) + 8 < PATTERN_SIZE
    ensures entry == Entry(ram[PlaneAddress(row, tile)], ram[PlaneAddress(row, tile) + 8])
  {
  }

  lemma EntryIs(low: byte, high: byte)
    ensures Entry(low, high) == high * 256 + low
  {
  }

  /** Looking a pixel up in the two tables decodes the two planes of its line. */
  method Lookup(xhl: array2<nat>, index: array2<nat>, ram: array<byte>, bank: nat, tile: nat, y: nat, x: nat)
    returns (colour: nat)
    requires xhl.Length0 == 0x1_0000 && xhl.Length1 == 8 && index.Length0 == 16 && index.Length1 == 256
    requires ram.Length == PATTERN_SIZE && bank < 2 && tile < 256 && y < 8 && x < 8
    requires forall high: byte, low: byte, i: nat | i < 8 :: xhl[high * 256 + low, i] == Colour(high, low, i)
    requires forall row, t | 0 <= row < 16 && 0 <= t < 256 ::
               index[row, t] == Entry(ram[..][PlaneAddress(row, t)], ram[..][PlaneAddress(row, t) + 8])
    ensures colour == Colour(ram[bank * 0x1000 + tile * 16 + y + 8], ram[bank * 0x1000 + tile * 16 + y], x)
  {
    hide Colour;
    var row := bank * 8 + y;
    DivModUnique(row, 8, bank, y);
    ghost var low := ram[PlaneAddress(row, tile)];
    ghost var high := ram[PlaneAddress(row, tile) + 8];
    PairOf(high, low);
    EntryIs(low, high);
    colour := xhl[index[row, tile], x];
  }

  // ---------- sprites by scanline ----------

  /** Sprite i covers a line, and is not hidden below the picture. */
  predicate Covers(ys: seq<byte>, height: nat, line: nat, i: nat)
    requires i < |ys|
  {
    ys[i] < 0xEF && ys[i] <= line < ys[i] + height
  }

  /** The sprites among the first n that cover a line, in order. */
  function Covering(ys: seq<byte>, height: nat, line: nat, n: nat): (r: seq<nat>)
    requires n <= |ys|
    ensures |r| <= n
  {
    if n == 0 then []
    else Covering(ys, height, line, n - 1) + if Covers(ys, height, line, n - 1) then [n - 1] else []
  }

  /** The list has the sprites that cover the line, and no others, with increasing numbers. */
  lemma {:induction false} CoveringIsExact(ys: seq<byte>, height: nat, line: nat, n: nat)
    requires n <= |ys|
    ensures forall i | 0 <= i < n ::
              i in Covering(ys, height, line, n) <==> ys[i] < 0xEF && ys[i] <= line < ys[i] + height
    ensures forall k | 0 <= k < |Covering(ys, height, line, n)| :: Covering(ys, height, line, n)[k] < n
    ensures forall k, l | 0 <= k < l < |Covering(ys, height, line, n)| ::
              Covering(ys, height, line, n)[k] < Covering(ys, height, line, n)[l]
  {
    if n > 0 {
      CoveringIsExact(ys, height, line, n - 1);
    }
  }

  /** The slots of a line hold the sprites among the first n that cover it. */
  ghost predicate HasLine(list: array2<nat>, count: array<nat>, ys: seq<byte>, height: nat, line: nat, n: nat)
    requires list.Length0 == 256 == count.Length && list.Length1 == 64 && line < 256 && n <= |ys| <= 64
    reads list, count
  {
    var sprites := Covering(ys, height, line, n);
    && count[line] == |sprites|
    && forall k | 0 <= k < |sprites| :: list[line, k] == sprites[k]
  }

  /** macro(x): the next slot of a line gets a sprite that covers it. */
  method AddSprite(list: array2<nat>, count: array<nat>, line: nat, i: nat, ghost ys: seq<byte>, ghost height: nat)
    requires list.Length0 == 256 == count.Length && list.Length1 == 64 && line < 256 && i < |ys| <= 64
    requires HasLine(list, count, ys, height, line, i) && Covers(ys, height, line, i)
    modifies list, count
    ensures HasLine(list, count, ys, height, line, i + 1)
    ensures forall l: nat, n: nat | l < 256 && l != line && n <= |ys| && old(HasLine(list, count, ys, height, l, n)) ::
              HasLine(list, count, ys, height, l, n)
  {
    list[line, count[line]] := i;
    count[line] := count[line] + 1;
  }

  lemma NotCovering(ys: seq<byte>, height: nat, line: nat, n: nat)
    requires n < |ys|
    ensures !Covers(ys, height, line, n) ==> Covering(ys, height, line, n + 1) == Covering(ys, height, line, n)
  {
  }

  /** make_sprite_per_scanline_list: no line gets more than its 64 slots, and no sprite reaches beyond line 255. */
  method MakeSpriteLists(ys: array<byte>, height: nat) returns (list: array2<nat>, count: array<nat>)
    requires ys.Length == 64 && (height == 8 || height == 16)
    ensures fresh(list) && fresh(count) && list.Length0 == 256 == count.Length && list.Length1 == 64
    ensures forall line: nat | line < 256 :: HasLine(list, count, ys[..], height, line, 64)
  {
    list, count := new nat[256, 64], new nat[256](_ => 0);
    for i := 0 to 64
      invariant forall line: nat | line < 256 :: HasLine(list, count, ys[..], height, line, i)
    {
      var y: nat := ys[i];
      ghost var next := i + 1;
      if y < 0xEF {
        AddSpriteLines(list, count, y, i, ys[..], height, next);
      }
      forall line: nat | line < 256
        ensures HasLine(list, count, ys[..], height, line, next)
      {
        NotCovering(ys[..], height, line, i);
        assert !Covers(ys[..], height, line, i) ==> HasLine(list, count, ys[..], height, line, i);
      }
    }
  }

  /** The lines of one sprite. */
  method AddSpriteLines(list: array2<nat>, count: array<nat>, y: nat, i: nat, ghost ys: seq<byte>, height: nat,
      ghost next: nat)
    requires list.Length0 == 256 == count.Length && list.Length1 == 64 && |ys| == 64 && i < 64 && next == i + 1
    requires y == ys[i] < 0xEF && (height == 8 || height == 16)
    requires forall line: nat | line < 256 :: HasLine(list, count, ys, height, line, i)
    modifies list, count
    ensures forall line: nat | line < 256 && Covers(ys, height, line, i) :: HasLine(list, count, ys, height, line, next)
    ensures forall line: nat | line < 256 && !Covers(ys, height, line, i) :: HasLine(list, count, ys, height, line, i)
  {
    hide HasLine;
    for x := 0 to height
      invariant forall line: nat | y <= line < y + x :: HasLine(list, count, ys, height, line, next)
      invariant forall line: nat | line < 256 && !(y <= line < y + x) :: HasLine(list, count, ys, height, line, i)
    {
      AddSprite(list, count, y + x, i, ys, height);
    }
  }
}
