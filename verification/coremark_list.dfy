/** The linked-list engine of CoreMark (apps/coremark/src/core_list_join.c).

    Nodes and their data are heap objects that the benchmark rewrites in place. A 16-bit data word is held as the
    unsigned reading of its bit pattern, so that a mask or a shift of the source is a remainder or a quotient here.
 */
module CoreMarkList {
  import opened MergeRuns
  import Bits
  import CoreMarkCrc
  import opened Sequences

  type s16 = x: int | -0x8000 <= x < 0x8000
  type u16 = x: int | 0 <= x < 0x1_0000

  /** A datum; its index is set once, when the list is made. */
  class ListData {
    var data16: u16
    const idx: s16

    constructor (data16: u16, idx: s16)
      ensures this.data16 == data16 && this.idx == idx
    {
      this.data16, this.idx := data16, idx;
    }
  }

  class ListHead {
    var next: ListHead?
    var info: ListData

    constructor (next: ListHead?, info: ListData)
      ensures this.next == next && this.info == info
    {
      this.next, this.info := next, info;
    }
  }

  class Results {
    const list: ListHead
    const seed3: s16
    var crc: u16
    var crcmatrix: u16
    var crcstate: u16

    constructor (list: ListHead, seed3: s16, crc: u16)
      ensures this.list == list && this.seed3 == seed3 && this.crc == crc
    {
      this.list, this.seed3, this.crc := list, seed3, crc;
      crcmatrix, crcstate := 0, 0;
    }
  }

  // ---------- the data word ----------

  /** Bit 7: the low seven bits are a cached result. */
  predicate IsCached(d: u16) {
    d / 128 % 2 == 1
  }

  function CacheKey(d: u16): u16 {
    d % 128
  }

  /** (d & 0xff00) | 0x0080 | (r & 0x7f) */
  function WithCache(d: u16, r: u16): u16 {
    d / 256 * 256 + 128 + r % 128
  }

  /** (d & 0xff00) | (0x00ff & (d >> 8)): the low byte is rebuilt from its backup in the high byte. */
  function Rebuilt(d: u16): u16 {
    d / 256 * 256 + d / 256
  }

  lemma CachingKeepsTheBackup(d: u16, r: u16)
    ensures IsCached(WithCache(d, r)) && CacheKey(WithCache(d, r)) == r % 128
    ensures Rebuilt(WithCache(d, r)) == Rebuilt(d)
  {
    Bits.DivModUnique(WithCache(d, r), 256, d / 256, 128 + r % 128);
    Bits.DivModUnique(WithCache(d, r), 128, 2 * (d / 256) + 1, r % 128);
  }

  lemma RebuildingIsIdempotent(d: u16)
    ensures Rebuilt(Rebuilt(d)) == Rebuilt(d)
  {
  }

  // ---------- comparators ----------

  /** The results block that a comparator may write to, if it was given one. */
  ghost function Scratch(res: Results?): set<Results> {
    if res == null then {} else {res}
  }

  /** A benchmark of another file; nothing is known about the value that it returns. */
  method Benchmark() returns (r: u16) {
    r := *;
  }

  /** crc16 and crcu16: a word enters low byte first. */
  method Crc16(newval: u16, crc: u16) returns (r: u16)
    ensures r == CoreMarkCrc.Crc([newval % 256, newval / 256], crc)
  {
    r := CoreMarkCrc.Crcu16(newval, crc);
  }

  /** The 7-bit value of a data word: cached on first evaluation and fixed from then on. */
  method CalcFunc(d: ListData, res: Results) returns (retval: u16, ghost value: u16)
    modifies d`data16, res`crc, res`crcstate, res`crcmatrix
    ensures IsCached(d.data16) && retval == CacheKey(d.data16)
    ensures Rebuilt(d.data16) == old(Rebuilt(d.data16))
    ensures old(IsCached(d.data16)) ==>
              d.data16 == old(d.data16) && unchanged(res)
    ensures old(!IsCached(d.data16)) ==>
              && retval == value % 128 && d.data16 == old(d.data16) / 256 * 256 + 128 + value % 128
              && res.crc == CoreMarkCrc.Crc([value % 256, value / 256], old(res.crc))
              && (old(d.data16) % 8 >= 2 ==> value == old(d.data16))
              && res.crcstate == (if old(d.data16) % 8 == 0 && old(res.crcstate) == 0 then value else old(res.crcstate))
              && res.crcmatrix ==
                 (if old(d.data16) % 8 == 1 && old(res.crcmatrix) == 0 then value else old(res.crcmatrix))
  {
    hide CoreMarkCrc.Crc;
    var data := d.data16;
    if data / 128 % 2 == 1 {
      return data % 128, data;
    }
    var flag := data % 8;
    match flag {
      case 0 =>
        retval := Benchmark();
        if res.crcstate == 0 {
          res.crcstate := retval;
        }
      case 1 =>
        retval := Benchmark();
        if res.crcmatrix == 0 {
          res.crcmatrix := retval;
        }
      case _ =>
        retval := data;
    }
    value := retval;
    res.crc := Crc16(retval, res.crc);
    retval := retval % 128;
    CachingKeepsTheBackup(data, retval);
    d.data16 := data / 256 * 256 + 128 + retval;
  }

  /** The two comparison functions that are handed to the sort. */
  datatype Comparator = CmpComplex | CmpIdx

  function KeyOf(cmp: Comparator, data16: u16, idx: s16): int {
    match cmp
    case CmpComplex => CacheKey(data16)
    case CmpIdx => idx
  }

  /** A comparator that has looked at a datum with this word leaves it alone from then on. */
  predicate IsSettled(cmp: Comparator, rebuild: bool, d: u16) {
    match cmp
    case CmpComplex => IsCached(d)
    case CmpIdx => rebuild ==> d == Rebuilt(d)
  }

  /** What a comparator may make of the data word d of a datum that it looks at. */
  predicate IsComparison(cmp: Comparator, rebuild: bool, d: u16, d': u16) {
    && IsSettled(cmp, rebuild, d')
    && Rebuilt(d') == Rebuilt(d)
    && (IsSettled(cmp, rebuild, d) ==> d' == d)
  }

  method CmpComplexData(a: ListData, b: ListData, res: Results) returns (r: int)
    modifies a`data16, b`data16, res
    ensures IsComparison(CmpComplex, false, old(a.data16), a.data16)
    ensures IsComparison(CmpComplex, false, old(b.data16), b.data16)
    ensures r == KeyOf(CmpComplex, a.data16, a.idx) - KeyOf(CmpComplex, b.data16, b.idx)
    ensures r == a.data16 % 128 - b.data16 % 128
  {
    var val1, _ := CalcFunc(a, res);
    var val2, _ := CalcFunc(b, res);
    r := val1 as int - val2 as int;
  }

  method CmpIdxData(a: ListData, b: ListData, res: Results?) returns (r: int)
    modifies a`data16, b`data16
    ensures IsComparison(CmpIdx, res == null, old(a.data16), a.data16)
    ensures IsComparison(CmpIdx, res == null, old(b.data16), b.data16)
    ensures r == KeyOf(CmpIdx, a.data16, a.idx) - KeyOf(CmpIdx, b.data16, b.idx)
    ensures r == a.idx - b.idx
    ensures res == null ==> a.data16 == old(a.data16) / 256 * 257 && b.data16 == old(b.data16) / 256 * 257
  {
    if res == null {
      RebuildingIsIdempotent(a.data16);
      RebuildingIsIdempotent(b.data16);
      a.data16 := a.data16 / 256 * 256 + a.data16 / 256;
      b.data16 := b.data16 / 256 * 256 + b.data16 / 256;
    }
    r := a.idx - b.idx;
  }

  /** A call through the function pointer cmp. */
  method Compare(cmp: Comparator, a: ListData, b: ListData, res: Results?) returns (r: int)
    requires cmp.CmpComplex? ==> res != null
    modifies a`data16, b`data16, Scratch(res)
    ensures IsComparison(cmp, res == null, old(a.data16), a.data16)
    ensures IsComparison(cmp, res == null, old(b.data16), b.data16)
    ensures r == KeyOf(cmp, a.data16, a.idx) - KeyOf(cmp, b.data16, b.idx)
  {
    match cmp
    case CmpComplex => r := CmpComplexData(a, b, res);
    case CmpIdx => r := CmpIdxData(a, b, res);
  }

  // ---------- the data of a list ----------

  ghost function Words(ds: seq<ListData>): (ws: seq<u16>)
    reads ds`data16
    ensures |ws| == |ds|
    ensures forall i | 0 <= i < |ds| :: ws[i] == ds[i].data16
  {
    if ds == [] then [] else [ds[0].data16] + Words(ds[1..])
  }

  ghost function Indices(ds: seq<ListData>): (xs: seq<s16>)
    ensures |xs| == |ds|
    ensures forall i | 0 <= i < |ds| :: xs[i] == ds[i].idx
  {
    if ds == [] then [] else [ds[0].idx] + Indices(ds[1..])
  }

  /** The keys recorded so far are those of the data, which the comparator will not change any more. */
  ghost predicate KeysAgree(cmp: Comparator, rebuild: bool, ws: seq<u16>, xs: seq<s16>, keys: Keys) {
    |ws| == |xs| &&
    forall x | x in keys :: x < |ws| && IsSettled(cmp, rebuild, ws[x]) && KeyOf(cmp, ws[x], xs[x]) == keys[x]
  }

  /** What any number of comparisons may do to the data words. */
  ghost predicate AreKept(cmp: Comparator, rebuild: bool, ws: seq<u16>, ws': seq<u16>) {
    |ws| == |ws'| &&
    forall i | 0 <= i < |ws| ::
      && Rebuilt(ws'[i]) == Rebuilt(ws[i])
      && (IsSettled(cmp, rebuild, ws[i]) ==> ws'[i] == ws[i])
  }

  lemma KeepingIsReflexive(cmp: Comparator, rebuild: bool, ws: seq<u16>)
    ensures AreKept(cmp, rebuild, ws, ws)
  {
  }

  lemma KeepingIsTransitive(cmp: Comparator, rebuild: bool, ws: seq<u16>, ws': seq<u16>, ws'': seq<u16>)
    requires AreKept(cmp, rebuild, ws, ws') && AreKept(cmp, rebuild, ws', ws'')
    ensures AreKept(cmp, rebuild, ws, ws'')
  {
    hide Rebuilt, IsSettled;
  }

  /** A comparison of the data at x and y settles both and leaves everything that was settled alone. */
  lemma ComparingSettles(cmp: Comparator, rebuild: bool, ws: seq<u16>, ws': seq<u16>, xs: seq<s16>,
                         x: nat, y: nat, keys: Keys)
    requires KeysAgree(cmp, rebuild, ws, xs, keys) && |ws'| == |ws| && x < |ws| && y < |ws|
    requires forall i | 0 <= i < |ws| :: ws'[i] == ws[i] || IsComparison(cmp, rebuild, ws[i], ws'[i])
    requires IsComparison(cmp, rebuild, ws[x], ws'[x]) && IsComparison(cmp, rebuild, ws[y], ws'[y])
    ensures AreKept(cmp, rebuild, ws, ws')
    ensures var keys' := keys[x := KeyOf(cmp, ws'[x], xs[x])][y := KeyOf(cmp, ws'[y], xs[y])];
            KeysAgree(cmp, rebuild, ws', xs, keys') && Extends(keys, keys')
  {
    hide Rebuilt, IsSettled, KeyOf;
  }

  // ---------- chains of nodes ----------

  ghost function NodeAt(ns: seq<ListHead>, c: seq<nat>, i: nat): ListHead?
    requires i <= |c| && Positions(c, |ns|)
  {
    if i < |c| then ns[c[i]] else null
  }

  lemma EndIsNull(ns: seq<ListHead>, c: seq<nat>, i: nat)
    requires i <= |c| && Positions(c, |ns|)
    ensures NodeAt(ns, c, i) == null <==> i == |c|
  {
  }

  /** The nodes of ns, taken in the order of the positions c, form a null-terminated list that starts at list. */
  ghost predicate IsChain(ns: seq<ListHead>, c: seq<nat>, list: ListHead?)
    reads ns`next
  {
    && Positions(c, |ns|)
    && list == NodeAt(ns, c, 0)
    && forall i | 0 <= i < |c| :: ns[c[i]].next == NodeAt(ns, c, i + 1)
  }

  /** As IsChain, but the last node, tail, may still point anywhere. */
  ghost predicate IsSegment(ns: seq<ListHead>, c: seq<nat>, list: ListHead?, tail: ListHead?)
    reads ns`next
  {
    && Positions(c, |ns|)
    && list == NodeAt(ns, c, 0)
    && tail == (if c == [] then null else ns[c[|c| - 1]])
    && forall i | 0 <= i < |c| - 1 :: ns[c[i]].next == NodeAt(ns, c, i + 1)
  }

  lemma SegmentIsNotEmpty(ns: seq<ListHead>, c: seq<nat>, list: ListHead?, tail: ListHead?)
    requires IsSegment(ns, c, list, tail) && c != []
    ensures list != null && tail != null
  {
  }

  /** The nodes at c[pi..m] and c[qi..] still have the links that they had when the pass began. */
  ghost predicate LinksIntact(ns: seq<ListHead>, c: seq<nat>, pi: nat, m: nat, qi: nat)
    requires m <= |c| && Positions(c, |ns|)
    reads ns`next
  {
    forall k | pi <= k < m || qi <= k < |c| :: ns[c[k]].next == NodeAt(ns, c, k + 1)
  }

  /** Taking the node at c[pi] or at c[qi] away: it points to its successor, and the links of the rest are intact. */
  lemma LinksShrink(ns: seq<ListHead>, c: seq<nat>, pi: nat, m: nat, qi: nat, fromP: bool)
    requires m <= |c| && Positions(c, |ns|) && LinksIntact(ns, c, pi, m, qi)
    requires if fromP then pi < m else qi < |c|
    ensures var k := if fromP then pi else qi;
            NodeAt(ns, c, k) != null && c[k] < |ns| && NodeAt(ns, c, k) == ns[c[k]]
            && NodeAt(ns, c, k).next == NodeAt(ns, c, k + 1)
    ensures LinksIntact(ns, c, if fromP then pi + 1 else pi, m, if fromP then qi else qi + 1)
  {
  }

  lemma ChainHasLinks(ns: seq<ListHead>, c: seq<nat>, list: ListHead)
    requires IsChain(ns, c, list)
    ensures Positions(c, |ns|) && list == NodeAt(ns, c, 0) && c != []
    ensures LinksIntact(ns, c, 0, 0, 0) && IsSegment(ns, [], null, null)
  {
  }

  lemma LinksFrom(ns: seq<ListHead>, c: seq<nat>, b: nat, m: nat)
    requires b <= m <= |c| && Positions(c, |ns|) && LinksIntact(ns, c, b, b, b)
    ensures LinksIntact(ns, c, b, m, m)
  {
  }

  lemma LinksUpTo(ns: seq<ListHead>, c: seq<nat>, m: nat, e: nat)
    requires m <= e <= |c| && Positions(c, |ns|) && LinksIntact(ns, c, m, m, e)
    ensures LinksIntact(ns, c, e, e, e)
  {
  }

  ghost function Successor(ns: seq<ListHead>, i: nat): ListHead?
    requires i < |ns|
  {
    if i + 1 < |ns| then ns[i + 1] else null
  }

  /** The nodes ns form a null-terminated list that starts at list. */
  ghost predicate IsList(ns: seq<ListHead>, list: ListHead?)
    reads ns`next
  {
    && list == (if ns == [] then null else ns[0])
    && forall i | 0 <= i < |ns| :: ns[i].next == Successor(ns, i)
  }

  /** A null-terminated list cannot come back to one of its nodes. */
  lemma ListIsInjective(ns: seq<ListHead>, list: ListHead?)
    requires IsList(ns, list)
    ensures Injective(ns)
  {
    forall i, j | 0 <= i < j < |ns|
      ensures ns[i] != ns[j]
    {
      if ns[i] == ns[j] {
        SameNodeSameRest(ns, list, i, j);
      }
    }
  }

  lemma SameNodeSameRest(ns: seq<ListHead>, list: ListHead?, i: nat, j: nat)
    requires IsList(ns, list) && i < j < |ns|
    ensures ns[i] != ns[j]
    decreases |ns| - j
  {
    if ns[i] == ns[j] {
      assert Successor(ns, i) == Successor(ns, j);
      if j + 1 < |ns| {
        SameNodeSameRest(ns, list, i + 1, j + 1);
      }
    }
  }

  lemma ListStarts(ns: seq<ListHead>, list: ListHead)
    requires IsList(ns, list)
    ensures Injective(ns) && |ns| > 0 && IsChain(ns, Identity(|ns|), list)
  {
    ListIsInjective(ns, list);
    var c := Identity(|ns|);
    forall i | 0 <= i < |ns|
      ensures ns[c[i]].next == NodeAt(ns, c, i + 1)
    {
      assert c[i] == i && (i + 1 < |ns| ==> c[i + 1] == i + 1);
      assert ns[i].next == Successor(ns, i);
    }
  }

  lemma NothingAgrees(cmp: Comparator, rebuild: bool, ws: seq<u16>, xs: seq<s16>)
    requires |ws| == |xs|
    ensures KeysAgree(cmp, rebuild, ws, xs, map[])
  {
  }

  /** ds[i] is the data of node ns[i]; the sort never re-pairs nodes and data. */
  ghost predicate IsPaired(ns: seq<ListHead>, ds: seq<ListData>)
    reads ns`info
  {
    |ns| == |ds| && forall i | 0 <= i < |ns| :: ns[i].info == ds[i]
  }

  lemma PairedLengths(ns: seq<ListHead>, ds: seq<ListData>)
    requires IsPaired(ns, ds)
    ensures |ns| == |ds|
  {
  }

  /** The list c is sorted by the keys of the data, and data with equal keys are in their original order. */
  ghost predicate IsSortedStably(cmp: Comparator, ws: seq<u16>, xs: seq<s16>, c: seq<nat>) {
    && |ws| == |xs| && Positions(c, |ws|)
    && forall i, j | 0 <= i < j < |c| ::
         var x, y := c[i], c[j];
         KeyOf(cmp, ws[x], xs[x]) < KeyOf(cmp, ws[y], xs[y])
         || (KeyOf(cmp, ws[x], xs[x]) == KeyOf(cmp, ws[y], xs[y]) && x < y)
  }

  /** What that says for each comparator: by the cached seven bits, or by the index. */
  lemma SortedStablyMeans(ws: seq<u16>, xs: seq<s16>, c: seq<nat>)
    requires |ws| == |xs| && Positions(c, |ws|)
    ensures IsSortedStably(CmpComplex, ws, xs, c) <==>
            forall i, j | 0 <= i < j < |c| ::
              ws[c[i]] % 128 < ws[c[j]] % 128 || (ws[c[i]] % 128 == ws[c[j]] % 128 && c[i] < c[j])
    ensures IsSortedStably(CmpIdx, ws, xs, c) <==>
            forall i, j | 0 <= i < j < |c| :: xs[c[i]] < xs[c[j]] || (xs[c[i]] == xs[c[j]] && c[i] < c[j])
  {
  }

  ghost predicate AreSettled(cmp: Comparator, rebuild: bool, ws: seq<u16>) {
    forall i | 0 <= i < |ws| :: IsSettled(cmp, rebuild, ws[i])
  }

  /** In a sorted list of at least two nodes every node has been compared, so every key is recorded. */
  lemma SortIsByTheKeysInTheHeap(cmp: Comparator, rebuild: bool, ws: seq<u16>, xs: seq<s16>, c: seq<nat>, keys: Keys)
    requires KeysAgree(cmp, rebuild, ws, xs, keys) && IsStableSort(c, keys) && |c| == |ws|
    ensures IsSortedStably(cmp, ws, xs, c)
    ensures IsRearrangement(c, |ws|)
    ensures |ws| >= 2 ==> AreSettled(cmp, rebuild, ws)
  {
    hide IsSettled, KeyOf;
    forall i, j | 0 <= i < j < |c|
      ensures c[i] in keys && c[j] in keys
    {
      assert Before(keys, c[i], c[j]);
    }
    if |ws| >= 2 {
      PositionsAreAll(c);
      forall x | 0 <= x < |ws|
        ensures IsSettled(cmp, rebuild, ws[x])
      {
        assert x in c;
        var i :| 0 <= i < |c| && c[i] == x;
        assert Before(keys, c[0], c[if i == 0 then 1 else i]);
      }
    }
  }

  /** An asymmetric relation puts the positions into one order at most. */
  lemma StrictOrderIsUnique(before: (nat, nat) -> bool, c: seq<nat>, d: seq<nat>)
    requires IsRearrangement(c, |c|) && IsRearrangement(d, |c|)
    requires forall x, y :: before(x, y) ==> !before(y, x)
    requires forall i, j | 0 <= i < j < |c| :: before(c[i], c[j])
    requires forall i, j | 0 <= i < j < |d| :: before(d[i], d[j])
    ensures c == d
  {
    var i := 0;
    while i < |c|
      invariant 0 <= i <= |c| && c[..i] == d[..i]
    {
      var j := OccursNotBefore(c, d, i);
      var k := OccursNotBefore(d, c, i);
      assert c[..i + 1] == c[..i] + [c[i]] && d[..i + 1] == d[..i] + [d[i]];
      i := i + 1;
    }
  }

  /** There is one stable sorted arrangement only. */
  lemma StableSortIsUnique(cmp: Comparator, ws: seq<u16>, xs: seq<s16>, c: seq<nat>, d: seq<nat>)
    requires IsRearrangement(c, |ws|) && IsRearrangement(d, |ws|)
    requires IsSortedStably(cmp, ws, xs, c) && IsSortedStably(cmp, ws, xs, d)
    ensures c == d
  {
    hide KeyOf;
    var before := (x: nat, y: nat) =>
      x < |ws| == |xs| && y < |ws|
      && (KeyOf(cmp, ws[x], xs[x]) < KeyOf(cmp, ws[y], xs[y])
          || (KeyOf(cmp, ws[x], xs[x]) == KeyOf(cmp, ws[y], xs[y]) && x < y));
    StrictOrderIsUnique(before, c, d);
  }

  // ---------- merge sort ----------

  method CompareNodes(cmp: Comparator, p: ListHead, q: ListHead, res: Results?,
                      ghost ns: seq<ListHead>, ghost ds: seq<ListData>, ghost x: nat, ghost y: nat, ghost keys: Keys)
    returns (r: int, ghost keys': Keys)
    requires cmp.CmpComplex? ==> res != null
    requires x < |ns| && y < |ns| && ns[x] == p && ns[y] == q
    requires IsPaired(ns, ds) && KeysAgree(cmp, res == null, Words(ds), Indices(ds), keys)
    modifies ds`data16, Scratch(res)
    ensures KeysAgree(cmp, res == null, Words(ds), Indices(ds), keys') && Extends(keys, keys')
    ensures x in keys' && y in keys' && r == keys'[x] - keys'[y]
    ensures AreKept(cmp, res == null, old(Words(ds)), Words(ds))
  {
    hide IsComparison, KeyOf, KeysAgree, AreKept, Words, Indices;
    ghost var ws := Words(ds);
    r := Compare(cmp, p.info, q.info, res);
    ComparingSettles(cmp, res == null, ws, Words(ds), Indices(ds), x, y, keys);
    keys' := keys[x := KeyOf(cmp, p.info.data16, p.info.idx)][y := KeyOf(cmp, q.info.data16, q.info.idx)];
  }

  /** Decide whether the next element of the merge comes from p or from q. */
  method NextIsFromP(cmp: Comparator, p: ListHead?, psize: nat, q: ListHead?, qsize: nat, res: Results?,
                     ghost ns: seq<ListHead>, ghost ds: seq<ListData>, ghost g: Merge,
                     ghost pi: nat, ghost qi: nat, ghost keys: Keys)
    returns (fromP: bool, ghost keys': Keys)
    requires cmp.CmpComplex? ==> res != null
    requires pi <= g.m <= qi <= g.e <= |g.c| && Positions(g.c, |ns|)
    requires psize == g.m - pi && (qsize == 0 || q == null <==> qi == g.e)
    requires psize > 0 || qi < g.e
    requires (pi < g.m ==> p == NodeAt(ns, g.c, pi)) && q == NodeAt(ns, g.c, qi)
    requires IsPaired(ns, ds) && KeysAgree(cmp, res == null, Words(ds), Indices(ds), keys)
    modifies ds`data16, Scratch(res)
    ensures KeysAgree(cmp, res == null, Words(ds), Indices(ds), keys') && Extends(keys, keys')
    ensures AreKept(cmp, res == null, old(Words(ds)), Words(ds))
    ensures if fromP then MayTakeP(g, keys', pi, qi) else MayTakeQ(g, keys', pi, qi)
  {
    hide KeysAgree, AreKept, IsPaired, Words, Indices;
    keys' := keys;
    KeepingIsReflexive(cmp, res == null, Words(ds));
    if psize == 0 {
      fromP := false;
    } else if qsize == 0 || q == null {
      fromP := true;
    } else {
      var r;
      r, keys' := CompareNodes(cmp, p, q, res, ns, ds, g.c[pi], g.c[qi], keys);
      fromP := r <= 0;
    }
  }

  /** if (tail) tail->next = e; else list = e; tail = e; */
  method Append(list0: ListHead?, tail0: ListHead?, next: ListHead,
                ghost ns: seq<ListHead>, ghost c: seq<nat>, ghost out: seq<nat>, ghost x: nat,
                ghost pi: nat, ghost m: nat, ghost qi: nat)
    returns (list: ListHead, tail: ListHead)
    requires Injective(ns) && Positions(c, |ns|) && m <= |c|
    requires x < |ns| && ns[x] == next
    requires Injective(out) && IsSegment(ns, out, list0, tail0)
    requires AreApart(out, c, pi, m, qi)
    requires LinksIntact(ns, c, pi, m, qi)
    modifies ns`next
    ensures IsSegment(ns, out + [x], list, tail)
    ensures LinksIntact(ns, c, pi, m, qi)
  {
    if tail0 != null {
      tail0.next := next;
      list := list0;
    } else {
      list := next;
    }
    tail := next;
  }

  /** The inner loop of a pass: merge two neighbouring runs onto the list built so far. */
  method MergeTwoRuns(cmp: Comparator, p0: ListHead, q0: ListHead?, psize0: nat, insize: nat, res: Results?,
                      list0: ListHead?, tail0: ListHead?,
                      ghost ns: seq<ListHead>, ghost ds: seq<ListData>, ghost g: Merge, ghost keys0: Keys)
    returns (list: ListHead, tail: ListHead, q: ListHead?, ghost out: seq<nat>, ghost keys: Keys)
    requires cmp.CmpComplex? ==> res != null
    requires Injective(ns) && Positions(g.c, |ns|) && IsMergeable(g, keys0)
    requires g.b < g.m <= |g.c| && psize0 == g.m - g.b
    requires g.e == if g.m + insize < |g.c| then g.m + insize else |g.c|
    requires p0 == NodeAt(ns, g.c, g.b) && q0 == NodeAt(ns, g.c, g.m)
    requires LinksIntact(ns, g.c, g.b, g.m, g.m)
    requires IsSegment(ns, g.out0, list0, tail0)
    requires IsPaired(ns, ds) && KeysAgree(cmp, res == null, Words(ds), Indices(ds), keys0)
    modifies ns`next, ds`data16, Scratch(res)
    ensures g.out0 <= out && IsRun(out, g.b, g.e, keys) && |out| == g.e && Injective(out)
    ensures IsSegment(ns, out, list, tail)
    ensures q == NodeAt(ns, g.c, g.e) && LinksIntact(ns, g.c, g.m, g.m, g.e)
    ensures KeysAgree(cmp, res == null, Words(ds), Indices(ds), keys) && Extends(keys0, keys)
    ensures AreKept(cmp, res == null, old(Words(ds)), Words(ds))
  {
    hide *;
    MergingStarts(g, keys0);
    KeepingIsReflexive(cmp, res == null, Words(ds));
    ExtendsIsReflexive(keys0);
    EndIsNull(ns, g.c, g.m);
    var p: ListHead?, psize, qsize := p0, psize0, insize;
    var list', tail' := list0, tail0;
    q := q0;
    out, keys := g.out0, keys0;
    ghost var pi, qi := g.b, g.m;
    while psize > 0 || (qsize > 0 && q != null)
      invariant g.b <= pi <= g.m <= qi <= g.e <= |g.c| && psize == g.m - pi && qsize == g.m + insize - qi
      invariant IsMerging(g, keys, out, pi, qi)
      invariant (pi < g.m ==> p == NodeAt(ns, g.c, pi)) && q == NodeAt(ns, g.c, qi) && (q == null <==> qi == |g.c|)
      invariant LinksIntact(ns, g.c, pi, g.m, qi) && IsSegment(ns, out, list', tail')
      invariant KeysAgree(cmp, res == null, Words(ds), Indices(ds), keys) && Extends(keys0, keys)
      invariant AreKept(cmp, res == null, old(Words(ds)), Words(ds))
      decreases psize + qsize
    {
      p, psize, q, qsize, list', tail', pi, qi, out, keys :=
        MergeStep(cmp, p, psize, q, qsize, res, list', tail', ns, ds, g, pi, qi, out, keys0, keys, old(Words(ds)));
    }
    MergingEnds(g, keys, out);
    SegmentIsNotEmpty(ns, out, list', tail');
    list, tail := list', tail';
  }

  /** One turn of the inner loop: one node moves from the front of a run to the end of the list built so far. */
  method MergeStep(cmp: Comparator, p0: ListHead?, psize0: nat, q0: ListHead?, qsize0: nat, res: Results?,
                   list0: ListHead?, tail0: ListHead?,
                   ghost ns: seq<ListHead>, ghost ds: seq<ListData>, ghost g: Merge, ghost pi0: nat, ghost qi0: nat,
                   ghost out0: seq<nat>, ghost keys0: Keys, ghost keys1: Keys, ghost ws: seq<u16>)
    returns (p: ListHead?, psize: nat, q: ListHead?, qsize: nat, list: ListHead, tail: ListHead,
             ghost pi: nat, ghost qi: nat, ghost out: seq<nat>, ghost keys: Keys)
    requires cmp.CmpComplex? ==> res != null
    requires Injective(ns) && Positions(g.c, |ns|) && IsMerging(g, keys1, out0, pi0, qi0)
    requires pi0 <= g.m <= qi0 <= g.e <= |g.c| && psize0 == g.m - pi0
    requires g.e == if qi0 + qsize0 < |g.c| then qi0 + qsize0 else |g.c|
    requires psize0 > 0 || (qsize0 > 0 && q0 != null)
    requires (pi0 < g.m ==> p0 == NodeAt(ns, g.c, pi0)) && q0 == NodeAt(ns, g.c, qi0)
    requires LinksIntact(ns, g.c, pi0, g.m, qi0) && IsSegment(ns, out0, list0, tail0)
    requires IsPaired(ns, ds) && KeysAgree(cmp, res == null, Words(ds), Indices(ds), keys1) && Extends(keys0, keys1)
    requires AreKept(cmp, res == null, ws, Words(ds))
    modifies ns`next, ds`data16, Scratch(res)
    ensures (pi == pi0 + 1 && qi == qi0 && psize == psize0 - 1 && qsize == qsize0) ||
            (pi == pi0 && qi == qi0 + 1 && psize == psize0 && qsize == qsize0 - 1)
    ensures g.b <= pi <= g.m <= qi <= g.e && IsMerging(g, keys, out, pi, qi)
    ensures (pi < g.m ==> p == NodeAt(ns, g.c, pi)) && q == NodeAt(ns, g.c, qi) && (q == null <==> qi == |g.c|)
    ensures LinksIntact(ns, g.c, pi, g.m, qi) && IsSegment(ns, out, list, tail)
    ensures KeysAgree(cmp, res == null, Words(ds), Indices(ds), keys) && Extends(keys0, keys)
    ensures AreKept(cmp, res == null, ws, Words(ds))
  {
    hide *;
    MergingShape(g, keys1, out0, pi0, qi0);
    p, psize, q, qsize, pi, qi := p0, psize0, q0, qsize0, pi0, qi0;
    ghost var words := Words(ds);
    EndIsNull(ns, g.c, qi);
    var fromP;
    fromP, keys := NextIsFromP(cmp, p, psize, q, qsize, res, ns, ds, g, pi, qi, keys1);
    KeepingIsTransitive(cmp, res == null, ws, words, Words(ds));
    ExtendsIsTransitive(keys0, keys1, keys);
    ExtendingKeepsMerging(g, keys1, keys, out0, pi, qi);
    MayTakeShape(g, keys, pi, qi);
    LinksShrink(ns, g.c, pi, g.m, qi, fromP);
    var e: ListHead;
    ghost var x: nat;
    if fromP {
      TakingFromP(g, keys, out0, pi, qi);
      x := g.c[pi];
      e := p;
      p := p.next;
      psize := psize - 1;
      pi := pi + 1;
    } else {
      TakingFromQ(g, keys, out0, pi, qi);
      x := g.c[qi];
      e := q;
      q := q.next;
      qsize := qsize - 1;
      qi := qi + 1;
    }
    MergingShape(g, keys, out0 + [x], pi, qi);
    EndIsNull(ns, g.c, qi);
    list, tail := Append(list0, tail0, e, ns, g.c, out0, x, pi, g.m, qi);
    out := out0 + [x];
  }

  /** Step insize places along from p, or to the end of the list. */
  method StepAlong(p: ListHead, insize: nat, ghost ns: seq<ListHead>, ghost c: seq<nat>, ghost b: nat)
    returns (q: ListHead?, psize: nat)
    requires insize > 0 && b < |c| && Positions(c, |ns|) && p == NodeAt(ns, c, b) && LinksIntact(ns, c, b, b, b)
    ensures psize > 0 && b + psize == Cut(b + insize, |c|)
    ensures q == NodeAt(ns, c, b + psize)
  {
    q, psize := p, 0;
    for i := 0 to insize
      invariant psize == i && b + i < |c| && q == ns[c[b + i]]
    {
      psize := psize + 1;
      q := q.next;
      if q == null {
        return;
      }
    }
  }

  /** One pass over the list: neighbouring runs of length insize are merged pairwise. */
  method MergePass(cmp: Comparator, list0: ListHead, insize: nat, res: Results?,
                   ghost ns: seq<ListHead>, ghost ds: seq<ListData>, ghost c: seq<nat>, ghost bounds: seq<nat>,
                   ghost keys0: Keys)
    returns (list: ListHead, nmerges: nat, ghost out: seq<nat>, ghost done: seq<nat>, ghost keys: Keys)
    requires cmp.CmpComplex? ==> res != null
    requires Injective(ns) && |c| == |ns| > 0 && insize > 0
    requires IsChain(ns, c, list0)
    requires IsBounds(bounds, insize, |c|) && AreRuns(c, bounds, keys0)
    requires IsPaired(ns, ds) && KeysAgree(cmp, res == null, Words(ds), Indices(ds), keys0)
    modifies ns`next, ds`data16, Scratch(res)
    ensures |out| == |ns| && IsChain(ns, out, list)
    ensures IsBounds(done, 2 * insize, |ns|) && AreRuns(out, done, keys)
    ensures nmerges == |done| - 1 && (nmerges > 1 ==> |done| < |bounds|)
    ensures KeysAgree(cmp, res == null, Words(ds), Indices(ds), keys) && Extends(keys0, keys)
    ensures AreKept(cmp, res == null, old(Words(ds)), Words(ds))
  {
    hide *;
    PassStarts(c, bounds, insize, keys0);
    ExtendsIsReflexive(keys0);
    KeepingIsReflexive(cmp, res == null, Words(ds));
    ChainHasLinks(ns, c, list0);
    var p: ListHead?, list': ListHead?, tail: ListHead? := list0, null, null;
    nmerges := 0;
    out, done, keys := [], [0], keys0;
    ghost var b: nat := 0;
    while p != null
      invariant IsPassing(c, bounds, insize, keys, out, done, b) && |done| == nmerges + 1
      invariant b <= |c| && p == NodeAt(ns, c, b) && (p == null <==> b == |c|) && LinksIntact(ns, c, b, b, b)
      invariant |out| == b && IsSegment(ns, out, list', tail)
      invariant KeysAgree(cmp, res == null, Words(ds), Indices(ds), keys) && Extends(keys0, keys)
      invariant AreKept(cmp, res == null, old(Words(ds)), Words(ds))
      decreases |c| - b
    {
      nmerges := nmerges + 1;
      var q, psize := StepAlong(p, insize, ns, c, b);
      p, list', tail, b, out, done, keys :=
        MergeNextPair(cmp, p, q, psize, insize, res, list', tail, ns, ds, c, bounds, b, out, done, keys0, keys,
                      old(Words(ds)));
    }
    PassEnds(c, bounds, insize, keys, out, done);
    list := Terminate(list', tail, ns, out);
  }

  /** tail->next = NULL */
  method Terminate(list: ListHead?, tail: ListHead?, ghost ns: seq<ListHead>, ghost out: seq<nat>)
    returns (list': ListHead)
    requires Injective(ns) && Injective(out) && out != [] && IsSegment(ns, out, list, tail)
    modifies ns`next
    ensures IsChain(ns, out, list')
  {
    tail.next := null;
    list' := list;
  }

  /** One turn of the loop of a pass: two neighbouring runs are merged, and p moves behind them. */
  method MergeNextPair(cmp: Comparator, p0: ListHead, q0: ListHead?, psize: nat, insize: nat, res: Results?,
                       list0: ListHead?, tail0: ListHead?,
                       ghost ns: seq<ListHead>, ghost ds: seq<ListData>, ghost c: seq<nat>, ghost bounds: seq<nat>,
                       ghost b0: nat, ghost out0: seq<nat>, ghost done0: seq<nat>,
                       ghost keys0: Keys, ghost keys1: Keys, ghost ws: seq<u16>)
    returns (p: ListHead?, list: ListHead, tail: ListHead,
             ghost b: nat, ghost out: seq<nat>, ghost done: seq<nat>, ghost keys: Keys)
    requires cmp.CmpComplex? ==> res != null
    requires Injective(ns) && Positions(c, |ns|) && insize > 0
    requires IsPassing(c, bounds, insize, keys1, out0, done0, b0) && b0 < |c| && |out0| == b0
    requires psize > 0 && b0 + psize == Cut(b0 + insize, |c|)
    requires p0 == NodeAt(ns, c, b0) && q0 == NodeAt(ns, c, b0 + psize)
    requires LinksIntact(ns, c, b0, b0, b0) && IsSegment(ns, out0, list0, tail0)
    requires IsPaired(ns, ds) && KeysAgree(cmp, res == null, Words(ds), Indices(ds), keys1) && Extends(keys0, keys1)
    requires AreKept(cmp, res == null, ws, Words(ds))
    modifies ns`next, ds`data16, Scratch(res)
    ensures IsPassing(c, bounds, insize, keys, out, done, b) && |done| == |done0| + 1
    ensures b0 < b <= |c| && p == NodeAt(ns, c, b) && (p == null <==> b == |c|) && LinksIntact(ns, c, b, b, b)
    ensures |out| == b && IsSegment(ns, out, list, tail)
    ensures KeysAgree(cmp, res == null, Words(ds), Indices(ds), keys) && Extends(keys0, keys)
    ensures AreKept(cmp, res == null, ws, Words(ds))
  {
    hide *;
    ghost var words := Words(ds);
    ghost var m := b0 + psize;
    ghost var g := Merge(c, b0, m, Cut(m + insize, |c|), out0);
    CutIsBetween(b0, insize, |c|);
    CutIsBetween(m, insize, |c|);
    PassMayMerge(g, bounds, insize, keys1, done0);
    LinksFrom(ns, c, b0, m);
    list, tail, p, out, keys := MergeTwoRuns(cmp, p0, q0, psize, insize, res, list0, tail0, ns, ds, g, keys1);
    PassAdvances(g, bounds, insize, keys1, keys, done0, out);
    KeepingIsTransitive(cmp, res == null, ws, words, Words(ds));
    ExtendsIsTransitive(keys0, keys1, keys);
    b := g.e;
    done := done0 + [b];
    EndIsNull(ns, c, b);
    LinksUpTo(ns, c, m, b);
  }

  /** Mergesort of a non-empty list, in place and without recursion. */
  method CoreListMergesort(cmp: Comparator, list0: ListHead, res: Results?,
                           ghost ns: seq<ListHead>, ghost ds: seq<ListData>)
    returns (list: ListHead, ghost c: seq<nat>)
    requires cmp.CmpComplex? ==> res != null
    requires IsList(ns, list0) && IsPaired(ns, ds)
    modifies ns`next, ds`data16, Scratch(res)
    ensures IsRearrangement(c, |ns|) && IsChain(ns, c, list)
    ensures IsSortedStably(cmp, Words(ds), Indices(ds), c)
    ensures |ns| >= 2 ==> AreSettled(cmp, res == null, Words(ds))
    ensures AreKept(cmp, res == null, old(Words(ds)), Words(ds))
  {
    hide *;
    ListStarts(ns, list0);
    SortStarts(|ns|);
    KeepingIsReflexive(cmp, res == null, Words(ds));
    NothingAgrees(cmp, res == null, Words(ds), Indices(ds));
    list := list0;
    c := Identity(|ns|);
    ghost var keys: Keys := map[];
    ghost var bounds := Singletons(|ns|);
    var insize := 1;
    while true
      invariant insize > 0 && |c| == |ns| && IsChain(ns, c, list)
      invariant IsBounds(bounds, insize, |ns|) && AreRuns(c, bounds, keys)
      invariant KeysAgree(cmp, res == null, Words(ds), Indices(ds), keys)
      invariant AreKept(cmp, res == null, old(Words(ds)), Words(ds))
      decreases |bounds|
    {
      ghost var words := Words(ds);
      var nmerges;
      list, nmerges, c, bounds, keys := MergePass(cmp, list, insize, res, ns, ds, c, bounds, keys);
      KeepingIsTransitive(cmp, res == null, old(Words(ds)), words, Words(ds));
      if nmerges <= 1 {
        SortEnds(c, bounds, 2 * insize, keys);
        PairedLengths(ns, ds);
        SortIsByTheKeysInTheHeap(cmp, res == null, Words(ds), Indices(ds), c, keys);
        return;
      }
      insize := insize * 2;
      // The run length stays below the length of the list, so that an ee_s32 holds it.
      RunsAreShort(bounds, insize, |ns|);
      assert insize < |ns|;
    }
  }
}
