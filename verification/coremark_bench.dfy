/** The list benchmark of CoreMark: find, reverse, splice, sort, remove and undo, and sort back
    (core_bench_list in apps/coremark/src/core_list_join.c).

    The list that the benchmark is given is the sequence ns, whose data are ds. At any later time the list is some
    rearrangement of ns, written as the sequence c of positions in ns.
 */
module CoreMarkBench {
  import opened MergeRuns
  import opened Sequences
  import opened CoreMarkList
  import CoreMarkCrc
  import Bits

  // ---------- rearrangements ----------

  ghost function Select<T>(s: seq<T>, c: seq<nat>): (t: seq<T>)
    requires Positions(c, |s|)
    ensures |t| == |c| && forall i | 0 <= i < |c| :: t[i] == s[c[i]]
  {
    seq(|c|, i requires 0 <= i < |c| => s[c[i]])
  }

  ghost function Reversed<T>(s: seq<T>): (t: seq<T>)
    ensures |t| == |s| && forall i | 0 <= i < |s| :: t[i] == s[|s| - 1 - i]
  {
    seq(|s|, i requires 0 <= i < |s| => s[|s| - 1 - i])
  }

  /** The element behind s[k] moves to the place behind the head. */
  ghost function Spliced<T>(s: seq<T>, k: nat): (t: seq<T>)
    requires k + 1 < |s|
    ensures |t| == |s|
    ensures forall i | 0 <= i < |t| ::
              t[i] == if i == 0 then s[0] else if i == 1 then s[k + 1] else if i <= k + 1 then s[i - 1] else s[i]
  {
    [s[0], s[k + 1]] + s[1..k + 1] + s[k + 2..]
  }

  ghost function Inserted<T>(s: seq<T>, k: nat, x: T): (t: seq<T>)
    requires k < |s|
    ensures |t| == |s| + 1
    ensures forall i | 0 <= i < |t| :: t[i] == if i <= k then s[i] else if i == k + 1 then x else s[i - 1]
  {
    s[..k + 1] + [x] + s[k + 1..]
  }

  lemma SelectReversed<T>(s: seq<T>, c: seq<nat>)
    requires IsRearrangement(c, |s|)
    ensures IsRearrangement(Reversed(c), |s|) && Reversed(Select(s, c)) == Select(s, Reversed(c))
  {
  }

  lemma SelectSpliced<T>(s: seq<T>, c: seq<nat>, k: nat)
    requires IsRearrangement(c, |s|) && k + 1 < |c|
    ensures IsRearrangement(Spliced(c, k), |s|) && Spliced(Select(s, c), k) == Select(s, Spliced(c, k))
  {
    var d := Spliced(c, k);
    forall i | 0 <= i < |c|
      ensures d[i] == c[if i == 0 then 0 else if i == 1 then k + 1 else if i <= k + 1 then i - 1 else i]
    {
    }
  }

  lemma SelectSelect<T>(s: seq<T>, c: seq<nat>, d: seq<nat>)
    requires IsRearrangement(c, |s|) && IsRearrangement(d, |s|)
    ensures Positions(d, |c|)
    ensures IsRearrangement(Select(c, d), |s|) && Select(Select(s, c), d) == Select(s, Select(c, d))
  {
  }

  lemma IdentityIsRearrangement<T>(s: seq<T>)
    ensures IsRearrangement(Identity(|s|), |s|) && Select(s, Identity(|s|)) == s
  {
  }

  // ---------- find, reverse, splice ----------

  /** Whether core_list_find stops at this datum: by index, or by the low byte if the index is negative. */
  predicate Matches(word: u16, index: s16, idx: s16, data16: u16) {
    if idx >= 0 then index == idx else word % 256 == data16
  }

  /** The position of the first match; the end if there is none. */
  function First(ws: seq<u16>, xs: seq<s16>, idx: s16, data16: u16): (k: nat)
    requires |ws| == |xs|
    ensures k <= |ws| && (k < |ws| ==> Matches(ws[k], xs[k], idx, data16))
    ensures forall i | 0 <= i < k :: !Matches(ws[i], xs[i], idx, data16)
  {
    if ws == [] || Matches(ws[0], xs[0], idx, data16) then 0 else 1 + First(ws[1..], xs[1..], idx, data16)
  }

  lemma FirstIs(ws: seq<u16>, xs: seq<s16>, idx: s16, data16: u16, k: nat)
    requires |ws| == |xs| && k <= |ws| && (k < |ws| ==> Matches(ws[k], xs[k], idx, data16))
    requires forall i | 0 <= i < k :: !Matches(ws[i], xs[i], idx, data16)
    ensures k == First(ws, xs, idx, data16)
  {
    hide Matches;
  }

  method CoreListFind(list0: ListHead?, idx: s16, data16: u16, ghost ns: seq<ListHead>, ghost ds: seq<ListData>)
    returns (list: ListHead?, ghost k: nat)
    requires IsList(ns, list0) && IsPaired(ns, ds)
    ensures |ns| == |ds| && k == First(Words(ds), Indices(ds), idx, data16)
    ensures k <= |ns| && list == (if k < |ns| then ns[k] else null)
    ensures forall i | 0 <= i < k :: if idx >= 0 then ds[i].idx != idx else ds[i].data16 % 256 != data16
    ensures k < |ns| ==> if idx >= 0 then ds[k].idx == idx else ds[k].data16 % 256 == data16
  {
    list, k := list0, 0;
    if idx >= 0 {
      while list != null && list.info.idx != idx
        invariant k <= |ns| && list == (if k < |ns| then ns[k] else null)
        invariant forall i | 0 <= i < k :: ds[i].idx != idx
        decreases |ns| - k
      {
        list := list.next;
        k := k + 1;
      }
    } else {
      while list != null && list.info.data16 % 256 != data16
        invariant k <= |ns| && list == (if k < |ns| then ns[k] else null)
        invariant forall i | 0 <= i < k :: ds[i].data16 % 256 != data16
        decreases |ns| - k
      {
        list := list.next;
        k := k + 1;
      }
    }
    FirstIs(Words(ds), Indices(ds), idx, data16, k);
  }

  ghost function Predecessor(ns: seq<ListHead>, i: nat): ListHead?
    requires i <= |ns|
  {
    if i > 0 then ns[i - 1] else null
  }

  lemma ReversedIsList(ns: seq<ListHead>, list: ListHead?)
    requires list == Predecessor(ns, |ns|)
    requires forall i | 0 <= i < |ns| :: ns[i].next == Predecessor(ns, i)
    ensures IsList(Reversed(ns), list)
  {
    var r := Reversed(ns);
    forall i | 0 <= i < |r|
      ensures r[i].next == Successor(r, i)
    {
      assert r[i] == ns[|ns| - 1 - i];
      assert i + 1 < |r| ==> r[i + 1] == ns[|ns| - 2 - i];
    }
  }

  method CoreListReverse(list0: ListHead?, ghost ns: seq<ListHead>) returns (next: ListHead?)
    requires IsList(ns, list0)
    modifies ns`next
    ensures IsList(Reversed(ns), next)
  {
    ListIsInjective(ns, list0);
    var list := list0;
    next := null;
    ghost var k := 0;
    while list != null
      invariant 0 <= k <= |ns|
      invariant list == (if k < |ns| then ns[k] else null) && next == Predecessor(ns, k)
      invariant forall i | 0 <= i < k :: ns[i].next == Predecessor(ns, i)
      invariant forall i | k <= i < |ns| :: ns[i].next == Successor(ns, i)
      decreases |ns| - k
    {
      var tmp := list.next;
      list.next := next;
      next := list;
      list := tmp;
      k := k + 1;
    }
    ReversedIsList(ns, next);
  }

  /** The node behind thisFind is moved to the place behind the head of the list. */
  method SpliceToHead(list: ListHead, thisFind: ListHead, ghost ns: seq<ListHead>, ghost k: nat)
    requires IsList(ns, list) && k + 1 < |ns| && thisFind == ns[k]
    modifies ns`next
    ensures IsList(Spliced(ns, k), list)
  {
    ListIsInjective(ns, list);
    var finder := thisFind.next;
    thisFind.next := finder.next;
    finder.next := list.next;
    list.next := finder;
  }

  // ---------- remove and undo ----------

  /** Remove the datum of item: it is swapped into the next node, which leaves the list. */
  method CoreListRemove(item: ListHead, ghost list: ListHead, ghost ns: seq<ListHead>, ghost k: nat)
    returns (ret: ListHead)
    requires IsList(ns, list) && k + 1 < |ns| && item == ns[k]
    modifies ns`next, item`info, {ns[k + 1]}`info
    ensures ret == ns[k + 1] && ret.next == null
    ensures IsList(Without(ns, k + 1), list)
    ensures item.info == old(ns[k + 1].info) && ret.info == old(ns[k].info)
  {
    ListIsInjective(ns, list);
    ret := item.next;
    var tmp := item.info;
    item.info := ret.info;
    ret.info := tmp;
    item.next := item.next.next;
    ret.next := null;
  }

  lemma NodeIsUnique(ns: seq<ListHead>, list: ListHead, k: nat)
    requires IsList(ns, list) && k < |ns|
    ensures forall i | 0 <= i < |ns| && i != k :: ns[i] != ns[k]
  {
    ListIsInjective(ns, list);
  }

  lemma InsertedIsList(ns: seq<ListHead>, list: ListHead, k: nat, x: ListHead)
    requires k < |ns| && list == ns[0]
    requires forall i | 0 <= i < |ns| && i != k :: ns[i].next == Successor(ns, i)
    requires ns[k].next == x && x.next == Successor(ns, k)
    ensures IsList(Inserted(ns, k, x), list)
  {
    var r := Inserted(ns, k, x);
    forall i | 0 <= i < |r|
      ensures r[i].next == Successor(r, i)
    {
      if i < k {
        assert r[i] == ns[i] && r[i + 1] == ns[i + 1];
      } else if i > k + 1 {
        assert r[i] == ns[i - 1];
      }
    }
  }

  /** Link a removed node back in behind itemModified and swap the data back. */
  method CoreListUndoRemove(itemRemoved: ListHead, itemModified: ListHead,
                            ghost list: ListHead, ghost ns: seq<ListHead>, ghost k: nat)
    returns (item: ListHead)
    requires IsList(ns, list) && k < |ns| && itemModified == ns[k] && itemRemoved !in ns
    modifies ns`next, itemModified`info, itemRemoved`next, itemRemoved`info
    ensures item == itemRemoved
    ensures IsList(Inserted(ns, k, itemRemoved), list)
    ensures itemRemoved.info == old(itemModified.info) && itemModified.info == old(itemRemoved.info)
  {
    hide Injective, Inserted;
    NodeIsUnique(ns, list, k);
    assert itemModified.next == Successor(ns, k);
    var tmp := itemRemoved.info;
    itemRemoved.info := itemModified.info;
    itemModified.info := tmp;
    itemRemoved.next := itemModified.next;
    itemModified.next := itemRemoved;
    item := itemRemoved;
    InsertedIsList(ns, list, k, itemRemoved);
  }

  // ---------- the benchmark ----------

  /** The position of an element in the reversed sequence. */
  lemma ReversedPosition<T>(s: seq<T>, k: nat)
    requires k < |s|
    ensures Reversed(s)[|s| - 1 - k] == s[k]
  {
  }

  lemma SelectedNodes(ns: seq<ListHead>, c: seq<nat>)
    requires IsRearrangement(c, |ns|)
    ensures Positions(c, |ns|) && |Select(ns, c)| == |ns|
    ensures forall i | 0 <= i < |ns| :: Select(ns, c)[i] in ns
  {
  }

  lemma ListEnds(ns: seq<ListHead>, list: ListHead?, k: nat)
    requires IsList(ns, list) && k < |ns|
    ensures list == ns[0] && ns[k].next == Successor(ns, k) && (ns[k].next != null <==> k + 1 < |ns|)
    ensures |ns| >= 2 ==> ns[0].next == ns[1]
  {
  }

  /** What a round of the find loop adds to the return value: after a success a bit of the found word, if that is odd,
      and otherwise a bit of the second word.
   */
  function Gain(found: bool, word: u16): nat {
    if !found then word / 256 % 2 else if word % 2 == 1 then word / 512 % 2 else 0
  }

  function Sum16(a: nat, b: nat): u16 {
    (a + b) % 0x1_0000
  }

  /** A found word counts if its bits 0 and 9 are set, the second word if its bit 8 is; sums are those of 16 bits. */
  lemma GainIsBits(word: u16, a: u16, b: u16)
    ensures Gain(true, word) == if Bits.GetBit(word, 0) && Bits.GetBit(word, 9) then 1 else 0
    ensures Gain(false, word) == if Bits.GetBit(word, 8) then 1 else 0
    ensures Sum16(a, b) == if a + b < 0x1_0000 then a + b else a + b - 0x1_0000
  {
    Bits.GetBitIs(word, 0);
    Bits.GetBitIs(word, 8);
    Bits.GetBitIs(word, 9);
    Bits.SmallPow2();
    hide Bits.GetBit, Bits.Pow2;
    WrapsOnce(a + b);
  }

  lemma WrapsOnce(x: nat)
    requires x < 0x2_0000
    ensures x % 0x1_0000 == if x < 0x1_0000 then x else x - 0x1_0000
  {
  }

  /** What follows a successful search: use the value, and move the next node behind the head, if there is one. */
  method UseFound(list: ListHead, thisFind: ListHead, retval0: u16, ghost ns: seq<ListHead>, ghost c0: seq<nat>,
                  ghost j: nat)
    returns (retval: u16, ghost c: seq<nat>)
    requires IsRearrangement(c0, |ns|) && IsList(Select(ns, c0), list) && j < |ns| && thisFind == Select(ns, c0)[j]
    modifies ns`next
    ensures IsRearrangement(c, |ns|) && IsList(Select(ns, c), list)
    ensures c == if j + 1 < |ns| then Spliced(c0, j) else c0
    ensures retval == Sum16(retval0, Gain(true, thisFind.info.data16))
  {
    hide *;
    RearrangementShape(c0, |ns|);
    SelectedNodes(ns, c0);
    ListEnds(Select(ns, c0), list, j);
    retval, c := retval0, c0;
    GainFound(thisFind.info.data16);
    SumIs(retval0, thisFind.info.data16 / 512 % 2);
    SumOfZero(retval0);
    if thisFind.info.data16 % 2 == 1 {
      retval := (retval + thisFind.info.data16 / 512 % 2) % 0x1_0000;
    }
    if thisFind.next != null {
      SelectSpliced(ns, c, j);
      SpliceToHead(list, thisFind, Select(ns, c), j);
      c := Spliced(c, j);
    }
  }

  lemma GainFound(word: u16)
    ensures Gain(true, word) == if word % 2 == 1 then word / 512 % 2 else 0
  {
  }

  lemma SumOfZero(a: u16)
    ensures Sum16(a, 0) == a
  {
  }

  /** What a round adds that stops at position k of the words ws. */
  function GainAt(ws: seq<u16>, k: nat): nat
    requires |ws| >= 2
  {
    if k < |ws| then Gain(true, ws[k]) else Gain(false, ws[|ws| - 2])
  }

  /** The list after a round that stops at position k of it: reversed, and the element before the found one, which is
      now behind it, moved to the second place.
   */
  ghost function Turned<T>(s: seq<T>, k: nat): (t: seq<T>)
    ensures |t| == |s|
    ensures k == 0 || k >= |s| ==> forall i | 0 <= i < |s| :: t[i] == s[|s| - 1 - i]
    ensures 0 < k < |s| ==>
              && t[0] == s[|s| - 1] && t[1] == s[k - 1]
              && (forall i | 2 <= i <= |s| - k :: t[i] == s[|s| - i])
              && (forall i | |s| - k < i < |s| :: t[i] == s[|s| - 1 - i])
  {
    if 0 < k < |s| then Spliced(Reversed(s), |s| - 1 - k) else Reversed(s)
  }

  /** A word n times, as bytes, each time the low one first. */
  function Pairs(word: u16, n: nat): (m: seq<CoreMarkCrc.u8>)
    ensures |m| == 2 * n
    ensures forall i | 0 <= i < |m| :: m[i] == if i % 2 == 0 then word % 256 else word / 256
  {
    if n == 0 then [] else Pairs(word, n - 1) + [word % 256, word / 256]
  }

  /** One word more in the checksum. */
  lemma PairAdded(word: u16, n: nat, crc: u16)
    ensures CoreMarkCrc.Crc(Pairs(word, n + 1), crc) ==
            CoreMarkCrc.Crc([word % 256, word / 256], CoreMarkCrc.Crc(Pairs(word, n), crc))
  {
    hide CoreMarkCrc.Crc;
    CoreMarkCrc.CrcOfConcatenation(Pairs(word, n), [word % 256, word / 256], crc);
  }

  /** Find, and reverse the list whether or not the search has found something. */
  method FindAndReverse(list0: ListHead, idx: s16, data16: u16, ghost ns: seq<ListHead>, ghost ds: seq<ListData>,
                        ghost c0: seq<nat>)
    returns (list: ListHead, thisFind: ListHead?, ghost k: nat)
    requires |ns| >= 2 && IsRearrangement(c0, |ns|) && IsList(Select(ns, c0), list0) && IsPaired(ns, ds)
    modifies ns`next
    ensures |c0| == |ns| == |ds| && Positions(c0, |ns|) && IsRearrangement(Reversed(c0), |ns|)
    ensures IsList(Select(ns, Reversed(c0)), list)
    ensures k == First(Select(Words(ds), c0), Select(Indices(ds), c0), idx, data16) <= |ns|
    ensures thisFind == if k < |ns| then ns[c0[k]] else null
  {
    hide *;
    k := 0;
    RearrangementShape(c0, |ns|);
    SelectedNodes(ns, c0);
    PairedSelect(ns, ds, c0);
    WordsOfSelect(ds, c0);
    ghost var cur := Select(ns, c0);
    SelectedAt(ns, c0);
    thisFind, k := CoreListFind(list0, idx, data16, cur, Select(ds, c0));
    var reversed := CoreListReverse(list0, cur);
    SelectReversed(ns, c0);
    RearrangementShape(Reversed(c0), |ns|);
    ListEnds(Reversed(cur), reversed, 0);
    list := reversed;
  }

  lemma SelectedAt<T>(s: seq<T>, c: seq<nat>)
    requires Positions(c, |s|)
    ensures |Select(s, c)| == |c| && forall i | 0 <= i < |c| :: Select(s, c)[i] == s[c[i]]
  {
  }

  /** One round of the find loop: find, reverse, and on success move the node behind the found one to the front. */
  method FindRound(list0: ListHead, idx: s16, data16: u16, retval0: u16, ghost ns: seq<ListHead>,
                   ghost ds: seq<ListData>, ghost c0: seq<nat>)
    returns (list: ListHead, found: bool, retval: u16, ghost c: seq<nat>, ghost k: nat)
    requires |ns| >= 2 && IsRearrangement(c0, |ns|) && IsList(Select(ns, c0), list0) && IsPaired(ns, ds)
    modifies ns`next
    ensures IsRearrangement(c, |ns|) && IsList(Select(ns, c), list) && c == Turned(c0, k)
    ensures |c0| == |ns| == |ds| && Positions(c0, |ns|) && found == (k < |ns|)
    ensures k == First(Select(Words(ds), c0), Select(Indices(ds), c0), idx, data16)
    ensures retval == Sum16(retval0, GainAt(Select(Words(ds), c0), k))
  {
    hide *;
    var thisFind;
    list, thisFind, k := FindAndReverse(list0, idx, data16, ns, ds, c0);
    c := Reversed(c0);
    RearrangementShape(c, |ns|);
    SelectedAt(ns, c);
    SelectedAt(Words(ds), c0);
    ListEnds(Select(ns, c), list, 0);
    retval, found := retval0, thisFind != null;
    if thisFind == null {
      ReversedPosition(c0, |ns| - 2);
      PairedAt(ns, ds, c[1]);
      GainMissed(list.next.info.data16);
      SumIs(retval, list.next.info.data16 / 256 % 2);
      retval := (retval + list.next.info.data16 / 256 % 2) % 0x1_0000;
    } else {
      ReversedPosition(c0, k);
      PairedAt(ns, ds, c0[k]);
      retval, c := UseFound(list, thisFind, retval, ns, c, |ns| - 1 - k);
    }
    TurnedIs(c0, k);
    GainIs(Select(Words(ds), c0), k);
  }

  lemma PairedAt(ns: seq<ListHead>, ds: seq<ListData>, k: nat)
    requires IsPaired(ns, ds) && k < |ns|
    ensures |ns| == |ds| && ns[k].info == ds[k] && Words(ds)[k] == ds[k].data16
  {
  }

  lemma TurnedIs(c: seq<nat>, k: nat)
    ensures Turned(c, k) == if 0 < k < |c| then Spliced(Reversed(c), |c| - 1 - k) else Reversed(c)
  {
  }

  lemma GainIs(ws: seq<u16>, k: nat)
    requires |ws| >= 2
    ensures k < |ws| ==> GainAt(ws, k) == Gain(true, ws[k])
    ensures k >= |ws| ==> GainAt(ws, k) == Gain(false, ws[|ws| - 2])
  {
  }

  lemma GainMissed(word: u16)
    ensures Gain(false, word) == word / 256 % 2
  {
  }

  /** retval=crc16(list->info->data16,retval), once for every node from finder on: the checksum of the word of the
      head, as often as there are nodes.
   */
  method Checksum(list: ListHead, finder0: ListHead?, retval0: u16, ghost ns: seq<ListHead>, ghost k0: nat)
    returns (retval: u16)
    requires IsList(ns, list) && k0 <= |ns| && finder0 == (if k0 < |ns| then ns[k0] else null)
    ensures retval == CoreMarkCrc.Crc(Pairs(list.info.data16, |ns| - k0), retval0)
  {
    hide CoreMarkCrc.Crc, CoreMarkCrc.Crc8;
    retval := retval0;
    var finder := finder0;
    ghost var k := k0;
    CrcOfNothing(retval0);
    while finder != null
      invariant k0 <= k <= |ns| && finder == if k < |ns| then ns[k] else null
      invariant retval == CoreMarkCrc.Crc(Pairs(list.info.data16, k - k0), retval0)
      decreases |ns| - k
    {
      PairAdded(list.info.data16, k - k0, retval0);
      retval := Crc16(list.info.data16, retval);
      finder := finder.next;
      k := k + 1;
    }
  }

  lemma CrcOfNothing(crc: u16)
    ensures Pairs(0, 0) == [] && CoreMarkCrc.Crc([], crc) == crc
  {
  }

  lemma TakingOutTheThird(ns: seq<ListHead>, list: ListHead)
    requires |ns| >= 3 && IsList(ns, list)
    ensures |Without(ns, 2)| == |ns| - 1 && Without(ns, 2)[1] == ns[1] && ns[2] !in Without(ns, 2)
    ensures forall i | 0 <= i < |Without(ns, 2)| :: Without(ns, 2)[i] in ns
    ensures Inserted(Without(ns, 2), 1, ns[2]) == ns
    ensures ns[1] != ns[2]
  {
    ListIsInjective(ns, list);
    assert Inserted(Without(ns, 2), 1, ns[2]) == ns;
  }

  /** After the removal the nodes that are left hold all the data but the second. */
  lemma DataOfRest(ns: seq<ListHead>, ds: seq<ListData>, rest: seq<ListHead>)
    requires |ns| >= 3 && |ns| == |ds| && rest == Without(ns, 2)
    requires forall i | 0 <= i < |ns| && i != 1 && i != 2 :: ns[i].info == ds[i]
    requires ns[1].info == ds[2]
    ensures IsPaired(rest, Without(ds, 1))
    ensures Words(Without(ds, 1)) == Without(Words(ds), 1) && Indices(Without(ds, 1)) == Without(Indices(ds), 1)
  {
  }

  /** The checksum over a list from where a search ends: from the first match on, or behind the head if there is none.
   */
  method FindAndSum(list: ListHead, idx: s16, data16: u16, retval0: u16, ghost ns: seq<ListHead>,
                    ghost ds: seq<ListData>)
    returns (retval: u16, ghost k: nat)
    requires |ns| >= 2 && IsList(ns, list) && IsPaired(ns, ds)
    ensures |ds| == |ns| && k == First(Words(ds), Indices(ds), idx, data16) <= |ns|
    ensures retval == CoreMarkCrc.Crc(Pairs(ds[0].data16, if k < |ns| then |ns| - k else |ns| - 1), retval0)
  {
    hide *;
    ListEnds(ns, list, 0);
    PairedAt(ns, ds, 0);
    var finder;
    finder, k := CoreListFind(list, idx, data16, ns, ds);
    if finder == null {
      finder := list.next;
      retval := Checksum(list, finder, retval0, ns, 1);
    } else {
      retval := Checksum(list, finder, retval0, ns, k);
    }
  }

  lemma RestIs(ds: seq<ListData>)
    requires |ds| >= 2
    ensures |Without(ds, 1)| == |ds| - 1 && Without(ds, 1)[0] == ds[0]
    ensures Words(Without(ds, 1)) == Without(Words(ds), 1) && Indices(Without(ds, 1)) == Without(Indices(ds), 1)
  {
  }

  /** Swapping the data of two nodes back pairs all of them as before. */
  lemma PairedAgain(ns: seq<ListHead>, ds: seq<ListData>)
    requires |ns| == |ds| >= 3 && ns[1].info == ds[1] && ns[2].info == ds[2]
    requires forall i | 0 <= i < |ns| && i != 1 && i != 2 :: ns[i].info == ds[i]
    ensures IsPaired(ns, ds)
  {
  }

  lemma PairedApart(ns: seq<ListHead>, ds: seq<ListData>)
    requires IsPaired(ns, ds) && |ns| >= 3
    ensures |ns| == |ds| && ns[1].info == ds[1] && ns[2].info == ds[2]
    ensures forall i | 0 <= i < |ns| && i != 1 && i != 2 :: ns[i].info == ds[i]
  {
  }

  /** Take the datum of the second node out of the list, walk over the rest, and put it back. The word of the head
      enters the checksum once for every node from the first match on, without that datum, or behind the head.
   */
  method RemoveAndUndo(list: ListHead, idx: s16, data16: u16, retval0: u16,
                       ghost ns: seq<ListHead>, ghost ds: seq<ListData>)
    returns (retval: u16, ghost k: nat)
    requires |ns| >= 3 && IsList(ns, list) && IsPaired(ns, ds)
    modifies ns`next, ns`info
    ensures IsList(ns, list) && IsPaired(ns, ds) && |ns| == |ds|
    ensures k == First(Without(Words(ds), 1), Without(Indices(ds), 1), idx, data16) <= |ns| - 1
    ensures retval ==
            CoreMarkCrc.Crc(Pairs(ds[0].data16, if k < |ns| - 1 then |ns| - 1 - k else |ns| - 2), retval0)
  {
    hide *;
    PairedApart(ns, ds);
    ListEnds(ns, list, 0);
    TakingOutTheThird(ns, list);
    NodeIsUnique(ns, list, 1);
    NodeIsUnique(ns, list, 2);
    ghost var rest := Without(ns, 2);
    var item := list.next;
    var remover := CoreListRemove(item, list, ns, 1);
    ListEnds(rest, list, 0);
    DataOfRest(ns, ds, rest);
    RestIs(ds);
    retval, k := FindAndSum(list, idx, data16, retval0, rest, Without(ds, 1));
    remover := CoreListUndoRemove(remover, list.next, list, rest, 1);
    PairedAgain(ns, ds);
    RestIs(ds);
  }

  // ---------- sorting a rearranged list ----------

  /** The data word of every datum has kept its backup byte. */
  ghost predicate BackupsKept(ws: seq<u16>, ws': seq<u16>) {
    |ws| == |ws'| && forall i | 0 <= i < |ws| :: Rebuilt(ws'[i]) == Rebuilt(ws[i])
  }

  lemma BackupsKeptIsTransitive(ws: seq<u16>, ws': seq<u16>, ws'': seq<u16>)
    requires BackupsKept(ws, ws') && BackupsKept(ws', ws'')
    ensures BackupsKept(ws, ws'')
  {
  }

  lemma PairedSelect(ns: seq<ListHead>, ds: seq<ListData>, c: seq<nat>)
    requires IsPaired(ns, ds) && IsRearrangement(c, |ns|)
    ensures Positions(c, |ds|) && IsPaired(Select(ns, c), Select(ds, c)) && |Select(ds, c)| == |ns| == |ds|
    ensures forall i | 0 <= i < |Select(ds, c)| :: Select(ds, c)[i] in ds
    ensures forall i | 0 <= i < |Select(ns, c)| :: Select(ns, c)[i] in ns
  {
  }

  lemma WordsOfSelect(ds: seq<ListData>, c: seq<nat>)
    requires IsRearrangement(c, |ds|)
    ensures Words(Select(ds, c)) == Select(Words(ds), c)
    ensures Indices(Select(ds, c)) == Select(Indices(ds), c)
  {
  }

  /** What was done to a rearrangement of the words was done to the words. */
  lemma KeptInAnyOrder(cmp: Comparator, rebuild: bool, ws: seq<u16>, ws': seq<u16>, c: seq<nat>)
    requires |ws| == |ws'| && IsRearrangement(c, |ws|)
    requires AreKept(cmp, rebuild, Select(ws, c), Select(ws', c))
    ensures BackupsKept(ws, ws')
    ensures AreSettled(cmp, rebuild, Select(ws', c)) ==> AreSettled(cmp, rebuild, ws')
  {
    hide Rebuilt, IsSettled;
    PositionsAreAll(c);
    forall x | 0 <= x < |ws|
      ensures Rebuilt(ws'[x]) == Rebuilt(ws[x])
      ensures AreSettled(cmp, rebuild, Select(ws', c)) ==> IsSettled(cmp, rebuild, ws'[x])
    {
      assert x in c;
      var i :| 0 <= i < |c| && c[i] == x;
      assert Select(ws, c)[i] == ws[x] && Select(ws', c)[i] == ws'[x];
    }
  }

  /** Where x stands in the list c. */
  ghost function Place(c: seq<nat>, x: nat): (i: nat)
    ensures x in c ==> i < |c| && c[i] == x
  {
    if c == [] || c[0] == x then 0 else 1 + Place(c[1..], x)
  }

  lemma PlaceIs(c: seq<nat>, i: nat)
    requires Injective(c) && i < |c|
    ensures Place(c, c[i]) == i
  {
  }

  /** A stable sort of the list c0 puts x before y: by the keys, or by c0 if these are equal. */
  ghost predicate Precedes(cmp: Comparator, ws: seq<u16>, xs: seq<s16>, c0: seq<nat>, x: nat, y: nat) {
    && x < |ws| == |xs| && y < |ws|
    && (KeyOf(cmp, ws[x], xs[x]) < KeyOf(cmp, ws[y], xs[y])
        || (KeyOf(cmp, ws[x], xs[x]) == KeyOf(cmp, ws[y], xs[y]) && Place(c0, x) < Place(c0, y)))
  }

  /** c is the list c0, sorted stably. */
  ghost predicate IsSortedFrom(cmp: Comparator, ws: seq<u16>, xs: seq<s16>, c0: seq<nat>, c: seq<nat>) {
    forall i, j | 0 <= i < j < |c| :: Precedes(cmp, ws, xs, c0, c[i], c[j])
  }

  lemma SortedInAnyOrder(cmp: Comparator, ws: seq<u16>, xs: seq<s16>, c: seq<nat>, d: seq<nat>)
    requires |ws| == |xs| && IsRearrangement(c, |ws|) && IsRearrangement(d, |ws|)
    requires IsSortedStably(cmp, Select(ws, c), Select(xs, c), d)
    ensures Positions(d, |c|) && IsSortedFrom(cmp, ws, xs, c, Select(c, d))
  {
    hide KeyOf;
    var e := Select(c, d);
    forall i, j | 0 <= i < j < |e|
      ensures Precedes(cmp, ws, xs, c, e[i], e[j])
    {
      PlaceIs(c, d[i]);
      PlaceIs(c, d[j]);
      assert Select(ws, c)[d[i]] == ws[e[i]] && Select(ws, c)[d[j]] == ws[e[j]];
    }
  }

  /** A list has one stable sort only. */
  lemma SortedFromIsUnique(cmp: Comparator, ws: seq<u16>, xs: seq<s16>, c0: seq<nat>, c: seq<nat>, d: seq<nat>)
    requires IsRearrangement(c, |ws|) && IsRearrangement(d, |ws|)
    requires IsSortedFrom(cmp, ws, xs, c0, c) && IsSortedFrom(cmp, ws, xs, c0, d)
    ensures c == d
  {
    hide KeyOf, Place;
    StrictOrderIsUnique((x: nat, y: nat) => Precedes(cmp, ws, xs, c0, x, y), c, d);
  }

  lemma ChainIsList(ns: seq<ListHead>, c: seq<nat>, list: ListHead)
    requires IsChain(ns, c, list)
    ensures IsList(Select(ns, c), list)
  {
    var cur := Select(ns, c);
    forall i | 0 <= i < |cur|
      ensures cur[i].next == Successor(cur, i)
    {
      assert ns[c[i]].next == NodeAt(ns, c, i + 1);
    }
  }

  /** core_list_mergesort, seen from the original list. */
  method SortFrom(cmp: Comparator, list0: ListHead, res: Results?,
                  ghost ns: seq<ListHead>, ghost ds: seq<ListData>, ghost c0: seq<nat>)
    returns (list: ListHead, ghost c: seq<nat>)
    requires cmp.CmpComplex? ==> res != null
    requires |ns| >= 2 && IsRearrangement(c0, |ns|) && IsList(Select(ns, c0), list0) && IsPaired(ns, ds)
    modifies ns`next, ds`data16, Scratch(res)
    ensures IsRearrangement(c, |ns|) && IsList(Select(ns, c), list)
    ensures IsSortedFrom(cmp, Words(ds), Indices(ds), c0, c)
    ensures BackupsKept(old(Words(ds)), Words(ds))
    ensures AreSettled(cmp, res == null, Words(ds))
  {
    hide IsRearrangement, IsList, IsPaired, IsChain, IsSortedStably, IsSortedFrom, AreSettled, AreKept, BackupsKept,
         Words, Indices;
    PairedSelect(ns, ds, c0);
    SelectedNodes(ns, c0);
    ghost var ns', ds' := Select(ns, c0), Select(ds, c0);
    ghost var words := Words(ds);
    WordsOfSelect(ds, c0);
    ghost var d;
    list, d := CoreListMergesort(cmp, list0, res, ns', ds');
    WordsOfSelect(ds, c0);
    KeptInAnyOrder(cmp, res == null, words, Words(ds), c0);
    SortedInAnyOrder(cmp, Words(ds), Indices(ds), c0, d);
    ChainIsList(ns', d, list);
    SelectSelect(ns, c0, d);
    c := Select(c0, d);
  }

  // ---------- back to the original list ----------

  ghost predicate HasDistinctIndices(xs: seq<s16>) {
    forall i, j | 0 <= i < j < |xs| :: xs[i] != xs[j]
  }

  ghost predicate IsSortedByIndex(xs: seq<s16>) {
    forall i, j | 0 <= i < j < |xs| :: xs[i] <= xs[j]
  }

  /** The low byte of every data word is its backup. */
  ghost predicate AreFresh(ws: seq<u16>) {
    forall i | 0 <= i < |ws| :: ws[i] == Rebuilt(ws[i])
  }

  /** Data with equal indices stand in the list c in their original order. */
  ghost predicate AreInOrder(xs: seq<s16>, c: seq<nat>) {
    forall x, y | 0 <= x < y < |xs| && xs[x] == xs[y] :: Place(c, x) < Place(c, y)
  }

  /** Sorting the list c0 by index leads back to the original order exactly if that order was sorted, and c0 has kept
      the order of data with equal indices.
   */
  lemma SortingByIndexIsIdentity(ws: seq<u16>, xs: seq<s16>, c0: seq<nat>, c: seq<nat>)
    requires IsRearrangement(c, |xs|) && |ws| == |xs| && IsSortedFrom(CmpIdx, ws, xs, c0, c)
    ensures c == Identity(|xs|) <==> IsSortedByIndex(xs) && AreInOrder(xs, c0)
  {
    hide Place;
    var id := Identity(|xs|);
    if IsSortedByIndex(xs) && AreInOrder(xs, c0) {
      IdentityIsRearrangement(xs);
      forall i, j | 0 <= i < j < |id|
        ensures Precedes(CmpIdx, ws, xs, c0, id[i], id[j])
      {
        assert xs[i] <= xs[j];
      }
      SortedFromIsUnique(CmpIdx, ws, xs, c0, c, id);
    }
    if c == id {
      forall i, j | 0 <= i < j < |xs|
        ensures xs[i] < xs[j] || (xs[i] == xs[j] && Place(c0, i) < Place(c0, j))
      {
        assert Precedes(CmpIdx, ws, xs, c0, c[i], c[j]);
      }
    }
  }

  /** With distinct indices there is no such order to keep. */
  lemma DistinctAreInOrder(xs: seq<s16>, c: seq<nat>)
    requires HasDistinctIndices(xs)
    ensures AreInOrder(xs, c)
  {
  }

  /** Rebuilding gives the old words back exactly if they were fresh. */
  lemma RebuildingRestores(ws: seq<u16>, ws': seq<u16>)
    requires BackupsKept(ws, ws') && AreFresh(ws')
    ensures ws' == ws <==> AreFresh(ws)
  {
  }

  /** If the links describe the original list as well as its rearrangement c, then c is no rearrangement at all. */
  lemma OneHeapOneOrder(ns: seq<ListHead>, first: ListHead, c: seq<nat>, list: ListHead)
    requires ns != [] && IsList(ns, first) && IsRearrangement(c, |ns|) && IsList(Select(ns, c), list)
    ensures c == Identity(|ns|)
  {
    hide IsList, Injective;
    RearrangementShape(c, |ns|);
    var i := 0;
    while i < |c| - 1
      invariant 0 <= i < |c|
      invariant forall k | 0 <= k <= i :: c[k] == c[0] + k
    {
      NextIsNext(ns, first, c, list, i);
      i := i + 1;
    }
    assert c[|c| - 1] < |ns|;
  }

  lemma NextIsNext(ns: seq<ListHead>, first: ListHead, c: seq<nat>, list: ListHead, i: nat)
    requires IsList(ns, first) && IsRearrangement(c, |ns|) && IsList(Select(ns, c), list) && i + 1 < |c|
    ensures c[i + 1] == c[i] + 1
  {
    ListIsInjective(ns, first);
    var cur := Select(ns, c);
    assert cur[i].next == Successor(cur, i) == cur[i + 1];
    assert ns[c[i]].next == Successor(ns, c[i]);
    assert cur[i] == ns[c[i]] && cur[i + 1] == ns[c[i + 1]];
  }

  lemma SettledIsFresh(ws: seq<u16>)
    requires AreSettled(CmpIdx, true, ws)
    ensures AreFresh(ws)
  {
  }

  lemma ScratchIs(res: Results?)
    ensures Scratch(res) == if res == null then {} else {res}
  {
  }

  lemma RearrangementShape(c: seq<nat>, n: nat)
    requires IsRearrangement(c, n)
    ensures |c| == n && Positions(c, n)
  {
  }

  lemma BackupsAreKept(ws: seq<u16>)
    ensures BackupsKept(ws, ws)
  {
  }

  lemma PairedInAnyOrder(ns: seq<ListHead>, ds: seq<ListData>, c: seq<nat>)
    requires |ns| == |ds| && IsRearrangement(c, |ns|) && IsPaired(Select(ns, c), Select(ds, c))
    ensures IsPaired(ns, ds)
  {
    PositionsAreAll(c);
    forall x | 0 <= x < |ns|
      ensures ns[x].info == ds[x]
    {
      assert x in c;
      var i :| 0 <= i < |c| && c[i] == x;
      assert Select(ns, c)[i] == ns[x] && Select(ds, c)[i] == ds[x];
    }
  }

  /** What the last sort, of the list c0, leaves is the original list exactly if that was sorted and fresh, and c0 has
      kept the order of data with equal indices.
   */
  lemma Restoration(ns: seq<ListHead>, first: ListHead, ws0: seq<u16>, ws: seq<u16>, xs: seq<s16>,
                    c0: seq<nat>, c: seq<nat>, list: ListHead)
    requires ns != [] && first == ns[0] && |ws| == |xs| == |ns| && IsRearrangement(c, |ns|)
    requires IsList(Select(ns, c), list) && IsSortedFrom(CmpIdx, ws, xs, c0, c)
    requires BackupsKept(ws0, ws) && AreFresh(ws)
    ensures IsList(ns, first) && ws == ws0 <==> IsSortedByIndex(xs) && AreInOrder(xs, c0) && AreFresh(ws0)
  {
    hide IsSortedFrom, AreInOrder, BackupsKept, AreFresh, IsSortedByIndex;
    SortingByIndexIsIdentity(ws, xs, c0, c);
    RebuildingRestores(ws0, ws);
    IdentityIsRearrangement(ns);
    if IsList(ns, first) {
      OneHeapOneOrder(ns, first, c, list);
    }
  }

  // ---------- the find loop ----------

  /** The find loop between two rounds: the list, as a rearrangement of the given one, and its counters. */
  datatype Search = Search(c: seq<nat>, idx: s16, gained: u16, found: u16, missed: u16)

  function NextIndex(idx: s16): s16 {
    if idx < 0 then idx else if idx == 0x7fff then -0x8000 else idx + 1
  }

  lemma IdentityLength(n: nat)
    ensures |Identity(n)| == n
  {
  }

  lemma TurnedIsRearrangement(c: seq<nat>, k: nat, n: nat)
    requires IsRearrangement(c, n)
    ensures IsRearrangement(Turned(c, k), n)
  {
    var whole := Identity(n);
    hide IsRearrangement, Spliced, Reversed, Identity;
    IdentityLength(n);
    SelectReversed(whole, c);
    RearrangementShape(c, n);
    RearrangementShape(Reversed(c), n);
    if 0 < k < |c| {
      SelectSpliced(whole, Reversed(c), |c| - 1 - k);
    }
  }

  /** Round i over data with the words ws and the indices xs. */
  ghost function Round(s: Search, ws: seq<u16>, xs: seq<s16>, i: nat): (t: Search)
    requires |ws| == |xs| >= 2 && IsRearrangement(s.c, |ws|)
    ensures IsRearrangement(t.c, |ws|)
  {
    RearrangementShape(s.c, |ws|);
    var data := Select(ws, s.c);
    var k := First(data, Select(xs, s.c), s.idx, i % 256);
    TurnedIsRearrangement(s.c, k, |ws|);
    Search(Turned(s.c, k), NextIndex(s.idx), Sum16(s.gained, GainAt(data, k)),
           if k < |ws| then Sum16(s.found, 1) else s.found, if k < |ws| then s.missed else Sum16(s.missed, 1))
  }

  /** The first n rounds of a search for idx. */
  ghost function Rounds(ws: seq<u16>, xs: seq<s16>, idx: s16, n: nat): (s: Search)
    requires |ws| == |xs| >= 2
    ensures IsRearrangement(s.c, |ws|)
  {
    if n == 0 then
      IdentityIsRearrangement(ws);
      Search(Identity(|ws|), idx, 0, 0, 0)
    else Round(Rounds(ws, xs, idx, n - 1), ws, xs, n - 1)
  }

  /** The find loop: seed3 rounds, each of which rearranges the list. */
  method FindLoop(res: Results, finderIdx: s16, ghost ns: seq<ListHead>, ghost ds: seq<ListData>)
    returns (list: ListHead, idx: s16, data16: u16, retval: u16, ghost s: Search)
    requires |ns| >= 2 && IsList(ns, res.list) && IsPaired(ns, ds)
    modifies ns`next
    ensures |ds| == |ns|
    ensures s == Rounds(Words(ds), Indices(ds), finderIdx, if res.seed3 > 0 then res.seed3 else 0)
    ensures IsRearrangement(s.c, |ns|) && Positions(s.c, |ns|) && IsList(Select(ns, s.c), list)
    ensures idx == s.idx && data16 == if res.seed3 > 0 then (res.seed3 - 1) % 256 else 0
    ensures retval == (s.gained + 4 * s.found - s.missed) % 0x1_0000
  {
    hide *;
    PairedLengths(ns, ds);
    IdentityIsRearrangement(ns);
    RearrangementShape(Identity(|ns|), |ns|);
    ghost var ws, xs := Words(ds), Indices(ds);
    list, idx, data16, retval, s := res.list, finderIdx, 0, 0, Search(Identity(|ns|), finderIdx, 0, 0, 0);
    var found: u16, missed: u16 := 0, 0;
    RoundsStart(ws, xs, finderIdx);
    var count := if res.seed3 > 0 then res.seed3 else 0;
    for i := 0 to count
      invariant Words(ds) == ws && Indices(ds) == xs && |ws| == |xs| == |ns|
      invariant s == Rounds(ws, xs, finderIdx, i) && s == Search(s.c, idx, retval, found, missed)
      invariant data16 == if i > 0 then (i - 1) % 256 else 0
      invariant IsRearrangement(s.c, |ns|) && Positions(s.c, |ns|) && IsList(Select(ns, s.c), list)
    {
      var hit;
      ghost var k, c;
      data16 := i % 256;
      RoundIs(s, ws, xs, i, First(Select(ws, s.c), Select(xs, s.c), idx, data16));
      RoundsContinue(ws, xs, finderIdx, i);
      list, hit, retval, c, k := FindRound(list, idx, data16, retval, ns, ds, s.c);
      SumIs(found, 1);
      SumIs(missed, 1);
      if hit {
        found := (found + 1) % 0x1_0000;
      } else {
        missed := (missed + 1) % 0x1_0000;
      }
      NextIndexIs(idx);
      if idx >= 0 {
        idx := if idx == 0x7fff then -0x8000 else idx + 1;
      }
      s := Search(c, idx, retval, found, missed);
      RearrangementShape(c, |ns|);
    }
    retval := (retval + found * 4 - missed) % 0x1_0000;
  }

  lemma RoundsStart(ws: seq<u16>, xs: seq<s16>, idx: s16)
    requires |ws| == |xs| >= 2
    ensures Rounds(ws, xs, idx, 0) == Search(Identity(|ws|), idx, 0, 0, 0)
  {
  }

  lemma RoundIs(s: Search, ws: seq<u16>, xs: seq<s16>, i: nat, k: nat)
    requires |ws| == |xs| >= 2 && IsRearrangement(s.c, |ws|) && Positions(s.c, |ws|)
    requires k == First(Select(ws, s.c), Select(xs, s.c), s.idx, i % 256)
    ensures Round(s, ws, xs, i) ==
            Search(Turned(s.c, k), NextIndex(s.idx), Sum16(s.gained, GainAt(Select(ws, s.c), k)),
                   if k < |ws| then Sum16(s.found, 1) else s.found, if k < |ws| then s.missed else Sum16(s.missed, 1))
  {
    hide First, Turned, GainAt, Sum16, NextIndex, IsRearrangement;
  }

  lemma RoundsContinue(ws: seq<u16>, xs: seq<s16>, idx: s16, n: nat)
    requires |ws| == |xs| >= 2
    ensures Rounds(ws, xs, idx, n + 1) == Round(Rounds(ws, xs, idx, n), ws, xs, n)
  {
    hide Round;
  }

  lemma SumIs(a: nat, b: nat)
    ensures Sum16(a, b) == (a + b) % 0x1_0000
  {
  }

  lemma NextIndexIs(idx: s16)
    ensures NextIndex(idx) == if idx < 0 then idx else if idx == 0x7fff then -0x8000 else idx + 1
  {
  }

  /** Every round counts once, as found or as missed; an index that is not negative moves on until it wraps. */
  lemma {:induction false} RoundsCount(ws: seq<u16>, xs: seq<s16>, idx: s16, n: nat)
    requires |ws| == |xs| >= 2
    ensures var s := Rounds(ws, xs, idx, n);
            && (s.found + s.missed) % 0x1_0000 == n % 0x1_0000
            && s.idx == if idx < 0 then idx else if idx + n <= 0x7fff then idx + n else -0x8000
  {
    hide *;
    if n == 0 {
      RoundsStart(ws, xs, idx);
    } else {
      RoundsCount(ws, xs, idx, n - 1);
      RoundsContinue(ws, xs, idx, n - 1);
      var s := Rounds(ws, xs, idx, n - 1);
      RearrangementShape(s.c, |ws|);
      RoundIs(s, ws, xs, n - 1, First(Select(ws, s.c), Select(xs, s.c), s.idx, (n - 1) % 256));
      NextIndexIs(s.idx);
      SumIs(s.found, 1);
      SumIs(s.missed, 1);
      CountedOnce(s.found, s.missed, n - 1);
    }
  }

  lemma CountedOnce(a: u16, b: u16, n: nat)
    requires (a + b) % 0x1_0000 == n % 0x1_0000
    ensures ((a + 1) % 0x1_0000 + b) % 0x1_0000 == (n + 1) % 0x1_0000
    ensures (a + (b + 1) % 0x1_0000) % 0x1_0000 == (n + 1) % 0x1_0000
  {
    OneMore(a, b);
    OneMore(b, a);
    Bits.SameModulo(a + b + 1, (a + b) % 0x1_0000 + 1, (a + b) / 0x1_0000, 0x1_0000);
    Bits.SameModulo(n + 1, n % 0x1_0000 + 1, n / 0x1_0000, 0x1_0000);
  }

  lemma OneMore(a: u16, b: u16)
    ensures ((a + 1) % 0x1_0000 + b) % 0x1_0000 == (a + b + 1) % 0x1_0000
  {
    if a == 0xFFFF {
      Bits.SameModulo(a + b + 1, b, 1, 0x1_0000);
    } else {
      WrapsOnce(a + 1);
    }
  }

  /** A search for indices that no datum has misses every time: the list is reversed again and again, and bit 8 of the
      second word of each reversed list counts.
   */
  lemma {:induction false} SearchInVain(ws: seq<u16>, xs: seq<s16>, idx: s16, n: nat)
    requires |ws| == |xs| >= 2 && 0 <= idx && idx + n <= 0x7fff
    requires forall i | 0 <= i < |xs| :: !(idx <= xs[i] < idx + n)
    ensures var s := Rounds(ws, xs, idx, n);
            && s.found == 0 && s.missed == n && s.idx == idx + n && |s.c| == |ws|
            && (forall i | 0 <= i < |ws| :: s.c[i] == if n % 2 == 0 then i else |ws| - 1 - i)
            && s.gained == (n + 1) / 2 * (ws[|ws| - 2] / 256 % 2) + n / 2 * (ws[1] / 256 % 2)
  {
    hide *;
    if n == 0 {
      RoundsStart(ws, xs, idx);
      IdentityIs(|ws|);
    } else {
      SearchInVain(ws, xs, idx, n - 1);
      RoundsContinue(ws, xs, idx, n - 1);
      OneMiss(Rounds(ws, xs, idx, n - 1), ws, xs, idx, n - 1);
    }
  }

  lemma IdentityIs(n: nat)
    ensures |Identity(n)| == n && forall i | 0 <= i < n :: Identity(n)[i] == i
  {
  }

  lemma OneMiss(s: Search, ws: seq<u16>, xs: seq<s16>, idx: s16, n: nat)
    requires |ws| == |xs| >= 2 && 0 <= idx && idx + n < 0x7fff && IsRearrangement(s.c, |ws|) && |s.c| == |ws|
    requires forall i | 0 <= i < |xs| :: xs[i] != idx + n
    requires s.found == 0 && s.missed == n && s.idx == idx + n
    requires forall i | 0 <= i < |ws| :: s.c[i] == if n % 2 == 0 then i else |ws| - 1 - i
    requires s.gained == (n + 1) / 2 * (ws[|ws| - 2] / 256 % 2) + n / 2 * (ws[1] / 256 % 2)
    ensures var t := Round(s, ws, xs, n);
            && t.found == 0 && t.missed == n + 1 && t.idx == idx + n + 1 && |t.c| == |ws|
            && (forall i | 0 <= i < |ws| :: t.c[i] == if (n + 1) % 2 == 0 then i else |ws| - 1 - i)
            && t.gained == (n + 2) / 2 * (ws[|ws| - 2] / 256 % 2) + (n + 1) / 2 * (ws[1] / 256 % 2)
  {
    hide *;
    RearrangementShape(s.c, |ws|);
    var k := |ws|;
    MissesAll(Select(ws, s.c), Select(xs, s.c), s.idx, n % 256);
    RoundIs(s, ws, xs, n, k);
    NextIndexIs(s.idx);
    SumIs(n, 1);
    var b2, b1 := ws[|ws| - 2] / 256 % 2, ws[1] / 256 % 2;
    TurnedByMiss(s.c, n);
    GainOfMiss(ws, s.c, n);
    GainsAddUp(n, b2, b1, s.gained, GainAt(Select(ws, s.c), k));
  }

  lemma TurnedByMiss(c: seq<nat>, n: nat)
    requires forall i | 0 <= i < |c| :: c[i] == if n % 2 == 0 then i else |c| - 1 - i
    ensures |Turned(c, |c|)| == |c|
    ensures forall i | 0 <= i < |c| :: Turned(c, |c|)[i] == if (n + 1) % 2 == 0 then i else |c| - 1 - i
  {
    assert n % 2 == 0 <==> (n + 1) % 2 != 0;
  }

  lemma MissesAll(ws: seq<u16>, xs: seq<s16>, idx: s16, data16: u16)
    requires |ws| == |xs| && 0 <= idx && forall i | 0 <= i < |xs| :: xs[i] != idx
    ensures First(ws, xs, idx, data16) == |ws|
  {
    FirstIs(ws, xs, idx, data16, |ws|);
  }

  lemma GainOfMiss(ws: seq<u16>, c: seq<nat>, n: nat)
    requires |ws| == |c| >= 2 && Positions(c, |ws|)
    requires forall i | 0 <= i < |c| :: c[i] == if n % 2 == 0 then i else |c| - 1 - i
    ensures |Select(ws, c)| == |ws|
    ensures GainAt(Select(ws, c), |ws|) == if n % 2 == 0 then ws[|ws| - 2] / 256 % 2 else ws[1] / 256 % 2
  {
    assert Select(ws, c)[|ws| - 2] == ws[c[|ws| - 2]];
  }

  lemma GainsAddUp(n: nat, b2: nat, b1: nat, gained: u16, gain: nat)
    requires n < 0x7fff && b2 < 2 && b1 < 2 && gain == if n % 2 == 0 then b2 else b1
    requires gained == (n + 1) / 2 * b2 + n / 2 * b1
    ensures Sum16(gained, gain) == (n + 2) / 2 * b2 + (n + 1) / 2 * b1
  {
    if b2 == 0 && b1 == 0 {
    } else if b2 == 0 {
      assert b1 == 1;
    } else if b1 == 0 {
      assert b2 == 1;
    } else {
      assert b2 == 1 && b1 == 1;
    }
  }

  /** A search that finds its first datum at position k: one hit; the list is reversed, and the datum before the found
      one, if there is one, is in the second place.
   */
  lemma SearchWithSuccess(ws: seq<u16>, xs: seq<s16>, idx: s16, k: nat)
    requires |ws| == |xs| >= 2 && 0 <= idx && k < |xs| && xs[k] == idx && forall i | 0 <= i < k :: xs[i] != idx
    ensures var s := Rounds(ws, xs, idx, 1);
            && s.found == 1 && s.missed == 0 && s.gained == (if ws[k] % 2 == 1 then ws[k] / 512 % 2 else 0)
            && |s.c| == |ws| && s.c[0] == |ws| - 1 && s.c[1] == (if k > 0 then k - 1 else |ws| - 2)
            && (forall i | 2 <= i < |ws| :: s.c[i] == if k > 0 && i <= |ws| - k then |ws| - i else |ws| - 1 - i)
  {
    hide First, IsRearrangement;
    RoundsStart(ws, xs, idx);
    RoundsContinue(ws, xs, idx, 0);
    var s := Rounds(ws, xs, idx, 0);
    RearrangementShape(s.c, |ws|);
    FirstIs(Select(ws, s.c), Select(xs, s.c), idx, 0, k);
    RoundIs(s, ws, xs, 0, k);
  }

  // ---------- the benchmark as a whole ----------

  /** What is known of the list c and of the words ws after the first sort, if there is one, from the list c0 with the
      words ws0.
   */
  ghost predicate IsDisturbed(finderIdx: s16, ws0: seq<u16>, xs: seq<s16>, c0: seq<nat>, ws: seq<u16>, c: seq<nat>) {
    if finderIdx > 0 then
      IsSortedFrom(CmpComplex, ws, xs, c0, c) && AreSettled(CmpComplex, false, ws) && BackupsKept(ws0, ws)
    else ws == ws0 && c == c0
  }

  /** Sort by data, unless finderIdx says not to, and take one datum out and put it back. */
  method DisturbData(res: Results, finderIdx: s16, list0: ListHead, idx: s16, data16: u16, retval0: u16,
                     ghost ns: seq<ListHead>, ghost ds: seq<ListData>, ghost c0: seq<nat>)
    returns (list: ListHead, retval: u16, ghost c: seq<nat>, ghost k: nat)
    requires |ns| >= 3 && IsRearrangement(c0, |ns|) && Positions(c0, |ns|) && IsList(Select(ns, c0), list0)
    requires IsPaired(ns, ds) && |ns| == |ds|
    modifies ns`next, ns`info, ds`data16, res
    ensures IsRearrangement(c, |ns|) && Positions(c, |ns|) && IsList(Select(ns, c), list)
    ensures IsPaired(ns, ds) && BackupsKept(old(Words(ds)), Words(ds))
    ensures IsDisturbed(finderIdx, old(Words(ds)), Indices(ds), c0, Words(ds), c)
    ensures k == First(Without(Select(Words(ds), c), 1), Without(Select(Indices(ds), c), 1), idx, data16) < |ns|
    ensures retval ==
            CoreMarkCrc.Crc(Pairs(Words(ds)[c[0]], if k < |ns| - 1 then |ns| - 1 - k else |ns| - 2), retval0)
  {
    hide *;
    ScratchIs(res);
    BackupsAreKept(Words(ds));
    list, c := list0, c0;
    ghost var ws := Words(ds);
    if finderIdx > 0 {
      list, c := SortFrom(CmpComplex, list, res, ns, ds, c);
      RearrangementShape(c, |ns|);
    }
    DisturbedIs(finderIdx, ws, Indices(ds), c0, Words(ds), c);
    SelectedNodes(ns, c);
    PairedSelect(ns, ds, c);
    WordsOfSelect(ds, c);
    retval, k := RemoveAndUndo(list, idx, data16, retval0, Select(ns, c), Select(ds, c));
    PairedInAnyOrder(ns, ds, c);
    WordsOfSelect(ds, c);
    HeadWord(ds, c);
  }

  lemma DisturbedIs(finderIdx: s16, ws0: seq<u16>, xs: seq<s16>, c0: seq<nat>, ws: seq<u16>, c: seq<nat>)
    requires finderIdx > 0 ==>
               IsSortedFrom(CmpComplex, ws, xs, c0, c) && AreSettled(CmpComplex, false, ws) && BackupsKept(ws0, ws)
    requires finderIdx <= 0 ==> ws == ws0 && c == c0
    ensures IsDisturbed(finderIdx, ws0, xs, c0, ws, c)
  {
  }

  lemma HeadWord(ds: seq<ListData>, c: seq<nat>)
    requires IsRearrangement(c, |ds|) && ds != []
    ensures Positions(c, |ds|) && |c| == |ds| && Select(ds, c)[0].data16 == Words(ds)[c[0]]
  {
  }

  /** The find loop and the first sort. */
  method SearchAndDisturb(res: Results, finderIdx: s16, ghost ns: seq<ListHead>, ghost ds: seq<ListData>)
    returns (list: ListHead, retval: u16, ghost c: seq<nat>, ghost s: Search, ghost value: u16, ghost data16: u16,
             ghost k: nat)
    requires |ns| >= 3 && IsList(ns, res.list) && IsPaired(ns, ds)
    modifies ns`next, ns`info, ds`data16, res
    ensures IsPaired(ns, ds) && |ds| == |ns| && BackupsKept(old(Words(ds)), Words(ds))
    ensures IsRearrangement(c, |ns|) && Positions(c, |ns|) && IsList(Select(ns, c), list)
    ensures s == Rounds(old(Words(ds)), Indices(ds), finderIdx, if res.seed3 > 0 then res.seed3 else 0)
    ensures value == (s.gained + 4 * s.found - s.missed) % 0x1_0000
    ensures data16 == if res.seed3 > 0 then (res.seed3 - 1) % 256 else 0
    ensures IsDisturbed(finderIdx, old(Words(ds)), Indices(ds), s.c, Words(ds), c)
    ensures k == First(Without(Select(Words(ds), c), 1), Without(Select(Indices(ds), c), 1), s.idx, data16) < |ns|
    ensures retval ==
            CoreMarkCrc.Crc(Pairs(Words(ds)[c[0]], if k < |ns| - 1 then |ns| - 1 - k else |ns| - 2), value)
  {
    hide *;
    PairedLengths(ns, ds);
    var idx, low;
    list, idx, low, retval, s := FindLoop(res, finderIdx, ns, ds);
    value, data16 := retval, low;
    list, retval, c, k := DisturbData(res, finderIdx, list, idx, low, retval, ns, ds, s.c);
  }

  /** The second sort, and the last checksum. */
  method SortBack(list0: ListHead, retval0: u16, ghost ns: seq<ListHead>, ghost ds: seq<ListData>, ghost c0: seq<nat>)
    returns (list: ListHead, retval: u16, ghost c: seq<nat>)
    requires |ns| >= 2 && IsRearrangement(c0, |ns|) && IsList(Select(ns, c0), list0) && IsPaired(ns, ds)
    modifies ns`next, ds`data16
    ensures IsRearrangement(c, |ns|) && Positions(c, |ns|) && |c| == |ns| == |ds| && IsList(Select(ns, c), list)
    ensures IsSortedFrom(CmpIdx, Words(ds), Indices(ds), c0, c)
    ensures BackupsKept(old(Words(ds)), Words(ds)) && AreFresh(Words(ds))
    ensures retval == CoreMarkCrc.Crc(Pairs(Words(ds)[c[0]], |ns| - 1), retval0)
  {
    hide *;
    ScratchIs(null);
    PairedLengths(ns, ds);
    list, c := SortFrom(CmpIdx, list0, null, ns, ds, c0);
    RearrangementShape(c, |ns|);
    SettledIsFresh(Words(ds));
    SelectedNodes(ns, c);
    ListEnds(Select(ns, c), list, 0);
    PairedAt(ns, ds, c[0]);
    retval := Checksum(list, list.next, retval0, Select(ns, c), 1);
  }

  /** The benchmark on one block of results. Its list is ns with the data ds before the call; c1 and ws1 are the list
      and the words after the first sort.
   */
  method CoreBenchList(res: Results, finderIdx: s16, ghost ns: seq<ListHead>, ghost ds: seq<ListData>)
    returns (retval: u16, ghost list: ListHead, ghost c: seq<nat>, ghost c1: seq<nat>, ghost ws1: seq<u16>,
             ghost s: Search, ghost value: u16, ghost data16: u16, ghost k: nat)
    requires |ns| >= 3 && IsList(ns, res.list) && IsPaired(ns, ds)
    modifies ns`next, ns`info, ds`data16, res
    ensures IsPaired(ns, ds) && |ds| == |ns|
    ensures IsRearrangement(c, |ns|) && IsList(Select(ns, c), list)
    ensures IsSortedFrom(CmpIdx, Words(ds), Indices(ds), c1, c)
    ensures BackupsKept(old(Words(ds)), Words(ds)) && AreFresh(Words(ds))
    ensures IsList(ns, res.list) && Words(ds) == old(Words(ds))
            <==> IsSortedByIndex(Indices(ds)) && AreInOrder(Indices(ds), c1) && AreFresh(old(Words(ds)))
    ensures IsRearrangement(c1, |ns|) && Positions(c1, |ns|) && |ws1| == |ns| && Positions(c, |ns|)
    ensures s == Rounds(old(Words(ds)), Indices(ds), finderIdx, if res.seed3 > 0 then res.seed3 else 0)
    ensures value == (s.gained + 4 * s.found - s.missed) % 0x1_0000
    ensures data16 == if res.seed3 > 0 then (res.seed3 - 1) % 256 else 0
    ensures IsDisturbed(finderIdx, old(Words(ds)), Indices(ds), s.c, ws1, c1)
    ensures k == First(Without(Select(ws1, c1), 1), Without(Select(Indices(ds), c1), 1), s.idx, data16) < |ns|
    ensures retval == CoreMarkCrc.Crc(Pairs(ws1[c1[0]], if k < |ns| - 1 then |ns| - 1 - k else |ns| - 2) +
                                      Pairs(Words(ds)[c[0]], |ns| - 1), value)
  {
    hide *;
    PairedLengths(ns, ds);
    ListEnds(ns, res.list, 0);
    ghost var words := Words(ds);
    var list';
    list', retval, c1, s, value, data16, k := SearchAndDisturb(res, finderIdx, ns, ds);
    ws1 := Words(ds);
    list', retval, c := SortBack(list', retval, ns, ds, c1);
    list := list';
    BackupsKeptIsTransitive(words, ws1, Words(ds));
    RearrangementShape(c, |ns|);
    RearrangementShape(c1, |ns|);
    CoreMarkCrc.CrcOfConcatenation(Pairs(ws1[c1[0]], if k < |ns| - 1 then |ns| - 1 - k else |ns| - 2),
                                   Pairs(Words(ds)[c[0]], |ns| - 1), value);
    Restoration(ns, res.list, words, Words(ds), Indices(ds), c1, c, list);
  }

  /** A list that is sorted and fresh, but comes back in another order: with the indices 0, 5 and 5, a single round that
      finds nothing, and no sort by data, the two last nodes stay reversed.
   */
  lemma RepeatedIndicesMayNotReturn()
    ensures var ws, xs := [0x0101, 0x0101, 0x0101], [0, 5, 5];
            && IsSortedByIndex(xs) && AreFresh(ws)
            && IsDisturbed(-1, ws, xs, Rounds(ws, xs, -1, 1).c, ws, [2, 1, 0]) && !AreInOrder(xs, [2, 1, 0])
  {
    ReversedByOneRound();
    hide Rounds;
    PlaceIs([2, 1, 0], 0);
    PlaceIs([2, 1, 0], 1);
  }

  lemma ReversedByOneRound()
    ensures Rounds([0x0101, 0x0101, 0x0101], [0, 5, 5], -1, 1).c == [2, 1, 0]
  {
    var ws: seq<u16>, xs: seq<s16> := [0x0101, 0x0101, 0x0101], [0, 5, 5];
    RoundsStart(ws, xs, -1);
    RoundsContinue(ws, xs, -1, 0);
    var s := Rounds(ws, xs, -1, 0);
    hide Round, Rounds;
    RearrangementShape(s.c, 3);
    FirstIs(Select(ws, s.c), Select(xs, s.c), -1, 0, 3);
    RoundIs(s, ws, xs, 0, 3);
    assert Turned(s.c, 3) == [2, 1, 0];
  }
}
