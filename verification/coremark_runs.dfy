/** The pure part of the bottom-up merge sort.

    Nodes are named by their position in the list that the sort was given, so a list on its way through the
    sort is a sequence of positions, and stability is simply the order of those numbers. A comparator of
    CoreMark computes the key of a node the first time it looks at it; Keys is the map of the keys computed so
    far, which only ever grows.
 */
module MergeRuns {
  import opened Sequences

  type Keys = map<nat, int>

  ghost predicate Extends(keys: Keys, keys': Keys) {
    forall x {:trigger x in keys'} {:trigger x in keys} :: x in keys ==> x in keys' && keys'[x] == keys[x]
  }

  lemma ExtendsIsReflexive(keys: Keys)
    ensures Extends(keys, keys)
  {
  }

  lemma ExtendsIsTransitive(keys: Keys, keys': Keys, keys'': Keys)
    requires Extends(keys, keys') && Extends(keys', keys'')
    ensures Extends(keys, keys'')
  {
  }

  /** Both keys are known, and x belongs before y in a stable sort. */
  ghost predicate Before(keys: Keys, x: nat, y: nat) {
    && x in keys && y in keys
    && (keys[x] < keys[y] || (keys[x] == keys[y] && x < y))
  }

  ghost predicate Positions(c: seq<nat>, n: nat) {
    forall i | 0 <= i < |c| :: c[i] < n
  }

  ghost predicate Within(c: seq<nat>, lo: nat, hi: nat)
    requires hi <= |c|
  {
    forall i | lo <= i < hi :: lo <= c[i] < hi
  }

  ghost predicate Ordered(c: seq<nat>, lo: nat, hi: nat, keys: Keys)
    requires hi <= |c|
  {
    forall i, j | lo <= i < j < hi :: Before(keys, c[i], c[j])
  }

  /** c[lo..hi] is a sorted rearrangement of the positions lo, ..., hi - 1. */
  ghost predicate IsRun(c: seq<nat>, lo: nat, hi: nat, keys: Keys) {
    lo < hi <= |c| && Within(c, lo, hi) && Ordered(c, lo, hi, keys)
  }

  lemma ExtendingKeepsRun(c: seq<nat>, lo: nat, hi: nat, keys: Keys, keys': Keys)
    requires IsRun(c, lo, hi, keys) && Extends(keys, keys')
    ensures IsRun(c, lo, hi, keys')
  {
  }

  // ---------- one merge ----------

  /** The constants of one merge: the runs c[b..m] and c[m..e] go onto the list out0. */
  datatype Merge = Merge(c: seq<nat>, b: nat, m: nat, e: nat, out0: seq<nat>)

  /** The two runs are neighbours, the second one possibly absent, and everything later is above them. */
  ghost predicate IsMergeable(g: Merge, keys: Keys) {
    && IsRun(g.c, g.b, g.m, keys)
    && (g.m == g.e == |g.c| || IsRun(g.c, g.m, g.e, keys))
    && (forall k | g.e <= k < |g.c| :: g.e <= g.c[k])
    && |g.out0| == g.b && Within(g.out0, 0, g.b) && Injective(g.out0)
  }

  /** The merge has consumed c[b..pi] and c[m..qi] and has written out. */
  ghost predicate IsMerging(g: Merge, keys: Keys, out: seq<nat>, pi: nat, qi: nat) {
    && IsMergeable(g, keys)
    && g.b <= pi <= g.m <= qi <= g.e
    && g.out0 <= out && |out| == g.b + (pi - g.b) + (qi - g.m)
    && Injective(out)
    && (forall i | g.b <= i < |out| :: g.b <= out[i] < g.e)
    && Ordered(out, g.b, |out|, keys)
    && forall i, k | g.b <= i < |out| && (pi <= k < g.m || qi <= k < g.e) :: Before(keys, out[i], g.c[k])
  }

  /** Nothing that has been written is still to be merged. */
  ghost predicate AreApart(out: seq<nat>, c: seq<nat>, pi: nat, m: nat, qi: nat)
    requires m <= |c|
  {
    forall i, k | 0 <= i < |out| && (pi <= k < m || qi <= k < |c|) :: out[i] != c[k]
  }

  /** The second run is used up, or its head is not smaller than the head of the first run. */
  ghost predicate MayTakeP(g: Merge, keys: Keys, pi: nat, qi: nat) {
    pi < g.m <= g.e <= |g.c| &&
    (qi == g.e || (qi < g.e && g.c[pi] in keys && g.c[qi] in keys && keys[g.c[pi]] <= keys[g.c[qi]]))
  }

  /** The first run is used up, or its head is larger than the head of the second run. */
  ghost predicate MayTakeQ(g: Merge, keys: Keys, pi: nat, qi: nat) {
    qi < g.e <= |g.c| &&
    (pi == g.m || (pi < g.m <= g.e && g.c[pi] in keys && g.c[qi] in keys && keys[g.c[qi]] < keys[g.c[pi]]))
  }

  lemma MayTakeShape(g: Merge, keys: Keys, pi: nat, qi: nat)
    ensures MayTakeP(g, keys, pi, qi) ==> pi < g.m <= |g.c|
    ensures MayTakeQ(g, keys, pi, qi) ==> qi < g.e <= |g.c|
  {
  }

  lemma MergingStarts(g: Merge, keys: Keys)
    requires IsMergeable(g, keys)
    ensures IsMerging(g, keys, g.out0, g.b, g.m)
    ensures g.b < g.m <= g.e <= |g.c|
  {
  }

  lemma MergingShape(g: Merge, keys: Keys, out: seq<nat>, pi: nat, qi: nat)
    requires IsMerging(g, keys, out, pi, qi)
    ensures g.b <= pi <= g.m <= qi <= g.e <= |g.c| && Injective(out)
  {
  }

  lemma MergingEnds(g: Merge, keys: Keys, out: seq<nat>)
    requires IsMerging(g, keys, out, g.m, g.e)
    ensures g.out0 <= out && IsRun(out, g.b, g.e, keys) && |out| == g.e && Injective(out)
  {
  }

  lemma ExtendingKeepsMerging(g: Merge, keys: Keys, keys': Keys, out: seq<nat>, pi: nat, qi: nat)
    requires IsMerging(g, keys, out, pi, qi) && Extends(keys, keys')
    ensures IsMerging(g, keys', out, pi, qi)
  {
  }

  lemma WrittenIsNotPending(g: Merge, keys: Keys, out: seq<nat>, pi: nat, qi: nat)
    requires IsMerging(g, keys, out, pi, qi)
    ensures AreApart(out, g.c, pi, g.m, qi)
  {
    forall i, k | 0 <= i < |out| && (pi <= k < g.m || qi <= k < |g.c|)
      ensures out[i] != g.c[k]
    {
      if i < g.b {
        assert out[i] == g.out0[i];
      } else if k < g.e {
        assert Before(keys, out[i], g.c[k]);
      }
    }
  }

  /** The head of the first run may go next when the second run is used up or its head is not smaller. */
  lemma TakingFromP(g: Merge, keys: Keys, out: seq<nat>, pi: nat, qi: nat)
    requires IsMerging(g, keys, out, pi, qi) && MayTakeP(g, keys, pi, qi)
    ensures IsMerging(g, keys, out + [g.c[pi]], pi + 1, qi)
    ensures AreApart(out, g.c, pi + 1, g.m, qi)
  {
    WrittenIsNotPending(g, keys, out, pi, qi);
    forall k | pi + 1 <= k < g.m || qi <= k < g.e
      ensures Before(keys, g.c[pi], g.c[k])
    {
      if qi <= k {
        assert Before(keys, g.c[pi], g.c[qi]);
      }
    }
  }

  /** The head of the second run may go next when the first run is used up or its head is larger. */
  lemma TakingFromQ(g: Merge, keys: Keys, out: seq<nat>, pi: nat, qi: nat)
    requires IsMerging(g, keys, out, pi, qi) && MayTakeQ(g, keys, pi, qi)
    ensures IsMerging(g, keys, out + [g.c[qi]], pi, qi + 1)
    ensures AreApart(out, g.c, pi, g.m, qi + 1)
  {
    WrittenIsNotPending(g, keys, out, pi, qi);
    forall k | pi <= k < g.m || qi + 1 <= k < g.e
      ensures Before(keys, g.c[qi], g.c[k])
    {
      if pi <= k < g.m {
        assert Before(keys, g.c[qi], g.c[pi]);
      }
    }
  }

  // ---------- one pass ----------

  /** The run boundaries of a pass with runs of length size; only the last run may be shorter. */
  ghost predicate IsBounds(bounds: seq<nat>, size: nat, n: nat) {
    && |bounds| >= 2 && bounds[0] == 0 && bounds[|bounds| - 1] == n
    && (forall i | 0 <= i < |bounds| - 2 :: bounds[i + 1] == bounds[i] + size)
    && 0 < bounds[|bounds| - 1] - bounds[|bounds| - 2] <= size
  }

  ghost predicate AreRuns(c: seq<nat>, bounds: seq<nat>, keys: Keys) {
    forall i | 0 <= i < |bounds| - 1 :: IsRun(c, bounds[i], bounds[i + 1], keys)
  }

  lemma ExtendingKeepsRuns(c: seq<nat>, bounds: seq<nat>, keys: Keys, keys': Keys)
    requires AreRuns(c, bounds, keys) && Extends(keys, keys')
    ensures AreRuns(c, bounds, keys')
  {
    forall i | 0 <= i < |bounds| - 1
      ensures IsRun(c, bounds[i], bounds[i + 1], keys')
    {
      ExtendingKeepsRun(c, bounds[i], bounds[i + 1], keys, keys');
    }
  }

  lemma BoundsAreMonotone(bounds: seq<nat>, size: nat, n: nat, i: nat, j: nat)
    requires IsBounds(bounds, size, n) && i < j < |bounds|
    ensures bounds[i] < bounds[j]
    decreases j - i
  {
    if i + 1 < j {
      BoundsAreMonotone(bounds, size, n, i, j - 1);
    }
    if j < |bounds| - 1 {
      assert bounds[j - 1 + 1] == bounds[j - 1] + size;
    }
  }

  /** Runs cover disjoint ranges, so everything in a later run is a larger position. */
  lemma LaterRunsAreAbove(c: seq<nat>, bounds: seq<nat>, size: nat, keys: Keys, r: nat, k: nat)
    requires IsBounds(bounds, size, |c|) && AreRuns(c, bounds, keys)
    requires r < |bounds| && bounds[r] <= k < |c|
    ensures bounds[r] <= c[k]
    decreases |bounds| - r
  {
    if r < |bounds| - 1 {
      assert IsRun(c, bounds[r], bounds[r + 1], keys);
      if bounds[r + 1] <= k {
        LaterRunsAreAbove(c, bounds, size, keys, r + 1, k);
      }
    }
  }

  lemma AllAbove(c: seq<nat>, bounds: seq<nat>, size: nat, keys: Keys, r: nat)
    requires IsBounds(bounds, size, |c|) && AreRuns(c, bounds, keys) && r < |bounds|
    ensures forall k | bounds[r] <= k < |c| :: bounds[r] <= c[k]
  {
    forall k | bounds[r] <= k < |c|
      ensures bounds[r] <= c[k]
    {
      LaterRunsAreAbove(c, bounds, size, keys, r, k);
    }
  }

  /** done are the boundaries that a pass over runs of length size has produced so far, up to b. */
  ghost predicate IsPairing(bounds: seq<nat>, done: seq<nat>, size: nat, n: nat, b: nat) {
    && |done| > 0 && done[0] == 0 && done[|done| - 1] == b
    && (forall i | 0 <= i < |done| - 1 :: done[i] < n && done[i] < done[i + 1] <= done[i] + 2 * size)
    && (forall i | 0 <= i < |done| - 1 && done[i + 1] < n :: done[i + 1] == done[i] + 2 * size)
    && var j := 2 * (|done| - 1);
       j <= |bounds| && b == if j < |bounds| then bounds[j] else n
  }

  function Cut(x: nat, n: nat): nat {
    if x < n then x else n
  }

  lemma CutIsBetween(b: nat, size: nat, n: nat)
    requires b <= n
    ensures b <= Cut(b + size, n) <= n
    ensures Cut(b + size, n) == if b + size < n then b + size else n
  {
  }

  /** The next two boundaries after bounds[j]. */
  lemma NextBounds(bounds: seq<nat>, size: nat, n: nat, j: nat)
    requires IsBounds(bounds, size, n) && j < |bounds| - 1
    ensures bounds[j + 1] == Cut(bounds[j] + size, n)
    ensures bounds[j + 1] == n <==> j + 2 == |bounds|
    ensures j + 2 < |bounds| ==> bounds[j + 2] == Cut(bounds[j + 1] + size, n)
  {
    var last := |bounds| - 1;
    if j + 1 < last {
      BoundsAreMonotone(bounds, size, n, j + 1, last);
      if j + 2 < last {
        BoundsAreMonotone(bounds, size, n, j + 2, last);
      }
    }
  }

  lemma PairingAdvances(bounds: seq<nat>, done: seq<nat>, size: nat, n: nat, b: nat)
    requires IsBounds(bounds, size, n) && IsPairing(bounds, done, size, n, b) && b < n
    ensures 2 * (|done| - 1) < |bounds| - 1
    ensures IsPairing(bounds, done + [Cut(Cut(b + size, n) + size, n)], size, n, Cut(Cut(b + size, n) + size, n))
  {
    var j, last := 2 * (|done| - 1), |done| - 1;
    LastIsEnd(bounds, size, n);
    NextBounds(bounds, size, n, j);
    CutIsBetween(b, size, n);
    CutIsBetween(Cut(b + size, n), size, n);
    hide IsBounds, Cut;
    var e := Cut(Cut(b + size, n) + size, n);
    var done' := done + [e];
    forall i | 0 <= i < |done'| - 1
      ensures done'[i] < n && done'[i] < done'[i + 1] <= done'[i] + 2 * size
      ensures done'[i + 1] < n ==> done'[i + 1] == done'[i] + 2 * size
    {
      if i < last {
        assert done'[i] == done[i] && done'[i + 1] == done[i + 1];
      } else {
        assert done'[i] == b && done'[i + 1] == e;
      }
    }
  }

  lemma LastIsEnd(bounds: seq<nat>, size: nat, n: nat)
    requires IsBounds(bounds, size, n)
    ensures size > 0 && |bounds| >= 2 && bounds[|bounds| - 1] == n
  {
  }

  lemma PairIsMergeable(g: Merge, bounds: seq<nat>, size: nat, keys: Keys, j: nat)
    requires IsBounds(bounds, size, |g.c|) && AreRuns(g.c, bounds, keys)
    requires j < |bounds| - 1 && g.b == bounds[j]
    requires g.m == Cut(g.b + size, |g.c|) && g.e == Cut(g.m + size, |g.c|)
    requires |g.out0| == g.b && Within(g.out0, 0, g.b) && Injective(g.out0)
    ensures IsMergeable(g, keys)
  {
    NextBounds(bounds, size, |g.c|, j);
    assert IsRun(g.c, bounds[j], bounds[j + 1], keys);
    if j + 2 < |bounds| {
      assert IsRun(g.c, bounds[j + 1], bounds[j + 2], keys);
      AllAbove(g.c, bounds, size, keys, j + 2);
    }
  }

  lemma PairingEnds(bounds: seq<nat>, done: seq<nat>, size: nat, n: nat)
    requires IsBounds(bounds, size, n) && IsPairing(bounds, done, size, n, n) && 0 < n
    ensures IsBounds(done, 2 * size, n)
    ensures |done| > 2 ==> |done| < |bounds|
  {
  }

  lemma AppendingARun(g: Merge, out: seq<nat>, done: seq<nat>, keys: Keys, keys': Keys)
    requires |done| > 0 && done[|done| - 1] == g.b == |g.out0| && AreRuns(g.out0, done, keys)
    requires g.out0 <= out && Extends(keys, keys') && IsRun(out, g.b, g.e, keys')
    ensures AreRuns(out, done + [g.e], keys')
  {
    var done' := done + [g.e];
    forall i | 0 <= i < |done'| - 1
      ensures IsRun(out, done'[i], done'[i + 1], keys')
    {
      if i < |done| - 1 {
        assert IsRun(g.out0, done[i], done[i + 1], keys);
        ExtendingKeepsRun(g.out0, done[i], done[i + 1], keys, keys');
      }
    }
  }

  /** A pass over the runs of c has written out, up to position b; its runs have the boundaries done. */
  ghost predicate IsPassing(c: seq<nat>, bounds: seq<nat>, size: nat, keys: Keys,
                            out: seq<nat>, done: seq<nat>, b: nat) {
    && IsBounds(bounds, size, |c|) && AreRuns(c, bounds, keys)
    && IsPairing(bounds, done, size, |c|, b) && AreRuns(out, done, keys)
    && |out| == b <= |c| && Within(out, 0, b) && Injective(out)
  }

  lemma PassStarts(c: seq<nat>, bounds: seq<nat>, size: nat, keys: Keys)
    requires IsBounds(bounds, size, |c|) && AreRuns(c, bounds, keys)
    ensures IsPassing(c, bounds, size, keys, [], [0], 0)
  {
  }

  lemma PassMayMerge(g: Merge, bounds: seq<nat>, size: nat, keys: Keys, done: seq<nat>)
    requires IsPassing(g.c, bounds, size, keys, g.out0, done, g.b) && g.b < |g.c|
    requires g.m == Cut(g.b + size, |g.c|) && g.e == Cut(g.m + size, |g.c|)
    ensures IsMergeable(g, keys)
  {
    PairingAdvances(bounds, done, size, |g.c|, g.b);
    PairIsMergeable(g, bounds, size, keys, 2 * (|done| - 1));
  }

  lemma PassAdvances(g: Merge, bounds: seq<nat>, size: nat, keys: Keys, keys': Keys, done: seq<nat>, out: seq<nat>)
    requires IsPassing(g.c, bounds, size, keys, g.out0, done, g.b) && g.b < |g.c|
    requires g.m == Cut(g.b + size, |g.c|) && g.e == Cut(g.m + size, |g.c|)
    requires Extends(keys, keys')
    requires g.out0 <= out && IsRun(out, g.b, g.e, keys') && |out| == g.e && Injective(out)
    ensures IsPassing(g.c, bounds, size, keys', out, done + [g.e], g.e)
  {
    PairingAdvances(bounds, done, size, |g.c|, g.b);
    ExtendingKeepsRuns(g.c, bounds, keys, keys');
    AppendingARun(g, out, done, keys, keys');
    assert Within(out, 0, g.e) by {
      forall i | 0 <= i < g.e
        ensures out[i] < g.e
      {
        if i < g.b {
          assert out[i] == g.out0[i];
        }
      }
    }
  }

  lemma PassEnds(c: seq<nat>, bounds: seq<nat>, size: nat, keys: Keys, out: seq<nat>, done: seq<nat>)
    requires IsPassing(c, bounds, size, keys, out, done, |c|) && 0 < |c|
    ensures IsBounds(done, 2 * size, |c|) && AreRuns(out, done, keys)
    ensures |out| == |c| && Injective(out) && (|done| > 2 ==> |done| < |bounds|)
  {
    PairingEnds(bounds, done, size, |c|);
  }

  // ---------- the whole sort ----------

  ghost predicate IsRearrangement(c: seq<nat>, n: nat) {
    |c| == n && Injective(c) && Positions(c, n)
  }

  /** One run, and one run only: a stable sort of all positions. */
  ghost predicate IsStableSort(c: seq<nat>, keys: Keys) {
    Injective(c) && Positions(c, |c|) && Ordered(c, 0, |c|, keys)
  }

  function Identity(n: nat): (c: seq<nat>)
    ensures |c| == n && forall i | 0 <= i < n :: c[i] == i
  {
    seq(n, i => i)
  }

  function Singletons(n: nat): (bounds: seq<nat>)
    ensures |bounds| == n + 1 && forall i | 0 <= i <= n :: bounds[i] == i
  {
    seq(n + 1, i => i)
  }

  lemma SortStarts(n: nat)
    requires n > 0
    ensures IsBounds(Singletons(n), 1, n) && AreRuns(Identity(n), Singletons(n), map[])
  {
  }

  lemma SortEnds(c: seq<nat>, bounds: seq<nat>, size: nat, keys: Keys)
    requires IsBounds(bounds, size, |c|) && AreRuns(c, bounds, keys) && |bounds| <= 2
    ensures IsStableSort(c, keys)
  {
    assert IsRun(c, bounds[0], bounds[1], keys);
    forall i, j | 0 <= i < j < |c|
      ensures c[i] != c[j]
    {
      assert Before(keys, c[i], c[j]);
    }
  }

  /** With more than one run, the length of a run is below that of the list. */
  lemma RunsAreShort(bounds: seq<nat>, size: nat, n: nat)
    requires IsBounds(bounds, size, n) && |bounds| > 2
    ensures size < n
  {
    BoundsAreMonotone(bounds, size, n, 1, |bounds| - 1);
    assert bounds[0 + 1] == bounds[0] + size;
  }

  // ---------- permutations ----------

  ghost function Below(n: nat): (s: set<nat>)
    ensures |s| == n && forall x: nat :: x in s <==> x < n
  {
    if n == 0 then {} else Below(n - 1) + {n - 1}
  }

  /** Pigeonhole: n distinct positions below n are all of them. */
  lemma PositionsAreAll(c: seq<nat>)
    requires Injective(c) && Positions(c, |c|)
    ensures forall x: nat | x < |c| :: x in c
  {
    InjectiveCardinality(c);
    forall x | x in Elements(c)
      ensures x in Below(|c|)
    {
      var i :| 0 <= i < |c| && c[i] == x;
    }
    SubsetOfSameSize(Elements(c), Below(|c|));
    forall x: nat | x < |c|
      ensures x in c
    {
      assert x in Below(|c|);
      assert x in Elements(c);
    }
  }

  /** If two rearrangements agree up to i, then the second one has c[i] at i or later. */
  lemma OccursNotBefore(c: seq<nat>, d: seq<nat>, i: nat) returns (j: nat)
    requires IsRearrangement(c, |c|) && IsRearrangement(d, |c|)
    requires i < |c| && c[..i] == d[..i]
    ensures i <= j < |d| && d[j] == c[i]
  {
    PositionsAreAll(d);
    assert forall m | 0 <= m < i :: c[..i][m] == c[m] && d[..i][m] == d[m];
    assert c[i] in d;
    j :| 0 <= j < |d| && d[j] == c[i];
  }
}
