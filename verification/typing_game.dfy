/** The frame loop of the typing game (apps/typing/game.c).

    Time is the number t of position updates that have been done; births holds, for every letter on the screen, the
    time at which it was created. A letter falls by 1 per update until it is hit or leaves the screen at the bottom,
    and rises by 3 per update after a hit; the arithmetic of these two phases bounds its age.
 */
module TypingGame {
  import opened Sequences
  import opened TypingPool
  import opened TypingScreen

  const HZ := 100
  const CHARACTER_PER_SECOND := 10
  const UPDATE_PER_SECOND := 100
  const W := 320
  const H := 200

  // ---------- the flight of one letter ----------

  /** Position and speed of a letter that is still on the screen after age updates. */
  predicate OnTrack(y: int, v: int, age: int) {
    || (v == 1 && y == age && 0 <= y <= H - 8)
    || (v == -3 && 0 <= y <= H - 8 && 0 <= age && y + 3 * age <= 4 * (H - 8))
  }

  predicate IsGone(y: int) {
    y < 0 || y + 8 > H
  }

  lemma GoneMeans(y: int)
    ensures IsGone(y) <==> y < 0 || y + 8 > 200
  {
  }

  /** An update either keeps a letter on its track or takes it off the screen: upward after a hit, else downward. */
  lemma TrackContinues(y: int, v: int, age: int)
    requires OnTrack(y, v, age)
    ensures OnTrack(y + v, v, age + 1) <==> !IsGone(y + v)
    ensures y + v < 0 ==> v == -3
    ensures y + v + 8 > H ==> v == 1
    ensures age <= 256
  {
  }

  lemma HitStaysOnTrack(y: int, age: int)
    requires OnTrack(y, 1, age)
    ensures OnTrack(y, -3, age)
  {
  }

  // ---------- how many letters there can be ----------

  /** Creation times, newest first: one per ten frames. */
  ghost predicate AreBirths(births: seq<int>) {
    && (forall i | 0 <= i < |births| :: births[i] % 10 == 9)
    && forall i, j | 0 <= i < j < |births| :: births[i] > births[j]
  }

  lemma {:induction false} BirthsAreSpaced(births: seq<int>)
    requires AreBirths(births) && births != []
    ensures births[0] - births[|births| - 1] >= 10 * (|births| - 1)
  {
    if |births| > 1 {
      var last := |births| - 1;
      BirthsAreSpaced(births[..last]);
      assert births[last - 1] > births[last] && births[last - 1] % 10 == births[last] % 10;
    }
  }

  /** No letter lives longer than 256 updates, so no more than 26 of them do at a time. */
  lemma FewBirths(births: seq<int>, t: int)
    requires AreBirths(births)
    requires forall i | 0 <= i < |births| :: t - 256 <= births[i] <= t
    ensures |births| <= 26
    ensures t % 10 == 9 && (births == [] || births[0] < t) ==> |births| <= 25
  {
    if births != [] {
      BirthsAreSpaced(births);
    }
  }

  // ---------- the list on the screen ----------

  lemma SingletonIsChain(node: Fly)
    requires node.next == null && node.prev == null
    ensures IsChain([node])
  {
  }

  lemma HeadIsFirst(node: Fly, others: seq<Fly>)
    ensures At([node] + others, 0) == node
    ensures others == [] ==> [node] + others == [node]
  {
  }

  twostate lemma ChainUnmoved(live: seq<Fly>)
    requires old(IsChain(live))
    requires forall i | 0 <= i < |live| :: live[i].next == old(live[i].next) && live[i].prev == old(live[i].prev)
    ensures IsChain(live)
  {
  }

  /** fly_insert(NULL, first, now) puts a node in front of the list. */
  method PushFront(now: Fly, first: Fly, fly: Pool, ghost others: seq<Fly>)
    requires now.prev == null && now.next == null
    requires fly.IsInUse([now] + others) && others != [] && first == others[0] && IsChain(others)
    modifies now`next, now`prev, first`prev
    ensures fly.IsInUse([now] + others) && IsChain([now] + others)
  {
    ghost var all := [now] + others;
    assert all[0] == now && forall i | 0 <= i < |others| :: all[i + 1] == others[i];
    FlyInsert(null, first, now);
    forall i | 0 <= i < |all|
      ensures all[i].next == At(all, i + 1) && all[i].prev == At(all, i - 1)
    {
      if i > 0 {
        assert all[i] == others[i - 1] && others[i - 1].next == At(others, i);
      }
    }
  }

  // ---------- the game ----------

  ghost predicate AreOnTrack(live: seq<Fly>, births: seq<int>, t: int)
    reads live`y, live`v, live`text
  {
    |live| == |births| &&
    forall i | 0 <= i < |live| :: OnTrack(live[i].y, live[i].v, t - births[i]) && 0 <= live[i].text < 26
  }

  /** Letters with their creation times, at time t. */
  ghost predicate HaveTracks(live: seq<Fly>, births: seq<int>, t: int)
    reads live`y, live`v, live`text
  {
    && AreBirths(births) && (forall i | 0 <= i < |births| :: births[i] <= t)
    && AreOnTrack(live, births, t)
  }

  ghost function Speeds(live: seq<Fly>): (vs: seq<int>)
    reads live`v
    ensures |vs| == |live| && forall i | 0 <= i < |live| :: vs[i] == live[i].v
  {
    if live == [] then [] else Speeds(live[..|live| - 1]) + [live[|live| - 1].v]
  }

  /** The number of letters on their way up. */
  function Rising(vs: seq<int>): nat {
    if vs == [] then 0 else Rising(vs[..|vs| - 1]) + (if vs[|vs| - 1] == -3 then 1 else 0)
  }

  lemma {:induction false} RisingIsBounded(vs: seq<int>)
    ensures Rising(vs) <= |vs|
  {
    if vs != [] {
      RisingIsBounded(vs[..|vs| - 1]);
    }
  }

  lemma {:induction false} RisingIsCount(vs: seq<int>)
    ensures Rising(vs) == |set i: nat | i < |vs| && vs[i] == -3|
  {
    if vs != [] {
      var last := |vs| - 1;
      RisingIsCount(vs[..last]);
      assert (set i: nat | i < |vs| && vs[i] == -3) ==
             (set i: nat | i < last && vs[..last][i] == -3) + if vs[last] == -3 then {last} else {};
    }
  }

  lemma {:induction false} RisingWithout(vs: seq<int>, k: nat)
    requires k < |vs|
    ensures Rising(Without(vs, k)) + (if vs[k] == -3 then 1 else 0) == Rising(vs)
  {
    var last := |vs| - 1;
    if k == last {
      assert Without(vs, k) == vs[..last];
    } else {
      RisingWithout(vs[..last], k);
      assert Without(vs, k)[..last - 1] == Without(vs[..last], k);
    }
  }

  lemma {:induction false} RisingInFront(v: int, vs: seq<int>)
    ensures Rising([v] + vs) == Rising(vs) + (if v == -3 then 1 else 0)
  {
    if vs == [] {
      assert [v] + vs == [v];
    } else {
      var last := |vs| - 1;
      RisingInFront(v, vs[..last]);
      assert ([v] + vs)[..last + 1] == [v] + vs[..last];
    }
  }

  lemma {:induction false} RisingUpdated(vs: seq<int>, k: nat)
    requires k < |vs| && vs[k] == 1
    ensures Rising(vs[k := -3]) == Rising(vs) + 1
  {
    var last := |vs| - 1;
    if k == last {
      assert vs[k := -3][..last] == vs[..last];
    } else {
      RisingUpdated(vs[..last], k);
      assert vs[k := -3][..last] == vs[..last][k := -3];
    }
  }

  /** Every letter created is on the screen, hit or missed; every letter struck is still rising, or a hit. */
  ghost predicate IsBalanced(created: nat, struck: nat, hit: nat, miss: nat, vs: seq<int>) {
    created == |vs| + hit + miss && struck == hit + Rising(vs)
  }

  /** The first m letters are one update ahead of the others. */
  ghost predicate ArePartlyUpdated(live: seq<Fly>, births: seq<int>, t: int, m: nat)
    reads live`y, live`v, live`text
  {
    && AreBirths(births) && (forall i | 0 <= i < |births| :: births[i] <= t)
    && |live| == |births| && m <= |live|
    && forall i | 0 <= i < |live| ::
         OnTrack(live[i].y, live[i].v, t - births[i] + if i < m then 1 else 0) && 0 <= live[i].text < 26
  }

  /** Where the letters will be after the next update. */
  ghost function Ends(live: seq<Fly>): (ys: seq<int>)
    reads live`y, live`v
    ensures |ys| == |live| && forall i | 0 <= i < |live| :: ys[i] == live[i].y + live[i].v
  {
    if live == [] then [] else Ends(live[..|live| - 1]) + [live[|live| - 1].y + live[|live| - 1].v]
  }

  /** The letters that are still on the screen at positions ys. */
  ghost function Staying(letters: seq<Fly>, ys: seq<int>): (rest: seq<Fly>)
    requires |letters| == |ys|
  {
    if letters == [] then []
    else
      var last := |ys| - 1;
      Staying(letters[..last], ys[..last]) + if IsGone(ys[last]) then [] else [letters[last]]
  }

  /** The letters as the player sees them. */
  ghost function Letters(live: seq<Fly>): (letters: seq<Letter>)
    reads live`x, live`y, live`v, live`text
    ensures |letters| == |live|
    ensures forall i | 0 <= i < |live| :: letters[i] == Letter(live[i].x, live[i].y, live[i].v, live[i].text)
  {
    if live == [] then []
    else
      var last := live[|live| - 1];
      Letters(live[..|live| - 1]) + [Letter(last.x, last.y, last.v, last.text)]
  }

  lemma {:induction false} StayingIsOnScreen(live: seq<Fly>, ys: seq<int>)
    requires |live| == |ys| && forall i | 0 <= i < |live| :: live[i].y == ys[i]
    ensures Letters(Staying(live, ys)) == OnScreen(Letters(live))
  {
    if live != [] {
      var last := |live| - 1;
      StayingIsOnScreen(live[..last], ys[..last]);
      assert Letters(live)[..last] == Letters(live[..last]);
      LettersAppended(Staying(live[..last], ys[..last]), live[last]);
    }
  }

  lemma LettersInFront(node: Fly, live: seq<Fly>)
    ensures Letters([node] + live) == [Letter(node.x, node.y, node.v, node.text)] + Letters(live)
  {
  }

  lemma LettersAppended(live: seq<Fly>, node: Fly)
    ensures Letters(live + [node]) == Letters(live) + [Letter(node.x, node.y, node.v, node.text)]
  {
  }

  /** Exactly the letters between the top and the bottom stay. */
  lemma {:induction false} StayingMeans(letters: seq<Fly>, ys: seq<int>)
    requires |letters| == |ys| && Injective(letters)
    ensures forall i | 0 <= i < |ys| :: letters[i] in Staying(letters, ys) <==> 0 <= ys[i] <= 192
    ensures forall node | node in Staying(letters, ys) :: node in letters
  {
    if letters != [] {
      var last := |ys| - 1;
      assert forall i | 0 <= i < last :: letters[i] == letters[..last][i];
      StayingMeans(letters[..last], ys[..last]);
      forall i | 0 <= i < |ys|
        ensures letters[i] in Staying(letters, ys) <==> 0 <= ys[i] <= 192
      {
        if i < last {
          assert letters[i] != letters[last];
        }
      }
    }
  }

  /** The list after k updates: the letters that stayed, and those that have not been updated. */
  ghost predicate IsAfter(live: seq<Fly>, m: nat, letters: seq<Fly>, ends: seq<int>, k: nat)
    requires |letters| == |ends| && k <= |ends|
  {
    live == Staying(letters[..k], ends[..k]) + letters[k..] && m == |Staying(letters[..k], ends[..k])|
  }

  /** The first k letters that leave at the top, and those that leave at the bottom. */
  ghost function Above(ys: seq<int>, k: nat): set<nat>
    requires k <= |ys|
  {
    set i: nat | i < k && ys[i] < 0
  }

  ghost function Below(ys: seq<int>, k: nat): set<nat>
    requires k <= |ys|
  {
    set i: nat | i < k && ys[i] > 192
  }

  lemma AboveContinues(ys: seq<int>, k: nat)
    requires k < |ys|
    ensures k !in Above(ys, k) && Above(ys, k + 1) == if ys[k] < 0 then Above(ys, k) + {k} else Above(ys, k)
  {
  }

  lemma BelowContinues(ys: seq<int>, k: nat)
    requires k < |ys|
    ensures k !in Below(ys, k) && Below(ys, k + 1) == if ys[k] > 192 then Below(ys, k) + {k} else Below(ys, k)
  {
  }

  lemma CountsContinue(ys: seq<int>, k: nat)
    requires k < |ys|
    ensures |Above(ys, k + 1)| == |Above(ys, k)| + if ys[k] < 0 then 1 else 0
    ensures |Below(ys, k + 1)| == |Below(ys, k)| + if ys[k] + 8 > 200 then 1 else 0
  {
    AboveContinues(ys, k);
    BelowContinues(ys, k);
    hide Above, Below;
  }

  lemma CountsAre(letters: seq<Fly>, ends: seq<int>)
    requires |letters| == |ends| && forall i | 0 <= i < |letters| :: letters[i].y == ends[i]
    ensures Above(ends, |ends|) == AtTop(Letters(letters)) && Below(ends, |ends|) == AtBottom(Letters(letters))
  {
  }

  lemma StayingStarts(letters: seq<Fly>, ends: seq<int>)
    requires |letters| == |ends|
    ensures IsAfter(letters, 0, letters, ends, 0)
  {
  }

  lemma StayingContinues(live: seq<Fly>, m: nat, letters: seq<Fly>, ends: seq<int>, k: nat)
    requires |letters| == |ends| && k <= |ends| && IsAfter(live, m, letters, ends, k) && At(live, m) != null
    ensures m < |live| && k < |letters| && At(live, m) == live[m] == letters[k]
    ensures if IsGone(ends[k]) then IsAfter(Without(live, m), m, letters, ends, k + 1)
            else IsAfter(live, m + 1, letters, ends, k + 1)
  {
    assert letters[..k + 1][..k] == letters[..k] && ends[..k + 1][..k] == ends[..k];
    assert letters[k..] == [letters[k]] + letters[k + 1..];
    if IsGone(ends[k]) {
      assert Without(live, m) == Staying(letters[..k], ends[..k]) + letters[k + 1..];
    }
  }

  lemma StayingEnds(live: seq<Fly>, m: nat, letters: seq<Fly>, ends: seq<int>, k: nat)
    requires |letters| == |ends| && k <= |ends| && IsAfter(live, m, letters, ends, k) && At(live, m) == null
    ensures k == |letters| && live == Staying(letters, ends)
  {
    assert letters[..k] == letters && ends[..k] == ends;
  }

  lemma AtIsNull(live: seq<Fly>, m: nat)
    requires m <= |live|
    ensures At(live, m) == null <==> m == |live|
    ensures m < |live| ==> At(live, m) == live[m]
  {
  }

  lemma ChainNext(live: seq<Fly>, m: nat)
    requires IsChain(live) && m < |live|
    ensures live[m].next == At(live, m + 1)
  {
  }

  lemma HeadWithout(live: seq<Fly>, m: nat)
    requires Injective(live) && m < |live|
    ensures live[m] == At(live, 0) <==> m == 0
    ensures At(Without(live, m), 0) == if m == 0 then At(live, m + 1) else At(live, 0)
  {
  }

  lemma WithoutIsPart(live: seq<Fly>, m: nat)
    requires m < |live|
    ensures forall i | 0 <= i < |Without(live, m)| :: Without(live, m)[i] in live
  {
  }

  lemma AtWithout(live: seq<Fly>, m: nat)
    requires m < |live|
    ensures At(Without(live, m), m) == At(live, m + 1) && |Without(live, m)| == |live| - 1
  {
  }

  lemma BirthsWithout(births: seq<int>, m: nat)
    requires AreBirths(births) && m < |births|
    ensures AreBirths(Without(births, m))
  {
  }

  /** it->y += it->v: the letter stays on its track, or is gone and can be taken out. */
  method Advance(it: Fly, ghost live: seq<Fly>, ghost births: seq<int>, ghost t: int, ghost m: nat)
    requires ArePartlyUpdated(live, births, t, m) && m < |live| && it == live[m] && Injective(live)
    modifies it`y
    ensures m < |births| && it.y == old(it.y) + it.v
    ensures if it.y < 0 || it.y + 8 > 200 then ArePartlyUpdated(Without(live, m), Without(births, m), t, m)
            else ArePartlyUpdated(live, births, t, m + 1)
    ensures it.y < 0 ==> it.v == -3
    ensures it.y + 8 > 200 ==> it.v == 1
  {
    hide Injective, OnTrack, IsGone;
    InjectiveAt(live, m);
    GoneMeans(it.y + it.v);
    TrackContinues(it.y, it.v, t - births[m]);
    BirthsWithout(births, m);
    it.y := it.y + it.v;
  }

  /** Taking a letter out of the screen moves it to the hits or to the misses, whichever its direction says. */
  lemma BalanceWithout(created: nat, struck: nat, hit: nat, miss: nat, live: seq<Fly>, m: nat)
    requires IsBalanced(created, struck, hit, miss, Speeds(live)) && m < |live|
    ensures live[m].v == -3 ==> IsBalanced(created, struck, hit + 1, miss, Speeds(Without(live, m)))
    ensures live[m].v == 1 ==> IsBalanced(created, struck, hit, miss + 1, Speeds(Without(live, m)))
  {
    hide *;
    RisingWithout(Speeds(live), m);
    SpeedsWithout(live, m);
    BalanceMoves(created, struck, hit, miss, Speeds(live), m);
  }

  lemma BalanceMoves(created: nat, struck: nat, hit: nat, miss: nat, vs: seq<int>, m: nat)
    requires IsBalanced(created, struck, hit, miss, vs) && m < |vs|
    requires Rising(Without(vs, m)) + (if vs[m] == -3 then 1 else 0) == Rising(vs) && |Without(vs, m)| == |vs| - 1
    ensures vs[m] == -3 ==> IsBalanced(created, struck, hit + 1, miss, Without(vs, m))
    ensures vs[m] == 1 ==> IsBalanced(created, struck, hit, miss + 1, Without(vs, m))
  {
    hide Rising, Without;
  }

  lemma SpeedsWithout(live: seq<Fly>, m: nat)
    requires m < |live|
    ensures Speeds(Without(live, m)) == Without(Speeds(live), m)
    ensures |Without(Speeds(live), m)| == |Speeds(live)| - 1 && Speeds(live)[m] == live[m].v
  {
    var rest := Speeds(Without(live, m));
    forall i | 0 <= i < |live| - 1 ensures rest[i] == Without(Speeds(live), m)[i] {
      assert Without(live, m)[i] == live[if i < m then i else i + 1];
    }
  }

  lemma SpeedsAre(live: seq<Fly>)
    ensures |Speeds(live)| == |live| && forall i | 0 <= i < |live| :: Speeds(live)[i] == live[i].v
  {
  }

  lemma SpeedsCount(live: seq<Fly>)
    ensures (set i: nat | i < |Speeds(live)| && Speeds(live)[i] == -3) == set i: nat | i < |live| && live[i].v == -3
  {
    hide Speeds;
    SpeedsAre(live);
  }

  lemma BalanceStruck(created: nat, struck: nat, hit: nat, miss: nat, vs: seq<int>, k: nat)
    requires IsBalanced(created, struck, hit, miss, vs) && k < |vs| && vs[k] == 1
    ensures IsBalanced(created, struck + 1, hit, miss, vs[k := -3])
  {
    RisingUpdated(vs, k);
  }

  lemma BalanceWithNew(created: nat, struck: nat, hit: nat, miss: nat, node: Fly, others: seq<Fly>)
    requires IsBalanced(created, struck, hit, miss, Speeds(others)) && node.v == 1
    ensures IsBalanced(created + 1, struck, hit, miss, Speeds([node] + others))
  {
    RisingInFront(1, Speeds(others));
    assert Speeds([node] + others) == [1] + Speeds(others);
  }

  lemma NewTrack(node: Fly, others: seq<Fly>, births: seq<int>, t: int)
    requires HaveTracks(others, births, t) && t % 10 == 9 && (births == [] || births[0] < t)
    requires node.y == 0 && node.v == 1 && 0 <= node.text < 26
    ensures HaveTracks([node] + others, [t] + births, t)
  {
    var live', births' := [node] + others, [t] + births;
    forall i, j | 0 <= i < j < |births'|
      ensures births'[i] > births'[j]
    {
      if i == 0 {
        assert births'[j] == births[j - 1] && births[j - 1] <= births[0];
      }
    }
  }

  class Game {
    const fly: Pool
    var head: Fly?
    var hit: nat
    var miss: nat
    var pressed: seq<bool>
    ghost var live: seq<Fly>
    ghost var births: seq<int>
    ghost var t: nat
    ghost var created: nat
    ghost var struck: nat

    constructor ()
      ensures Valid() && fresh(this) && fresh(fly) && fresh(fly.pool)
      ensures t == 0 && live == [] && births == [] && created == struck == hit == miss == 0
      ensures pressed == seq(26, _ => false) && IsFrameStart()
    {
      fly := new Pool();
      head := null;
      hit, miss := 0, 0;
      pressed := seq(26, _ => false);
      live, births, t, created, struck := [], [], 0, 0, 0;
    }

    /** The letters on the screen are nodes of the pool that are out, linked in both directions from head; the pool
        has been initialised at most once.
     */
    ghost predicate HasLinks()
      reads this`live, this`head, fly, fly.pool`next, fly.free`next, live`next, live`prev
    {
      && fly.IsPool()
      && ((fly.IsInUse(live) && fly.linkUps == 1) || (fly.IsFresh() && live == [] && fly.linkUps == 0))
      && head == At(live, 0) && IsChain(live)
    }

    ghost predicate HasCounts()
      reads this, live`v
    {
      IsBalanced(created, struck, hit, miss, Speeds(live)) && |pressed| == 26
    }

    ghost predicate Valid()
      reads this, fly, fly.pool`next, fly.free`next, live
    {
      HasLinks() && HaveTracks(live, births, t) && HasCounts()
    }

    lemma LiveIsBounded()
      requires HaveTracks(live, births, t)
      ensures |live| == |births| <= 26
      ensures t % 10 == 9 && (births == [] || births[0] < t) ==> |live| <= 25
    {
      forall i | 0 <= i < |births|
        ensures t - 256 <= births[i]
      {
        TrackContinues(live[i].y, live[i].v, t - births[i]);
      }
      FewBirths(births, t);
    }

    lemma LinksAre()
      requires HasLinks()
      ensures fly.IsPool() && fly.linkUps <= 1
      ensures (fly.IsInUse(live) && fly.linkUps == 1) || (fly.IsFresh() && live == [] && fly.linkUps == 0)
      ensures live != [] ==> fly.IsInUse(live) && fly.linkUps == 1
      ensures fly.IsFresh() ==> fly.free == []
      ensures head == At(live, 0) && IsChain(live)
      ensures if live == [] then head == null else head == live[0] && head in fly.pool
      ensures Injective(live) && forall i | 0 <= i < |live| :: live[i] in fly.pool
    {
    }

    lemma LinksHold()
      requires fly.IsInUse(live) && fly.linkUps == 1 && head == At(live, 0) && IsChain(live)
      ensures HasLinks()
    {
    }

    /** head = now after fly_insert(NULL, head, now), or head = fly_new() for an empty screen. */
    method AllocateLetter()
      requires HasLinks() && |live| <= 25
      modifies this`head, this`live, fly, fly.pool`next, fly.pool`prev
      ensures HasLinks() && head != null && live == [head] + old(live)
      ensures head in fly.pool && head !in old(live)
    {
      hide *;
      LinksAre();
      if fly.IsInUse(live) {
        fly.SomeAreFree(live);
      }
      ghost var others := live;
      if head == null {
        head := fly.FlyNew(live);
        SingletonIsChain(head);
      } else {
        var now := fly.FlyNew(live);
        ChainUnmoved(others);
        PushFront(now, head, fly, others);
        head := now;
      }
      live := [head] + live;
      HeadIsFirst(head, others);
      LinksHold();
    }

    /** A new letter at the top; r1, r2 and r3 are what rand returns. */
    method CreateNewLetter(r1: nat, r2: nat, r3: nat)
      requires Valid() && t % 10 == 9 && (births == [] || births[0] < t)
      modifies this, fly, fly.pool
      ensures Valid() && t == old(t) && births == [t] + old(births)
      ensures created == old(created) + 1 && hit == old(hit) && miss == old(miss)
      ensures live != [] && live == [live[0]] + old(live) && live[0] !in old(live) && |live| <= 26
      ensures live[0].y == 0 && live[0].v == 1 && live[0].x == 8 + 8 * (r1 % 38) && live[0].text == r3 % 26
      ensures pressed == old(pressed)[r3 % 26 := false] && struck == old(struck)
      ensures Letters(old(live)) == old(Letters(live))
    {
      hide *;
      ValidParts();
      LiveIsBounded();
      ghost var others := live;
      AllocateLetter();
      LabelLetter(others, r1, r2, r3);
    }

    /** The second half of create_new_letter. */
    method LabelLetter(ghost others: seq<Fly>, r1: nat, r2: nat, r3: nat)
      requires HasLinks() && head != null && live == [head] + others && head !in others
      requires HaveTracks(others, births, t) && t % 10 == 9 && (births == [] || births[0] < t)
      requires IsBalanced(created, struck, hit, miss, Speeds(others)) && |pressed| == 26
      modifies this`pressed, this`births, this`created, head`x, head`y, head`v, head`text
      ensures Valid() && births == [t] + old(births) && created == old(created) + 1
      ensures head.y == 0 && head.v == 1 && head.x == 8 + 8 * (r1 % 38) && head.text == r3 % 26
      ensures pressed == old(pressed)[head.text := false]
    {
      hide *;
      SetUp(head, r1, r2, r3);
      pressed := pressed[head.text := false];
      NewTrack(head, others, births, t);
      BalanceWithNew(created, struck, hit, miss, head, others);
      births := [t] + births;
      created := created + 1;
      PartsAreValid();
    }

    /** it->y += it->v, and the bookkeeping for a letter that has left the screen; live[m] is the letter. */
    method UpdateLetter(it: Fly, ghost m: nat) returns (next: Fly?, ghost m': nat)
      requires HasLinks() && ArePartlyUpdated(live, births, t, m) && m < |live| && it == live[m]
      requires IsBalanced(created, struck, hit, miss, Speeds(live))
      modifies this`head, this`hit, this`miss, this`live, this`births, fly
      modifies it`y, fly.pool`next, fly.pool`prev
      ensures HasLinks() && ArePartlyUpdated(live, births, t, m') && next == At(live, m')
      ensures IsBalanced(created, struck, hit, miss, Speeds(live))
      ensures it.y == old(it.y) + it.v
      ensures hit == old(hit) + (if it.y < 0 then 1 else 0)
      ensures miss == old(miss) + (if it.y + 8 > 200 then 1 else 0)
      ensures m' == if it.y < 0 || it.y + 8 > 200 then m else m + 1
      ensures live == if it.y < 0 || it.y + 8 > 200 then Without(old(live), m) else old(live)
    {
      hide *;
      LinksAre();
      ghost var letters := live;
      next := it.next;
      ChainNext(letters, m);
      Advance(it, letters, births, t, m);
      BalanceWithout(created, struck, hit, miss, letters, m);
      WithoutIsPart(letters, m);
      ghost var rest := Without(letters, m);
      m' := m;
      if it.y < 0 || it.y + 8 > 200 {
        if it.y < 0 {
          hit := hit + 1;
        } else {
          miss := miss + 1;
        }
        Discard(it, next, m);
        AtWithout(letters, m);
      } else {
        m' := m + 1;
      }
    }

    /** fly_remove(it); fly_free(it); if (it == head) head = next; */
    method Discard(it: Fly, next: Fly?, ghost m: nat)
      requires HasLinks() && m < |live| && it == live[m] && next == At(live, m + 1)
      modifies this`head, this`live, this`births, fly, fly.pool`next, fly.pool`prev
      ensures HasLinks() && live == Without(old(live), m)
      ensures m < |old(births)| ==> births == Without(old(births), m)
    {
      hide *;
      LinksAre();
      HeadWithout(live, m);
      fly.Unlink(it, live, m);
      fly.FlyFree(it, live, m);
      if it == head {
        head := next;
      }
      live := Without(live, m);
      if m < |births| {
        births := Without(births, m);
      }
      LinksHold();
    }

    lemma AllAreUpdated(m: nat)
      requires ArePartlyUpdated(live, births, t, m) && At(live, m) == null
      ensures HaveTracks(live, births, t + 1) && (births == [] || births[0] < t + 1)
    {
    }

    lemma NoneAreUpdated()
      requires HaveTracks(live, births, t)
      ensures ArePartlyUpdated(live, births, t, 0)
    {
    }

    /** update_letter_pos: every letter moves by its speed, and those that stay on the screen stay in order. */
    method UpdateLetterPos()
      requires Valid()
      modifies this`head, this`hit, this`miss, this`live, this`births, this`t, fly
      modifies live`y, fly.pool`next, fly.pool`prev
      ensures Valid() && t == old(t) + 1 && (births == [] || births[0] < t)
      ensures live == Staying(old(live), old(Ends(live)))
      ensures forall i | 0 <= i < |old(live)| :: old(live)[i].y == old(Ends(live))[i]
      ensures var all := Moved(old(Letters(live)));
              && Letters(old(live)) == all && Letters(live) == OnScreen(all)
              && hit == old(hit) + |AtTop(all)| && miss == old(miss) + |AtBottom(all)|
      ensures forall i | 0 <= i < |old(live)| :: old(live)[i] in live <==> 0 <= old(live)[i].y <= 192
    {
      hide *;
      ghost var letters, ends := live, Ends(live);
      ValidParts();
      NoneAreUpdated();
      LinksAre();
      UpdateLetters(ends);
      t := t + 1;
      PartsAreValid();
      AllMoved(ends);
      StayingIsOnScreen(letters, ends);
      StayingMeans(letters, ends);
      CountsAre(letters, ends);
    }

    twostate lemma AllMoved(ends: seq<int>)
      requires ends == old(Ends(live))
      requires forall i | 0 <= i < |old(live)| :: old(live)[i].y == ends[i]
      requires forall i | 0 <= i < |old(live)| ::
                 && old(live)[i].x == old(live[i].x) && old(live)[i].v == old(live[i].v)
                 && old(live)[i].text == old(live[i].text)
      ensures Letters(old(live)) == Moved(old(Letters(live)))
      ensures |ends| == |old(live)|
    {
    }

    /** k of the letters have been updated, and m of these are still on the screen. */
    ghost predicate IsMidway(m: nat, letters: seq<Fly>, ends: seq<int>, k: nat, hits: int, misses: int)
      requires k <= |letters| == |ends|
      reads this, fly, fly.pool`next, fly.free`next, live, letters
    {
      && HasLinks() && ArePartlyUpdated(live, births, t, m)
      && IsBalanced(created, struck, hit, miss, Speeds(live))
      && IsAfter(live, m, letters, ends, k)
      && hit == hits + |Above(ends, k)| && miss == misses + |Below(ends, k)|
      && forall i | 0 <= i < |letters| :: letters[i].y + (if i < k then 0 else letters[i].v) == ends[i]
    }

    method UpdateNext(it: Fly, ghost m: nat, ghost letters: seq<Fly>, ghost ends: seq<int>, ghost k: nat,
                      ghost hits: int, ghost misses: int)
      returns (next: Fly?, ghost m': nat)
      requires k <= |letters| == |ends| && IsMidway(m, letters, ends, k, hits, misses)
      requires it == At(live, m) && Injective(letters)
      modifies this`head, this`hit, this`miss, this`live, this`births, fly
      modifies letters`y, fly.pool`next, fly.pool`prev
      ensures k < |letters| && IsMidway(m', letters, ends, k + 1, hits, misses) && next == At(live, m')
    {
      hide HasLinks, ArePartlyUpdated, IsBalanced, Speeds, Injective, IsAfter, Staying, IsGone, Above, Below;
      StayingContinues(live, m, letters, ends, k);
      InjectiveAt(letters, k);
      GoneMeans(ends[k]);
      CountsContinue(ends, k);
      next, m' := UpdateLetter(it, m);
    }

    lemma StartsMidway(ends: seq<int>)
      requires HasLinks() && ArePartlyUpdated(live, births, t, 0) && ends == Ends(live)
      requires IsBalanced(created, struck, hit, miss, Speeds(live)) && IsAfter(live, 0, live, ends, 0)
      ensures IsMidway(0, live, ends, 0, hit, miss)
    {
      hide HasLinks, ArePartlyUpdated, IsBalanced, Speeds, IsAfter, Staying, Ends;
    }

    lemma EndsMidway(m: nat, letters: seq<Fly>, ends: seq<int>, k: nat, hits: int, misses: int)
      requires k <= |letters| == |ends| && IsMidway(m, letters, ends, k, hits, misses) && At(live, m) == null
      ensures HasLinks() && HaveTracks(live, births, t + 1) && (births == [] || births[0] < t + 1)
      ensures IsBalanced(created, struck, hit, miss, Speeds(live))
      ensures live == Staying(letters, ends)
      ensures hit == hits + |Above(ends, |ends|)| && miss == misses + |Below(ends, |ends|)|
      ensures forall i | 0 <= i < |letters| :: letters[i].y == ends[i]
    {
      hide HasLinks, ArePartlyUpdated, IsBalanced, Speeds, IsAfter, Staying, HaveTracks;
      StayingEnds(live, m, letters, ends, k);
      AllAreUpdated(m);
    }

    /** The loop of update_letter_pos. */
    method UpdateLetters(ghost ends: seq<int>)
      requires HasLinks() && ArePartlyUpdated(live, births, t, 0)
      requires IsBalanced(created, struck, hit, miss, Speeds(live)) && ends == Ends(live)
      modifies this`head, this`hit, this`miss, this`live, this`births, fly
      modifies live`y, fly.pool`next, fly.pool`prev
      ensures HasLinks() && HaveTracks(live, births, t + 1) && (births == [] || births[0] < t + 1)
      ensures IsBalanced(created, struck, hit, miss, Speeds(live))
      ensures live == Staying(old(live), ends)
      ensures hit == old(hit) + |Above(ends, |ends|)| && miss == old(miss) + |Below(ends, |ends|)|
      ensures forall i | 0 <= i < |old(live)| :: old(live)[i].y == ends[i]
    {
      hide *;
      LinksAre();
      ghost var letters, m, k, hits, misses := live, 0, 0, hit, miss;
      var it := head;
      StayingStarts(letters, ends);
      StartsMidway(ends);
      while it != null
        invariant k <= |letters| && it == At(live, m) && IsMidway(m, letters, ends, k, hits, misses)
        decreases |letters| - k
      {
        it, m := UpdateNext(it, m, letters, ends, k, hits, misses);
        k := k + 1;
      }
      EndsMidway(m, letters, ends, k, hits, misses);
    }

    /** The letter at index k can be hit: it falls, and its key is down. */
    ghost predicate IsEligible(k: nat)
      requires k < |live| && |pressed| == 26 && 0 <= live[k].text < 26
      reads this`live, this`pressed, live`v, live`y, live`text
    {
      live[k].v > 0 && live[k].y > -100 && pressed[live[k].text]
    }

    ghost predicate HasLetters()
      reads this`live, this`pressed, live`v, live`y, live`text
    {
      |pressed| == 26 && forall i | 0 <= i < |live| :: 0 <= live[i].text < 26 && live[i].y >= 0
    }

    /** Among the first m letters, k is the first of the lowest that can be hit; k == m if there is none. */
    ghost predicate IsTarget(k: nat, m: nat)
      requires HasLetters() && k <= m <= |live|
      reads this`live, this`pressed, live`v, live`y, live`text
    {
      if k == m then forall i | 0 <= i < m :: !IsEligible(i)
      else
        && IsEligible(k)
        && forall i | 0 <= i < m && IsEligible(i) ::
             live[i].y < live[k].y || (live[i].y == live[k].y && k <= i)
    }

    lemma TargetContinues(k: nat, m: nat)
      requires HasLetters() && k <= m < |live| && IsTarget(k, m)
      ensures IsTarget(if IsEligible(m) && (k == m || live[m].y > live[k].y) then m
                       else if k == m then m + 1 else k, m + 1)
      ensures live[m].y >= 0
    {
    }

    lemma NoTargetYet()
      requires HasLetters()
      ensures IsTarget(0, 0)
    {
    }

    /** The loop of update_keypress. */
    method FindTarget() returns (target: Fly?, ghost k: nat)
      requires HasLetters() && IsChain(live) && head == At(live, 0)
      ensures k <= |live| && IsTarget(k, |live|) && target == At(live, k)
      ensures target == null <==> forall i | 0 <= i < |live| :: !IsEligible(i)
      ensures target != null ==> target in live && forall i | 0 <= i < |live| && IsEligible(i) :: live[i].y <= target.y
    {
      hide IsChain, IsTarget, At;
      var it := head;
      var min := -100;
      target := null;
      ghost var m := 0;
      k := 0;
      NoTargetYet();
      while it != null
        invariant m <= |live| && it == At(live, m) && k <= m && IsTarget(k, m)
        invariant if k == m then target == null && min == -100 else target == live[k] && min == target.y
        decreases |live| - m
      {
        AtIsNull(live, m);
        TargetContinues(k, m);
        ChainNext(live, m);
        if it.v > 0 && it.y > min && pressed[it.text] {
          min := it.y;
          target := it;
          k := m;
        } else if k == m {
          k := m + 1;
        }
        it := it.next;
        m := m + 1;
      }
      AtIsNull(live, m);
      AtIsNull(live, k);
      TargetIsLowest(k);
    }

    lemma TargetIsLowest(k: nat)
      requires HasLetters() && k <= |live| && IsTarget(k, |live|)
      ensures k == |live| <==> forall i | 0 <= i < |live| :: !IsEligible(i)
      ensures k < |live| ==> forall i | 0 <= i < |live| && IsEligible(i) :: live[i].y <= live[k].y
    {
    }

    lemma LettersHold()
      requires HaveTracks(live, births, t) && |pressed| == 26
      ensures HasLetters()
    {
    }

    lemma TargetFalls(k: nat)
      requires HasLetters() && k < |live| && IsTarget(k, |live|) && HaveTracks(live, births, t)
      ensures live[k].v == 1
    {
    }

    /** update_keypress: the lowest letter that can be hit starts to rise; false is returned if there is none. */
    method UpdateKeypress() returns (r: bool, ghost k: nat)
      requires Valid()
      modifies this`pressed, this`struck, live`v
      ensures Valid()
      ensures k <= |live| && old(HasLetters() && IsTarget(k, |live|)) && (r <==> k < |live|)
      ensures forall i | 0 <= i < |live| :: live[i].v == if i == k then -3 else old(live[i].v)
      ensures pressed == if r then old(pressed)[live[k].text := false] else old(pressed)
      ensures struck == old(struck) + if r then 1 else 0
    {
      hide *;
      ValidParts();
      LinksAre();
      LettersHold();
      var target: Fly?;
      target, k := FindTarget();
      AtIsNull(live, k);
      if target != null {
        TargetFalls(k);
        InjectiveAt(live, k);
        TextIsKey(k);
        Strike(target, k);
        pressed := pressed[target.text := false];
        r := true;
      } else {
        r := false;
      }
      PartsAreValid();
    }

    lemma TextIsKey(k: nat)
      requires HasLetters() && k < |live|
      ensures 0 <= live[k].text < 26 == |pressed|
    {
    }

    /** target->v = -3 */
    method Strike(target: Fly, ghost k: nat)
      requires HaveTracks(live, births, t) && IsBalanced(created, struck, hit, miss, Speeds(live)) && Injective(live)
      requires k < |live| && target == live[k] && target.v == 1
      modifies target`v, this`struck
      ensures HaveTracks(live, births, t) && IsBalanced(created, struck, hit, miss, Speeds(live))
      ensures target.v == -3 && struck == old(struck) + 1
    {
      hide OnTrack, Injective, IsBalanced, Speeds;
      InjectiveAt(live, k);
      HitStaysOnTrack(target.y, t - births[k]);
      ghost var speeds := Speeds(live);
      SpeedsAre(live);
      target.v := -3;
      SpeedsAre(live);
      assert Speeds(live) == speeds[k := -3];
      BalanceStruck(created, struck, hit, miss, speeds, k);
      struck := struck + 1;
    }

    lemma StruckIsBounded()
      requires Valid()
      ensures struck <= hit + |live|
    {
      RisingIsBounded(Speeds(live));
    }

    lemma TextsAre()
      requires HasLetters()
      ensures HaveTexts(Letters(live)) && |pressed| == 26
    {
    }

    /** A call of update_keypress in terms of what the player sees. */
    twostate lemma KeypressIs(k: nat)
      requires old(HasLetters() && k <= |live| && IsTarget(k, |live|)) && live == old(live)
      requires forall i | 0 <= i < |live| :: live[i].v == if i == k then -3 else old(live[i].v)
      requires forall i | 0 <= i < |live| ::
                 live[i].x == old(live[i].x) && live[i].y == old(live[i].y) && live[i].text == old(live[i].text)
      ensures var now := old(Letters(live));
              && HaveTexts(now) && HaveTexts(Letters(live)) && |old(pressed)| == 26 && |now| == |live|
              && if k < |live| then IsNextAim(now, old(pressed), k) && Letters(live) == now[k := now[k].(v := -3)]
                 else Letters(live) == now && forall i | 0 <= i < |now| :: !CanBeStruck(now, old(pressed), i)
    {
      var now := old(Letters(live));
      assert forall i | 0 <= i < |live| :: old(IsEligible(i)) == CanBeStruck(now, old(pressed), i);
      if k < |live| {
        assert Letters(live) == now[k := now[k].(v := -3)];
      } else {
        assert Letters(live) == now;
      }
    }

    /** while (update_keypress()): every key that is down strikes the first of the lowest falling letters with its
        text; the keys that have found a letter count as released.
     */
    method StrikeLetters()
      requires Valid()
      modifies this`pressed, this`struck, live`v
      ensures Valid() && HaveTexts(old(Letters(live))) && |old(pressed)| == 26
      ensures Letters(live) == Struck(old(Letters(live)), old(pressed))
      ensures pressed == KeysLeft(old(Letters(live)), old(pressed))
      ensures struck == old(struck) + |StruckIn(old(Letters(live)), old(pressed))|
    {
      hide *;
      ghost var before, keys := Letters(live), pressed;
      var r := true;
      ValidParts();
      LettersHold();
      TextsAre();
      StruckIsBounded();
      StrikingStarts(before, keys);
      NoneChanged(before);
      while r
        invariant Valid() && HaveTexts(before) && HaveTexts(Letters(live)) && |pressed| == |keys| == 26
        invariant IsPartlyStruck(before, keys, Letters(live), pressed) && |Letters(live)| == |before|
        invariant struck == old(struck) + |Changed(before, Letters(live))|
        invariant !r ==> forall i | 0 <= i < |Letters(live)| :: !CanBeStruck(Letters(live), pressed, i)
        invariant struck <= hit + |live|
        decreases hit + |live| - struck, r
      {
        ghost var now, left := Letters(live), pressed;
        r := StrikeNext(before, keys);
      }
      StrikingEnds(before, keys, Letters(live), pressed);
    }

    /** One call of update_keypress in the loop of main. */
    method StrikeNext(ghost before: seq<Letter>, ghost keys: seq<bool>) returns (r: bool)
      requires Valid() && HaveTexts(before) && HaveTexts(Letters(live)) && |pressed| == |keys| == 26
      requires IsPartlyStruck(before, keys, Letters(live), pressed) && |Letters(live)| == |before|
      modifies this`pressed, this`struck, live`v
      ensures Valid() && HaveTexts(Letters(live)) && |pressed| == 26
      ensures IsPartlyStruck(before, keys, Letters(live), pressed) && |Letters(live)| == |before|
      ensures struck - |Changed(before, Letters(live))| == old(struck) - |Changed(before, old(Letters(live)))|
      ensures struck == old(struck) + (if r then 1 else 0) && struck <= hit + |live|
      ensures !r ==> forall i | 0 <= i < |Letters(live)| :: !CanBeStruck(Letters(live), pressed, i)
    {
      hide *;
      ghost var now, left := Letters(live), pressed;
      ghost var k;
      r, k := UpdateKeypress();
      KeypressIs(k);
      StruckIsBounded();
      if r {
        StrikingContinues(before, keys, now, left, k);
        LettersAt(k);
      }
    }

    lemma LettersAt(k: nat)
      requires k < |live|
      ensures Letters(live)[k].text == live[k].text
    {
    }

    /** What the player sees. */
    ghost function Shown(): Screen
      reads this, live`x, live`y, live`v, live`text
    {
      Screen(Letters(live), pressed, hit, miss)
    }

    /** if (frames % (HZ / CHARACTER_PER_SECOND) == 0) create_new_letter(); */
    method AddLetter(frames: nat, input: Input)
      requires Valid() && IsFrameStart() && frames == t + 1 && HaveTexts(Letters(live))
      modifies this, fly, fly.pool
      ensures Valid() && t == old(t) && struck == old(struck) && hit == old(hit) && miss == old(miss)
      ensures created == old(created) + if frames % 10 == 0 then 1 else 0
      ensures if frames % 10 == 0 then live != [] && live == [live[0]] + old(live) else live == old(live)
      ensures Letters(live) == WithBorn(old(Letters(live)), frames, input)
      ensures |live| >= |old(live)| == |old(Letters(live))|
      ensures pressed == if frames % 10 == 0 then old(pressed)[Born(input).text := false] else old(pressed)
    {
      hide *;
      ghost var letters, ls := live, Letters(live);
      ScheduleIs();
      FrameStarts();
      BornIs(input);
      if frames % (HZ / CHARACTER_PER_SECOND) == 0 {
        CreateNewLetter(input.r1, input.r2, input.r3);
      }
      AllAre(letters, ls, frames, input);
    }

    /** The second half of a turn of the loop: every tenth frame brings a letter, and all letters move. */
    method MoveLetters(frames: nat, input: Input)
      requires Valid() && IsFrameStart() && frames == t + 1 && HaveTexts(Letters(live))
      modifies this, fly, fly.pool
      ensures Valid() && IsFrameStart() && t == frames && struck == old(struck)
      ensures created == old(created) + if frames % 10 == 0 then 1 else 0
      ensures var all := Moved(WithBorn(old(Letters(live)), frames, input));
              && Letters(live) == OnScreen(all)
              && hit == old(hit) + |AtTop(all)| && miss == old(miss) + |AtBottom(all)|
              && |AtTop(all)| == |AtTop(Letters(old(live)))| && |AtBottom(all)| == |AtBottom(Letters(old(live)))|
      ensures pressed == if frames % 10 == 0 then old(pressed)[Born(input).text := false] else old(pressed)
      ensures Letters(old(live)) == Moved(old(Letters(live)))
      ensures forall i | 0 <= i < |old(live)| :: old(live)[i] in live <==> 0 <= old(live)[i].y <= 192
    {
      hide *;
      ghost var letters, ls := live, Letters(live);
      ScheduleIs();
      AddLetter(frames, input);
      ghost var all := live;
      if frames % (HZ / UPDATE_PER_SECOND) == 0 {
        LiveIsInPool();
        UpdateLetterPos();
      }
      FrameStarts();
      FrameIs(letters, all, ls, frames, input);
    }

    /** One turn of the loop of main; input is what the keyboard and rand deliver. A falling letter is struck if its
        key is down and it is the first of the lowest with its text; every letter moves, and those that are above or
        below the screen leave it as hits or misses.
     */
    method Frame(frames: nat, input: Input)
      requires Valid() && IsFrameStart() && frames == t + 1 && |input.keys| == 26
      modifies this, fly, fly.pool
      ensures Valid() && IsFrameStart() && t == frames
      ensures created == old(created) + if frames % 10 == 0 then 1 else 0
      ensures HaveTexts(old(Letters(live))) && Shown() == NextScreen(old(Shown()), frames, input)
      ensures struck == old(struck) + |StruckIn(old(Letters(live)), input.keys)|
      ensures AreFlying(old(Letters(live)), input.keys, Letters(old(live)))
      ensures forall i | 0 <= i < |old(live)| :: old(live)[i] in live <==> 0 <= old(live)[i].y <= 192
      ensures hit == old(hit) + |set i: nat | i < |old(live)| && old(live)[i].y < 0|
      ensures miss == old(miss) + |set i: nat | i < |old(live)| && old(live)[i].y > 192|
    {
      hide *;
      ghost var letters, before := live, Letters(live);
      ghost var hits, misses, keys := hit, miss, pressed;
      ShownLetters();
      FrameStarts();
      ValidParts();
      pressed := input.keys;
      PartsAreValid();
      LiveIsInPool();
      StrikeLetters();
      FrameStarts();
      MoveLetters(frames, input);
      FrameEnds(letters, before, hits, misses, frames, input);
      ShownIs(before, hits, misses, keys, frames, input);
    }

    /** What the letters of a frame have done. */
    lemma FrameEnds(letters: seq<Fly>, before: seq<Letter>, hits: nat, misses: nat, n: nat, input: Input)
      requires HaveTexts(before) && |input.keys| == 26
      requires Letters(letters) == Moved(Struck(before, input.keys))
      requires var all := Moved(WithBorn(Struck(before, input.keys), n, input));
               && hit == hits + |AtTop(all)| && miss == misses + |AtBottom(all)|
               && |AtTop(all)| == |AtTop(Letters(letters))| && |AtBottom(all)| == |AtBottom(Letters(letters))|
      ensures AreFlying(before, input.keys, Letters(letters))
      ensures hit == hits + |set i: nat | i < |letters| && letters[i].y < 0|
      ensures miss == misses + |set i: nat | i < |letters| && letters[i].y > 192|
    {
      hide *;
      EachLetterFlies(before, input.keys);
      LeavingAre(letters);
    }

    lemma ShownLetters()
      ensures Shown() == Screen(Letters(live), pressed, hit, miss) && Shown().letters == Letters(live)
    {
    }

    lemma ShownIs(before: seq<Letter>, hits: nat, misses: nat, keys: seq<bool>, n: nat, input: Input)
      requires HaveTexts(before) && |input.keys| == 26
      requires var all := Moved(WithBorn(Struck(before, input.keys), n, input));
               && Letters(live) == OnScreen(all) && hit == hits + |AtTop(all)| && miss == misses + |AtBottom(all)|
      requires pressed == if n % 10 == 0 then KeysLeft(before, input.keys)[Born(input).text := false]
                          else KeysLeft(before, input.keys)
      ensures Shown() == NextScreen(Screen(before, keys, hits, misses), n, input)
    {
      hide Moved, WithBorn, Struck, KeysLeft, OnScreen, AtTop, AtBottom, HaveTexts;
    }

    /** The letters of a frame before they move. */
    lemma AllAre(letters: seq<Fly>, ls: seq<Letter>, n: nat, input: Input)
      requires HaveTexts(ls) && Letters(letters) == ls
      requires if n % 10 == 0 then
                 && live != [] && live == [live[0]] + letters
                 && live[0].y == 0 && live[0].v == 1
                 && live[0].x == 8 + 8 * (input.r1 % 38) && live[0].text == input.r3 % 26
               else live == letters
      ensures Letters(live) == WithBorn(ls, n, input) && |letters| == |ls|
    {
      hide Letters, HaveTexts;
      if n % 10 == 0 {
        LettersInFront(live[0], letters);
      }
    }

    /** The letters of a frame after they have moved: what becomes of each, and how many leave. */
    lemma FrameIs(letters: seq<Fly>, all: seq<Fly>, ls: seq<Letter>, n: nat, input: Input)
      requires Letters(all) == Moved(WithBorn(ls, n, input)) && |letters| == |ls|
      requires if n % 10 == 0 then all != [] && all == [all[0]] + letters else all == letters
      requires forall i | 0 <= i < |all| :: all[i] in live <==> 0 <= all[i].y <= 192
      ensures Letters(letters) == Moved(ls)
      ensures |AtTop(Letters(all))| == |AtTop(Letters(letters))|
      ensures |AtBottom(Letters(all))| == |AtBottom(Letters(letters))|
      ensures forall i | 0 <= i < |letters| :: letters[i] in live <==> 0 <= letters[i].y <= 192
    {
      hide *;
      WithBornIs(ls, n, input);
      if n % 10 == 0 {
        InFrontAre(letters, all, ls, input);
        InFrontStay(letters, all);
      }
    }

    lemma InFrontStay(letters: seq<Fly>, all: seq<Fly>)
      requires all != [] && all == [all[0]] + letters
      requires forall i | 0 <= i < |all| :: all[i] in live <==> 0 <= all[i].y <= 192
      ensures forall i | 0 <= i < |letters| :: letters[i] in live <==> 0 <= letters[i].y <= 192
    {
      forall i | 0 <= i < |letters|
        ensures letters[i] in live <==> 0 <= letters[i].y <= 192
      {
        assert letters[i] == all[i + 1];
      }
    }

    lemma InFrontAre(letters: seq<Fly>, all: seq<Fly>, ls: seq<Letter>, input: Input)
      requires all != [] && all == [all[0]] + letters && Letters(all) == Moved([Born(input)] + ls)
      ensures |letters| == |ls| && Letters(letters) == Moved(ls)
      ensures |AtTop(Letters(all))| == |AtTop(Letters(letters))|
      ensures |AtBottom(Letters(all))| == |AtBottom(Letters(letters))|
    {
      hide AtTop, AtBottom, Letters, Moved;
      MovedInFront(Born(input), ls);
      LettersInFront(all[0], letters);
      assert Letters(letters) == Letters(all)[1..] == Moved(ls);
      CountsInFront(Letters(all)[0], Letters(letters));
    }

    lemma LeavingAre(letters: seq<Fly>)
      ensures AtTop(Letters(letters)) == set i: nat | i < |letters| && letters[i].y < 0
      ensures AtBottom(Letters(letters)) == set i: nat | i < |letters| && letters[i].y > 192
    {
    }

    lemma ScheduleIs()
      ensures CHARACTER_PER_SECOND != 0 && UPDATE_PER_SECOND != 0
      ensures HZ / CHARACTER_PER_SECOND == 10 && HZ / UPDATE_PER_SECOND == 1
    {
    }

    lemma FrameStarts()
      ensures IsFrameStart() <==> births == [] || births[0] < t
    {
    }

    lemma LiveIsInPool()
      requires Valid()
      ensures forall i | 0 <= i < |live| :: live[i] in fly.pool
    {
      hide HasCounts, HaveTracks;
      LinksAre();
    }

    /** No letter has been created since the last update. */
    ghost predicate IsFrameStart()
      reads this
    {
      births == [] || births[0] < t
    }

    lemma BornIs(input: Input)
      ensures Born(input).text == input.r3 % 26
    {
    }

    /** In a valid state no more than 26 letters are on the screen, and the pool has been initialised at most once. */
    lemma ValidMeansBounded()
      requires Valid()
      ensures |live| <= 26 && fly.linkUps <= 1
      ensures created == |live| + hit + miss
      ensures struck == hit + |set i: nat | i < |live| && live[i].v == -3|
    {
      LiveIsBounded();
      RisingIsCount(Speeds(live));
      SpeedsCount(live);
    }

    lemma ValidParts()
      requires Valid()
      ensures HasLinks() && HaveTracks(live, births, t)
      ensures IsBalanced(created, struck, hit, miss, Speeds(live)) && |pressed| == 26
    {
    }

    lemma PartsAreValid()
      requires HasLinks() && HaveTracks(live, births, t)
      requires IsBalanced(created, struck, hit, miss, Speeds(live)) && |pressed| == 26
      ensures Valid()
    {
    }
  }

  method SetUp(node: Fly, r1: nat, r2: nat, r3: nat)
    modifies node`x, node`y, node`v, node`text
    ensures node.y == 0 && node.v == 1 && 0 <= node.text < 26
    ensures node.x == 8 + 8 * (r1 % 38) && node.text == r3 % 26
  {
    node.y := 0;
    node.x := r1 % (W / 8 - 2) * 8 + 8;
    node.v := (r2 % 1000) / 2000 + 1;
    node.text := r3 % 26;
  }

  lemma NoFrames(game: Game)
    requires game.live == [] && game.hit == game.miss == 0 && game.pressed == seq(26, _ => false)
    ensures HaveKeys([]) && game.Shown() == ScreenAfter([]) && Strikes([]) == 0
  {
  }

  lemma RunContinues(inputs: seq<Input>, n: nat)
    requires HaveKeys(inputs) && n < |inputs|
    ensures HaveKeys(inputs[..n]) && HaveKeys(inputs[..n + 1]) && |inputs[n].keys| == 26
    ensures HaveTexts(ScreenAfter(inputs[..n]).letters)
    ensures ScreenAfter(inputs[..n + 1]) == NextScreen(ScreenAfter(inputs[..n]), n + 1, inputs[n])
    ensures Strikes(inputs[..n + 1]) ==
            Strikes(inputs[..n]) + |StruckIn(ScreenAfter(inputs[..n]).letters, inputs[n].keys)|
  {
    hide NextScreen, HaveTexts, StruckIn;
    assert inputs[..n + 1][..n] == inputs[..n];
  }

  /** The game over any number of frames with any input: what the player sees is what the frames one after another
      make of it; letters are conserved, the hits are the struck letters that have left, at most 26 of the 1001 nodes
      are on the screen, and fly_new has initialised its pool at most once, so that it has never handed out a node in
      use.
   */
  method Play(inputs: seq<Input>) returns (game: Game)
    requires HaveKeys(inputs)
    ensures fresh(game) && game.Valid() && game.t == |inputs| && game.Shown() == ScreenAfter(inputs)
    ensures game.created == |inputs| / 10 == |game.live| + game.hit + game.miss
    ensures Strikes(inputs) == game.hit + |set i: nat | i < |game.live| && game.live[i].v == -3|
    ensures |game.live| <= 26 && game.fly.linkUps <= 1
  {
    hide *;
    game := new Game();
    NoFrames(game);
    for frames := 0 to |inputs|
      invariant fresh(game) && fresh(game.fly) && fresh(game.fly.pool)
      invariant game.Valid() && game.IsFrameStart() && game.t == frames && game.created == frames / 10
      invariant HaveKeys(inputs[..frames]) && game.Shown() == ScreenAfter(inputs[..frames])
      invariant game.struck == Strikes(inputs[..frames])
    {
      RunContinues(inputs, frames);
      game.ShownLetters();
      game.Frame(frames + 1, inputs[frames]);
    }
    assert inputs[..|inputs|] == inputs;
    game.ValidMeansBounded();
  }
}
