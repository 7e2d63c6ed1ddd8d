/** The linked lists of the typing game over their recycled pool (LINKLIST_IMPL in apps/typing/game.h). */
module TypingPool {
  import opened Sequences

  const SIZE := 1000

  class Fly {
    var x: int
    var y: int
    var text: int
    var v: int
    var prev: Fly?
    var next: Fly?

    constructor ()
      ensures prev == null && next == null
    {
      x, y, text, v := 0, 0, 0, 0;
      prev, next := null, null;
    }
  }

  ghost function At(s: seq<Fly>, i: int): Fly? {
    if 0 <= i < |s| then s[i] else null
  }

  /** live is linked in both directions. */
  ghost predicate IsChain(live: seq<Fly>)
    reads live`next, live`prev
  {
    forall i | 0 <= i < |live| :: live[i].next == At(live, i + 1) && live[i].prev == At(live, i - 1)
  }

  /** free is linked forward and starts at freeHead. */
  ghost predicate IsFreeList(free: seq<Fly>, freeHead: Fly?)
    reads free`next
  {
    freeHead == At(free, 0) && forall i | 0 <= i < |free| :: free[i].next == At(free, i + 1)
  }

  /** No node is in use twice. */
  ghost predicate AreSeparate(live: seq<Fly>, free: seq<Fly>) {
    && Injective(live) && Injective(free)
    && forall i, j | 0 <= i < |live| && 0 <= j < |free| :: live[i] != free[j]
  }

  lemma WithoutIsSeparate(live: seq<Fly>, free: seq<Fly>, k: nat)
    requires AreSeparate(live, free) && k < |live|
    ensures AreSeparate(Without(live, k), [live[k]] + free)
  {
  }

  /** fly_insert */
  method FlyInsert(prev: Fly?, next: Fly?, obj: Fly)
    requires obj != prev && obj != next && (prev == null || prev != next)
    modifies obj`prev, obj`next, (if prev == null then {} else {prev})`next, (if next == null then {} else {next})`prev
    ensures obj.prev == prev && obj.next == next
    ensures prev != null ==> prev.next == obj
    ensures next != null ==> next.prev == obj
  {
    obj.prev := prev;
    obj.next := next;
    if prev != null {
      prev.next := obj;
    }
    if next != null {
      next.prev := obj;
    }
  }

  lemma InjectiveAt(s: seq<Fly>, k: int)
    requires Injective(s) && 0 <= k < |s|
    ensures forall i | 0 <= i < |s| && i != k :: s[i] != s[k]
  {
  }

  lemma ChainWithout(live: seq<Fly>, k: nat)
    requires k < |live|
    requires forall i | 0 <= i < |live| && i != k && i != k - 1 :: live[i].next == At(live, i + 1)
    requires forall i | 0 <= i < |live| && i != k && i != k + 1 :: live[i].prev == At(live, i - 1)
    requires k > 0 ==> live[k - 1].next == At(live, k + 1)
    requires k + 1 < |live| ==> live[k + 1].prev == At(live, k - 1)
    ensures IsChain(Without(live, k))
  {
    hide At, Without;
    var rest := Without(live, k);
    RestIs(live, k);
    forall i | 0 <= i < |rest|
      ensures rest[i].next == At(rest, i + 1) && rest[i].prev == At(rest, i - 1)
    {
      AtRest(live, k, i + 1);
      AtRest(live, k, i - 1);
    }
  }

  lemma RestIs(live: seq<Fly>, k: nat)
    requires k < |live|
    ensures |Without(live, k)| == |live| - 1
    ensures forall i | 0 <= i < |live| - 1 :: Without(live, k)[i] == live[if i < k then i else i + 1]
  {
  }

  lemma AtRest(live: seq<Fly>, k: nat, i: int)
    requires k < |live|
    ensures At(Without(live, k), i) == At(live, if i < k then i else i + 1)
  {
  }

  /** fly_remove: the node leaves the list but keeps its own links. */
  method FlyRemove(node: Fly, ghost live: seq<Fly>, ghost k: nat)
    requires k < |live| && live[k] == node && Injective(live) && IsChain(live)
    modifies live`next, live`prev
    ensures IsChain(Without(live, k))
    ensures node.next == old(node.next) && node.prev == old(node.prev)
  {
    hide Injective, Without;
    InjectiveAt(live, k);
    var prev, next := node.prev, node.next;
    if prev != null {
      InjectiveAt(live, k - 1);
      prev.next := next;
    }
    if next != null {
      InjectiveAt(live, k + 1);
      next.prev := prev;
    }
    ChainWithout(live, k);
  }

  /** A pool of SIZE + 1 nodes and its free list; free is a picture of the list, linkUps counts the initialisations. */
  class Pool {
    const pool: seq<Fly>
    var freeHead: Fly?
    ghost var free: seq<Fly>
    ghost var linkUps: nat

    constructor ()
      ensures IsPool() && IsFresh() && linkUps == 0
      ensures fresh(pool)
    {
      freeHead := null;
      free := [];
      linkUps := 0;
      var nodes: seq<Fly> := [];
      for i := 0 to SIZE + 1
        invariant |nodes| == i && Injective(nodes) && fresh(nodes)
        invariant forall k | 0 <= k < i :: nodes[k].next == null
      {
        var node := new Fly();
        nodes := nodes + [node];
      }
      pool := nodes;
    }

    ghost predicate IsPool()
    {
      |pool| == SIZE + 1 && Injective(pool)
    }

    /** Nothing has been allocated yet: the links of the pool have never been set. */
    ghost predicate IsFresh()
      reads this, pool`next
    {
      |pool| == SIZE + 1 && freeHead == null && free == [] && pool[SIZE].next == null
    }

    /** The list that starts at head is free, and live are the nodes that are out. */
    ghost predicate IsSplit(live: seq<Fly>, head: Fly?)
      reads this`free, free`next
    {
      && IsPool()
      && IsFreeList(free, head) && AreSeparate(live, free)
      && (forall i | 0 <= i < |live| :: live[i] in pool)
      && (forall i | 0 <= i < |free| :: free[i] in pool)
      && |live| + |free| == |pool|
    }

    /** The pool has been linked up; live are the nodes that are out. */
    ghost predicate IsInUse(live: seq<Fly>)
      reads this, free`next
    {
      IsSplit(live, freeHead)
    }

    /** The loop of the initialisation path of fly_new. */
    method LinkUp()
      requires IsPool()
      modifies pool`next, this`linkUps
      ensures forall k | 0 <= k < SIZE :: pool[k].next == pool[k + 1]
      ensures pool[SIZE].next == old(pool[SIZE].next)
      ensures linkUps == old(linkUps) + 1
    {
      linkUps := linkUps + 1;
      for i := 1 to SIZE + 1
        invariant forall k | 0 <= k < i - 1 :: pool[k].next == pool[k + 1]
        invariant pool[SIZE].next == old(pool[SIZE].next) && linkUps == old(linkUps) + 1
      {
        pool[i - 1].next := pool[i];
      }
    }

    /** ret = free_head; fly_free_head = free_head->_next; ret->_prev = ret->_next = NULL */
    method Take(head: Fly, ghost live: seq<Fly>)
      modifies this, head`next, head`prev
      ensures head.prev == null && head.next == null && linkUps == old(linkUps)
      ensures old(IsSplit(live, head)) && old(free) != [] ==> IsInUse([head] + live) && head == old(free)[0]
    {
      freeHead := head.next;
      head.prev, head.next := null, null;
      if free != [] {
        free := free[1..];
      }
    }

    /** The free list is empty exactly if its head is null, and then every node is live. */
    lemma HeadDecides(live: seq<Fly>)
      requires IsInUse(live)
      ensures if free == [] then freeHead == null && live != [] && pool[0] in live
              else freeHead == free[0] && free[0] in pool && free[0] !in live
    {
      if free == [] {
        InjectiveIsOnto(live, pool);
      }
    }

    lemma SomeAreFree(live: seq<Fly>)
      requires IsInUse(live) && |live| <= 26
      ensures free != []
    {
    }

    lemma WholePoolIsFree()
      requires IsPool() && free == pool && pool[SIZE].next == null
      requires forall k | 0 <= k < SIZE :: pool[k].next == pool[k + 1]
      ensures IsSplit([], pool[0])
    {
      forall k | 0 <= k < |pool|
        ensures pool[k].next == At(pool, k + 1)
      {
      }
    }

    /** fly_new: a node that is not in use comes back exactly if there is one, or if none is in use at all. */
    method FlyNew(ghost live: seq<Fly>) returns (ret: Fly)
      requires IsPool() && (IsInUse(live) || (IsFresh() && live == []))
      modifies this, pool`next, pool`prev
      ensures ret in pool && ret.prev == null && ret.next == null
      ensures ret !in live <==> old(free) != [] || live == []
      ensures ret !in live ==> IsInUse([ret] + live)
      ensures linkUps == old(linkUps) + if old(free) == [] then 1 else 0
      ensures ret !in live ==>
                forall i | 0 <= i < |live| :: live[i].next == old(live[i].next) && live[i].prev == old(live[i].prev)
    {
      hide IsSplit, Injective;
      if IsInUse(live) {
        HeadDecides(live);
      }
      var head := freeHead;
      if head == null {
        LinkUp();
        head := pool[0];
        if live == [] {
          free := pool;
          WholePoolIsFree();
        }
      }
      ret := head;
      Take(ret, live);
    }

    /** fly_remove, on a node of this pool. */
    method Unlink(node: Fly, ghost live: seq<Fly>, ghost k: nat)
      requires IsInUse(live) && k < |live| && live[k] == node && IsChain(live)
      modifies live`next, live`prev
      ensures IsInUse(live) && IsChain(Without(live, k))
      ensures node.next == old(node.next) && node.prev == old(node.prev)
    {
      hide IsChain, Without, Injective;
      assert Injective(live);
      FlyRemove(node, live, k);
    }

    /** fly_free: the links of the nodes that stay out are not touched. */
    method FlyFree(node: Fly, ghost live: seq<Fly>, ghost k: nat)
      requires IsInUse(live) && k < |live| && live[k] == node && IsChain(Without(live, k))
      modifies this, node`next
      ensures IsInUse(Without(live, k)) && IsChain(Without(live, k)) && free == [node] + old(free)
      ensures linkUps == old(linkUps)
    {
      WithoutIsSeparate(live, free, k);
      ChainMisses(live, k);
      node.next := freeHead;
      freeHead := node;
      free := [node] + free;
    }

    lemma ChainMisses(live: seq<Fly>, k: nat)
      requires IsInUse(live) && k < |live|
      ensures forall i | 0 <= i < |Without(live, k)| :: Without(live, k)[i] != live[k]
    {
    }
  }
}
