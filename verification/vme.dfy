/** Address spaces on the native platform (am/src/native/vme.c): every space is a linked list of page mappings behind a
    head node that never moves, and the mappings of the current space are enforced on the host with mmap.
 */
module NativeVme {
  import opened Sequences

  const USER_START := 0x40000000
  const USER_END := 0xc0000000

  datatype Page = Page(pa: int, prot: int)

  class PageMap {
    var va: int
    var pa: int
    var next: PageMap?
    var prot: int
    var isMapped: bool

    /** A zeroed page from pgalloc. */
    constructor ()
      ensures va == 0 && pa == 0 && next == null && prot == 0 && !isMapped
    {
      va, pa, next, prot, isMapped := 0, 0, null, 0, false;
    }
  }

  ghost function At(l: seq<PageMap>, i: int): PageMap? {
    if 0 <= i < |l| then l[i] else null
  }

  /** l is what list_foreach visits behind head. */
  ghost predicate IsList(head: PageMap, l: seq<PageMap>)
    reads head`next, l`next
  {
    head.next == At(l, 0) && forall i | 0 <= i < |l| :: l[i].next == At(l, i + 1)
  }

  ghost predicate AreDistinct(l: seq<PageMap>)
    reads l`va
  {
    forall i, j | 0 <= i < j < |l| :: l[i].va != l[j].va
  }

  ghost predicate AreUserPages(l: seq<PageMap>, pgsize: nat)
    requires pgsize > 0
    reads l`va, l`pa
  {
    forall i | 0 <= i < |l| :: USER_START <= l[i].va < USER_END && l[i].va % pgsize == 0 && l[i].pa % pgsize == 0
  }

  /** The first k nodes of a list read as a map. */
  ghost function PagesUpTo(l: seq<PageMap>, k: nat): map<int, Page>
    requires k <= |l|
    reads l`va, l`pa, l`prot
  {
    if k == 0 then map[] else PagesUpTo(l, k - 1)[l[k - 1].va := Page(l[k - 1].pa, l[k - 1].prot)]
  }

  ghost function PagesOf(l: seq<PageMap>): map<int, Page>
    reads l`va, l`pa, l`prot
  {
    PagesUpTo(l, |l|)
  }

  /** The map has exactly the pages that are listed. */
  lemma {:induction false} PagesAreListed(l: seq<PageMap>, k: nat)
    requires AreDistinct(l) && k <= |l|
    ensures forall i | 0 <= i < k :: l[i].va in PagesUpTo(l, k) && PagesUpTo(l, k)[l[i].va] == Page(l[i].pa, l[i].prot)
    ensures forall va | va in PagesUpTo(l, k) :: exists i :: 0 <= i < k && l[i].va == va
  {
    if k > 0 {
      PagesAreListed(l, k - 1);
      forall va | va in PagesUpTo(l, k)
        ensures exists i :: 0 <= i < k && l[i].va == va
      {
        if va in PagesUpTo(l, k - 1) {
          var i :| 0 <= i < k - 1 && l[i].va == va;
        } else {
          assert l[k - 1].va == va;
        }
      }
    }
  }

  lemma {:induction false} PagesInFront(pp: PageMap, l: seq<PageMap>, k: nat)
    requires k <= |l| && forall i | 0 <= i < |l| :: l[i].va != pp.va
    ensures PagesUpTo([pp] + l, k + 1) == PagesUpTo(l, k)[pp.va := Page(pp.pa, pp.prot)]
  {
    if k > 0 {
      PagesInFront(pp, l, k - 1);
      assert ([pp] + l)[k] == l[k - 1];
    } else {
      assert PagesUpTo([pp] + l, 0) == map[];
    }
  }

  lemma AtIs(l: seq<PageMap>, k: nat)
    requires k <= |l|
    ensures At(l, k) == if k < |l| then l[k] else null
    ensures k < |l| && Injective(l) ==> forall i | 0 <= i < |l| && i != k :: l[i] != l[k]
    ensures l != [] ==> At(l, 0) == l[0]
  {
  }

  lemma AtNegative(l: seq<PageMap>, i: int)
    ensures i < 0 ==> At(l, i) == null
  {
  }

  lemma ListStarts(head: PageMap, l: seq<PageMap>)
    requires IsList(head, l)
    ensures head.next == At(l, 0)
  {
  }

  lemma ListContinues(head: PageMap, l: seq<PageMap>, k: nat)
    requires IsList(head, l) && k < |l|
    ensures l[k].next == At(l, k + 1)
  {
  }

  /** Only pages of the nodes from k on are mapped on the host. */
  ghost predicate AreWithin(host: map<int, Page>, l: seq<PageMap>, k: nat)
    reads l`va
  {
    forall va | va in host :: exists i :: k <= i < |l| && l[i].va == va
  }

  lemma WithinContinues(host: map<int, Page>, l: seq<PageMap>, k: nat)
    requires AreWithin(host, l, k) && k < |l|
    ensures AreWithin(host - {l[k].va}, l, k + 1)
  {
  }

  lemma NoneIsWithin(host: map<int, Page>, l: seq<PageMap>)
    requires AreWithin(host, l, |l|)
    ensures host == map[]
  {
    assert forall va :: va !in host;
  }

  // ---------- walking a list ----------

  /** The search of _map: k is the position of the node for va, or the length of the list. */
  method Find(head: PageMap, va: int, ghost l: seq<PageMap>) returns (pp: PageMap?, ghost k: nat)
    requires IsList(head, l)
    ensures k <= |l| && pp == At(l, k) && (pp == null <==> k == |l|)
    ensures forall i | 0 <= i < k :: l[i].va != va
    ensures k < |l| ==> l[k].va == va
    ensures if pp == null then forall i | 0 <= i < |l| :: l[i].va != va else pp in l && pp.va == va
  {
    pp := head.next;
    k := 0;
    while pp != null
      invariant k <= |l| && pp == At(l, k)
      invariant forall i | 0 <= i < k :: l[i].va != va
      decreases |l| - k
    {
      if pp.va == va {
        break;
      }
      pp := pp.next;
      k := k + 1;
    }
  }

  // ---------- re-mapping ----------

  /** Nodes that only lead to each other are not on any list that ends. */
  lemma {:induction false} ClosedHasNoEnd(head: PageMap, s: seq<PageMap>, l: seq<PageMap>, n: nat)
    requires head.next != null && head.next in s
    requires forall i | 0 <= i < |s| :: s[i].next != null && s[i].next in s
    requires IsList(head, l) && n < |l|
    ensures l[n] in s
  {
    if n > 0 {
      ClosedHasNoEnd(head, s, l, n - 1);
      var i :| 0 <= i < |s| && s[i] == l[n - 1];
      assert s[i].next == l[n];
    }
  }

  lemma ClosedIsNotList(head: PageMap, s: seq<PageMap>, l: seq<PageMap>)
    requires head.next != null && head.next in s
    requires forall i | 0 <= i < |s| :: s[i].next != null && s[i].next in s
    ensures !IsList(head, l)
  {
    if IsList(head, l) {
      ClosedHasNoEnd(head, s, l, |l| - 1);
    }
  }

  /** Linking a node in that the list holds already closes a cycle: no list starts at head any more. */
  lemma RelinkingCloses(head: PageMap, l: seq<PageMap>, k: nat)
    requires k < |l| && head.next == l[k] && l[k].next == l[0]
    requires forall i | 0 <= i < |l| && i != k :: l[i].next == At(l, i + 1)
    ensures forall l': seq<PageMap> :: !IsList(head, l')
  {
    var s := l[..k + 1];
    assert s[k] == l[k] && s[0] == l[0];
    forall i | 0 <= i < |s|
      ensures s[i].next != null && s[i].next in s
    {
      if i < k {
        assert s[i].next == s[i + 1];
      }
    }
    forall l': seq<PageMap>
      ensures !IsList(head, l')
    {
      ClosedIsNotList(head, s, l');
    }
  }

  // ---------- the machine ----------

  /** The lists behind heads; owner says for every node in which list it is. */
  ghost predicate AreLists(heads: seq<PageMap>, lists: seq<seq<PageMap>>, owner: map<PageMap, nat>)
    reads heads`next, owner.Keys`next
  {
    && |heads| == |lists| && Injective(heads)
    && (forall a | 0 <= a < |heads| :: heads[a] !in owner)
    && (forall a, i | 0 <= a < |lists| && 0 <= i < |lists[a]| :: lists[a][i] in owner && owner[lists[a][i]] == a)
    && forall a | 0 <= a < |lists| :: IsList(heads[a], lists[a])
  }

  /** No list contains a page twice, and each space is its list read as a map. */
  ghost predicate ArePages(lists: seq<seq<PageMap>>, spaces: seq<map<int, Page>>, nodes: set<PageMap>, pgsize: nat)
    requires pgsize > 0
    requires forall a, i | 0 <= a < |lists| && 0 <= i < |lists[a]| :: lists[a][i] in nodes
    reads nodes`va, nodes`pa, nodes`prot
  {
    && |spaces| == |lists|
    && forall a | 0 <= a < |lists| ::
         AreDistinct(lists[a]) && AreUserPages(lists[a], pgsize) && spaces[a] == PagesOf(lists[a])
  }

  /** is_mapped holds exactly on the current list. */
  ghost predicate AreFlags(lists: seq<seq<PageMap>>, nodes: set<PageMap>, current: int)
    requires forall a, i | 0 <= a < |lists| && 0 <= i < |lists[a]| :: lists[a][i] in nodes
    reads nodes`isMapped
  {
    forall a, i | 0 <= a < |lists| && 0 <= i < |lists[a]| :: lists[a][i].isMapped <==> a == current
  }

  class Machine {
    const pgsize: nat
    var vmeEnable: bool
    var vmHead: PageMap?
    var host: map<int, Page>
    ghost var heads: seq<PageMap>
    ghost var lists: seq<seq<PageMap>>
    ghost var owner: map<PageMap, nat>
    ghost var spaces: seq<map<int, Page>>
    ghost var current: int

    constructor (pgsize: nat)
      requires pgsize > 0
      ensures Valid() && !vmeEnable && spaces == [] && current == -1 && owner == map[] && this.pgsize == pgsize
    {
      this.pgsize := pgsize;
      vmeEnable, vmHead, host := false, null, map[];
      heads, lists, owner, spaces, current := [], [], map[], [], -1;
    }

    /** The host enforces the current space, and nothing else. */
    ghost predicate IsEnforced()
      reads this
    {
      && -1 <= current < |heads| && |heads| == |spaces|
      && vmHead == At(heads, current)
      && host == if current < 0 then map[] else spaces[current]
    }

    ghost predicate Valid()
      reads this, heads`next, owner.Keys
    {
      && pgsize > 0 && AreLists(heads, lists, owner)
      && ArePages(lists, spaces, owner.Keys, pgsize) && AreFlags(lists, owner.Keys, current)
      && IsEnforced()
    }

    /** _vme_init */
    lemma CurrentIsEnforced()
      requires Valid()
      ensures IsEnforced()
    {
    }

    method VmeInit()
      requires Valid()
      modifies `vmeEnable
      ensures Valid() && vmeEnable
    {
      vmeEnable := true;
    }

    /** _protect: a new and empty address space. */
    method Protect() returns (head: PageMap)
      requires Valid() && vmeEnable
      modifies `heads, `lists, `spaces
      ensures Valid() && fresh(head)
      ensures heads == old(heads) + [head] && spaces == old(spaces) + [map[]]
    {
      hide *;
      HeadsAre();
      head := new PageMap();
      WithEmptyList(heads, lists, owner, head);
      WithEmptySpace(lists, spaces, owner.Keys, pgsize, current);
      heads, lists, spaces := heads + [head], lists + [[]], spaces + [map[]];
      StillValid();
    }

    lemma ListOf(a: nat, va: int)
      requires Valid() && a < |heads|
      ensures |lists| == |spaces| == |heads| && IsList(heads[a], lists[a]) && Injective(lists[a])
      ensures heads[a].next == At(lists[a], 0)
      ensures forall i | 0 <= i < |lists[a]| :: lists[a][i].next == At(lists[a], i + 1)
      ensures heads[a] !in lists[a] && IsEnforced()
      ensures va in spaces[a] <==> exists i :: 0 <= i < |lists[a]| && lists[a][i].va == va
      ensures forall i | 0 <= i < |lists[a]| :: lists[a][i] in owner
    {
      PagesAreListed(lists[a], |lists[a]|);
    }

    /** The second half of _map: the node is filled in, linked in after the head, and enforced if the space is
        current.
     */
    method Enter(head: PageMap, pp: PageMap, va: int, pa: int, prot: int)
      requires head != pp
      modifies `host, head`next, pp
      ensures pp.va == va && pp.pa == pa && pp.prot == prot && (pp.isMapped <==> head == vmHead)
      ensures head.next == pp && pp.next == old(head.next)
      ensures host == if head == vmHead then old(host)[va := Page(pa, prot)] else old(host)
    {
      pp.va := va;
      pp.pa := pa;
      pp.prot := prot;
      pp.isMapped := false;
      pp.next := head.next;
      head.next := pp;
      if head == vmHead {
        host := host[pp.va := Page(pp.pa, pp.prot)];
        pp.isMapped := true;
      }
    }

    method EnterNew(head: PageMap, va: int, pa: int, prot: int, ghost a: nat) returns (pp: PageMap)
      requires Valid() && a < |heads| && head == heads[a] && va !in spaces[a]
      requires USER_START <= va < USER_END && va % pgsize == 0 && pa % pgsize == 0
      modifies `host, `lists, `owner, `spaces, head`next
      ensures Valid() && fresh(pp) && lists == WithFront(old(lists), a, pp) && owner == old(owner)[pp := a]
      ensures spaces == old(spaces)[a := old(spaces[a])[va := Page(pa, prot)]]
    {
      hide *;
      HeadsAre();
      CurrentIs(a);
      ListsApart(heads, lists, owner, a);
      pp := new PageMap();
      Enter(head, pp, va, pa, prot);
      OwnedWithFront(lists, owner, a, pp);
      UserPage(pp, pgsize);
      IsListWithFront(head, lists[a], pp);
      ListsWithFront(heads, lists, owner, a, pp);
      PagesWithFront(lists, spaces, owner, pgsize, a, pp);
      FlagsWithFront(lists, owner, current, a, pp);
      lists, owner := WithFront(lists, a, pp), owner[pp := a];
      spaces := spaces[a := spaces[a][va := Page(pa, prot)]];
      StillValid();
    }

    lemma CurrentIs(a: nat)
      requires Valid() && a < |heads|
      ensures heads[a] == vmHead <==> a == current
    {
    }

    lemma HeadsAre()
      requires Valid()
      ensures AreLists(heads, lists, owner) && |heads| == |lists| == |spaces| && Injective(heads)
      ensures forall a | 0 <= a < |heads| :: heads[a] !in owner
      ensures forall a, i | 0 <= a < |lists| && 0 <= i < |lists[a]| :: lists[a][i] in owner && owner[lists[a][i]] == a
      ensures pgsize > 0 && ArePages(lists, spaces, owner.Keys, pgsize) && AreFlags(lists, owner.Keys, current)
      ensures -1 <= current < |heads|
      ensures vmHead == if current < 0 then null else heads[current]
      ensures host == if current < 0 then map[] else spaces[current]
    {
    }

    lemma StillValid()
      requires AreLists(heads, lists, owner) && |heads| == |lists| == |spaces|
      requires forall a, i | 0 <= a < |lists| && 0 <= i < |lists[a]| :: lists[a][i] in owner
      requires pgsize > 0 && ArePages(lists, spaces, owner.Keys, pgsize) && AreFlags(lists, owner.Keys, current)
      requires -1 <= current < |heads|
      requires vmHead == if current < 0 then null else heads[current]
      requires host == if current < 0 then map[] else spaces[current]
      ensures Valid()
    {
    }

    /** _map: afterwards there is still a list behind the head exactly if va was not mapped in the space before, and
        then the space has the new page and all else is as it was.
     */
    method Map(head: PageMap, va: int, pa: int, prot: int, ghost a: nat, ghost l: seq<PageMap>) returns (pp: PageMap?)
      requires Valid() && vmeEnable && a < |heads| == |lists| && head == heads[a] && l == lists[a]
      requires USER_START <= va < USER_END && va % pgsize == 0 && pa % pgsize == 0
      modifies `host, `lists, `owner, `spaces, head`next, l
      ensures (exists l: seq<PageMap> :: IsList(head, l)) <==> va !in old(spaces)[a]
      ensures va !in old(spaces)[a] ==>
                && Valid() && pp != null && fresh(pp)
                && owner == old(owner)[pp := a] && lists == WithFront(old(lists), a, pp)
                && spaces == old(spaces)[a := old(spaces)[a][va := Page(pa, prot)]]
    {
      hide *;
      ListOf(a, va);
      ghost var k;
      pp, k := Find(head, va, l);
      AtIs(l, k);
      if pp == null {
        pp := EnterNew(head, va, pa, prot, a);
        ListOf(a, va);
      } else {
        Enter(head, pp, va, pa, prot);
        RelinkingCloses(head, l, k);
      }
    }

    /** A node is in one list only, and there only once; is_mapped says whether it is the current list. */
    lemma ListsAreDisjoint(a: nat, i: nat, b: nat, j: nat)
      requires Valid() && a < |lists| && i < |lists[a]| && b < |lists| && j < |lists[b]|
      ensures lists[a][i] == lists[b][j] <==> a == b && i == j
      ensures lists[a][i] !in heads
      ensures lists[a][i].isMapped ==>
                lists[a][i].va in host && host[lists[a][i].va] == Page(lists[a][i].pa, lists[a][i].prot)
    {
      PagesAreListed(lists[a], |lists[a]|);
    }

    /** The first loop of __am_switch. */
    method UnmapList(head: PageMap, ghost l: seq<PageMap>)
      requires IsList(head, l) && Injective(l) && AreWithin(host, l, 0)
      requires forall i | 0 <= i < |l| :: l[i].isMapped
      modifies `host, l`isMapped
      ensures host == map[] && forall i | 0 <= i < |l| :: !l[i].isMapped
    {
      hide Injective, IsList, At, AreWithin;
      ListStarts(head, l);
      var pp := head.next;
      ghost var k := 0;
      while pp != null
        invariant k <= |l| && pp == At(l, k) && AreWithin(host, l, k)
        invariant forall i | 0 <= i < |l| :: l[i].isMapped <==> k <= i
        decreases |l| - k
      {
        AtIs(l, k);
        WithinContinues(host, l, k);
        ListContinues(head, l, k);
        if pp.isMapped {
          host := host - {pp.va};
          pp.isMapped := false;
        }
        pp := pp.next;
        k := k + 1;
      }
      AtIs(l, k);
      NoneIsWithin(host, l);
    }

    /** The second loop of __am_switch. */
    method MapList(head: PageMap, ghost l: seq<PageMap>)
      requires IsList(head, l) && host == map[]
      modifies `host, l`isMapped
      ensures host == PagesOf(l) && forall i | 0 <= i < |l| :: l[i].isMapped
    {
      hide IsList, At;
      ListStarts(head, l);
      var pp := head.next;
      ghost var k := 0;
      while pp != null
        invariant k <= |l| && pp == At(l, k) && host == PagesUpTo(l, k)
        invariant forall i | 0 <= i < k :: l[i].isMapped
        decreases |l| - k
      {
        AtIs(l, k);
        ListContinues(head, l, k);
        host := host[pp.va := Page(pp.pa, pp.prot)];
        pp.isMapped := true;
        pp := pp.next;
        k := k + 1;
      }
      AtIs(l, k);
    }

    lemma ListsAre(a: nat)
      requires Valid() && a < |heads|
      ensures |lists| == |heads| == |spaces| && IsList(heads[a], lists[a]) && Injective(lists[a])
      ensures spaces[a] == PagesOf(lists[a])
      ensures AreWithin(spaces[a], lists[a], 0)
      ensures forall i | 0 <= i < |lists[a]| :: lists[a][i].isMapped <==> a == current
      ensures forall i | 0 <= i < |lists[a]| :: lists[a][i] in owner
      ensures forall b, i | 0 <= b < |lists| && b != a && 0 <= i < |lists[b]| :: lists[b][i] !in lists[a]
    {
      PagesAreListed(lists[a], |lists[a]|);
    }

    method UnmapCurrent()
      requires Valid() && vmHead != null
      modifies `host, owner.Keys`isMapped
      ensures host == map[] && AreFlags(lists, owner.Keys, -1)
    {
      ListsAre(current);
      hide IsList, PagesOf, Injective, ArePages, AreLists;
      UnmapList(vmHead, lists[current]);
    }

    /** The mapping half of __am_switch, once nothing is mapped any more. */
    method MapSpace(head: PageMap, ghost b: nat)
      requires AreLists(heads, lists, owner) && |heads| == |lists| == |spaces| && b < |heads| && head == heads[b]
      requires forall a, i | 0 <= a < |lists| && 0 <= i < |lists[a]| :: lists[a][i] in owner
      requires pgsize > 0 && ArePages(lists, spaces, owner.Keys, pgsize) && AreFlags(lists, owner.Keys, -1)
      requires host == map[]
      modifies `host, owner.Keys`isMapped
      ensures AreFlags(lists, owner.Keys, b) && host == spaces[b]
    {
      hide IsList, PagesOf, Injective;
      MapList(head, lists[b]);
    }

    /** __am_switch: the host enforces the space behind head, or no space for null. */
    method Switch(head: PageMap?, ghost b: int)
      requires Valid() && -1 <= b < |heads| && head == At(heads, b)
      modifies `vmHead, `host, `current, owner.Keys`isMapped
      ensures Valid() && vmHead == (if vmeEnable then head else old(vmHead))
      ensures current == if vmeEnable then b else old(current)
    {
      hide *;
      if !vmeEnable {
        return;
      }
      HeadsAre();
      AtIs(heads, if b < 0 then |heads| else b);
      AtNegative(heads, b);
      if b >= 0 {
        CurrentIs(b);
      }
      if head == vmHead {
        return;
      }
      if vmHead != null {
        UnmapCurrent();
      }
      if head != null {
        MapSpace(head, b);
      }
      vmHead, current := head, b;
      StillValid();
    }
  }

  // ---------- a new node in front of list a ----------

  function WithFront(lists: seq<seq<PageMap>>, a: nat, pp: PageMap): (r: seq<seq<PageMap>>)
    requires a < |lists|
  {
    lists[a := [pp] + lists[a]]
  }

  lemma IsListWithFront(head: PageMap, l: seq<PageMap>, pp: PageMap)
    requires head.next == pp && pp.next == At(l, 0) && forall i | 0 <= i < |l| :: l[i].next == At(l, i + 1)
    ensures IsList(head, [pp] + l)
  {
  }

  lemma OwnedWithFront(lists: seq<seq<PageMap>>, owner: map<PageMap, nat>, a: nat, pp: PageMap)
    requires a < |lists| && pp !in owner
    requires forall b, i | 0 <= b < |lists| && 0 <= i < |lists[b]| :: lists[b][i] in owner && owner[lists[b][i]] == b
    ensures forall b, i | 0 <= b < |lists| && 0 <= i < |WithFront(lists, a, pp)[b]| ::
              WithFront(lists, a, pp)[b][i] in owner[pp := a] && owner[pp := a][WithFront(lists, a, pp)[b][i]] == b
    ensures |WithFront(lists, a, pp)| == |lists|
  {
    var lists', owner' := WithFront(lists, a, pp), owner[pp := a];
    forall b: nat, i: nat | b < |lists'| && i < |lists'[b]|
      ensures lists'[b][i] in owner' && owner'[lists'[b][i]] == b
    {
      if b == a && i > 0 {
        assert lists'[b][i] == lists[a][i - 1];
      }
    }
  }

  /** All lists but the one behind heads[a]. */
  ghost predicate AreOtherLists(heads: seq<PageMap>, lists: seq<seq<PageMap>>, owner: map<PageMap, nat>, a: nat)
    reads (set b | 0 <= b < |heads| && b != a :: heads[b])`next, owner.Keys`next
  {
    && |heads| == |lists|
    && (forall b, i | 0 <= b < |lists| && 0 <= i < |lists[b]| :: lists[b][i] in owner && owner[lists[b][i]] == b)
    && forall b | 0 <= b < |lists| && b != a :: IsList(heads[b], lists[b])
  }

  lemma ListsApart(heads: seq<PageMap>, lists: seq<seq<PageMap>>, owner: map<PageMap, nat>, a: nat)
    requires AreLists(heads, lists, owner) && a < |heads|
    ensures AreOtherLists(heads, lists, owner, a)
    ensures heads[a].next == At(lists[a], 0)
    ensures forall i | 0 <= i < |lists[a]| :: lists[a][i].next == At(lists[a], i + 1)
    ensures heads[a] !in (set b | 0 <= b < |heads| && b != a :: heads[b])
    ensures forall b | 0 <= b < |heads| :: heads[b] !in owner
  {
  }

  lemma ListsWithFront(heads: seq<PageMap>, lists: seq<seq<PageMap>>, owner: map<PageMap, nat>, a: nat, pp: PageMap)
    requires AreOtherLists(heads, lists, owner, a) && Injective(heads) && a < |heads|
    requires forall b | 0 <= b < |heads| :: heads[b] !in owner && heads[b] != pp
    requires pp !in owner && IsList(heads[a], [pp] + lists[a])
    ensures AreLists(heads, WithFront(lists, a, pp), owner[pp := a])
  {
    hide Injective;
    OwnedWithFront(lists, owner, a, pp);
    var lists': seq<seq<PageMap>> := WithFront(lists, a, pp);
    forall b: nat | b < |lists'|
      ensures IsList(heads[b], lists'[b])
    {
    }
  }

  lemma UserPage(pp: PageMap, pgsize: nat)
    requires pgsize > 0 && USER_START <= pp.va < USER_END && pp.va % pgsize == 0 && pp.pa % pgsize == 0
    ensures AreUserPages([pp], pgsize)
  {
  }

  lemma PagesWithFront(lists: seq<seq<PageMap>>, spaces: seq<map<int, Page>>, owner: map<PageMap, nat>, pgsize: nat,
      a: nat, pp: PageMap)
    requires pgsize > 0 && a < |lists|
    requires forall b, i | 0 <= b < |lists| && 0 <= i < |lists[b]| :: lists[b][i] in owner
    requires forall b, i | 0 <= b < |lists| && 0 <= i < |WithFront(lists, a, pp)[b]| ::
               WithFront(lists, a, pp)[b][i] in owner[pp := a]
    requires ArePages(lists, spaces, owner.Keys, pgsize) && pp.va !in spaces[a] && AreUserPages([pp], pgsize)
    ensures ArePages(WithFront(lists, a, pp), spaces[a := spaces[a][pp.va := Page(pp.pa, pp.prot)]],
                     owner[pp := a].Keys, pgsize)
  {
    hide PagesUpTo;
    PagesAreListed(lists[a], |lists[a]|);
    PagesInFront(pp, lists[a], |lists[a]|);
    assert AreUserPages([pp] + lists[a], pgsize) by {
      assert [pp][0] == pp;
    }
  }

  lemma FlagsWithFront(lists: seq<seq<PageMap>>, owner: map<PageMap, nat>, current: int, a: nat, pp: PageMap)
    requires a < |lists|
    requires forall b, i | 0 <= b < |lists| && 0 <= i < |lists[b]| :: lists[b][i] in owner
    requires forall b, i | 0 <= b < |lists| && 0 <= i < |WithFront(lists, a, pp)[b]| ::
               WithFront(lists, a, pp)[b][i] in owner[pp := a]
    requires AreFlags(lists, owner.Keys, current) && (pp.isMapped <==> a == current)
    ensures AreFlags(WithFront(lists, a, pp), owner[pp := a].Keys, current)
  {
    var lists': seq<seq<PageMap>> := WithFront(lists, a, pp);
    forall b: nat, i: nat | b < |lists'| && i < |lists'[b]|
      ensures lists'[b][i].isMapped <==> b == current
    {
      if b == a && i > 0 {
        assert lists'[b][i] == lists[a][i - 1];
      }
    }
  }

  // ---------- a new list ----------

  lemma WithEmptyList(heads: seq<PageMap>, lists: seq<seq<PageMap>>, owner: map<PageMap, nat>, head: PageMap)
    requires AreLists(heads, lists, owner) && head.next == null && head !in heads && head !in owner
    ensures AreLists(heads + [head], lists + [[]], owner)
    ensures forall a, i | 0 <= a < |lists + [[]]| && 0 <= i < |(lists + [[]])[a]| :: (lists + [[]])[a][i] in owner
  {
    hide Injective;
    InjectiveAppend(heads, head);
    var lists': seq<seq<PageMap>> := lists + [[]];
    forall a: nat | a < |lists'|
      ensures IsList((heads + [head])[a], lists'[a])
    {
    }
  }

  lemma WithEmptySpace(lists: seq<seq<PageMap>>, spaces: seq<map<int, Page>>, nodes: set<PageMap>, pgsize: nat,
      current: int)
    requires pgsize > 0 && current < |lists|
    requires forall a, i | 0 <= a < |lists| && 0 <= i < |lists[a]| :: lists[a][i] in nodes
    requires forall a, i | 0 <= a < |lists + [[]]| && 0 <= i < |(lists + [[]])[a]| :: (lists + [[]])[a][i] in nodes
    requires ArePages(lists, spaces, nodes, pgsize) && AreFlags(lists, nodes, current)
    ensures ArePages(lists + [[]], spaces + [map[]], nodes, pgsize) && AreFlags(lists + [[]], nodes, current)
  {
  }

  lemma InjectiveAppend(heads: seq<PageMap>, head: PageMap)
    requires Injective(heads) && head !in heads
    ensures Injective(heads + [head])
  {
  }

  // ---------- whole runs ----------

  /** The address spaces as maps, and the index of the current one, -1 for none. */
  datatype State = State(spaces: seq<map<int, Page>>, current: int)

  datatype Op =
    | OpProtect
    | OpMap(a: nat, va: int, pa: int, prot: int)
    | OpSwitch(b: int)

  predicate IsAllowed(s: State, op: Op, pgsize: nat)
    requires pgsize > 0
  {
    match op
    case OpProtect => true
    case OpMap(a, va, pa, _) =>
      && a < |s.spaces| && USER_START <= va < USER_END && va % pgsize == 0 && pa % pgsize == 0
      && va !in s.spaces[a]
    case OpSwitch(b) => -1 <= b < |s.spaces|
  }

  function Next(s: State, op: Op): State {
    match op
    case OpProtect => s.(spaces := s.spaces + [map[]])
    case OpMap(a, va, pa, prot) =>
      if a < |s.spaces| then s.(spaces := s.spaces[a := s.spaces[a][va := Page(pa, prot)]]) else s
    case OpSwitch(b) => s.(current := b)
  }

  function After(ops: seq<Op>): State {
    if ops == [] then State([], -1) else Next(After(ops[..|ops| - 1]), ops[|ops| - 1])
  }

  predicate AreAllowed(ops: seq<Op>, pgsize: nat)
    requires pgsize > 0
  {
    forall n | 0 <= n < |ops| :: IsAllowed(After(ops[..n]), ops[n], pgsize)
  }

  lemma RunContinues(ops: seq<Op>, n: nat, pgsize: nat)
    requires pgsize > 0 && AreAllowed(ops, pgsize) && n < |ops|
    ensures IsAllowed(After(ops[..n]), ops[n], pgsize) && After(ops[..n + 1]) == Next(After(ops[..n]), ops[n])
  {
    assert ops[..n + 1][..n] == ops[..n];
  }

  lemma RunStarts(ops: seq<Op>)
    ensures After(ops[..0]) == State([], -1) && ops[..|ops|] == ops
  {
  }

  lemma AtHeads(heads: seq<PageMap>, b: int)
    requires -1 <= b < |heads|
    ensures At(heads, b) == if b < 0 then null else heads[b]
  {
  }

  /** The operations that the model of a run is made of, on the machine; heads are what _protect has returned. */
  method Perform(m: Machine, heads: seq<PageMap>, op: Op) returns (heads': seq<PageMap>)
    requires m.Valid() && m.vmeEnable && m.heads == heads
    requires m.pgsize > 0 && IsAllowed(State(m.spaces, m.current), op, m.pgsize) && |m.spaces| == |heads| == |m.lists|
    modifies m, heads, m.owner.Keys
    ensures m.Valid() && m.vmeEnable && m.heads == heads' && |m.spaces| == |heads'| == |m.lists|
    ensures State(m.spaces, m.current) == Next(old(State(m.spaces, m.current)), op)
    ensures fresh(set x | x in heads' && x !in heads) && fresh(m.owner.Keys - old(m.owner.Keys))
  {
    hide *;
    heads' := heads;
    AllowedMeans(State(m.spaces, m.current), op, m.pgsize);
    m.HeadsAre();
    match op {
      case OpProtect =>
        var head := m.Protect();
        heads' := heads + [head];
      case OpMap(a, va, pa, prot) =>
        var _ := m.Map(heads[a], va, pa, prot, a, m.lists[a]);
      case OpSwitch(b) =>
        AtHeads(heads, b);
        m.Switch(if b < 0 then null else heads[b], b);
    }
    m.HeadsAre();
  }

  lemma AllowedMeans(s: State, op: Op, pgsize: nat)
    requires pgsize > 0 && IsAllowed(s, op, pgsize)
    ensures op.OpMap? ==> op.a < |s.spaces| && USER_START <= op.va < USER_END && op.va !in s.spaces[op.a]
    ensures op.OpMap? ==> op.va % pgsize == 0 && op.pa % pgsize == 0
    ensures op.OpSwitch? ==> -1 <= op.b < |s.spaces|
    ensures Next(s, op).spaces ==
      (match op
       case OpProtect => s.spaces + [map[]]
       case OpMap(a, va, pa, prot) => s.spaces[a := s.spaces[a][va := Page(pa, prot)]]
       case OpSwitch(_) => s.spaces)
    ensures Next(s, op).current == if op.OpSwitch? then op.b else s.current
  {
  }

  /** Over every allowed run the lists stay apart and without cycles, and the host has the pages of the current space.
   */
  method Run(ops: seq<Op>, pgsize: nat) returns (m: Machine)
    requires pgsize > 0 && AreAllowed(ops, pgsize)
    ensures fresh(m) && m.Valid() && State(m.spaces, m.current) == After(ops)
    ensures m.IsEnforced()
  {
    hide *;
    m := new Machine(pgsize);
    m.VmeInit();
    var heads: seq<PageMap> := [];
    m.HeadsAre();
    RunStarts(ops);
    for n := 0 to |ops|
      invariant fresh(m) && m.pgsize == pgsize && m.vmeEnable && m.Valid() && m.heads == heads
      invariant fresh(heads) && fresh(m.owner.Keys) && |m.spaces| == |heads| == |m.lists|
      invariant State(m.spaces, m.current) == After(ops[..n])
    {
      RunContinues(ops, n, pgsize);
      heads := Perform(m, heads, ops[n]);
    }
    m.CurrentIsEnforced();
  }
}
