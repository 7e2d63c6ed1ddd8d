/** Sequences without repetitions. */
module Sequences {
  ghost predicate Injective<T>(c: seq<T>) {
    forall i, j | 0 <= i < j < |c| :: c[i] != c[j]
  }

  ghost function Elements<T>(c: seq<T>): (s: set<T>) {
    set x | x in c
  }

  lemma {:induction false} InjectiveCardinality<T>(c: seq<T>)
    requires Injective(c)
    ensures |Elements(c)| == |c|
  {
    if c != [] {
      var last := c[|c| - 1];
      var front := c[..|c| - 1];
      InjectiveCardinality(front);
      assert c == front + [last];
      assert last !in front;
      assert Elements(c) == Elements(front) + {last};
    }
  }

  lemma SubsetCardinality<T>(a: set<T>, b: set<T>)
    requires a <= b
    ensures |a| <= |b|
  {
    assert b == a + (b - a);
  }

  lemma SubsetOfSameSize<T>(a: set<T>, b: set<T>)
    requires a <= b && |a| == |b|
    ensures a == b
  {
    if exists x :: x in b && x !in a {
      var x :| x in b && x !in a;
      assert a <= b - {x};
      SubsetCardinality(a, b - {x});
    }
  }

  /** As many distinct elements as the whole has are all of them. */
  lemma InjectiveIsOnto<T>(part: seq<T>, whole: seq<T>)
    requires Injective(part) && Injective(whole) && |part| == |whole|
    requires forall i | 0 <= i < |part| :: part[i] in whole
    ensures forall i | 0 <= i < |whole| :: whole[i] in part
  {
    InjectiveCardinality(part);
    InjectiveCardinality(whole);
    SubsetOfSameSize(Elements(part), Elements(whole));
    forall i | 0 <= i < |whole|
      ensures whole[i] in part
    {
      assert whole[i] in Elements(whole);
      assert whole[i] in Elements(part);
    }
  }

  function Without<T>(s: seq<T>, k: nat): (t: seq<T>)
    requires k < |s|
    ensures |t| == |s| - 1
    ensures forall i | 0 <= i < |t| :: t[i] == if i < k then s[i] else s[i + 1]
  {
    s[..k] + s[k + 1..]
  }
}
