/**
 The ordering policy of a binary heap: a caller-supplied relation
 `holds(a, b)`, read "a may sit above b". The sift-down algorithm is
 correct when the relation is a total preorder, which is what `<=` and
 `>=` on numbers are.
 */
module Ordering {

  /** Every two elements are comparable in at least one direction. */
  ghost predicate Total<T(!new)>(holds: (T, T) -> bool) {
    forall x, y :: holds(x, y) || holds(y, x)
  }

  ghost predicate Transitive<T(!new)>(holds: (T, T) -> bool) {
    forall x, y, z :: holds(x, y) && holds(y, z) ==> holds(x, z)
  }

  ghost predicate TotalPreorder<T(!new)>(holds: (T, T) -> bool) {
    Total(holds) && Transitive(holds)
  }

  ghost predicate Antisymmetric<T(!new)>(holds: (T, T) -> bool) {
    forall x, y :: holds(x, y) && holds(y, x) ==> x == y
  }

  /** `s` lists its elements in the order the relation prefers. */
  ghost predicate SortedBy<T>(holds: (T, T) -> bool, s: seq<T>) {
    forall p, q :: 0 <= p < q < |s| ==> holds(s[p], s[q])
  }

  /** An element that may precede every element of a sorted sequence can be put in front of it. */
  lemma SortedCons<T>(holds: (T, T) -> bool, x: T, s: seq<T>)
    requires SortedBy(holds, s)
    requires forall y :: y in s ==> holds(x, y)
    ensures SortedBy(holds, [x] + s)
  {
    var t := [x] + s;
    forall p, q | 0 <= p < q < |t|
      ensures holds(t[p], t[q])
    {
      assert t[q] == s[q - 1];
      if p > 0 {
        assert t[p] == s[p - 1];
      }
    }
  }

  /**
   Under an antisymmetric relation, two sorted sequences with the same
   elements are equal: the sorted order of a collection is unique.
   */
  lemma {:induction false} SortedUnique<T(!new)>(holds: (T, T) -> bool, s: seq<T>, t: seq<T>)
    requires Antisymmetric(holds)
    requires SortedBy(holds, s) && SortedBy(holds, t)
    requires multiset(s) == multiset(t)
    ensures s == t
    decreases |s|
  {
    if |s| == 0 {
      assert |t| == |multiset(t)| == 0;
    } else {
      SameHead(holds, s, t);
      DropHead(s, t);
      SortedUnique(holds, s[1..], t[1..]);
      assert s == [s[0]] + s[1..] && t == [t[0]] + t[1..];
    }
  }

  /** Two sorted sequences with the same elements under an antisymmetric relation start alike. */
  lemma SameHead<T(!new)>(holds: (T, T) -> bool, s: seq<T>, t: seq<T>)
    requires Antisymmetric(holds)
    requires SortedBy(holds, s) && SortedBy(holds, t)
    requires multiset(s) == multiset(t) && |s| > 0
    ensures |t| > 0 && s[0] == t[0]
  {
    assert s[0] in multiset(t);
    var q :| 0 <= q < |t| && t[q] == s[0];
    assert t[0] in multiset(s);
    var p :| 0 <= p < |s| && s[p] == t[0];
    if p > 0 && q > 0 {
      assert holds(s[0], s[p]) && holds(t[0], t[q]);
    }
  }

  /** Removing a common first element keeps two sequences' multisets equal. */
  lemma DropHead<T>(s: seq<T>, t: seq<T>)
    requires multiset(s) == multiset(t) && |s| > 0 && |t| > 0 && s[0] == t[0]
    ensures multiset(s[1..]) == multiset(t[1..])
  {
    assert s == [s[0]] + s[1..];
    assert t == [t[0]] + t[1..];
    assert multiset(s[1..]) == multiset(s) - multiset{s[0]};
    assert multiset(t[1..]) == multiset(t) - multiset{t[0]};
  }
}
