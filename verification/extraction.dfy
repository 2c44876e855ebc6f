/**
 Repeated extraction. Calling ExtractFirst until the heap is empty
 returns every live item once, in the order the heap's ordering prefers,
 which is what makes the structure a priority queue.
 */
module Extraction {
  import opened Ordering
  import opened BinHeap
  import opened HeapOrder

  /** The items returned by calling ExtractFirst until the heap is empty, in the order returned. */
  function Drain<T(==)>(b: BinaryHeap<T>): (s: seq<T>)
    requires Valid(b)
    ensures |s| == b.size
    decreases b.size
  {
    if b.size == 0 then
      []
    else
      var res := ExtractFirst(b);
      [res.0.value] + Drain(res.1)
  }

  /**
   In a heap-ordered heap, extraction yields the live items, each once,
   sorted by the ordering.
   */
  lemma {:induction false} DrainSorted<T(!new)>(b: BinaryHeap<T>)
    requires Valid(b) && HeapOrdered(b)
    requires TotalPreorder(b.orderingHolds)
    ensures SortedBy(b.orderingHolds, Drain(b))
    ensures multiset(Drain(b)) == multiset(LiveItems(b))
    decreases b.size
  {
    if b.size > 0 {
      var root := At(b, FirstIndex);
      var rest := ExtractFirst(b).1;
      ExtractFirstKeepsOrder(b);
      DrainSorted(rest);
      RootPrecedesRest(b);
      assert Drain(b) == [root] + Drain(rest);
      forall x | x in Drain(rest)
        ensures b.orderingHolds(root, x)
      {
        assert x in multiset(LiveItems(rest));
      }
      SortedCons(b.orderingHolds, root, Drain(rest));
    }
  }

  /** The extracted root may sit above every item still live afterwards, and it is the only item removed. */
  lemma RootPrecedesRest<T(!new)>(b: BinaryHeap<T>)
    requires Valid(b) && HeapOrdered(b) && b.size > 0
    requires TotalPreorder(b.orderingHolds)
    ensures forall x :: x in multiset(LiveItems(ExtractFirst(b).1)) ==> b.orderingHolds(At(b, FirstIndex), x)
    ensures multiset(LiveItems(b)) == multiset{At(b, FirstIndex)} + multiset(LiveItems(ExtractFirst(b).1))
  {
    var root := At(b, FirstIndex);
    var live := LiveItems(b);
    assert live[0] == root;
    RootPrecedesLive(b);
    RemoveOne(multiset(live), multiset(LiveItems(ExtractFirst(b).1)), root);
  }

  /** Taking one copy of an element out of a multiset leaves a part of it that adds back up to the whole. */
  lemma RemoveOne<T>(whole: multiset<T>, part: multiset<T>, r: T)
    requires r in whole && part == whole - multiset{r}
    ensures whole == multiset{r} + part
    ensures forall x :: x in part ==> x in whole
  {
  }

  /** The root may sit above every live item. */
  lemma RootPrecedesLive<T(!new)>(b: BinaryHeap<T>)
    requires Valid(b) && HeapOrdered(b)
    requires TotalPreorder(b.orderingHolds)
    ensures forall x :: x in LiveItems(b) ==> b.orderingHolds(At(b, FirstIndex), x)
  {
    var live := LiveItems(b);
    forall x | x in live
      ensures b.orderingHolds(At(b, FirstIndex), x)
    {
      var k :| 0 <= k < b.size && live[k] == x;
      RootPreferred(b, k + 1);
    }
  }

  /** The ordering the tests use for a min-heap. */
  function AtMost(x: int, y: int): (r: bool) {
    x <= y
  }

  /** The ordering the tests use for a max-heap. */
  function AtLeast(x: int, y: int): (r: bool) {
    x >= y
  }

  /** Built from 6, 3, 5, 4, 7 with `<=`, the heap yields 3, 4, 5, 6, 7. */
  lemma ExtractMinOrder()
    ensures Drain(NewBinaryHeap([6, 3, 5, 4, 7], AtMost)) == [3, 4, 5, 6, 7]
  {
    MinExample([6, 3, 5, 4, 7]);
  }

  /**
   ExtractMinOrder for an input known slot by slot, which keeps the solver
   from unfolding the heap operations on a literal.
   */
  lemma MinExample(items: seq<int>)
    requires |items| == 5
    requires items[0] == 6 && items[1] == 3 && items[2] == 5 && items[3] == 4 && items[4] == 7
    ensures Drain(NewBinaryHeap(items, AtMost)) == [3, 4, 5, 6, 7]
  {
    MinInput(items);
    MinDistinct(items);
    AtMostOrders();
    ExpectedSorted();
    DrainIsSortedPermutation(items, AtMost);
    SortedPermutation(AtMost, Drain(NewBinaryHeap(items, AtMost)), items, [3, 4, 5, 6, 7]);
  }

  /** Built from 4, 6, 3, 7, 5 with `>=`, the heap yields 7, 6, 5, 4, 3. */
  lemma ExtractMaxOrder()
    ensures Drain(NewBinaryHeap([4, 6, 3, 7, 5], AtLeast)) == [7, 6, 5, 4, 3]
  {
    MaxExample([4, 6, 3, 7, 5]);
  }

  /** ExtractMaxOrder for an input known slot by slot, as in MinExample. */
  lemma MaxExample(items: seq<int>)
    requires |items| == 5
    requires items[0] == 4 && items[1] == 6 && items[2] == 3 && items[3] == 7 && items[4] == 5
    ensures Drain(NewBinaryHeap(items, AtLeast)) == [7, 6, 5, 4, 3]
  {
    MaxInput(items);
    MaxDistinct(items);
    AtLeastOrders();
    ExpectedSorted();
    DrainIsSortedPermutation(items, AtLeast);
    SortedPermutation(AtLeast, Drain(NewBinaryHeap(items, AtLeast)), items, [7, 6, 5, 4, 3]);
  }

  /** The min-heap example's input holds the same items as 3, 4, 5, 6, 7. */
  lemma MinInput(items: seq<int>)
    requires |items| == 5
    requires items[0] == 6 && items[1] == 3 && items[2] == 5 && items[3] == 4 && items[4] == 7
    ensures multiset(items) == multiset([3, 4, 5, 6, 7])
  {
    calc {
      multiset(items);
      { assert items == [6] + [3] + [5] + [4] + [7]; }
      multiset([6] + [3] + [5] + [4] + [7]);
      multiset([3] + [4] + [5] + [6] + [7]);
      { assert [3] + [4] + [5] + [6] + [7] == [3, 4, 5, 6, 7]; }
      multiset([3, 4, 5, 6, 7]);
    }
  }

  /** The max-heap example's input holds the same items as 7, 6, 5, 4, 3. */
  lemma MaxInput(items: seq<int>)
    requires |items| == 5
    requires items[0] == 4 && items[1] == 6 && items[2] == 3 && items[3] == 7 && items[4] == 5
    ensures multiset(items) == multiset([7, 6, 5, 4, 3])
  {
    calc {
      multiset(items);
      { assert items == [4] + [6] + [3] + [7] + [5]; }
      multiset([4] + [6] + [3] + [7] + [5]);
      multiset([7] + [6] + [5] + [4] + [3]);
      { assert [7] + [6] + [5] + [4] + [3] == [7, 6, 5, 4, 3]; }
      multiset([7, 6, 5, 4, 3]);
    }
  }

  /** The min-heap example's input has no repeated item. */
  lemma MinDistinct(items: seq<int>)
    requires |items| == 5
    requires items[0] == 6 && items[1] == 3 && items[2] == 5 && items[3] == 4 && items[4] == 7
    ensures Distinct(items)
  {
    assert items == [6, 3, 5, 4, 7];
  }

  /** The max-heap example's input has no repeated item. */
  lemma MaxDistinct(items: seq<int>)
    requires |items| == 5
    requires items[0] == 4 && items[1] == 6 && items[2] == 3 && items[3] == 7 && items[4] == 5
    ensures Distinct(items)
  {
    assert items == [4, 6, 3, 7, 5];
  }

  /** The min-heap ordering is a total preorder and antisymmetric. */
  lemma AtMostOrders()
    ensures TotalPreorder(AtMost) && Antisymmetric(AtMost)
  {
  }

  /** The max-heap ordering is a total preorder and antisymmetric. */
  lemma AtLeastOrders()
    ensures TotalPreorder(AtLeast) && Antisymmetric(AtLeast)
  {
  }

  /** The expected extraction orders are sorted by their orderings. */
  lemma ExpectedSorted()
    ensures SortedBy(AtMost, [3, 4, 5, 6, 7]) && SortedBy(AtLeast, [7, 6, 5, 4, 3])
  {
  }

  /** Extraction from a freshly built heap lists its items sorted by the ordering. */
  lemma DrainIsSortedPermutation<T(!new)>(items: seq<T>, fn: (T, T) -> bool)
    requires Distinct(items) && TotalPreorder(fn)
    ensures SortedBy(fn, Drain(NewBinaryHeap(items, fn)))
    ensures multiset(Drain(NewBinaryHeap(items, fn))) == multiset(items)
  {
    NewBinaryHeapOrdered(items, fn);
    DrainSorted(NewBinaryHeap(items, fn));
  }

  /** A sorted rearrangement of items is the sorted sequence t with the same elements. */
  lemma SortedPermutation(holds: (int, int) -> bool, d: seq<int>, items: seq<int>, t: seq<int>)
    requires Antisymmetric(holds)
    requires SortedBy(holds, d) && SortedBy(holds, t)
    requires multiset(d) == multiset(items) && multiset(items) == multiset(t)
    ensures d == t
  {
    SortedUnique(holds, d, t);
  }

  /** Extracting from an empty heap, such as one built from no items, yields nothing and changes nothing. */
  lemma ExtractFromEmpty<T(!new)>(fn: (T, T) -> bool)
    ensures ExtractFirst(NewBinaryHeap([], fn)) == (None, NewBinaryHeap([], fn))
    ensures Drain(NewBinaryHeap([], fn)) == []
  {
  }
}
