/**
 Heap order: every live item other than the root may sit below its
 parent under the heap's ordering. The lemmas here show that sift-down
 restores it for a subtree, that build establishes it, and that
 extraction keeps it, when the ordering is a total preorder.
 */
module HeapOrder {
  import opened Ordering
  import opened TreeIndex
  import opened BinHeap

  /** The edge from slot j to its parent, slot j / 2, is in order. */
  ghost predicate EdgeOk<T>(b: BinaryHeap<T>, j: int)
    requires Shaped(b) && 2 <= j <= b.size
  {
    b.orderingHolds(At(b, j / 2), At(b, j))
  }

  /** Every live non-root slot is in order with its parent. */
  ghost predicate HeapOrdered<T>(b: BinaryHeap<T>)
    requires Shaped(b)
  {
    forall j :: 2 <= j <= b.size ==> EdgeOk(b, j)
  }

  /** Every edge inside the subtree rooted at slot i is in order. */
  ghost predicate SubtreeOrdered<T>(b: BinaryHeap<T>, i: int)
    requires Shaped(b)
  {
    forall j :: 2 <= j <= b.size && j != i && InSubtree(i, j) ==> EdgeOk(b, j)
  }

  /** Both subtrees below slot i are in order; the edges from i to its children may not be. */
  ghost predicate ChildSubtreesOrdered<T>(b: BinaryHeap<T>, i: int)
    requires Shaped(b)
  {
    forall j :: 2 <= j <= b.size && j != i && j != 2 * i && j != 2 * i + 1 && InSubtree(i, j) ==> EdgeOk(b, j)
  }

  /** Every edge whose parent slot is k or later is in order: what build has achieved after sifting from k. */
  ghost predicate HeapFrom<T>(b: BinaryHeap<T>, k: int)
    requires Shaped(b)
  {
    forall j :: 2 <= j <= b.size && k <= j / 2 ==> EdgeOk(b, j)
  }

  /** The item of slot c may sit above the item of slot i and above both live children of i. */
  ghost predicate BestOfThree<T>(b: BinaryHeap<T>, i: int, c: int)
    requires Shaped(b) && 1 <= i <= b.length && 1 <= c <= b.length
  {
    && b.orderingHolds(At(b, c), At(b, i))
    && (2 * i <= b.size ==> b.orderingHolds(At(b, c), At(b, 2 * i)))
    && (2 * i + 1 <= b.size ==> b.orderingHolds(At(b, c), At(b, 2 * i + 1)))
  }

  /** Under a total preorder, the choice rule of sift-down picks a best of the three slots. */
  lemma ChooseIsBest<T(!new)>(b: BinaryHeap<T>, i: int)
    requires Valid(b) && 1 <= i <= b.length
    requires TotalPreorder(b.orderingHolds)
    ensures b.orderingHolds(At(b, Choose(b, i)), At(b, i))
    ensures 2 * i <= b.size ==> b.orderingHolds(At(b, Choose(b, i)), At(b, 2 * i))
    ensures 2 * i + 1 <= b.size ==> b.orderingHolds(At(b, Choose(b, i)), At(b, 2 * i + 1))
  {
    var c := Choose(b, i);
    var holds := b.orderingHolds;
    assert holds(At(b, c), At(b, c));
    if 2 * i <= b.size {
      assert holds(At(b, i), At(b, 2 * i)) || holds(At(b, 2 * i), At(b, i));
    }
    if 2 * i + 1 <= b.size {
      assert holds(At(b, i), At(b, 2 * i + 1)) || holds(At(b, 2 * i + 1), At(b, i));
      assert holds(At(b, 2 * i), At(b, 2 * i + 1)) || holds(At(b, 2 * i + 1), At(b, 2 * i));
    }
  }

  /**
   Sift-down correctness: when both subtrees below slot i are in heap
   order, the whole subtree at i is in heap order afterwards.
   */
  lemma {:induction false} HeapifyRestores<T(!new)>(b: BinaryHeap<T>, i: int)
    requires Valid(b) && 1 <= i <= b.length
    requires TotalPreorder(b.orderingHolds)
    requires ChildSubtreesOrdered(b, i)
    ensures SubtreeOrdered(Heapify(b, i), i)
    decreases b.size - i
  {
    var c := Choose(b, i);
    ChooseIsBest(b, i);
    if c == i {
      KeptInPlace(b, i);
    } else {
      var s := Swap(b, At(b, i), At(b, c));
      SiftStep(b, i);
      HeapifySifted(s, c);
      SwapKeepsChildSubtrees(b, i, c, s);
      HeapifyRestores(s, c);
      SiftedSubtree(b, i, c, s, Heapify(s, c));
    }
  }

  /** When no child may sit above the item of slot i, the subtree at i is already in order. */
  lemma KeptInPlace<T>(b: BinaryHeap<T>, i: int)
    requires Shaped(b) && 1 <= i <= b.length
    requires BestOfThree(b, i, i) && ChildSubtreesOrdered(b, i)
    ensures SubtreeOrdered(b, i)
  {
    forall j | 2 <= j <= b.size && j != i && InSubtree(i, j)
      ensures EdgeOk(b, j)
    {
      if j == 2 * i || j == 2 * i + 1 {
        assert j / 2 == i;
      }
    }
  }

  /** Sift-down at slot i when a child c is chosen: swap i with c, then sift from c. */
  lemma SiftStep<T>(b: BinaryHeap<T>, i: int)
    requires Valid(b) && 1 <= i <= b.length && Choose(b, i) != i
    ensures Valid(Swap(b, At(b, i), At(b, Choose(b, i))))
    ensures SwappedDown(b, i, Choose(b, i), Swap(b, At(b, i), At(b, Choose(b, i))))
    ensures Heapify(b, i) == Heapify(Swap(b, At(b, i), At(b, Choose(b, i))), Choose(b, i))
  {
    var c := Choose(b, i);
    assert b.indexMap[At(b, i)] == i && b.indexMap[At(b, c)] == c;
    assert At(b, i) != At(b, c);
  }

  /** Sift-down from slot c changes only live slots under c, and leaves in c the item of c or of a live child. */
  lemma HeapifySifted<T>(s: BinaryHeap<T>, c: int)
    requires Valid(s) && 1 <= c <= s.size
    ensures SiftedFrom(s, c, Heapify(s, c))
  {
    HeapifyFrame(s, c);
    HeapifyTop(s, c);
  }

  /**
   Heapify's frame postcondition, restated in a context of its own so that
   HeapifySifted does not carry the body of Heapify and its consequences
   together.
   */
  lemma HeapifyFrame<T>(s: BinaryHeap<T>, c: int)
    requires Valid(s) && 1 <= c <= s.size
    ensures forall k :: 0 <= k < |s.heap| && !(k <= s.size && InSubtree(c, k)) ==> Heapify(s, c).heap[k] == s.heap[k]
  {
  }

  /** Sift-down from slot c leaves in c the item of c or of a live child. */
  lemma HeapifyTop<T>(s: BinaryHeap<T>, c: int)
    requires Valid(s) && 1 <= c <= s.size
    ensures var r := Heapify(s, c);
      || r.heap[c] == s.heap[c]
      || (2 * c <= s.size && r.heap[c] == s.heap[2 * c])
      || (2 * c + 1 <= s.size && r.heap[c] == s.heap[2 * c + 1])
  {
    ChoiceSlot(s, c);
  }

  /**
   Choose's range postcondition, read back as the item of the chosen slot;
   a separate lemma so that HeapifyTop's context stays small.
   */
  lemma ChoiceSlot<T>(s: BinaryHeap<T>, c: int)
    requires Valid(s) && 1 <= c <= s.size
    ensures var d := s.heap[Choose(s, c)];
      || d == s.heap[c]
      || (2 * c <= s.size && d == s.heap[2 * c])
      || (2 * c + 1 <= s.size && d == s.heap[2 * c + 1])
  {
  }

  /** Every edge of the subtree at slot i is in order once the sift from the chosen child c has ordered c's subtree. */
  lemma SiftedSubtree<T>(b: BinaryHeap<T>, i: int, c: int, s: BinaryHeap<T>, r: BinaryHeap<T>)
    requires Shaped(b) && Shaped(s) && Shaped(r) && 1 <= i <= b.length
    requires SwappedDown(b, i, c, s) && SiftedFrom(s, c, r)
    requires BestOfThree(b, i, c)
    requires ChildSubtreesOrdered(b, i) && SubtreeOrdered(r, c)
    ensures SubtreeOrdered(r, i)
  {
    forall j | 2 <= j <= r.size && j != i && InSubtree(i, j)
      ensures EdgeOk(r, j)
    {
      SiftedEdge(b, i, c, s, r, j);
    }
  }

  /** The state right after sift-down at slot i has swapped the item of slot i with the chosen child c. */
  ghost predicate SwappedDown<T>(b: BinaryHeap<T>, i: int, c: int, s: BinaryHeap<T>)
    requires Shaped(b) && Shaped(s)
  {
    && s.size == b.size && s.length == b.length && s.orderingHolds == b.orderingHolds
    && 1 <= i && (c == 2 * i || c == 2 * i + 1) && c <= b.size
    && s.heap[i] == b.heap[c] && s.heap[c] == b.heap[i]
    && (forall k :: 0 <= k < |b.heap| && k != i && k != c ==> s.heap[k] == b.heap[k])
  }

  /** The state after the recursive sift from slot c: only live slots under c changed, and c got the best of c and its children. */
  ghost predicate SiftedFrom<T>(s: BinaryHeap<T>, c: int, r: BinaryHeap<T>)
    requires Shaped(s) && Shaped(r) && 1 <= c
  {
    && r.size == s.size && r.length == s.length && r.orderingHolds == s.orderingHolds
    && c <= s.size
    && (forall k :: 0 <= k < |s.heap| && !(k <= s.size && InSubtree(c, k)) ==> r.heap[k] == s.heap[k])
    && (r.heap[c] == s.heap[c]
        || (2 * c <= s.size && r.heap[c] == s.heap[2 * c])
        || (2 * c + 1 <= s.size && r.heap[c] == s.heap[2 * c + 1]))
  }

  /** After the swap at slot i, the subtrees below the chosen child c are still in order. */
  lemma SwapKeepsChildSubtrees<T>(b: BinaryHeap<T>, i: int, c: int, s: BinaryHeap<T>)
    requires Shaped(b) && Shaped(s) && SwappedDown(b, i, c, s)
    requires ChildSubtreesOrdered(b, i)
    ensures ChildSubtreesOrdered(s, c)
  {
    forall j | 2 <= j <= s.size && j != c && j != 2 * c && j != 2 * c + 1 && InSubtree(c, j)
      ensures EdgeOk(s, j)
    {
      ChildSubtree(i, c, j);
      assert InSubtree(c, j / 2);
      assert EdgeOk(b, j);
    }
  }

  /** One edge of the subtree at slot i after the swap with child c and the sift from c. */
  lemma SiftedEdge<T>(b: BinaryHeap<T>, i: int, c: int, s: BinaryHeap<T>, r: BinaryHeap<T>, j: int)
    requires Shaped(b) && Shaped(s) && Shaped(r) && 1 <= i <= b.length
    requires SwappedDown(b, i, c, s) && SiftedFrom(s, c, r)
    requires BestOfThree(b, i, c)
    requires ChildSubtreesOrdered(b, i) && SubtreeOrdered(r, c)
    requires 2 <= j <= b.size && j != i && InSubtree(i, j)
    ensures EdgeOk(r, j)
  {
    var o := if c == 2 * i then 2 * i + 1 else 2 * i;
    if j == c {
      EdgeToChosen(b, i, c, s, r);
    } else if InSubtree(c, j) {
    } else {
      OtherSubtree(i, c, o, j);
      if j == o {
        EdgeToSibling(b, i, c, o, s, r);
      } else {
        EdgeBelowSibling(b, i, c, o, s, r, j);
      }
    }
  }

  /** The item moved up to slot i may sit above whatever the sift from c left in slot c. */
  lemma EdgeToChosen<T>(b: BinaryHeap<T>, i: int, c: int, s: BinaryHeap<T>, r: BinaryHeap<T>)
    requires Shaped(b) && Shaped(s) && Shaped(r) && 1 <= i <= b.length
    requires SwappedDown(b, i, c, s) && SiftedFrom(s, c, r)
    requires BestOfThree(b, i, c)
    requires ChildSubtreesOrdered(b, i)
    ensures EdgeOk(r, c)
  {
    assert !InSubtree(c, i);
    assert r.heap[i] == b.heap[c];
    if 2 * c <= s.size && r.heap[c] == s.heap[2 * c] {
      GrandchildEdge(b, i, c, s, r, 2 * c);
    } else if 2 * c + 1 <= s.size && r.heap[c] == s.heap[2 * c + 1] {
      GrandchildEdge(b, i, c, s, r, 2 * c + 1);
    }
  }

  /** When the sift from c lifted the item of c's child d into c, that item may still sit below the one moved up to i. */
  lemma GrandchildEdge<T>(b: BinaryHeap<T>, i: int, c: int, s: BinaryHeap<T>, r: BinaryHeap<T>, d: int)
    requires Shaped(b) && Shaped(s) && Shaped(r) && 1 <= i <= b.length
    requires SwappedDown(b, i, c, s) && r.size == s.size && r.orderingHolds == s.orderingHolds
    requires ChildSubtreesOrdered(b, i)
    requires (d == 2 * c || d == 2 * c + 1) && d <= s.size
    requires r.heap[i] == b.heap[c] && r.heap[c] == s.heap[d]
    ensures EdgeOk(r, c)
  {
    ChildSubtree(i, c, d);
    assert d / 2 == c && c / 2 == i;
    assert s.heap[d] == b.heap[d];
    assert EdgeOk(b, d);
  }

  /** The item moved up to slot i may sit above the untouched sibling o of c. */
  lemma EdgeToSibling<T>(b: BinaryHeap<T>, i: int, c: int, o: int, s: BinaryHeap<T>, r: BinaryHeap<T>)
    requires Shaped(b) && Shaped(s) && Shaped(r) && 1 <= i <= b.length
    requires SwappedDown(b, i, c, s) && SiftedFrom(s, c, r)
    requires BestOfThree(b, i, c)
    requires (c == 2 * i && o == 2 * i + 1) || (c == 2 * i + 1 && o == 2 * i)
    requires o <= b.size
    ensures EdgeOk(r, o)
  {
    SiblingsDisjoint(i, c, o, o);
    assert !InSubtree(c, i);
    assert r.heap[i] == b.heap[c];
    assert r.heap[o] == b.heap[o];
  }

  /** Edges inside the subtree of the sibling o are not touched. */
  lemma EdgeBelowSibling<T>(b: BinaryHeap<T>, i: int, c: int, o: int, s: BinaryHeap<T>, r: BinaryHeap<T>, j: int)
    requires Shaped(b) && Shaped(s) && Shaped(r) && 1 <= i <= b.length
    requires SwappedDown(b, i, c, s) && SiftedFrom(s, c, r)
    requires (c == 2 * i && o == 2 * i + 1) || (c == 2 * i + 1 && o == 2 * i)
    requires ChildSubtreesOrdered(b, i)
    requires 2 <= j <= b.size && j != o && InSubtree(o, j)
    ensures EdgeOk(r, j)
  {
    assert InSubtree(o, j / 2);
    SiblingsDisjoint(i, c, o, j);
    SiblingsDisjoint(i, c, o, j / 2);
    ChildSubtree(i, o, j);
    assert r.heap[j] == b.heap[j];
    assert r.heap[j / 2] == b.heap[j / 2];
    assert EdgeOk(b, j);
  }

  /** One step of build: sifting down from slot i extends heap order from the edges below i to those at i. */
  lemma HeapFromStep<T(!new)>(b: BinaryHeap<T>, i: int)
    requires Valid(b) && 1 <= i <= b.length
    requires TotalPreorder(b.orderingHolds)
    requires HeapFrom(b, i + 1)
    ensures HeapFrom(Heapify(b, i), i)
  {
    forall j | 2 <= j <= b.size && j != i && j != 2 * i && j != 2 * i + 1 && InSubtree(i, j)
      ensures EdgeOk(b, j)
    {
      assert InSubtree(i, j / 2);
    }
    HeapifyRestores(b, i);
    var r := Heapify(b, i);
    forall j | 2 <= j <= r.size && i <= j / 2
      ensures EdgeOk(r, j)
    {
      if !InSubtree(i, j) {
        assert !InSubtree(i, j / 2);
        assert EdgeOk(b, j);
      }
    }
  }

  /** The bottom-up pass from slot i down to 1 leaves the whole heap in order. */
  lemma {:induction false} BuildDownOrders<T(!new)>(b: BinaryHeap<T>, i: int)
    requires Valid(b) && 0 <= i <= b.length
    requires TotalPreorder(b.orderingHolds)
    requires HeapFrom(b, i + 1)
    ensures HeapOrdered(BuildDown(b, i))
    decreases i
  {
    if i > 0 {
      HeapFromStep(b, i);
      assert BuildDown(b, i) == BuildDown(Heapify(b, i), i - 1);
      BuildDownOrders(Heapify(b, i), i - 1);
    }
  }

  /** Build leaves every live slot in heap order, whatever order the items came in. */
  lemma BuildOrders<T(!new)>(b: BinaryHeap<T>)
    requires Slotted(b.heap) && IndexConsistent(b.heap, b.indexMap)
    requires TotalPreorder(b.orderingHolds)
    ensures HeapOrdered(Build(b))
  {
    var full := b.(size := |b.heap| - 1, length := |b.heap| - 1);
    assert Valid(full);
    assert Build(b) == BuildDown(full, full.length / 2);
    forall j | 2 <= j <= full.size && full.length / 2 + 1 <= j / 2
      ensures false
    {
    }
    BuildDownOrders(full, full.length / 2);
  }

  /** A freshly constructed heap is in heap order. */
  lemma NewBinaryHeapOrdered<T(!new)>(items: seq<T>, fn: (T, T) -> bool)
    requires Distinct(items)
    requires TotalPreorder(fn)
    ensures HeapOrdered(NewBinaryHeap(items, fn))
  {
    var heap := [None] + Wrap(items);
    SentinelInFront(items);
    PopulateIndexConsistent(heap);
    BuildOrders(BinaryHeap(heap, PopulateIndex(heap, |items|), fn, 0, 0));
  }

  /** Extraction keeps heap order over the shrunk live range. */
  lemma ExtractFirstKeepsOrder<T(!new)>(b: BinaryHeap<T>)
    requires Valid(b) && HeapOrdered(b)
    requires TotalPreorder(b.orderingHolds)
    ensures HeapOrdered(ExtractFirst(b).1)
  {
    if b.size > 0 {
      var shrunk := DropRoot(b);
      DropRootKeepsSubtrees(b);
      HeapifyRestores(shrunk, FirstIndex);
      forall j | 2 <= j <= shrunk.size
        ensures InSubtree(1, j)
      {
        RootCoversAll(j);
      }
    }
  }

  /** Dropping the root leaves both subtrees below the root in order. */
  lemma DropRootKeepsSubtrees<T>(b: BinaryHeap<T>)
    requires Valid(b) && HeapOrdered(b) && b.size > 0
    ensures ChildSubtreesOrdered(DropRoot(b), FirstIndex)
  {
    var shrunk := DropRoot(b);
    forall j | 2 <= j <= shrunk.size && j != 1 && j != 2 && j != 3 && InSubtree(1, j)
      ensures EdgeOk(shrunk, j)
    {
      assert EdgeOk(b, j);
    }
  }

  /** In a heap-ordered heap the root may sit above every live item. */
  lemma {:induction false} RootPreferred<T(!new)>(b: BinaryHeap<T>, j: int)
    requires Valid(b) && HeapOrdered(b)
    requires TotalPreorder(b.orderingHolds)
    requires 1 <= j <= b.size
    ensures b.orderingHolds(At(b, FirstIndex), At(b, j))
    decreases j
  {
    if j == 1 {
      assert b.orderingHolds(At(b, j), At(b, j));
    } else {
      RootPreferred(b, j / 2);
      assert EdgeOk(b, j);
    }
  }
}
