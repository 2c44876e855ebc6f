/**
 Navigation by item: Left, Right and Parent agree with each other, the
 live items form a complete tree, and heap order read through Parent is
 the slot-wise heap order.
 */
module Navigation {
  import opened Ordering
  import opened BinHeap
  import opened HeapOrder

  /** A child's parent is the item it was asked of. */
  lemma ChildParentInverse<T>(b: BinaryHeap<T>, n: T)
    requires Valid(b) && n in b.indexMap
    ensures Left(b, n).Some? ==> Parent(b, Left(b, n).value) == Some(n)
    ensures Right(b, n).Some? ==> Parent(b, Right(b, n).value) == Some(n)
  {
    var i := b.indexMap[n];
    if Left(b, n).Some? {
      assert b.indexMap[Left(b, n).value] / 2 == i;
    }
    if Right(b, n).Some? {
      assert b.indexMap[Right(b, n).value] / 2 == i;
    }
  }

  /** Every live item other than the root is the left or the right child of its parent. */
  lemma ParentChildInverse<T>(b: BinaryHeap<T>, n: T)
    requires Valid(b) && IsLive(b, n) && b.indexMap[n] != FirstIndex
    ensures Parent(b, n).Some?
    ensures Left(b, Parent(b, n).value) == Some(n) || Right(b, Parent(b, n).value) == Some(n)
  {
    var i := b.indexMap[n];
    var p := Parent(b, n).value;
    assert b.indexMap[p] == i / 2;
    if i % 2 == 0 {
      assert 2 * b.indexMap[p] == i;
      assert b.heap[i] == Some(n);
    } else {
      assert 2 * b.indexMap[p] + 1 == i;
      assert b.heap[i] == Some(n);
    }
  }

  /**
   The live items form a complete tree: no item has a right child without
   a left one, and once an item lacks a child, every item after it in
   level order (slot order) is a leaf.
   */
  lemma CompleteTree<T>(b: BinaryHeap<T>, m: T, n: T)
    requires Valid(b) && IsLive(b, m) && IsLive(b, n)
    ensures Left(b, m).None? ==> Right(b, m).None?
    ensures b.indexMap[m] < b.indexMap[n] && (Left(b, m).None? || Right(b, m).None?) ==> Left(b, n).None? && Right(b, n).None?
  {
  }

  /**
   Heap order as the test helper checks it: every live item other than
   the root has a parent, and the parent may sit above it.
   */
  lemma HeapPropertyHolds<T>(b: BinaryHeap<T>)
    requires Valid(b)
    ensures HeapOrdered(b) <==>
      forall n :: IsLive(b, n) && b.indexMap[n] != FirstIndex ==>
        Parent(b, n).Some? && b.orderingHolds(Parent(b, n).value, n)
  {
    if HeapOrdered(b) {
      forall n | IsLive(b, n) && b.indexMap[n] != FirstIndex
        ensures Parent(b, n).Some? && b.orderingHolds(Parent(b, n).value, n)
      {
        assert EdgeOk(b, b.indexMap[n]);
      }
    } else {
      var j :| 2 <= j <= b.size && !EdgeOk(b, j);
      var n := At(b, j);
      assert b.indexMap[n] == j;
      assert !(Parent(b, n).Some? && b.orderingHolds(Parent(b, n).value, n));
    }
  }
}
