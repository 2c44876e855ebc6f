/**
 An array-backed binary heap that also keeps a reverse index from each
 item to the slot that holds it, so that the parent and children of any
 item still in the heap can be looked up.

 The array is 1-based: slot 0 holds the nil sentinel, slot 1 is the root,
 and the children of slot i are slots 2i and 2i + 1. The ordering is the
 caller's relation `orderingHolds(a, b)`, "a may sit above b"; the
 algorithms here place no demand on it, while the order lemmas of module
 HeapOrder require a total preorder.
 */
module BinHeap {
  import opened TreeIndex

  /** The slot of the root. */
  const FirstIndex := 1

  /** An item or nil. */
  datatype Option<T> = None | Some(value: T)

  /**
   The heap state. `heap` has one slot more than there are items (slot 0
   is the sentinel), `length` is the number of items the heap was built
   from and `size` the number still in it: slots 1..size are live, slots
   size+1..length hold the items extracted so far.
   */
  datatype BinaryHeap<!T> = BinaryHeap(
    heap: seq<Option<T>>,
    indexMap: map<T, int>,
    orderingHolds: (T, T) -> bool,
    length: int,
    size: int)

  /** Slot 0 is the sentinel and every other slot holds an item. */
  ghost predicate Slotted<T>(heap: seq<Option<T>>) {
    |heap| >= 1 && heap[0] == None && forall i :: 1 <= i < |heap| ==> heap[i].Some?
  }

  /** The index map is the exact inverse of the array on slots 1..|heap|-1. */
  ghost predicate IndexConsistent<T>(heap: seq<Option<T>>, indexMap: map<T, int>)
    requires Slotted(heap)
  {
    && (forall i :: 1 <= i < |heap| ==> heap[i].value in indexMap && indexMap[heap[i].value] == i)
    && (forall x :: x in indexMap ==> 1 <= indexMap[x] < |heap| && heap[indexMap[x]] == Some(x))
  }

  /** The array has a sentinel and `length` item slots, and the live range lies within them. */
  ghost predicate Shaped<T>(b: BinaryHeap<T>) {
    && Slotted(b.heap)
    && |b.heap| == b.length + 1
    && 0 <= b.size <= b.length
  }

  /** The representation invariant kept by every operation. */
  ghost predicate Valid<T>(b: BinaryHeap<T>) {
    Shaped(b) && IndexConsistent(b.heap, b.indexMap)
  }

  /** The items of slots 1..|heap|-1, in array order. */
  ghost function SlotValues<T>(heap: seq<Option<T>>): (s: seq<T>)
    requires Slotted(heap)
  {
    seq(|heap| - 1, k requires 0 <= k < |heap| - 1 => heap[k + 1].value)
  }

  /** The live items, slots 1..size, in array order. */
  ghost function LiveItems<T>(b: BinaryHeap<T>): (s: seq<T>)
    requires Valid(b)
  {
    SlotValues(b.heap)[..b.size]
  }

  /** The item in slot i. */
  function At<T>(b: BinaryHeap<T>, i: int): (x: T)
    requires Shaped(b) && 1 <= i <= b.length
  {
    b.heap[i].value
  }

  /** Item x occupies a live slot. */
  ghost predicate IsLive<T>(b: BinaryHeap<T>, x: T) {
    x in b.indexMap && 1 <= b.indexMap[x] <= b.size
  }

  /** A read of a map with a missing key yields the zero value, 0. */
  function Lookup<T(==)>(m: map<T, int>, x: T): (r: int)
    ensures x in m ==> r == m[x]
    ensures x !in m ==> r == 0
  {
    if x in m then m[x] else 0
  }

  /**
   Exchanges the slots of two items and their index-map entries. Both
   items must be in the map; the heap calls it only on items it holds.
   */
  function Swap<T(==)>(b: BinaryHeap<T>, first: T, second: T): (r: BinaryHeap<T>)
    requires Valid(b)
    requires first in b.indexMap && second in b.indexMap
    ensures Valid(r)
    ensures r.length == b.length && r.size == b.size && r.orderingHolds == b.orderingHolds
    ensures r.heap[b.indexMap[first]] == Some(second) && r.heap[b.indexMap[second]] == Some(first)
    ensures forall k :: 0 <= k < |b.heap| && k != b.indexMap[first] && k != b.indexMap[second] ==> r.heap[k] == b.heap[k]
    ensures r.indexMap.Keys == b.indexMap.Keys
    ensures r.indexMap[first] == b.indexMap[second] && r.indexMap[second] == b.indexMap[first]
    ensures forall x :: x in b.indexMap && x != first && x != second ==> r.indexMap[x] == b.indexMap[x]
  {
    var firstIdx := b.indexMap[first];
    var secondIdx := b.indexMap[second];
    SwapConsistent(b.heap, b.indexMap, first, second);
    b.(heap := b.heap[firstIdx := Some(second)][secondIdx := Some(first)],
       indexMap := b.indexMap[first := secondIdx][second := firstIdx])
  }

  /** Swapping the same two items again restores the heap. */
  lemma SwapInvolution<T>(b: BinaryHeap<T>, first: T, second: T)
    requires Valid(b) && first in b.indexMap && second in b.indexMap
    ensures Swap(Swap(b, first, second), first, second) == b
  {
    var r := Swap(Swap(b, first, second), first, second);
    assert r.heap == b.heap;
    assert r.indexMap == b.indexMap;
  }

  /** Exchanging two items' slots and map entries keeps the map the inverse of the array. */
  lemma SwapConsistent<T>(heap: seq<Option<T>>, indexMap: map<T, int>, first: T, second: T)
    requires Slotted(heap) && IndexConsistent(heap, indexMap)
    requires first in indexMap && second in indexMap
    ensures var i, j := indexMap[first], indexMap[second];
      && Slotted(heap[i := Some(second)][j := Some(first)])
      && IndexConsistent(heap[i := Some(second)][j := Some(first)], indexMap[first := j][second := i])
  {
    var i, j := indexMap[first], indexMap[second];
    var h := heap[i := Some(second)][j := Some(first)];
    var m := indexMap[first := j][second := i];
    forall k | 1 <= k < |h|
      ensures h[k].value in m && m[h[k].value] == k
    {
      if k != i && k != j {
        assert h[k] == heap[k];
      }
    }
  }

  /** The item in slot 2 * slot(n) + inc, if that slot is live; an item not in the map reads slot 0. */
  function Child<T(==)>(b: BinaryHeap<T>, n: T, inc: int): (r: Option<T>)
    requires Valid(b)
    ensures r.Some? ==> IsLive(b, r.value)
    ensures r.Some? ==> b.indexMap[r.value] == 2 * Lookup(b.indexMap, n) + inc
    ensures 0 < 2 * Lookup(b.indexMap, n) + inc <= b.size ==> r.Some?
  {
    var childIdx := 2 * Lookup(b.indexMap, n) + inc;
    if 0 < childIdx && childIdx <= b.size then b.heap[childIdx] else None
  }

  /** The left child of item n, or None when slot 2i is not live (i the slot of n). */
  function Left<T(==)>(b: BinaryHeap<T>, n: T): (r: Option<T>)
    requires Valid(b)
    ensures r.Some? ==> IsLive(b, r.value)
    ensures n in b.indexMap ==> (r.Some? <==> 2 * b.indexMap[n] <= b.size)
    ensures n in b.indexMap && r.Some? ==> b.indexMap[r.value] == 2 * b.indexMap[n]
    ensures n !in b.indexMap ==> r.None?
  {
    Child(b, n, 0)
  }

  /** The right child of item n, or None when slot 2i + 1 is not live (i the slot of n). */
  function Right<T(==)>(b: BinaryHeap<T>, n: T): (r: Option<T>)
    requires Valid(b)
    ensures r.Some? ==> IsLive(b, r.value)
    ensures n in b.indexMap ==> (r.Some? <==> 2 * b.indexMap[n] + 1 <= b.size)
    ensures n in b.indexMap && r.Some? ==> b.indexMap[r.value] == 2 * b.indexMap[n] + 1
  {
    Child(b, n, 1)
  }

  /** The item in slot i / 2 (i the slot of n); that is the nil sentinel for the root. */
  function Parent<T(==)>(b: BinaryHeap<T>, n: T): (r: Option<T>)
    requires Valid(b)
    ensures IsLive(b, n) ==> (r.None? <==> b.indexMap[n] == FirstIndex)
    ensures IsLive(b, n) && r.Some? ==> IsLive(b, r.value) && b.indexMap[r.value] == b.indexMap[n] / 2
    ensures n !in b.indexMap ==> r.None?
  {
    if n in b.indexMap then b.heap[b.indexMap[n] / 2] else None
  }

  /**
   The slot heapify moves the item of slot i to: the left child when it
   is live and may sit above the item, then the right child when it is
   live and may sit above whichever of the two won the first step; i
   itself when neither child may sit above the item.
   */
  function Choose<T(==)>(b: BinaryHeap<T>, i: int): (c: int)
    requires Valid(b) && 1 <= i <= b.length
    ensures c == i || (c == 2 * i && c <= b.size) || (c == 2 * i + 1 && c <= b.size)
    ensures c == i <==>
      && (2 * i <= b.size ==> !b.orderingHolds(At(b, 2 * i), At(b, i)))
      && (2 * i + 1 <= b.size ==> !b.orderingHolds(At(b, 2 * i + 1), At(b, i)))
    ensures c == 2 * i <==>
      && 2 * i <= b.size && b.orderingHolds(At(b, 2 * i), At(b, i))
      && !(2 * i + 1 <= b.size && b.orderingHolds(At(b, 2 * i + 1), At(b, 2 * i)))
    ensures c == 2 * i + 1 <==>
      && 2 * i + 1 <= b.size
      && (if b.orderingHolds(At(b, 2 * i), At(b, i))
          then b.orderingHolds(At(b, 2 * i + 1), At(b, 2 * i))
          else b.orderingHolds(At(b, 2 * i + 1), At(b, i)))
  {
    var item := b.heap[i].value;
    var left := Left(b, item);
    var first := if left.Some? && b.orderingHolds(left.value, item) then left.value else item;
    var firstIdx := if left.Some? && b.orderingHolds(left.value, item) then Lookup(b.indexMap, left.value) else i;
    var right := Right(b, item);
    if right.Some? && b.orderingHolds(right.value, first) then Lookup(b.indexMap, right.value) else firstIdx
  }

  /**
   Sift-down from slot i: when a child is chosen, the item trades places
   with it and the sift continues from the child's slot. Only live slots
   of the subtree at i change, and the live items stay the same.
   */
  function Heapify<T(==)>(b: BinaryHeap<T>, i: int): (r: BinaryHeap<T>)
    requires Valid(b) && 1 <= i <= b.length
    ensures Valid(r)
    ensures r.length == b.length && r.size == b.size && r.orderingHolds == b.orderingHolds
    ensures r.indexMap.Keys == b.indexMap.Keys
    ensures r.heap[i] == b.heap[Choose(b, i)]
    ensures Choose(b, i) == i ==> r == b
    ensures forall j :: 0 <= j < |b.heap| && !(j <= b.size && InSubtree(i, j)) ==> r.heap[j] == b.heap[j]
    ensures multiset(LiveItems(r)) == multiset(LiveItems(b))
    decreases b.size - i
  {
    var item := b.heap[i].value;
    var firstIdx := Choose(b, i);
    var first := b.heap[firstIdx].value;
    if first != item then
      var swapped := Swap(b, item, first);
      SwapKeepsLive(b, item, first);
      ChildSubtreeAll(i, firstIdx);
      Heapify(swapped, firstIdx)
    else
      b
  }

  /** Swapping two live items permutes the live items. */
  lemma SwapKeepsLive<T>(b: BinaryHeap<T>, first: T, second: T)
    requires Valid(b) && IsLive(b, first) && IsLive(b, second)
    ensures multiset(LiveItems(Swap(b, first, second))) == multiset(LiveItems(b))
  {
    var r := Swap(b, first, second);
    var f, g := b.indexMap[first] - 1, b.indexMap[second] - 1;
    var live := LiveItems(b);
    assert live[f] == first && live[g] == second;
    assert LiveItems(r) == live[f := live[g]][g := live[f]];
    ExchangePermutes(live, f, g);
  }

  /** Exchanging two elements of a sequence keeps its multiset. */
  lemma ExchangePermutes<T>(s: seq<T>, f: int, g: int)
    requires 0 <= f < |s| && 0 <= g < |s|
    ensures multiset(s[f := s[g]][g := s[f]]) == multiset(s)
  {
  }

  /** The bottom-up pass of build: sift down from slot i, then from every slot below it down to 1. */
  function BuildDown<T(==)>(b: BinaryHeap<T>, i: int): (r: BinaryHeap<T>)
    requires Valid(b) && 0 <= i <= b.length
    ensures Valid(r)
    ensures r.length == b.length && r.size == b.size && r.orderingHolds == b.orderingHolds
    ensures r.indexMap.Keys == b.indexMap.Keys
    ensures multiset(LiveItems(r)) == multiset(LiveItems(b))
    decreases i
  {
    if i > 0 then BuildDown(Heapify(b, i), i - 1) else b
  }

  /** All items become live, then sift down from the last parent slot, length / 2, to the root. */
  function Build<T(==)>(b: BinaryHeap<T>): (r: BinaryHeap<T>)
    requires Slotted(b.heap) && IndexConsistent(b.heap, b.indexMap)
    ensures Valid(r)
    ensures r.size == r.length == |b.heap| - 1
    ensures r.orderingHolds == b.orderingHolds && r.indexMap.Keys == b.indexMap.Keys
    ensures multiset(LiveItems(r)) == multiset(SlotValues(b.heap))
  {
    var full := b.(size := |b.heap| - 1, length := |b.heap| - 1);
    assert LiveItems(full) == SlotValues(b.heap);
    BuildDown(full, full.length / 2)
  }

  /** No item occurs twice in slots 1..|heap|-1. */
  ghost predicate SlotsDistinct<T>(heap: seq<Option<T>>)
    requires Slotted(heap)
  {
    Distinct(SlotValues(heap))
  }

  /**
   The index map after the construction loop has stored slots 1..n in
   turn: every item of those slots is a key, and a key maps to the last
   of those slots that holds it.
   */
  function PopulateIndex<T(==)>(heap: seq<Option<T>>, n: int): (m: map<T, int>)
    requires Slotted(heap) && 0 <= n < |heap|
    ensures forall k :: 1 <= k <= n ==> heap[k].value in m
    ensures forall x :: x in m ==> 1 <= m[x] <= n && heap[m[x]] == Some(x)
    ensures forall x, k :: x in m && m[x] < k <= n ==> heap[k] != Some(x)
    decreases n
  {
    if n == 0 then
      map[]
    else
      var m := PopulateIndex(heap, n - 1);
      PopulateStep(heap, n, m);
      m[heap[n].value := n]
  }

  /** Storing slot n keeps the index map of slots 1..n-1 a last-occurrence index, now of slots 1..n. */
  lemma PopulateStep<T>(heap: seq<Option<T>>, n: int, m: map<T, int>)
    requires Slotted(heap) && 1 <= n < |heap|
    requires forall k :: 1 <= k < n ==> heap[k].value in m
    requires forall x :: x in m ==> 1 <= m[x] < n && heap[m[x]] == Some(x)
    requires forall x, k :: x in m && m[x] < k < n ==> heap[k] != Some(x)
    ensures var m' := m[heap[n].value := n];
      && (forall k :: 1 <= k <= n ==> heap[k].value in m')
      && (forall x :: x in m' ==> 1 <= m'[x] <= n && heap[m'[x]] == Some(x))
      && (forall x, k :: x in m' && m'[x] < k <= n ==> heap[k] != Some(x))
  {
    var y := heap[n].value;
    var m' := m[y := n];
    forall x, k | x in m' && m'[x] < k <= n
      ensures heap[k] != Some(x)
    {
      if x != y {
        assert m'[x] == m[x];
      }
    }
  }

  /** The items as slots, in order. */
  function Wrap<T>(items: seq<T>): (s: seq<Option<T>>)
    ensures |s| == |items|
    ensures forall k :: 0 <= k < |items| ==> s[k] == Some(items[k])
  {
    seq(|items|, k requires 0 <= k < |items| => Some(items[k]))
  }

  /** No item occurs twice in the sequence. */
  ghost predicate Distinct<T>(items: seq<T>) {
    forall p, q :: 0 <= p < q < |items| ==> items[p] != items[q]
  }

  /**
   A heap of the given distinct items: the sentinel is put in front of
   them, the index map records each item's slot, and build orders them.
   */
  function NewBinaryHeap<T(==)>(items: seq<T>, fn: (T, T) -> bool): (b: BinaryHeap<T>)
    requires Distinct(items)
    ensures Valid(b)
    ensures b.size == b.length == |items| && b.heap[0] == None && b.orderingHolds == fn
    ensures multiset(LiveItems(b)) == multiset(items)
    ensures forall i :: 1 <= i <= b.size ==> b.indexMap[At(b, i)] == i
    ensures b.indexMap.Keys == set x | x in items
  {
    var heap := [None] + Wrap(items);
    SentinelInFront(items);
    var indexMap := PopulateIndex(heap, |items|);
    PopulateIndexConsistent(heap);
    Build(BinaryHeap(heap, indexMap, fn, 0, 0))
  }

  /** Putting the sentinel in front of distinct items gives distinct slots holding exactly those items. */
  lemma SentinelInFront<T>(items: seq<T>)
    requires Distinct(items)
    ensures Slotted([None] + Wrap(items))
    ensures SlotValues([None] + Wrap(items)) == items
    ensures SlotsDistinct([None] + Wrap(items))
    ensures PopulateIndex([None] + Wrap(items), |items|).Keys == set x | x in items
  {
    SentinelSlots(items);
    SentinelDistinct(items);
    PopulatedKeys(items);
  }

  /** The slots behind the sentinel are distinct when the items are. */
  lemma SentinelDistinct<T>(items: seq<T>)
    requires Distinct(items)
    ensures Slotted([None] + Wrap(items))
    ensures SlotsDistinct([None] + Wrap(items))
  {
    SentinelSlots(items);
  }

  /** Slot k behind the sentinel holds item k - 1, so the slot values are the items. */
  lemma SentinelSlots<T>(items: seq<T>)
    ensures Slotted([None] + Wrap(items))
    ensures forall k :: 1 <= k <= |items| ==> ([None] + Wrap(items))[k] == Some(items[k - 1])
    ensures SlotValues([None] + Wrap(items)) == items
  {
    var heap := [None] + Wrap(items);
    assert forall k :: 1 <= k < |heap| ==> heap[k] == Some(items[k - 1]);
    var values := SlotValues(heap);
    assert forall k :: 0 <= k < |items| ==> values[k] == items[k];
  }

  /** The map populated from the slots behind the sentinel has exactly the items as keys. */
  lemma PopulatedKeys<T>(items: seq<T>)
    ensures Slotted([None] + Wrap(items))
    ensures PopulateIndex([None] + Wrap(items), |items|).Keys == set x | x in items
  {
    SentinelSlots(items);
    var heap := [None] + Wrap(items);
    var m := PopulateIndex(heap, |items|);
    forall x | x in items
      ensures x in m
    {
      var k :| 0 <= k < |items| && items[k] == x;
      assert heap[k + 1] == Some(x);
    }
    forall x | x in m
      ensures x in items
    {
      assert heap[m[x]] == Some(items[m[x] - 1]);
    }
  }

  /** Two different slots of a heap with distinct slots hold different items. */
  lemma SlotsDistinctAt<T>(heap: seq<Option<T>>, p: int, q: int)
    requires Slotted(heap) && SlotsDistinct(heap) && 1 <= p < q < |heap|
    ensures heap[p] != heap[q]
  {
    assert SlotValues(heap)[p - 1] != SlotValues(heap)[q - 1];
  }

  /** With distinct slots every item's entry is the one slot that holds it. */
  lemma PopulateIndexInverse<T>(heap: seq<Option<T>>, i: int)
    requires Slotted(heap) && SlotsDistinct(heap) && 1 <= i < |heap|
    ensures PopulateIndex(heap, |heap| - 1)[heap[i].value] == i
  {
    var m := PopulateIndex(heap, |heap| - 1);
    var x := heap[i].value;
    assert x in m;
    var j := m[x];
    if i < j {
      SlotsDistinctAt(heap, i, j);
      assert false;
    }
  }

  /**
   The populated index map is the inverse of the array exactly when no
   item occurs twice; with a repeated item one of its slots is lost.
   */
  lemma PopulateIndexConsistent<T>(heap: seq<Option<T>>)
    requires Slotted(heap)
    ensures IndexConsistent(heap, PopulateIndex(heap, |heap| - 1)) <==> SlotsDistinct(heap)
  {
    if SlotsDistinct(heap) {
      DistinctSlotsIndexed(heap);
    } else {
      RepeatedSlotLost(heap);
    }
  }

  /** With distinct slots the populated map is the inverse of the array. */
  lemma DistinctSlotsIndexed<T>(heap: seq<Option<T>>)
    requires Slotted(heap) && SlotsDistinct(heap)
    ensures IndexConsistent(heap, PopulateIndex(heap, |heap| - 1))
  {
    forall i | 1 <= i < |heap|
      ensures PopulateIndex(heap, |heap| - 1)[heap[i].value] == i
    {
      PopulateIndexInverse(heap, i);
    }
  }

  /** With a repeated item the populated map loses one of its slots, so it is not the inverse. */
  lemma RepeatedSlotLost<T>(heap: seq<Option<T>>)
    requires Slotted(heap) && !SlotsDistinct(heap)
    ensures !IndexConsistent(heap, PopulateIndex(heap, |heap| - 1))
  {
    RepeatedSlot(heap);
    var m := PopulateIndex(heap, |heap| - 1);
    var p, q :| 1 <= p < q < |heap| && heap[p] == heap[q];
    assert m[heap[p].value] != q || m[heap[q].value] != p;
  }

  /** Slots that are not distinct have two different slots holding the same item. */
  lemma RepeatedSlot<T>(heap: seq<Option<T>>)
    requires Slotted(heap) && !SlotsDistinct(heap)
    ensures exists p, q :: 1 <= p < q < |heap| && heap[p] == heap[q]
  {
    var values := SlotValues(heap);
    var p, q :| 0 <= p < q < |values| && values[p] == values[q];
    assert heap[p + 1] == heap[q + 1];
  }

  /**
   The first half of extraction: the root trades places with the last
   live item and the live range shrinks by one slot, leaving the old root
   just outside it.
   */
  function DropRoot<T(==)>(b: BinaryHeap<T>): (r: BinaryHeap<T>)
    requires Valid(b) && b.size > 0
    ensures Valid(r)
    ensures r.length == b.length && r.size == b.size - 1 && r.orderingHolds == b.orderingHolds
    ensures r.indexMap.Keys == b.indexMap.Keys
    ensures r.heap[b.size] == b.heap[FirstIndex] && r.heap[FirstIndex] == b.heap[b.size]
    ensures forall k :: 0 <= k < |b.heap| && k != FirstIndex && k != b.size ==> r.heap[k] == b.heap[k]
    ensures multiset(LiveItems(r)) == multiset(LiveItems(b)) - multiset{At(b, FirstIndex)}
  {
    var first := b.heap[FirstIndex].value;
    var swapped := Swap(b, first, b.heap[b.size].value);
    DropRootLive(b, swapped);
    swapped.(size := b.size - 1)
  }

  /** Dropping the root leaves the old live items less one copy of the root. */
  lemma DropRootLive<T>(b: BinaryHeap<T>, swapped: BinaryHeap<T>)
    requires Valid(b) && b.size > 0
    requires swapped == Swap(b, At(b, FirstIndex), At(b, b.size))
    ensures multiset(LiveItems(swapped.(size := b.size - 1))) == multiset(LiveItems(b)) - multiset{At(b, FirstIndex)}
  {
    var first := At(b, FirstIndex);
    SwapKeepsLive(b, first, At(b, b.size));
    assert LiveItems(swapped) == LiveItems(swapped.(size := b.size - 1)) + [first];
  }

  /**
   Removes the root: it trades places with the last live item, the live
   range shrinks by one slot, and the new root is sifted down. The
   extracted item stays in slot old-size, outside the live range.
   */
  function ExtractFirst<T(==)>(b: BinaryHeap<T>): (res: (Option<T>, BinaryHeap<T>))
    requires Valid(b)
    ensures Valid(res.1)
    ensures res.1.length == b.length && res.1.orderingHolds == b.orderingHolds
    ensures res.1.indexMap.Keys == b.indexMap.Keys
    ensures b.size == 0 ==> res == (None, b)
    ensures b.size > 0 ==> res.0 == b.heap[FirstIndex] && res.1.size == b.size - 1
    ensures b.size > 0 ==> res.1.heap[b.size] == b.heap[FirstIndex] && !IsLive(res.1, At(b, FirstIndex))
    ensures b.size > 0 ==> multiset(LiveItems(res.1)) == multiset(LiveItems(b)) - multiset{At(b, FirstIndex)}
  {
    if b.size == 0 then
      (None, b)
    else
      (b.heap[FirstIndex], Heapify(DropRoot(b), FirstIndex))
  }

  /** The live items, slots 1..size, in array order (not sorted order). */
  method Items<T(==)>(b: BinaryHeap<T>) returns (items: seq<T>)
    requires Valid(b)
    ensures |items| == b.size
    ensures forall k :: 0 <= k < b.size ==> b.heap[k + 1] == Some(items[k])
    ensures forall x :: x in items <==> IsLive(b, x)
    ensures items == LiveItems(b)
  {
    items := [];
    var i := 1;
    while i <= b.size
      invariant 1 <= i <= b.size + 1
      invariant |items| == i - 1
      invariant forall k :: 0 <= k < i - 1 ==> b.heap[k + 1] == Some(items[k])
    {
      items := items + [b.heap[i].value];
      i := i + 1;
    }
    forall x | IsLive(b, x)
      ensures x in items
    {
      assert items[b.indexMap[x] - 1] == x;
    }
  }
}
