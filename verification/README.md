# binheap in Dafny

A model of the array-backed binary heap of `heap.go`. The heap keeps its
items in a 1-based slice, with slot 0 holding a nil sentinel, so that the
children of slot `i` are `2i` and `2i + 1` and its parent is `i / 2`. It
also keeps a reverse index, `IndexMap`, from each item to the slot that
holds it, which is how `Left`, `Right` and `Parent` navigate by item. The
caller supplies the ordering `OrderingHolds(a, b)`, read "a may sit above
b": `<=` gives a min-heap and `>=` a max-heap.

The model is functional. `BinaryHeap` is an immutable datatype with the same
five fields as the Go struct. Each mutating Go method becomes a function that
returns the new state: `swap`, `heapify`, `build` and `ExtractFirst`.
`ExtractFirst` returns the extracted item together with the new state.
`None` stands for the nil sentinel in slot 0 and for the nil that `Left`,
`Right`, `Parent` and `ExtractFirst` return when there is no item; the items
themselves are never nil. Items are compared with Go's interface equality,
which is identity for pointer items such as the tests' `*numeric`, and the
ordering is applied to the items themselves.

Modules:

- `Ordering` (ordering.dfy): what a total preorder is, sortedness, and the
  uniqueness of a sorted order.
- `TreeIndex` (tree_index.dfy): slot arithmetic of the implicit tree, in
  particular `InSubtree(i, j)`.
- `BinHeap` (heap.dfy): the state, its representation invariant `Valid` and
  every operation of `heap.go`. `Valid` means slot 0 is the sentinel, the
  live range `1..Size` lies inside `1..Length`, and the index map is the
  exact inverse of the array.
- `HeapOrder` (heap_order.dfy): heap order, and the proofs that sift-down
  restores it in a subtree, that build establishes it and that extraction
  keeps it, all under a total preorder.
- `Navigation` (navigation.dfy): `Left`/`Right` against `Parent`, complete
  shape, and heap order in the form the tests check it.
- `Extraction` (extraction.dfy): repeated extraction, and the two extraction
  orders the tests expect.

Three behaviours of the code are easy to get wrong. The model follows the
code in each:

- `ExtractFirst` does not delete the extracted item's map entry. The entry
  still points at slot old-`Size`, which still holds that item, so the map
  stays the inverse of the whole array.
- Building from no items is not an error. It gives an empty heap, and
  `ExtractFirst` on it returns nil.
- The tie-break in `heapify` works like this: the left child is compared
  with the item, and then the right child is compared with whichever of the
  two won. The right child therefore wins whenever it may sit above the
  left child the first step picked.

## Model

| member | source | states |
|---|---|---|
| BinHeap.Swap | heap.go:101-109 | the slots of the two items trade contents and their two map entries trade values; every other slot and every other entry is unchanged, the key set is unchanged and the index map remains the inverse of the array |
| BinHeap.SwapInvolution | heap.go:101-109 | swapping the same two items a second time gives back the original state |
| BinHeap.SwapKeepsLive | heap.go:101-109 | swapping two live items leaves the multiset of live items unchanged |
| BinHeap.Child | heap.go:93-99 | the result is the item in slot 2·slot(n)+inc exactly when that slot lies in 1..Size, and nil otherwise |
| BinHeap.Left | heap.go:44-46 | for an item in the map, there is a left child exactly when 2i ≤ Size, and it is live at slot 2i; an item not in the map has none |
| BinHeap.Right | heap.go:50-52 | for an item in the map, there is a right child exactly when 2i+1 ≤ Size, and it is live at slot 2i+1 |
| BinHeap.Parent | heap.go:54-61 | for a live item, the result is nil exactly at the root; otherwise it is the live item at slot i/2; an item not in the map has no parent |
| BinHeap.Choose | heap.go:112-130 | the slot heapify picks is i, 2i or 2i+1, one of them live; it is 2i exactly when the left child may sit above the item and the right child may not sit above the left; it is 2i+1 exactly when the right child may sit above the winner of the left step; it is i exactly when neither child may sit above the item |
| HeapOrder.ChooseIsBest | heap.go:112-130 | under a total preorder, the chosen item may sit above the item of slot i and above both live children |
| BinHeap.Heapify | heap.go:111-136 | sift-down terminates (measure Size − i), keeps the invariant, Size, Length, the ordering and the key set, and the multiset of live items; it changes only live slots of the subtree at i; it puts the chosen item at slot i, and it is the identity when slot i itself is chosen; when a child is chosen it is the swap of i with that child followed by heapify at the child |
| HeapOrder.SiftStep | heap.go:131-135 | proof step for HeapifyRestores, not a further property: when a child is chosen, the swapped state is valid, exchanges the item of slot i with that child and leaves every other slot alone, and heapify at i equals heapify of that state at the child |
| HeapOrder.HeapifyRestores | heap.go:111-136 | if both subtrees below slot i are in heap order and the ordering is a total preorder, then after heapify the whole subtree at i is in heap order |
| BinHeap.BuildDown | heap.go:88-90 | the downward pass of heapify calls keeps the invariant, the sizes, the key set and the multiset of live items |
| BinHeap.Build | heap.go:85-91 | after build, Size = Length = len(Heap) − 1 and the live items are a permutation of the array's items |
| HeapOrder.BuildOrders | heap.go:85-91 | under a total preorder, build leaves every live slot in heap order, whatever the starting arrangement |
| BinHeap.PopulateIndex | heap.go:34-37 | after the loop has stored slots 1..n, every item of those slots is a key, and each key maps to the last of those slots that holds it |
| BinHeap.PopulateIndexConsistent | heap.go:34-37 | the populated map is the exact inverse of the array if and only if no item occurs twice |
| BinHeap.NewBinaryHeap | heap.go:26-40 | for distinct items the heap is valid, Size = Length = len(items), slot 0 is the sentinel, the ordering is the one given, the live items are a permutation of the input, IndexMap[Heap[i]] = i for every live slot, and the keys are exactly the input items |
| HeapOrder.NewBinaryHeapOrdered | heap.go:26-40 | under a total preorder, a newly built heap is in heap order |
| BinHeap.DropRoot | heap.go:68-70 | swapping the root with slot Size and shrinking Size by one puts the old root at slot old-Size and the last item in slot 1; all other slots stay; the live multiset loses exactly one copy of the root |
| BinHeap.ExtractFirst | heap.go:64-73 | on an empty heap, the result is nil and the state is unchanged; otherwise the result is the old root, Size drops by one, the old root sits at slot old-Size outside the live range, the live multiset loses exactly the root, and the invariant, Length, ordering and key set are kept |
| HeapOrder.ExtractFirstKeepsOrder | heap.go:64-73 | extraction from a heap in heap order leaves it in heap order, under a total preorder |
| BinHeap.Items | heap.go:76-82 | the result has Size elements, element k is the item of slot k+1, the result is the live items in array order, and an item occurs in it exactly when it is live |
| Navigation.ChildParentInverse | heap.go:44-61 | the parent of an item's left or right child is that item |
| Navigation.ParentChildInverse | heap.go:44-61 | every live item other than the root has a parent, and it is that parent's left or right child |
| Navigation.CompleteTree | heap_test.go:102-132 | no live item has a right child without a left one, and once a live item lacks a child, every live item after it in slot order is a leaf |
| Navigation.HeapPropertyHolds | heap_test.go:134-144 | heap order over slots holds if and only if every live non-root item has a parent that may sit above it |
| HeapOrder.RootPreferred | heap_test.go:86-90 | in a heap-ordered heap under a total preorder, the root may sit above every live item |
| Extraction.Drain | heap_test.go:86-91 | calling ExtractFirst until the heap is empty yields exactly Size items |
| Extraction.DrainSorted | heap_test.go:86-91 | from a heap in heap order under a total preorder, repeated extraction yields the live items, each once, sorted by the ordering |
| Extraction.DrainIsSortedPermutation | heap_test.go:82-91 | repeated extraction from a newly built heap yields its distinct input items, sorted by the ordering |
| Extraction.ExtractMinOrder | heap_test.go:74-92 | built from 6, 3, 5, 4, 7 with `<=`, the heap yields 3, 4, 5, 6, 7 |
| Extraction.ExtractMaxOrder | heap_test.go:54-72 | built from 4, 6, 3, 7, 5 with `>=`, the heap yields 7, 6, 5, 4, 3 |
| Extraction.ExtractFromEmpty | heap.go:64-67 | extracting from the heap built from no items returns nil and leaves it unchanged, and repeated extraction yields nothing |

## Left out

- Go's `Item` interface and its `Value()` method are not modelled. The
  ordering is a relation on the items themselves. The tests' integers stand
  for both the identity and the value of an item.
- Map keys are compared with Go's interface equality: same dynamic type and
  same value, which is identity for pointer items. The model uses an
  arbitrary type with equality. Two value-typed items with equal values are
  therefore one key, and take the duplicate path of heap.go:34-37.
- An item whose dynamic type is not comparable makes the map store
  `b.IndexMap[item] = i` (heap.go:36) panic at run time. The model's item
  type always has equality, so that panic is not modelled.
- Input items are non-nil. In Go a nil entry of the input slice would be
  stored in a slot and get a map entry (heap.go:30, 36); the `left != nil`
  and `right != nil` tests of `heapify` (heap.go:116, 124) would then treat
  it as a missing child, and a nil root returned by `ExtractFirst` could
  not be told apart from the nil of an empty heap (heap.go:65-66, 72). The
  model's item type has no nil, so none of this is modelled.
- Duplicate items are excluded by the precondition of `NewBinaryHeap`. The
  Go loop at heap.go:34-37 silently overwrites the map entry for a repeated
  item. `PopulateIndex` models that loop as written, and
  `PopulateIndexConsistent` shows the map is consistent exactly when the
  items are distinct.
- Navigation on an item that is not in the map, or that has been extracted,
  is modelled as written but not specified. The contracts speak about live
  items. An unknown item reads index 0, so its right child is the root.
- The ordering is a Dafny function, so it is never nil, always returns
  and has no side effects. In Go, `NewBinaryHeap(items, nil)` panics at
  heap.go:118 once there are two or more items, because build's first
  `heapify`, at slot Length/2, finds a left child there and calls
  `b.OrderingHolds(left, item)`; with zero or one item it
  returns a heap whose ordering is nil. A comparator that panics would
  abort `heapify` part way, leaving the swaps already made in place
  (heap.go:118, 126, 132). None of this is modelled.
- The order lemmas assume the ordering is a total preorder (total and
  transitive), as `<=` and `>=` are. The heap algorithms themselves accept
  any relation.
- The test helpers `hasCompleteTree` and `heapPropertyHolds` are not
  modelled as algorithms. Their breadth-first walk and loop are stated as
  the properties `Navigation.CompleteTree` and
  `Navigation.HeapPropertyHolds`. The `IsRoot` method they call does not
  exist in heap.go. It is read as "the item is at slot 1".
- There is no concurrency or I/O. The linear running time of build and the
  logarithmic time of extraction are not modelled.
- Idempotence of the navigation queries is immediate, because they are pure
  functions of the state.
