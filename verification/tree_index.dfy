/**
 Index arithmetic of a 1-based array heap: the children of slot i are
 slots 2i and 2i + 1, and the parent of slot j is slot j / 2.
 */
module TreeIndex {

  /** Slot j lies in the subtree rooted at slot i: j is i, or halving j reaches i. */
  predicate InSubtree(i: int, j: int)
    decreases j
  {
    j == i || (1 <= i < j && InSubtree(i, j / 2))
  }

  /** Every slot of the array lies under the root, slot 1. */
  lemma {:induction false} RootCoversAll(j: int)
    requires 1 <= j
    ensures InSubtree(1, j)
    decreases j
  {
    if j > 1 {
      RootCoversAll(j / 2);
    }
  }

  /** The subtree of a child is part of the subtree of its parent. */
  lemma {:induction false} ChildSubtree(i: int, c: int, j: int)
    requires 1 <= i && (c == 2 * i || c == 2 * i + 1)
    requires InSubtree(c, j)
    ensures InSubtree(i, j)
    decreases j
  {
    if j != c {
      ChildSubtree(i, c, j / 2);
    }
  }

  /** ChildSubtree for every slot of the child's subtree at once. */
  lemma ChildSubtreeAll(i: int, c: int)
    requires 1 <= i && (c == 2 * i || c == 2 * i + 1)
    ensures forall j :: InSubtree(c, j) ==> InSubtree(i, j)
  {
    forall j | InSubtree(c, j) {
      ChildSubtree(i, c, j);
    }
  }

  /** A slot strictly below i lies under one of i's two children. */
  lemma {:induction false} SplitSubtree(i: int, j: int)
    requires 1 <= i && InSubtree(i, j) && j != i
    ensures InSubtree(2 * i, j) || InSubtree(2 * i + 1, j)
    decreases j
  {
    if j / 2 != i {
      SplitSubtree(i, j / 2);
    }
  }

  /** A slot strictly below i that is not under one child is under the other. */
  lemma OtherSubtree(i: int, c: int, o: int, j: int)
    requires 1 <= i
    requires (c == 2 * i && o == 2 * i + 1) || (c == 2 * i + 1 && o == 2 * i)
    requires InSubtree(i, j) && j != i && !InSubtree(c, j)
    ensures InSubtree(o, j)
  {
    SplitSubtree(i, j);
  }

  /** The subtrees of two siblings do not overlap. */
  lemma {:induction false} SiblingsDisjoint(i: int, c: int, o: int, j: int)
    requires 1 <= i
    requires (c == 2 * i && o == 2 * i + 1) || (c == 2 * i + 1 && o == 2 * i)
    requires InSubtree(o, j)
    ensures !InSubtree(c, j)
    decreases j
  {
    if j != o {
      SiblingsDisjoint(i, c, o, j / 2);
    }
  }
}
