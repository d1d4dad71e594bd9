/** Rotations over the node arena: how the link changes of rb.cpp's four
    rotation routines act on the tree the arena denotes and on the arena's
    invariants. */
module RBRotate {
  import opened RedBlackTree
  import opened RBArena

  /** `RBNode` records with the same key, colour and child links (the
      parent link aside): what `Abs` reads of a node. */
  predicate SameShape(n1: RBNode, n2: RBNode)
  {
    n1.data == n2.data && n1.isRed == n2.isRed &&
    n1.leftChild == n2.leftChild && n1.rightChild == n2.rightChild
  }

  /** The subtree at `p` reads as the same `Tree` in two arenas when every
      node outside `changed` keeps its key set, and its shape too when it
      lies within `p`'s subtree, and every node in `changed` holds a key
      outside `p`'s subtree: `w1` in the first arena, `w2` in the second. */
  lemma SubtreeUnmoved(ns1: seq<RBNode>, ks1: seq<set<int>>, ns2: seq<RBNode>, ks2: seq<set<int>>,
                       p: int, changed: set<int>, w1: int, w2: int)
    requires |ks1| == |ns1| == |ns2| == |ks2| && IsRef(ns1, p) && OrderedBelow(ns1, ks1, p)
    requires forall j :: 0 <= j < |ns1| && j !in changed ==> ks1[j] == ks2[j]
    requires forall j :: 0 <= j < |ns1| && j !in changed && ks1[j] <= Sub(ns1, ks1, p) ==> SameShape(ns1[j], ns2[j])
    requires forall j :: j in changed ==> 0 <= j < |ns1| && w1 in ks1[j] && w2 in ks2[j]
    requires w1 !in Sub(ns1, ks1, p) && w2 !in Sub(ns1, ks1, p)
    ensures OrderedBelow(ns2, ks2, p) && Abs(ns2, ks2, p) == Abs(ns1, ks1, p)
  {
    AbsFrame(ns1, ks1, ns2, ks2, p);
  }

  /** Node `j` keeps its key bookkeeping when it keeps its shape, only the
      nodes in `changed` change key set, and none of those is a child of `j`. */
  lemma OthersStayOrdered(ns0: seq<RBNode>, ks0: seq<set<int>>, root: int, ns1: seq<RBNode>, ks1: seq<set<int>>,
                          changed: set<int>, j: int)
    requires Structure(ns0, ks0, root) && |ns1| == |ns0| == |ks1| && 0 <= j < |ns0|
    requires forall i :: 0 <= i < |ns0| && i !in changed ==> ks1[i] == ks0[i]
    requires j !in changed && SameShape(ns1[j], ns0[j])
    requires forall i :: i in changed ==> 0 <= i < |ns0| && ns0[i].parentNd != j
    ensures Ordered(ns1, ks1, j)
  {
    assert Linked(ns0, root, j) && Ordered(ns0, ks0, j);
  }

  /** The records after rb.cpp:448-467 rotates left about `x`: `x`'s right
      child `y` takes over `x`'s parent link, `x` becomes `y`'s left child
      and adopts `y`'s old left subtree `b`, and `b` names `x` as its parent.
      No other record changes. The key sets of `x` and `y` are recomputed. */
  ghost predicate LeftRotationFields(ns0: seq<RBNode>, ks0: seq<set<int>>, x: int, ns1: seq<RBNode>, ks1: seq<set<int>>)
    requires |ns0| == |ks0| && LinksInRange(ns0) && 0 <= x < |ns0| && ns0[x].rightChild != Nil
  {
    var y := ns0[x].rightChild;
    var b := ns0[y].leftChild;
    && |ns1| == |ns0|
    && ns1[y] == ns0[y].(leftChild := x, parentNd := ns0[x].parentNd)
    && ns1[x] == ns0[x].(rightChild := b, parentNd := y)
    && (b != Nil ==> ns1[b] == ns0[b].(parentNd := x))
    && (forall j :: 0 <= j < |ns0| && j != x && j != y && j != b ==> ns1[j] == ns0[j])
    && ks1 == ks0[x := Sub(ns0, ks0, ns0[x].leftChild) + {ns0[x].data} + Sub(ns0, ks0, b)][y := ks0[x]]
  }

  /** The records after a left rotation about `x` read as its shape change. */
  lemma LeftRotationFieldsShape(ns0: seq<RBNode>, ks0: seq<set<int>>, root: int, x: int, ns1: seq<RBNode>, ks1: seq<set<int>>)
    requires Structure(ns0, ks0, root) && 0 <= x < |ns0| && ns0[x].rightChild != Nil
    requires LeftRotationFields(ns0, ks0, x, ns1, ks1)
    ensures RotatedLeft(ns0, ks0, x, ns1, ks1)
  {
    NodeFacts(ns0, ks0, root, x);
    NodeFacts(ns0, ks0, root, ns0[x].rightChild);
  }

  /** rb.cpp:448-467 as one expression: the records after each of the
      rotation's five link updates in turn, `y` being `x`'s right child. */
  ghost function LeftRotationSteps(ns: seq<RBNode>, x: int, y: int): seq<RBNode>
    requires 0 <= x < |ns| && 0 <= y < |ns| && IsRef(ns, ns[y].leftChild)
  {
    var n1 := ns[y := ns[y].(parentNd := ns[x].parentNd)];
    var n2 := n1[x := n1[x].(rightChild := n1[y].leftChild)];
    var n3 := if n2[y].leftChild != Nil then n2[n2[y].leftChild := n2[n2[y].leftChild].(parentNd := x)] else n2;
    var n4 := n3[y := n3[y].(leftChild := x)];
    n4[x := n4[x].(parentNd := y)]
  }

  /** The five link updates of rb.cpp:448-467 make the records of a left
      rotation. */
  lemma LeftRotationStepsFields(ns0: seq<RBNode>, ks0: seq<set<int>>, root: int, x: int, ks1: seq<set<int>>)
    requires Structure(ns0, ks0, root) && 0 <= x < |ns0| && ns0[x].rightChild != Nil
    requires ks1 == ks0[x := Sub(ns0, ks0, ns0[x].leftChild) + {ns0[x].data}
                             + Sub(ns0, ks0, ns0[ns0[x].rightChild].leftChild)]
                       [ns0[x].rightChild := ks0[x]]
    ensures LeftRotationFields(ns0, ks0, x, LeftRotationSteps(ns0, x, ns0[x].rightChild), ks1)
  {
    NodeFacts(ns0, ks0, root, x);
    NodeFacts(ns0, ks0, root, ns0[x].rightChild);
  }

  /** The link changes of a left rotation about `x`, from arena `ns0` to
      `ns1`, as far as `Abs` reads them; nodes outside `x`'s subtree may
      change shape but keep their key sets. */
  ghost predicate RotatedLeft(ns0: seq<RBNode>, ks0: seq<set<int>>, x: int, ns1: seq<RBNode>, ks1: seq<set<int>>)
    requires |ns0| == |ks0| && LinksInRange(ns0) && 0 <= x < |ns0| && ns0[x].rightChild != Nil
  {
    var y := ns0[x].rightChild;
    && |ns1| == |ns0| == |ks1|
    && SameShape(ns1[y], ns0[y].(leftChild := x))
    && SameShape(ns1[x], ns0[x].(rightChild := ns0[y].leftChild))
    && ks1[y] == ks0[x]
    && ks1[x] == Sub(ns0, ks0, ns0[x].leftChild) + {ns0[x].data} + Sub(ns0, ks0, ns0[y].leftChild)
    && (forall j :: 0 <= j < |ns0| && j != x && j != y ==> ks1[j] == ks0[j])
    && (forall j :: 0 <= j < |ns0| && j != x && j != y && ks0[j] <= ks0[x] ==> SameShape(ns1[j], ns0[j]))
  }

  /** After a left rotation about `x`, every node whose key set lies within
      the rotated subtree's keeps the key-set bookkeeping. */
  lemma RotateLeftOrdered(ns0: seq<RBNode>, ks0: seq<set<int>>, root: int, x: int, ns1: seq<RBNode>, ks1: seq<set<int>>)
    requires Structure(ns0, ks0, root) && 0 <= x < |ns0| && ns0[x].rightChild != Nil
    requires RotatedLeft(ns0, ks0, x, ns1, ks1)
    ensures OrderedBelow(ns1, ks1, ns0[x].rightChild)
  {
    var y := ns0[x].rightChild;
    NodeFacts(ns0, ks0, root, x);
    NodeFacts(ns0, ks0, root, y);
    assert Ordered(ns0, ks0, x) && Ordered(ns0, ks0, y);
    forall j | 0 <= j < |ns1| && j != x && j != y && ks1[j] <= ks1[y]
      ensures Ordered(ns1, ks1, j)
    {
      RotatedLeftOthersOrdered(ns0, ks0, root, x, ns1, ks1, j);
    }
    RotatedLeftPairOrdered(ns0, ks0, root, x, ns1, ks1);
  }

  /** The two rotated nodes keep the bookkeeping. */
  lemma RotatedLeftPairOrdered(ns0: seq<RBNode>, ks0: seq<set<int>>, root: int, x: int, ns1: seq<RBNode>, ks1: seq<set<int>>)
    requires Structure(ns0, ks0, root) && 0 <= x < |ns0| && ns0[x].rightChild != Nil
    requires RotatedLeft(ns0, ks0, x, ns1, ks1)
    ensures Ordered(ns1, ks1, x) && Ordered(ns1, ks1, ns0[x].rightChild)
  {
    var y := ns0[x].rightChild;
    NodeFacts(ns0, ks0, root, x);
    NodeFacts(ns0, ks0, root, y);
    assert Ordered(ns0, ks0, x) && Ordered(ns0, ks0, y);
    assert Ordered(ns1, ks1, x);
  }

  /** A node below the rotated pair keeps its bookkeeping. */
  lemma RotatedLeftOthersOrdered(ns0: seq<RBNode>, ks0: seq<set<int>>, root: int, x: int,
                                 ns1: seq<RBNode>, ks1: seq<set<int>>, j: int)
    requires Structure(ns0, ks0, root) && 0 <= x < |ns0| && ns0[x].rightChild != Nil
    requires RotatedLeft(ns0, ks0, x, ns1, ks1)
    requires 0 <= j < |ns1| && j != x && j != ns0[x].rightChild && ks1[j] <= ks1[ns0[x].rightChild]
    ensures Ordered(ns1, ks1, j)
  {
    var y := ns0[x].rightChild;
    NodeFacts(ns0, ks0, root, x);
    NodeFacts(ns0, ks0, root, y);
    assert Linked(ns0, root, x);
    if ns0[x].parentNd != Nil {
      ParentKeys(ns0, ks0, root, x);
    }
    OthersStayOrdered(ns0, ks0, root, ns1, ks1, {x, y}, j);
  }

  /** The arena after the link changes of a left rotation about `x` reads as
      the left rotation of the tree at `x`. */
  lemma RotateLeftAbs(ns0: seq<RBNode>, ks0: seq<set<int>>, root: int, x: int, ns1: seq<RBNode>, ks1: seq<set<int>>)
    requires Structure(ns0, ks0, root) && 0 <= x < |ns0| && ns0[x].rightChild != Nil
    requires RotatedLeft(ns0, ks0, x, ns1, ks1)
    ensures OrderedBelow(ns1, ks1, ns0[x].rightChild)
    ensures Abs(ns1, ks1, ns0[x].rightChild) == RedBlackTree.RotateLeft(Abs(ns0, ks0, x))
  {
    var y := ns0[x].rightChild;
    NodeFacts(ns0, ks0, root, x);
    NodeFacts(ns0, ks0, root, y);
    var a, b, c := ns0[x].leftChild, ns0[y].leftChild, ns0[y].rightChild;
    var kx, ky := ns0[x].data, ns0[y].data;
    assert Ordered(ns0, ks0, x) && Ordered(ns0, ks0, y);
    assert ky in ks0[x] && ky in ks0[y] && kx in ks1[x] && kx in ks1[y];
    RotateLeftOrdered(ns0, ks0, root, x, ns1, ks1);
    RotatedLeftSubtree(ns0, ks0, root, x, ns1, ks1, a);
    RotatedLeftSubtree(ns0, ks0, root, x, ns1, ks1, b);
    RotatedLeftSubtree(ns0, ks0, root, x, ns1, ks1, c);
    assert OrderedBelow(ns1, ks1, x);
  }

  /** A subtree below the two rotated nodes reads the same after a left
      rotation. */
  lemma RotatedLeftSubtree(ns0: seq<RBNode>, ks0: seq<set<int>>, root: int, x: int, ns1: seq<RBNode>, ks1: seq<set<int>>, p: int)
    requires Structure(ns0, ks0, root) && 0 <= x < |ns0| && ns0[x].rightChild != Nil
    requires RotatedLeft(ns0, ks0, x, ns1, ks1) && IsRef(ns0, p)
    requires Sub(ns0, ks0, p) <= ks0[x]
    requires ns0[x].data !in Sub(ns0, ks0, p) && ns0[ns0[x].rightChild].data !in Sub(ns0, ks0, p)
    ensures OrderedBelow(ns1, ks1, p) && Abs(ns1, ks1, p) == Abs(ns0, ks0, p)
  {
    var y := ns0[x].rightChild;
    NodeFacts(ns0, ks0, root, x);
    NodeFacts(ns0, ks0, root, y);
    assert Ordered(ns0, ks0, x) && Ordered(ns0, ks0, y);
    StructureOrderedBelow(ns0, ks0, root, p);
    SubtreeUnmoved(ns0, ks0, ns1, ks1, p, {x, y}, ns0[y].data, ns0[x].data);
  }

  /** The records after rb.cpp:470-489 rotates right about `x`: `x`'s left
      child `y` takes over `x`'s parent link, `x` becomes `y`'s right child
      and adopts `y`'s old right subtree `b` on its left, and `b` names `x` as
      its parent.
      No other record changes. The key sets of `x` and `y` are recomputed. */
  ghost predicate RightRotationFields(ns0: seq<RBNode>, ks0: seq<set<int>>, x: int, ns1: seq<RBNode>, ks1: seq<set<int>>)
    requires |ns0| == |ks0| && LinksInRange(ns0) && 0 <= x < |ns0| && ns0[x].leftChild != Nil
  {
    var y := ns0[x].leftChild;
    var b := ns0[y].rightChild;
    && |ns1| == |ns0|
    && ns1[y] == ns0[y].(rightChild := x, parentNd := ns0[x].parentNd)
    && ns1[x] == ns0[x].(leftChild := b, parentNd := y)
    && (b != Nil ==> ns1[b] == ns0[b].(parentNd := x))
    && (forall j :: 0 <= j < |ns0| && j != x && j != y && j != b ==> ns1[j] == ns0[j])
    && ks1 == ks0[x := Sub(ns0, ks0, ns0[x].rightChild) + {ns0[x].data} + Sub(ns0, ks0, b)][y := ks0[x]]
  }

  /** The records after a right rotation about `x` read as its shape change. */
  lemma RightRotationFieldsShape(ns0: seq<RBNode>, ks0: seq<set<int>>, root: int, x: int, ns1: seq<RBNode>, ks1: seq<set<int>>)
    requires Structure(ns0, ks0, root) && 0 <= x < |ns0| && ns0[x].leftChild != Nil
    requires RightRotationFields(ns0, ks0, x, ns1, ks1)
    ensures RotatedRight(ns0, ks0, x, ns1, ks1)
  {
    NodeFacts(ns0, ks0, root, x);
    NodeFacts(ns0, ks0, root, ns0[x].leftChild);
  }

  /** rb.cpp:470-489 as one expression: the records after each of the
      rotation's five link updates in turn, `y` being `x`'s left child. */
  ghost function RightRotationSteps(ns: seq<RBNode>, x: int, y: int): seq<RBNode>
    requires 0 <= x < |ns| && 0 <= y < |ns| && IsRef(ns, ns[y].rightChild)
  {
    var n1 := ns[y := ns[y].(parentNd := ns[x].parentNd)];
    var n2 := n1[x := n1[x].(leftChild := n1[y].rightChild)];
    var n3 := if n2[y].rightChild != Nil then n2[n2[y].rightChild := n2[n2[y].rightChild].(parentNd := x)] else n2;
    var n4 := n3[y := n3[y].(rightChild := x)];
    n4[x := n4[x].(parentNd := y)]
  }

  /** The five link updates of rb.cpp:470-489 make the records of a right
      rotation. */
  lemma RightRotationStepsFields(ns0: seq<RBNode>, ks0: seq<set<int>>, root: int, x: int, ks1: seq<set<int>>)
    requires Structure(ns0, ks0, root) && 0 <= x < |ns0| && ns0[x].leftChild != Nil
    requires ks1 == ks0[x := Sub(ns0, ks0, ns0[x].rightChild) + {ns0[x].data}
                             + Sub(ns0, ks0, ns0[ns0[x].leftChild].rightChild)]
                       [ns0[x].leftChild := ks0[x]]
    ensures RightRotationFields(ns0, ks0, x, RightRotationSteps(ns0, x, ns0[x].leftChild), ks1)
  {
    NodeFacts(ns0, ks0, root, x);
    NodeFacts(ns0, ks0, root, ns0[x].leftChild);
  }

  /** The link changes of a right rotation about `x`, from arena `ns0` to
      `ns1`, as far as `Abs` reads them; nodes outside `x`'s subtree may
      change shape but keep their key sets. */
  ghost predicate RotatedRight(ns0: seq<RBNode>, ks0: seq<set<int>>, x: int, ns1: seq<RBNode>, ks1: seq<set<int>>)
    requires |ns0| == |ks0| && LinksInRange(ns0) && 0 <= x < |ns0| && ns0[x].leftChild != Nil
  {
    var y := ns0[x].leftChild;
    && |ns1| == |ns0| == |ks1|
    && SameShape(ns1[y], ns0[y].(rightChild := x))
    && SameShape(ns1[x], ns0[x].(leftChild := ns0[y].rightChild))
    && ks1[y] == ks0[x]
    && ks1[x] == Sub(ns0, ks0, ns0[x].rightChild) + {ns0[x].data} + Sub(ns0, ks0, ns0[y].rightChild)
    && (forall j :: 0 <= j < |ns0| && j != x && j != y ==> ks1[j] == ks0[j])
    && (forall j :: 0 <= j < |ns0| && j != x && j != y && ks0[j] <= ks0[x] ==> SameShape(ns1[j], ns0[j]))
  }

  /** After a right rotation about `x`, every node whose key set lies within
      the rotated subtree's keeps the key-set bookkeeping. */
  lemma RotateRightOrdered(ns0: seq<RBNode>, ks0: seq<set<int>>, root: int, x: int, ns1: seq<RBNode>, ks1: seq<set<int>>)
    requires Structure(ns0, ks0, root) && 0 <= x < |ns0| && ns0[x].leftChild != Nil
    requires RotatedRight(ns0, ks0, x, ns1, ks1)
    ensures OrderedBelow(ns1, ks1, ns0[x].leftChild)
  {
    var y := ns0[x].leftChild;
    NodeFacts(ns0, ks0, root, x);
    NodeFacts(ns0, ks0, root, y);
    assert Ordered(ns0, ks0, x) && Ordered(ns0, ks0, y);
    forall j | 0 <= j < |ns1| && j != x && j != y && ks1[j] <= ks1[y]
      ensures Ordered(ns1, ks1, j)
    {
      RotatedRightOthersOrdered(ns0, ks0, root, x, ns1, ks1, j);
    }
    RotatedRightPairOrdered(ns0, ks0, root, x, ns1, ks1);
  }

  /** The two rotated nodes keep the bookkeeping. */
  lemma RotatedRightPairOrdered(ns0: seq<RBNode>, ks0: seq<set<int>>, root: int, x: int, ns1: seq<RBNode>, ks1: seq<set<int>>)
    requires Structure(ns0, ks0, root) && 0 <= x < |ns0| && ns0[x].leftChild != Nil
    requires RotatedRight(ns0, ks0, x, ns1, ks1)
    ensures Ordered(ns1, ks1, x) && Ordered(ns1, ks1, ns0[x].leftChild)
  {
    var y := ns0[x].leftChild;
    NodeFacts(ns0, ks0, root, x);
    NodeFacts(ns0, ks0, root, y);
    assert Ordered(ns0, ks0, x) && Ordered(ns0, ks0, y);
    assert Ordered(ns1, ks1, x);
  }

  /** A node below the rotated pair keeps its bookkeeping. */
  lemma RotatedRightOthersOrdered(ns0: seq<RBNode>, ks0: seq<set<int>>, root: int, x: int,
                                 ns1: seq<RBNode>, ks1: seq<set<int>>, j: int)
    requires Structure(ns0, ks0, root) && 0 <= x < |ns0| && ns0[x].leftChild != Nil
    requires RotatedRight(ns0, ks0, x, ns1, ks1)
    requires 0 <= j < |ns1| && j != x && j != ns0[x].leftChild && ks1[j] <= ks1[ns0[x].leftChild]
    ensures Ordered(ns1, ks1, j)
  {
    var y := ns0[x].leftChild;
    NodeFacts(ns0, ks0, root, x);
    NodeFacts(ns0, ks0, root, y);
    assert Linked(ns0, root, x);
    if ns0[x].parentNd != Nil {
      ParentKeys(ns0, ks0, root, x);
    }
    OthersStayOrdered(ns0, ks0, root, ns1, ks1, {x, y}, j);
  }

  /** The arena after the link changes of a right rotation about `x` reads as
      the right rotation of the tree at `x`. */
  lemma RotateRightAbs(ns0: seq<RBNode>, ks0: seq<set<int>>, root: int, x: int, ns1: seq<RBNode>, ks1: seq<set<int>>)
    requires Structure(ns0, ks0, root) && 0 <= x < |ns0| && ns0[x].leftChild != Nil
    requires RotatedRight(ns0, ks0, x, ns1, ks1)
    ensures OrderedBelow(ns1, ks1, ns0[x].leftChild)
    ensures Abs(ns1, ks1, ns0[x].leftChild) == RedBlackTree.RotateRight(Abs(ns0, ks0, x))
  {
    var y := ns0[x].leftChild;
    NodeFacts(ns0, ks0, root, x);
    NodeFacts(ns0, ks0, root, y);
    var a, b, c := ns0[x].rightChild, ns0[y].rightChild, ns0[y].leftChild;
    var kx, ky := ns0[x].data, ns0[y].data;
    assert Ordered(ns0, ks0, x) && Ordered(ns0, ks0, y);
    assert ky in ks0[x] && ky in ks0[y] && kx in ks1[x] && kx in ks1[y];
    RotateRightOrdered(ns0, ks0, root, x, ns1, ks1);
    RotatedRightSubtree(ns0, ks0, root, x, ns1, ks1, a);
    RotatedRightSubtree(ns0, ks0, root, x, ns1, ks1, b);
    RotatedRightSubtree(ns0, ks0, root, x, ns1, ks1, c);
    assert OrderedBelow(ns1, ks1, x);
  }

  /** A subtree below the two rotated nodes reads the same after a right
      rotation. */
  lemma RotatedRightSubtree(ns0: seq<RBNode>, ks0: seq<set<int>>, root: int, x: int, ns1: seq<RBNode>, ks1: seq<set<int>>, p: int)
    requires Structure(ns0, ks0, root) && 0 <= x < |ns0| && ns0[x].leftChild != Nil
    requires RotatedRight(ns0, ks0, x, ns1, ks1) && IsRef(ns0, p)
    requires Sub(ns0, ks0, p) <= ks0[x]
    requires ns0[x].data !in Sub(ns0, ks0, p) && ns0[ns0[x].leftChild].data !in Sub(ns0, ks0, p)
    ensures OrderedBelow(ns1, ks1, p) && Abs(ns1, ks1, p) == Abs(ns0, ks0, p)
  {
    var y := ns0[x].leftChild;
    NodeFacts(ns0, ks0, root, x);
    NodeFacts(ns0, ks0, root, y);
    assert Ordered(ns0, ks0, x) && Ordered(ns0, ks0, y);
    StructureOrderedBelow(ns0, ks0, root, p);
    SubtreeUnmoved(ns0, ks0, ns1, ks1, p, {x, y}, ns0[y].data, ns0[x].data);
  }

  // ---------------------------------------------------------------------
  // Rotations linked back into the tree

  /** Records with the same key and links; the colour may differ. */
  predicate SameLinks(n1: RBNode, n2: RBNode)
  {
    n1.data == n2.data && n1.leftChild == n2.leftChild &&
    n1.rightChild == n2.rightChild && n1.parentNd == n2.parentNd
  }

  /** The link into `x` from its parent in `ns0` leads to `y` in `ns1`; with no
      parent, `y` is the new root. */
  ghost predicate Spliced(ns0: seq<RBNode>, root0: int, x: int, y: int, ns1: seq<RBNode>, root1: int)
    requires 0 <= x < |ns0| && |ns1| == |ns0| && IsRef(ns0, ns0[x].parentNd)
  {
    var g := ns0[x].parentNd;
    if g == Nil then root1 == y
    else
      && root1 == root0
      && SameLinks(ns1[g], if ns0[g].leftChild == x then ns0[g].(leftChild := y) else ns0[g].(rightChild := y))
  }

  /** `ns1` is `ns0` with the link from `g` to its child `oldChild` moved to
      `newChild`; with `g` null, `newChild` becomes the root. Colours may
      differ; nothing else changes. */
  ghost predicate Relinked(ns0: seq<RBNode>, root0: int, g: int, oldChild: int, newChild: int,
                           ns1: seq<RBNode>, root1: int)
    requires |ns1| == |ns0| && IsRef(ns0, g)
  {
    && (g == Nil ==> root1 == newChild)
    && (g != Nil ==> root1 == root0)
    && (g != Nil ==> SameLinks(ns1[g], if ns0[g].leftChild == oldChild then ns0[g].(leftChild := newChild)
                                       else ns0[g].(rightChild := newChild)))
    && (forall j :: 0 <= j < |ns0| && j != g ==> SameLinks(ns1[j], ns0[j]))
  }

  /** `ns1` is `ns0` after a left rotation about `x` whose new subtree root
      has been linked into `x`'s old parent; colours aside. */
  ghost predicate LeftRotationLinked(ns0: seq<RBNode>, ks0: seq<set<int>>, root0: int, x: int,
                                     ns1: seq<RBNode>, ks1: seq<set<int>>, root1: int)
    requires |ns0| == |ks0| && LinksInRange(ns0) && 0 <= x < |ns0| && ns0[x].rightChild != Nil
  {
    var y := ns0[x].rightChild;
    var b, g := ns0[y].leftChild, ns0[x].parentNd;
    && |ns1| == |ns0| == |ks1|
    && SameLinks(ns1[y], ns0[y].(leftChild := x, parentNd := g))
    && SameLinks(ns1[x], ns0[x].(rightChild := b, parentNd := y))
    && (b != Nil ==> SameLinks(ns1[b], ns0[b].(parentNd := x)))
    && Spliced(ns0, root0, x, y, ns1, root1)
    && (forall j :: 0 <= j < |ns0| && j != x && j != y && j != b && j != g ==> SameLinks(ns1[j], ns0[j]))
    && ks1[y] == ks0[x]
    && ks1[x] == Sub(ns0, ks0, ns0[x].leftChild) + {ns0[x].data} + Sub(ns0, ks0, b)
    && (forall j :: 0 <= j < |ns0| && j != x && j != y ==> ks1[j] == ks0[j])
  }

  /** A left rotation linked back into the tree keeps the arena one
      well-formed search tree over the same keys. */
  lemma LeftRotationKeepsStructure(ns0: seq<RBNode>, ks0: seq<set<int>>, root0: int, x: int,
                                   ns1: seq<RBNode>, ks1: seq<set<int>>, root1: int)
    requires Structure(ns0, ks0, root0) && 0 <= x < |ns0| && ns0[x].rightChild != Nil
    requires LeftRotationLinked(ns0, ks0, root0, x, ns1, ks1, root1)
    ensures Structure(ns1, ks1, root1) && Sub(ns1, ks1, root1) == Sub(ns0, ks0, root0)
  {
    LeftRotationKeepsRoot(ns0, ks0, root0, x, ns1, ks1, root1);
    forall i | 0 <= i < |ns1|
      ensures IsRef(ns1, ns1[i].leftChild) && IsRef(ns1, ns1[i].rightChild) && IsRef(ns1, ns1[i].parentNd)
    {
      NodeFacts(ns0, ks0, root0, x);
      assert Linked(ns0, root0, i) && Linked(ns0, root0, x);
    }
    forall i | 0 <= i < |ns1|
      ensures Linked(ns1, root1, i) && Ordered(ns1, ks1, i) && ks1[i] <= Sub(ns1, ks1, root1)
    {
      LeftRotationKeepsLinked(ns0, ks0, root0, x, ns1, ks1, root1, i);
      LeftRotationKeepsOrdered(ns0, ks0, root0, x, ns1, ks1, root1, i);
      assert ks0[i] <= Sub(ns0, ks0, root0);
      if i == x {
        NodeFacts(ns0, ks0, root0, x);
        assert Ordered(ns0, ks0, x) && Ordered(ns0, ks0, ns0[x].rightChild);
      }
    }
  }

  /** A left rotation linked back into the tree keeps the root's key set. */
  lemma LeftRotationKeepsRoot(ns0: seq<RBNode>, ks0: seq<set<int>>, root0: int, x: int,
                              ns1: seq<RBNode>, ks1: seq<set<int>>, root1: int)
    requires Structure(ns0, ks0, root0) && 0 <= x < |ns0| && ns0[x].rightChild != Nil
    requires LeftRotationLinked(ns0, ks0, root0, x, ns1, ks1, root1)
    ensures IsRef(ns1, root1) && (root1 == Nil <==> |ns1| == 0)
    ensures Sub(ns1, ks1, root1) == Sub(ns0, ks0, root0)
  {
    NodeFacts(ns0, ks0, root0, x);
    var y, g := ns0[x].rightChild, ns0[x].parentNd;
    assert Linked(ns0, root0, x) && Linked(ns0, root0, y);
  }

  /** The links of node `i` stay consistent under a left rotation linked back
      into the tree. */
  lemma LeftRotationKeepsLinked(ns0: seq<RBNode>, ks0: seq<set<int>>, root0: int, x: int,
      ns1: seq<RBNode>, ks1: seq<set<int>>, root1: int, i: int)
    requires Structure(ns0, ks0, root0) && 0 <= x < |ns0| && ns0[x].rightChild != Nil
    requires LeftRotationLinked(ns0, ks0, root0, x, ns1, ks1, root1)
    requires LinksInRange(ns1) && 0 <= i < |ns1|
    ensures Linked(ns1, root1, i)
  {
    var y := ns0[x].rightChild;
    var b, g := ns0[y].leftChild, ns0[x].parentNd;
    if i == x {
      LeftRotationLinkedAtX(ns0, ks0, root0, x, ns1, ks1, root1, i);
    } else if i == y {
      LeftRotationLinkedAtY(ns0, ks0, root0, x, ns1, ks1, root1, i);
    } else if i == b || i == g {
      LeftRotationLinkedAtBorder(ns0, ks0, root0, x, ns1, ks1, root1, i);
    } else {
      LeftRotationLinkedElsewhere(ns0, ks0, root0, x, ns1, ks1, root1, i);
    }
  }

  lemma LeftRotationLinkedAtX(ns0: seq<RBNode>, ks0: seq<set<int>>, root0: int, x: int,
      ns1: seq<RBNode>, ks1: seq<set<int>>, root1: int, i: int)
    requires Structure(ns0, ks0, root0) && 0 <= x < |ns0| && ns0[x].rightChild != Nil
    requires LeftRotationLinked(ns0, ks0, root0, x, ns1, ks1, root1)
    requires LinksInRange(ns1) && 0 <= i < |ns1|
    requires i == x
    ensures Linked(ns1, root1, i)
  {
    var y := ns0[x].rightChild;
    NodeFacts(ns0, ks0, root0, x);
    NodeFacts(ns0, ks0, root0, y);
    var a, b := ns0[x].leftChild, ns0[y].leftChild;
    assert Linked(ns0, root0, x) && Linked(ns0, root0, y);
    if a != Nil {
      NodeFacts(ns0, ks0, root0, a);
      assert Linked(ns0, root0, a);
    }
  }

  lemma LeftRotationLinkedAtY(ns0: seq<RBNode>, ks0: seq<set<int>>, root0: int, x: int,
      ns1: seq<RBNode>, ks1: seq<set<int>>, root1: int, i: int)
    requires Structure(ns0, ks0, root0) && 0 <= x < |ns0| && ns0[x].rightChild != Nil
    requires LeftRotationLinked(ns0, ks0, root0, x, ns1, ks1, root1)
    requires LinksInRange(ns1) && 0 <= i < |ns1|
    requires i == ns0[x].rightChild
    ensures Linked(ns1, root1, i)
  {
    var y := ns0[x].rightChild;
    NodeFacts(ns0, ks0, root0, x);
    NodeFacts(ns0, ks0, root0, y);
    var c, g := ns0[y].rightChild, ns0[x].parentNd;
    assert Linked(ns0, root0, x) && Linked(ns0, root0, y);
    if c != Nil {
      NodeFacts(ns0, ks0, root0, c);
      assert Linked(ns0, root0, c);
    }
    if g != Nil {
      NodeFacts(ns0, ks0, root0, g);
      assert Linked(ns0, root0, g);
    }
  }

  lemma LeftRotationLinkedAtBorder(ns0: seq<RBNode>, ks0: seq<set<int>>, root0: int, x: int,
      ns1: seq<RBNode>, ks1: seq<set<int>>, root1: int, i: int)
    requires Structure(ns0, ks0, root0) && 0 <= x < |ns0| && ns0[x].rightChild != Nil
    requires LeftRotationLinked(ns0, ks0, root0, x, ns1, ks1, root1)
    requires LinksInRange(ns1) && 0 <= i < |ns1|
    requires i != x && i != ns0[x].rightChild
    requires i == ns0[ns0[x].rightChild].leftChild || i == ns0[x].parentNd
    ensures Linked(ns1, root1, i)
  {
    var y := ns0[x].rightChild;
    NodeFacts(ns0, ks0, root0, x);
    NodeFacts(ns0, ks0, root0, y);
    NodeFacts(ns0, ks0, root0, i);
    assert Linked(ns0, root0, x) && Linked(ns0, root0, y) && Linked(ns0, root0, i);
    if i == ns0[x].parentNd {
      LeftRotationLinkedAtParent(ns0, ks0, root0, x, ns1, ks1, root1, i);
    } else {
      LeftRotationLinkedAtMoved(ns0, ks0, root0, x, ns1, ks1, root1, i);
    }
  }

  lemma LeftRotationLinkedAtParent(ns0: seq<RBNode>, ks0: seq<set<int>>, root0: int, x: int,
      ns1: seq<RBNode>, ks1: seq<set<int>>, root1: int, i: int)
    requires Structure(ns0, ks0, root0) && 0 <= x < |ns0| && ns0[x].rightChild != Nil
    requires LeftRotationLinked(ns0, ks0, root0, x, ns1, ks1, root1)
    requires LinksInRange(ns1) && 0 <= i < |ns1|
    requires i != x && i != ns0[x].rightChild && i == ns0[x].parentNd
    requires Linked(ns0, root0, x) && Linked(ns0, root0, i)
    requires i != ns0[ns0[x].rightChild].leftChild
    ensures Linked(ns1, root1, i)
  {
    NodeFacts(ns0, ks0, root0, x);
    NodeFacts(ns0, ks0, root0, ns0[x].rightChild);
    ParentKeys(ns0, ks0, root0, x);
    var n := ns0[i];
    if n.parentNd != Nil { ParentKeys(ns0, ks0, root0, i); }
    if n.leftChild != Nil && n.leftChild != x { assert Linked(ns0, root0, n.leftChild); }
    if n.rightChild != Nil && n.rightChild != x { assert Linked(ns0, root0, n.rightChild); }
    if n.parentNd != Nil { assert Linked(ns0, root0, n.parentNd); }
  }

  lemma LeftRotationLinkedAtMoved(ns0: seq<RBNode>, ks0: seq<set<int>>, root0: int, x: int,
      ns1: seq<RBNode>, ks1: seq<set<int>>, root1: int, i: int)
    requires Structure(ns0, ks0, root0) && 0 <= x < |ns0| && ns0[x].rightChild != Nil
    requires LeftRotationLinked(ns0, ks0, root0, x, ns1, ks1, root1)
    requires LinksInRange(ns1) && 0 <= i < |ns1|
    requires i != x && i != ns0[x].rightChild && i != ns0[x].parentNd
    requires i == ns0[ns0[x].rightChild].leftChild
    requires Linked(ns0, root0, x) && Linked(ns0, root0, ns0[x].rightChild) && Linked(ns0, root0, i)
    ensures Linked(ns1, root1, i)
  {
    var n := ns0[i];
    if n.leftChild != Nil { assert Linked(ns0, root0, n.leftChild); }
    if n.rightChild != Nil { assert Linked(ns0, root0, n.rightChild); }
  }

  lemma LeftRotationLinkedElsewhere(ns0: seq<RBNode>, ks0: seq<set<int>>, root0: int, x: int,
      ns1: seq<RBNode>, ks1: seq<set<int>>, root1: int, i: int)
    requires Structure(ns0, ks0, root0) && 0 <= x < |ns0| && ns0[x].rightChild != Nil
    requires LeftRotationLinked(ns0, ks0, root0, x, ns1, ks1, root1)
    requires LinksInRange(ns1) && 0 <= i < |ns1|
    requires i != x && i != ns0[x].rightChild
    requires i != ns0[ns0[x].rightChild].leftChild && i != ns0[x].parentNd
    ensures Linked(ns1, root1, i)
  {
    var y := ns0[x].rightChild;
    var b, g := ns0[y].leftChild, ns0[x].parentNd;
    NodeFacts(ns0, ks0, root0, i);
    assert Linked(ns0, root0, i) && Linked(ns0, root0, x) && Linked(ns0, root0, y);
    var n := ns0[i];
    if n.leftChild != Nil { assert Linked(ns0, root0, n.leftChild); }
    if n.rightChild != Nil { assert Linked(ns0, root0, n.rightChild); }
    if n.parentNd != Nil { assert Linked(ns0, root0, n.parentNd); }
  }

  /** The key-set bookkeeping of node `i` survives a left rotation linked
      back into the tree. */
  lemma LeftRotationKeepsOrdered(ns0: seq<RBNode>, ks0: seq<set<int>>, root0: int, x: int,
                                 ns1: seq<RBNode>, ks1: seq<set<int>>, root1: int, i: int)
    requires Structure(ns0, ks0, root0) && 0 <= x < |ns0| && ns0[x].rightChild != Nil
    requires LeftRotationLinked(ns0, ks0, root0, x, ns1, ks1, root1)
    requires LinksInRange(ns1) && 0 <= i < |ns1|
    ensures Ordered(ns1, ks1, i)
  {
    if i == x || i == ns0[x].rightChild {
      LeftRotationOrderedAtTop(ns0, ks0, root0, x, ns1, ks1, root1, i);
    } else if i == ns0[x].parentNd {
      LeftRotationOrderedAtParent(ns0, ks0, root0, x, ns1, ks1, root1, i);
    } else {
      LeftRotationOrderedElsewhere(ns0, ks0, root0, x, ns1, ks1, root1, i);
    }
  }

  lemma LeftRotationOrderedAtTop(ns0: seq<RBNode>, ks0: seq<set<int>>, root0: int, x: int,
                                 ns1: seq<RBNode>, ks1: seq<set<int>>, root1: int, i: int)
    requires Structure(ns0, ks0, root0) && 0 <= x < |ns0| && ns0[x].rightChild != Nil
    requires LeftRotationLinked(ns0, ks0, root0, x, ns1, ks1, root1)
    requires LinksInRange(ns1) && (i == x || i == ns0[x].rightChild)
    ensures Ordered(ns1, ks1, i)
  {
    NodeFacts(ns0, ks0, root0, x);
    NodeFacts(ns0, ks0, root0, ns0[x].rightChild);
    assert Ordered(ns0, ks0, x) && Ordered(ns0, ks0, ns0[x].rightChild);
  }

  lemma LeftRotationOrderedAtParent(ns0: seq<RBNode>, ks0: seq<set<int>>, root0: int, x: int,
                                    ns1: seq<RBNode>, ks1: seq<set<int>>, root1: int, i: int)
    requires Structure(ns0, ks0, root0) && 0 <= x < |ns0| && ns0[x].rightChild != Nil
    requires LeftRotationLinked(ns0, ks0, root0, x, ns1, ks1, root1)
    requires LinksInRange(ns1) && 0 <= i < |ns1| && i == ns0[x].parentNd
    ensures Ordered(ns1, ks1, i)
  {
    NodeFacts(ns0, ks0, root0, x);
    NodeFacts(ns0, ks0, root0, ns0[x].rightChild);
    assert Linked(ns0, root0, x) && Linked(ns0, root0, i) && Ordered(ns0, ks0, i);
  }

  lemma LeftRotationOrderedElsewhere(ns0: seq<RBNode>, ks0: seq<set<int>>, root0: int, x: int,
                                     ns1: seq<RBNode>, ks1: seq<set<int>>, root1: int, i: int)
    requires Structure(ns0, ks0, root0) && 0 <= x < |ns0| && ns0[x].rightChild != Nil
    requires LeftRotationLinked(ns0, ks0, root0, x, ns1, ks1, root1)
    requires LinksInRange(ns1) && 0 <= i < |ns1|
    requires i != x && i != ns0[x].rightChild && i != ns0[x].parentNd
    ensures Ordered(ns1, ks1, i)
  {
    NodeFacts(ns0, ks0, root0, x);
    assert Linked(ns0, root0, i) && Ordered(ns0, ks0, i);
    assert Linked(ns0, root0, x) && Linked(ns0, root0, ns0[x].rightChild);
  }

  /** A left rotation about `x` followed by moving the link from `x`'s old
      parent over to the new subtree root keeps the arena one well-formed
      search tree over the same keys, whatever the colours became. */
  lemma LeftRotationRelinked(ns0: seq<RBNode>, ks0: seq<set<int>>, root0: int, x: int,
                             ns1: seq<RBNode>, ks1: seq<set<int>>, ns2: seq<RBNode>, root2: int)
    requires Structure(ns0, ks0, root0) && 0 <= x < |ns0| && ns0[x].rightChild != Nil
    requires LeftRotationFields(ns0, ks0, x, ns1, ks1) && |ns2| == |ns1|
    requires Relinked(ns1, root0, ns0[x].parentNd, x, ns0[x].rightChild, ns2, root2)
    ensures Structure(ns2, ks1, root2) && Sub(ns2, ks1, root2) == Sub(ns0, ks0, root0)
  {
    var y := ns0[x].rightChild;
    NodeFacts(ns0, ks0, root0, x);
    NodeFacts(ns0, ks0, root0, y);
    var g := ns0[x].parentNd;
    if g != Nil {
      NodeFacts(ns0, ks0, root0, g);
      assert Linked(ns0, root0, x);
    }
    assert LeftRotationLinked(ns0, ks0, root0, x, ns2, ks1, root2);
    LeftRotationKeepsStructure(ns0, ks0, root0, x, ns2, ks1, root2);
  }

  /** `ns1` is `ns0` after a right rotation about `x` whose new subtree root
      has been linked into `x`'s old parent; colours aside. */
  ghost predicate RightRotationLinked(ns0: seq<RBNode>, ks0: seq<set<int>>, root0: int, x: int,
                                     ns1: seq<RBNode>, ks1: seq<set<int>>, root1: int)
    requires |ns0| == |ks0| && LinksInRange(ns0) && 0 <= x < |ns0| && ns0[x].leftChild != Nil
  {
    var y := ns0[x].leftChild;
    var b, g := ns0[y].rightChild, ns0[x].parentNd;
    && |ns1| == |ns0| == |ks1|
    && SameLinks(ns1[y], ns0[y].(rightChild := x, parentNd := g))
    && SameLinks(ns1[x], ns0[x].(leftChild := b, parentNd := y))
    && (b != Nil ==> SameLinks(ns1[b], ns0[b].(parentNd := x)))
    && Spliced(ns0, root0, x, y, ns1, root1)
    && (forall j :: 0 <= j < |ns0| && j != x && j != y && j != b && j != g ==> SameLinks(ns1[j], ns0[j]))
    && ks1[y] == ks0[x]
    && ks1[x] == Sub(ns0, ks0, ns0[x].rightChild) + {ns0[x].data} + Sub(ns0, ks0, b)
    && (forall j :: 0 <= j < |ns0| && j != x && j != y ==> ks1[j] == ks0[j])
  }

  /** A right rotation linked back into the tree keeps the arena one
      well-formed search tree over the same keys. */
  lemma RightRotationKeepsStructure(ns0: seq<RBNode>, ks0: seq<set<int>>, root0: int, x: int,
                                   ns1: seq<RBNode>, ks1: seq<set<int>>, root1: int)
    requires Structure(ns0, ks0, root0) && 0 <= x < |ns0| && ns0[x].leftChild != Nil
    requires RightRotationLinked(ns0, ks0, root0, x, ns1, ks1, root1)
    ensures Structure(ns1, ks1, root1) && Sub(ns1, ks1, root1) == Sub(ns0, ks0, root0)
  {
    RightRotationKeepsRoot(ns0, ks0, root0, x, ns1, ks1, root1);
    forall i | 0 <= i < |ns1|
      ensures IsRef(ns1, ns1[i].rightChild) && IsRef(ns1, ns1[i].leftChild) && IsRef(ns1, ns1[i].parentNd)
    {
      NodeFacts(ns0, ks0, root0, x);
      assert Linked(ns0, root0, i) && Linked(ns0, root0, x);
    }
    forall i | 0 <= i < |ns1|
      ensures Linked(ns1, root1, i) && Ordered(ns1, ks1, i) && ks1[i] <= Sub(ns1, ks1, root1)
    {
      RightRotationKeepsLinked(ns0, ks0, root0, x, ns1, ks1, root1, i);
      RightRotationKeepsOrdered(ns0, ks0, root0, x, ns1, ks1, root1, i);
      assert ks0[i] <= Sub(ns0, ks0, root0);
      if i == x {
        NodeFacts(ns0, ks0, root0, x);
        assert Ordered(ns0, ks0, x) && Ordered(ns0, ks0, ns0[x].leftChild);
      }
    }
  }

  /** A right rotation linked back into the tree keeps the root's key set. */
  lemma RightRotationKeepsRoot(ns0: seq<RBNode>, ks0: seq<set<int>>, root0: int, x: int,
                              ns1: seq<RBNode>, ks1: seq<set<int>>, root1: int)
    requires Structure(ns0, ks0, root0) && 0 <= x < |ns0| && ns0[x].leftChild != Nil
    requires RightRotationLinked(ns0, ks0, root0, x, ns1, ks1, root1)
    ensures IsRef(ns1, root1) && (root1 == Nil <==> |ns1| == 0)
    ensures Sub(ns1, ks1, root1) == Sub(ns0, ks0, root0)
  {
    NodeFacts(ns0, ks0, root0, x);
    var y, g := ns0[x].leftChild, ns0[x].parentNd;
    assert Linked(ns0, root0, x) && Linked(ns0, root0, y);
  }

  /** The links of node `i` stay consistent under a right rotation linked back
      into the tree. */
  lemma RightRotationKeepsLinked(ns0: seq<RBNode>, ks0: seq<set<int>>, root0: int, x: int,
      ns1: seq<RBNode>, ks1: seq<set<int>>, root1: int, i: int)
    requires Structure(ns0, ks0, root0) && 0 <= x < |ns0| && ns0[x].leftChild != Nil
    requires RightRotationLinked(ns0, ks0, root0, x, ns1, ks1, root1)
    requires LinksInRange(ns1) && 0 <= i < |ns1|
    ensures Linked(ns1, root1, i)
  {
    var y := ns0[x].leftChild;
    var b, g := ns0[y].rightChild, ns0[x].parentNd;
    if i == x {
      RightRotationLinkedAtX(ns0, ks0, root0, x, ns1, ks1, root1, i);
    } else if i == y {
      RightRotationLinkedAtY(ns0, ks0, root0, x, ns1, ks1, root1, i);
    } else if i == b || i == g {
      RightRotationLinkedAtBorder(ns0, ks0, root0, x, ns1, ks1, root1, i);
    } else {
      RightRotationLinkedElsewhere(ns0, ks0, root0, x, ns1, ks1, root1, i);
    }
  }

  lemma RightRotationLinkedAtX(ns0: seq<RBNode>, ks0: seq<set<int>>, root0: int, x: int,
      ns1: seq<RBNode>, ks1: seq<set<int>>, root1: int, i: int)
    requires Structure(ns0, ks0, root0) && 0 <= x < |ns0| && ns0[x].leftChild != Nil
    requires RightRotationLinked(ns0, ks0, root0, x, ns1, ks1, root1)
    requires LinksInRange(ns1) && 0 <= i < |ns1|
    requires i == x
    ensures Linked(ns1, root1, i)
  {
    var y := ns0[x].leftChild;
    NodeFacts(ns0, ks0, root0, x);
    NodeFacts(ns0, ks0, root0, y);
    var a, b := ns0[x].rightChild, ns0[y].rightChild;
    assert Linked(ns0, root0, x) && Linked(ns0, root0, y);
    if a != Nil {
      NodeFacts(ns0, ks0, root0, a);
      assert Linked(ns0, root0, a);
    }
  }

  lemma RightRotationLinkedAtY(ns0: seq<RBNode>, ks0: seq<set<int>>, root0: int, x: int,
      ns1: seq<RBNode>, ks1: seq<set<int>>, root1: int, i: int)
    requires Structure(ns0, ks0, root0) && 0 <= x < |ns0| && ns0[x].leftChild != Nil
    requires RightRotationLinked(ns0, ks0, root0, x, ns1, ks1, root1)
    requires LinksInRange(ns1) && 0 <= i < |ns1|
    requires i == ns0[x].leftChild
    ensures Linked(ns1, root1, i)
  {
    var y := ns0[x].leftChild;
    NodeFacts(ns0, ks0, root0, x);
    NodeFacts(ns0, ks0, root0, y);
    var c, g := ns0[y].leftChild, ns0[x].parentNd;
    assert Linked(ns0, root0, x) && Linked(ns0, root0, y);
    if c != Nil {
      NodeFacts(ns0, ks0, root0, c);
      assert Linked(ns0, root0, c);
    }
    if g != Nil {
      NodeFacts(ns0, ks0, root0, g);
      assert Linked(ns0, root0, g);
    }
  }

  lemma RightRotationLinkedAtBorder(ns0: seq<RBNode>, ks0: seq<set<int>>, root0: int, x: int,
      ns1: seq<RBNode>, ks1: seq<set<int>>, root1: int, i: int)
    requires Structure(ns0, ks0, root0) && 0 <= x < |ns0| && ns0[x].leftChild != Nil
    requires RightRotationLinked(ns0, ks0, root0, x, ns1, ks1, root1)
    requires LinksInRange(ns1) && 0 <= i < |ns1|
    requires i != x && i != ns0[x].leftChild
    requires i == ns0[ns0[x].leftChild].rightChild || i == ns0[x].parentNd
    ensures Linked(ns1, root1, i)
  {
    var y := ns0[x].leftChild;
    NodeFacts(ns0, ks0, root0, x);
    NodeFacts(ns0, ks0, root0, y);
    NodeFacts(ns0, ks0, root0, i);
    assert Linked(ns0, root0, x) && Linked(ns0, root0, y) && Linked(ns0, root0, i);
    if i == ns0[x].parentNd {
      RightRotationLinkedAtParent(ns0, ks0, root0, x, ns1, ks1, root1, i);
    } else {
      RightRotationLinkedAtMoved(ns0, ks0, root0, x, ns1, ks1, root1, i);
    }
  }

  lemma RightRotationLinkedAtParent(ns0: seq<RBNode>, ks0: seq<set<int>>, root0: int, x: int,
      ns1: seq<RBNode>, ks1: seq<set<int>>, root1: int, i: int)
    requires Structure(ns0, ks0, root0) && 0 <= x < |ns0| && ns0[x].leftChild != Nil
    requires RightRotationLinked(ns0, ks0, root0, x, ns1, ks1, root1)
    requires LinksInRange(ns1) && 0 <= i < |ns1|
    requires i != x && i != ns0[x].leftChild && i == ns0[x].parentNd
    requires Linked(ns0, root0, x) && Linked(ns0, root0, i)
    requires i != ns0[ns0[x].leftChild].rightChild
    ensures Linked(ns1, root1, i)
  {
    NodeFacts(ns0, ks0, root0, x);
    NodeFacts(ns0, ks0, root0, ns0[x].leftChild);
    ParentKeys(ns0, ks0, root0, x);
    var n := ns0[i];
    if n.parentNd != Nil { ParentKeys(ns0, ks0, root0, i); }
    if n.rightChild != Nil && n.rightChild != x { assert Linked(ns0, root0, n.rightChild); }
    if n.leftChild != Nil && n.leftChild != x { assert Linked(ns0, root0, n.leftChild); }
    if n.parentNd != Nil { assert Linked(ns0, root0, n.parentNd); }
  }

  lemma RightRotationLinkedAtMoved(ns0: seq<RBNode>, ks0: seq<set<int>>, root0: int, x: int,
      ns1: seq<RBNode>, ks1: seq<set<int>>, root1: int, i: int)
    requires Structure(ns0, ks0, root0) && 0 <= x < |ns0| && ns0[x].leftChild != Nil
    requires RightRotationLinked(ns0, ks0, root0, x, ns1, ks1, root1)
    requires LinksInRange(ns1) && 0 <= i < |ns1|
    requires i != x && i != ns0[x].leftChild && i != ns0[x].parentNd
    requires i == ns0[ns0[x].leftChild].rightChild
    requires Linked(ns0, root0, x) && Linked(ns0, root0, ns0[x].leftChild) && Linked(ns0, root0, i)
    ensures Linked(ns1, root1, i)
  {
    var n := ns0[i];
    if n.rightChild != Nil { assert Linked(ns0, root0, n.rightChild); }
    if n.leftChild != Nil { assert Linked(ns0, root0, n.leftChild); }
  }

  lemma RightRotationLinkedElsewhere(ns0: seq<RBNode>, ks0: seq<set<int>>, root0: int, x: int,
      ns1: seq<RBNode>, ks1: seq<set<int>>, root1: int, i: int)
    requires Structure(ns0, ks0, root0) && 0 <= x < |ns0| && ns0[x].leftChild != Nil
    requires RightRotationLinked(ns0, ks0, root0, x, ns1, ks1, root1)
    requires LinksInRange(ns1) && 0 <= i < |ns1|
    requires i != x && i != ns0[x].leftChild
    requires i != ns0[ns0[x].leftChild].rightChild && i != ns0[x].parentNd
    ensures Linked(ns1, root1, i)
  {
    var y := ns0[x].leftChild;
    var b, g := ns0[y].rightChild, ns0[x].parentNd;
    NodeFacts(ns0, ks0, root0, i);
    assert Linked(ns0, root0, i) && Linked(ns0, root0, x) && Linked(ns0, root0, y);
    var n := ns0[i];
    if n.rightChild != Nil { assert Linked(ns0, root0, n.rightChild); }
    if n.leftChild != Nil { assert Linked(ns0, root0, n.leftChild); }
    if n.parentNd != Nil { assert Linked(ns0, root0, n.parentNd); }
  }

  /** The key-set bookkeeping of node `i` survives a right rotation linked
      back into the tree. */
  lemma RightRotationKeepsOrdered(ns0: seq<RBNode>, ks0: seq<set<int>>, root0: int, x: int,
                                 ns1: seq<RBNode>, ks1: seq<set<int>>, root1: int, i: int)
    requires Structure(ns0, ks0, root0) && 0 <= x < |ns0| && ns0[x].leftChild != Nil
    requires RightRotationLinked(ns0, ks0, root0, x, ns1, ks1, root1)
    requires LinksInRange(ns1) && 0 <= i < |ns1|
    ensures Ordered(ns1, ks1, i)
  {
    if i == x || i == ns0[x].leftChild {
      RightRotationOrderedAtTop(ns0, ks0, root0, x, ns1, ks1, root1, i);
    } else if i == ns0[x].parentNd {
      RightRotationOrderedAtParent(ns0, ks0, root0, x, ns1, ks1, root1, i);
    } else {
      RightRotationOrderedElsewhere(ns0, ks0, root0, x, ns1, ks1, root1, i);
    }
  }

  lemma RightRotationOrderedAtTop(ns0: seq<RBNode>, ks0: seq<set<int>>, root0: int, x: int,
                                 ns1: seq<RBNode>, ks1: seq<set<int>>, root1: int, i: int)
    requires Structure(ns0, ks0, root0) && 0 <= x < |ns0| && ns0[x].leftChild != Nil
    requires RightRotationLinked(ns0, ks0, root0, x, ns1, ks1, root1)
    requires LinksInRange(ns1) && (i == x || i == ns0[x].leftChild)
    ensures Ordered(ns1, ks1, i)
  {
    NodeFacts(ns0, ks0, root0, x);
    NodeFacts(ns0, ks0, root0, ns0[x].leftChild);
    assert Ordered(ns0, ks0, x) && Ordered(ns0, ks0, ns0[x].leftChild);
  }

  lemma RightRotationOrderedAtParent(ns0: seq<RBNode>, ks0: seq<set<int>>, root0: int, x: int,
                                    ns1: seq<RBNode>, ks1: seq<set<int>>, root1: int, i: int)
    requires Structure(ns0, ks0, root0) && 0 <= x < |ns0| && ns0[x].leftChild != Nil
    requires RightRotationLinked(ns0, ks0, root0, x, ns1, ks1, root1)
    requires LinksInRange(ns1) && 0 <= i < |ns1| && i == ns0[x].parentNd
    ensures Ordered(ns1, ks1, i)
  {
    NodeFacts(ns0, ks0, root0, x);
    NodeFacts(ns0, ks0, root0, ns0[x].leftChild);
    assert Linked(ns0, root0, x) && Linked(ns0, root0, i) && Ordered(ns0, ks0, i);
  }

  lemma RightRotationOrderedElsewhere(ns0: seq<RBNode>, ks0: seq<set<int>>, root0: int, x: int,
                                     ns1: seq<RBNode>, ks1: seq<set<int>>, root1: int, i: int)
    requires Structure(ns0, ks0, root0) && 0 <= x < |ns0| && ns0[x].leftChild != Nil
    requires RightRotationLinked(ns0, ks0, root0, x, ns1, ks1, root1)
    requires LinksInRange(ns1) && 0 <= i < |ns1|
    requires i != x && i != ns0[x].leftChild && i != ns0[x].parentNd
    ensures Ordered(ns1, ks1, i)
  {
    NodeFacts(ns0, ks0, root0, x);
    assert Linked(ns0, root0, i) && Ordered(ns0, ks0, i);
    assert Linked(ns0, root0, x) && Linked(ns0, root0, ns0[x].leftChild);
  }

  /** A right rotation about `x` followed by moving the link from `x`'s old
      parent over to the new subtree root keeps the arena one well-formed
      search tree over the same keys, whatever the colours became. */
  lemma RightRotationRelinked(ns0: seq<RBNode>, ks0: seq<set<int>>, root0: int, x: int,
                             ns1: seq<RBNode>, ks1: seq<set<int>>, ns2: seq<RBNode>, root2: int)
    requires Structure(ns0, ks0, root0) && 0 <= x < |ns0| && ns0[x].leftChild != Nil
    requires RightRotationFields(ns0, ks0, x, ns1, ks1) && |ns2| == |ns1|
    requires Relinked(ns1, root0, ns0[x].parentNd, x, ns0[x].leftChild, ns2, root2)
    ensures Structure(ns2, ks1, root2) && Sub(ns2, ks1, root2) == Sub(ns0, ks0, root0)
  {
    var y := ns0[x].leftChild;
    NodeFacts(ns0, ks0, root0, x);
    NodeFacts(ns0, ks0, root0, y);
    var g := ns0[x].parentNd;
    if g != Nil {
      NodeFacts(ns0, ks0, root0, g);
      assert Linked(ns0, root0, x);
    }
    assert RightRotationLinked(ns0, ks0, root0, x, ns2, ks1, root2);
    RightRotationKeepsStructure(ns0, ks0, root0, x, ns2, ks1, root2);
  }

  /** The nodes a double rotation about `g` moves: `g`, its child `p` on
      side `pLeft` and `p`'s child `x` on the other side, are distinct from
      each other and from the subtrees `x` hands over. */
  lemma ZigZagNodes(ns: seq<RBNode>, ks: seq<set<int>>, root: int, g: int, pLeft: bool)
    requires Structure(ns, ks, root) && 0 <= g < |ns|
    requires var p := if pLeft then ns[g].leftChild else ns[g].rightChild;
      p != Nil && (if pLeft then ns[p].rightChild else ns[p].leftChild) != Nil
    ensures var p := if pLeft then ns[g].leftChild else ns[g].rightChild;
      var x := if pLeft then ns[p].rightChild else ns[p].leftChild;
      && 0 <= p < |ns| && 0 <= x < |ns| && g != p && g != x && p != x
      && IsRef(ns, ns[g].parentNd) && ns[g].parentNd != p && ns[g].parentNd != x
      && IsRef(ns, ns[g].leftChild) && IsRef(ns, ns[g].rightChild) && ns[g].leftChild != ns[g].rightChild
      && IsRef(ns, ns[p].leftChild) && IsRef(ns, ns[p].rightChild)
      && IsRef(ns, ns[x].leftChild) && IsRef(ns, ns[x].rightChild)
      && ns[p].parentNd == g && ns[x].parentNd == p
      && (ns[x].leftChild != Nil ==> ns[x].leftChild != g && ns[x].leftChild != p && ns[x].leftChild != x
                                     && ns[x].leftChild != ns[x].rightChild)
      && (ns[x].rightChild != Nil ==> ns[x].rightChild != g && ns[x].rightChild != p && ns[x].rightChild != x)
  {
    var p := if pLeft then ns[g].leftChild else ns[g].rightChild;
    NodeFacts(ns, ks, root, g);
    NodeFacts(ns, ks, root, p);
    var x := if pLeft then ns[p].rightChild else ns[p].leftChild;
    NodeFacts(ns, ks, root, x);
    assert Linked(ns, root, g) && Linked(ns, root, p);
    if ns[g].parentNd != Nil {
      NodeFacts(ns, ks, root, ns[g].parentNd);
    }
  }

  // ---------------------------------------------------------------------
  // Left-right double rotation

  /** rb.cpp:506-515, the first half of the left-right rotation about `g`,
      with the link updates in the source's order: `g`'s left child `p` is
      rotated left and `p`'s right child `x` becomes `g`'s left child. */
  ghost function LeftRightFirstHalf(ns: seq<RBNode>, g: int): seq<RBNode>
    requires LinksInRange(ns) && 0 <= g < |ns| && ns[g].leftChild != Nil
    requires ns[ns[g].leftChild].rightChild != Nil
  {
    var p := ns[g].leftChild;
    var x := ns[p].rightChild;
    var n1 := ns[g := ns[g].(leftChild := x)];
    var n2 := n1[x := n1[x].(parentNd := g)];
    var n3 := n2[p := n2[p].(rightChild := n2[x].leftChild)];
    var n4 := if n3[x].leftChild != Nil then n3[n3[x].leftChild := n3[n3[x].leftChild].(parentNd := p)] else n3;
    var n5 := n4[x := n4[x].(leftChild := p)];
    n5[p := n5[p].(parentNd := x)]
  }

  /** The key sets halfway through the left-right rotation about `g`. */
  ghost function LeftRightHalfwayKeys(ns: seq<RBNode>, ks: seq<set<int>>, g: int): seq<set<int>>
    requires |ks| == |ns| && LinksInRange(ns) && 0 <= g < |ns| && ns[g].leftChild != Nil
    requires ns[ns[g].leftChild].rightChild != Nil
  {
    var p := ns[g].leftChild;
    var x := ns[p].rightChild;
    ks[p := Sub(ns, ks, ns[p].leftChild) + {ns[p].data} + Sub(ns, ks, ns[x].leftChild)][x := ks[p]]
  }

  /** Halfway through the left-right rotation about `g`: apart from `g`'s
      left link, which now leads to `x`, the arena is the left rotation
      about `g`'s left child `p`. */
  ghost predicate LeftRightHalfway(ns0: seq<RBNode>, ks0: seq<set<int>>, g: int, nsm: seq<RBNode>, ksm: seq<set<int>>)
    requires |ns0| == |ks0| && LinksInRange(ns0) && 0 <= g < |ns0| && ns0[g].leftChild != Nil
    requires ns0[ns0[g].leftChild].rightChild != Nil
  {
    var p := ns0[g].leftChild;
    && |nsm| == |ns0|
    && LeftRotationFields(ns0, ks0, p, nsm[g := ns0[g]], ksm)
    && nsm[g] == ns0[g].(leftChild := ns0[p].rightChild)
  }

  /** The first half of rb.cpp's left-right rotation reaches that state. */
  lemma LeftRightFirstHalfIsHalfway(ns0: seq<RBNode>, ks0: seq<set<int>>, root: int, g: int)
    requires Structure(ns0, ks0, root) && 0 <= g < |ns0| && ns0[g].leftChild != Nil
    requires ns0[ns0[g].leftChild].rightChild != Nil
    ensures LeftRightHalfway(ns0, ks0, g, LeftRightFirstHalf(ns0, g), LeftRightHalfwayKeys(ns0, ks0, g))
  {
    ZigZagNodes(ns0, ks0, root, g, true);
  }

  /** Halfway through the left-right rotation the arena is well formed. */
  lemma LeftRightHalfwayStructure(ns0: seq<RBNode>, ks0: seq<set<int>>, root: int, g: int, nsm: seq<RBNode>, ksm: seq<set<int>>)
    requires Structure(ns0, ks0, root) && 0 <= g < |ns0| && ns0[g].leftChild != Nil
    requires ns0[ns0[g].leftChild].rightChild != Nil
    requires LeftRightHalfway(ns0, ks0, g, nsm, ksm)
    ensures Structure(nsm, ksm, root) && Sub(nsm, ksm, root) == Sub(ns0, ks0, root)
  {
    var p := ns0[g].leftChild;
    ZigZagNodes(ns0, ks0, root, g, true);
    LeftRotationRelinked(ns0, ks0, root, p, nsm[g := ns0[g]], ksm, nsm, root);
  }

  /** Halfway through the left-right rotation, the subtree at `g`'s left
      child has been rotated left and nothing else `Abs` reads has moved. */
  lemma LeftRightHalfwayRotated(ns0: seq<RBNode>, ks0: seq<set<int>>, root: int, g: int, nsm: seq<RBNode>, ksm: seq<set<int>>)
    requires Structure(ns0, ks0, root) && 0 <= g < |ns0| && ns0[g].leftChild != Nil
    requires ns0[ns0[g].leftChild].rightChild != Nil
    requires LeftRightHalfway(ns0, ks0, g, nsm, ksm)
    ensures RotatedLeft(ns0, ks0, ns0[g].leftChild, nsm, ksm)
    ensures OrderedBelow(nsm, ksm, ns0[g].rightChild)
    ensures Abs(nsm, ksm, ns0[g].rightChild) == Abs(ns0, ks0, ns0[g].rightChild)
  {
    var p := ns0[g].leftChild;
    NodeFacts(ns0, ks0, root, g);
    NodeFacts(ns0, ks0, root, p);
    var x, d := ns0[p].rightChild, ns0[g].rightChild;
    NodeFacts(ns0, ks0, root, x);
    LeftRotationFieldsShape(ns0, ks0, root, p, nsm[g := ns0[g]], ksm);
    assert Ordered(ns0, ks0, g) && Ordered(ns0, ks0, p);
    assert ns0[g].data in ks0[g] && ns0[g].data !in ks0[p];
    StructureOrderedBelow(ns0, ks0, root, d);
    SubtreeUnmoved(ns0, ks0, nsm, ksm, d, {g, p, x}, ns0[x].data, ns0[p].data);
  }

  /** Halfway through the left-right rotation the subtree at `g` reads as
      `g` over the left rotation of its old left subtree. */
  lemma LeftRightHalfwayAbs(ns0: seq<RBNode>, ks0: seq<set<int>>, root: int, g: int, nsm: seq<RBNode>, ksm: seq<set<int>>)
    requires Structure(ns0, ks0, root) && 0 <= g < |ns0| && ns0[g].leftChild != Nil
    requires ns0[ns0[g].leftChild].rightChild != Nil
    requires LeftRightHalfway(ns0, ks0, g, nsm, ksm)
    requires Structure(nsm, ksm, root)
    ensures var p := ns0[g].leftChild;
      Abs(nsm, ksm, g) == Node(ns0[g].isRed, RedBlackTree.RotateLeft(Abs(ns0, ks0, p)), ns0[g].data,
                               Abs(ns0, ks0, ns0[g].rightChild))
  {
    var p := ns0[g].leftChild;
    LeftRightHalfwayRotated(ns0, ks0, root, g, nsm, ksm);
    RotateLeftAbs(ns0, ks0, root, p, nsm, ksm);
    StructureOrderedBelow(nsm, ksm, root, g);
    assert Ordered(nsm, ksm, g);
  }

  /** rb.cpp:518-527, the second half of the left-right rotation about `g`,
      with the link updates in the source's order: a right rotation about
      `g` whose new subtree root finally takes `g`'s old parent link. */
  ghost function LeftRightSecondHalf(ns: seq<RBNode>, g: int, x: int, originParent: int): seq<RBNode>
    requires 0 <= g < |ns| && 0 <= x < |ns| && x != g && IsRef(ns, ns[x].rightChild)
  {
    var n1 := ns[g := ns[g].(leftChild := ns[x].rightChild)];
    var n2 := if n1[x].rightChild != Nil then n1[n1[x].rightChild := n1[n1[x].rightChild].(parentNd := g)] else n1;
    var n3 := n2[x := n2[x].(rightChild := g)];
    var n4 := n3[g := n3[g].(parentNd := x)];
    n4[x := n4[x].(parentNd := originParent)]
  }

  /** The second half of rb.cpp's left-right rotation is the right rotation
      about `g`. */
  lemma LeftRightSecondHalfIsRotation(nsm: seq<RBNode>, ksm: seq<set<int>>, root: int, g: int, ks2: seq<set<int>>)
    requires Structure(nsm, ksm, root) && 0 <= g < |nsm| && nsm[g].leftChild != Nil && nsm[g].leftChild != g
    requires ks2 == ksm[g := Sub(nsm, ksm, nsm[g].rightChild) + {nsm[g].data}
                             + Sub(nsm, ksm, nsm[nsm[g].leftChild].rightChild)]
                       [nsm[g].leftChild := ksm[g]]
    ensures RightRotationFields(nsm, ksm, g, LeftRightSecondHalf(nsm, g, nsm[g].leftChild, nsm[g].parentNd), ks2)
  {
    NodeFacts(nsm, ksm, root, g);
    NodeFacts(nsm, ksm, root, nsm[g].leftChild);
  }

  /** The left-right rotation about `g`, taken in its two halves, reads as
      the left-right rotation of the tree at `g`. */
  lemma LeftRightAbs(ns0: seq<RBNode>, ks0: seq<set<int>>, root: int, g: int, nsm: seq<RBNode>, ksm: seq<set<int>>,
                     ns2: seq<RBNode>, ks2: seq<set<int>>)
    requires Structure(ns0, ks0, root) && 0 <= g < |ns0| && ns0[g].leftChild != Nil
    requires ns0[ns0[g].leftChild].rightChild != Nil
    requires LeftRightHalfway(ns0, ks0, g, nsm, ksm) && Structure(nsm, ksm, root)
    requires nsm[g].leftChild != Nil && RightRotationFields(nsm, ksm, g, ns2, ks2)
    ensures var t := Abs(ns0, ks0, g);
      && t.Node? && t.left.Node? && t.left.right.Node?
      && OrderedBelow(ns2, ks2, nsm[g].leftChild)
      && Abs(ns2, ks2, nsm[g].leftChild) == RedBlackTree.RotateLeftRight(t)
  {
    var p := ns0[g].leftChild;
    ZigZagNodes(ns0, ks0, root, g, true);
    LeftRightHalfwayAbs(ns0, ks0, root, g, nsm, ksm);
    RightRotationFieldsShape(nsm, ksm, root, g, ns2, ks2);
    RotateRightAbs(nsm, ksm, root, g, ns2, ks2);
    StructureOrderedBelow(ns0, ks0, root, g);
    StructureOrderedBelow(ns0, ks0, root, p);
    assert Ordered(ns0, ks0, g) && Ordered(ns0, ks0, p);
    RotateLeftRightIsComposite(Abs(ns0, ks0, g));
  }

  /** The key sets after the left-right rotation about `g`, from those
      halfway. */
  ghost function LeftRightKeys(nsm: seq<RBNode>, ksm: seq<set<int>>, g: int): seq<set<int>>
    requires |ksm| == |nsm| && 0 <= g < |nsm| && IsRef(nsm, nsm[g].rightChild)
    requires 0 <= nsm[g].leftChild < |nsm| && IsRef(nsm, nsm[nsm[g].leftChild].rightChild)
  {
    ksm[g := Sub(nsm, ksm, nsm[g].rightChild) + {nsm[g].data} + Sub(nsm, ksm, nsm[nsm[g].leftChild].rightChild)]
       [nsm[g].leftChild := ksm[g]]
  }

  // ---------------------------------------------------------------------
  // Right-left double rotation

  /** rb.cpp:547-556, the first half of the right-left rotation about `g`,
      with the link updates in the source's order: `g`'s right child `p` is
      rotated right and `p`'s left child `x` becomes `g`'s right child. */
  ghost function RightLeftFirstHalf(ns: seq<RBNode>, g: int): seq<RBNode>
    requires LinksInRange(ns) && 0 <= g < |ns| && ns[g].rightChild != Nil
    requires ns[ns[g].rightChild].leftChild != Nil
  {
    var p := ns[g].rightChild;
    var x := ns[p].leftChild;
    var n1 := ns[g := ns[g].(rightChild := x)];
    var n2 := n1[x := n1[x].(parentNd := g)];
    var n3 := n2[p := n2[p].(leftChild := n2[x].rightChild)];
    var n4 := if n3[x].rightChild != Nil then n3[n3[x].rightChild := n3[n3[x].rightChild].(parentNd := p)] else n3;
    var n5 := n4[x := n4[x].(rightChild := p)];
    n5[p := n5[p].(parentNd := x)]
  }

  /** The key sets halfway through the right-left rotation about `g`. */
  ghost function RightLeftHalfwayKeys(ns: seq<RBNode>, ks: seq<set<int>>, g: int): seq<set<int>>
    requires |ks| == |ns| && LinksInRange(ns) && 0 <= g < |ns| && ns[g].rightChild != Nil
    requires ns[ns[g].rightChild].leftChild != Nil
  {
    var p := ns[g].rightChild;
    var x := ns[p].leftChild;
    ks[p := Sub(ns, ks, ns[p].rightChild) + {ns[p].data} + Sub(ns, ks, ns[x].rightChild)][x := ks[p]]
  }

  /** Halfway through the right-left rotation about `g`: apart from `g`'s
      right link, which now leads to `x`, the arena is the right rotation
      about `g`'s right child `p`. */
  ghost predicate RightLeftHalfway(ns0: seq<RBNode>, ks0: seq<set<int>>, g: int, nsm: seq<RBNode>, ksm: seq<set<int>>)
    requires |ns0| == |ks0| && LinksInRange(ns0) && 0 <= g < |ns0| && ns0[g].rightChild != Nil
    requires ns0[ns0[g].rightChild].leftChild != Nil
  {
    var p := ns0[g].rightChild;
    && |nsm| == |ns0|
    && RightRotationFields(ns0, ks0, p, nsm[g := ns0[g]], ksm)
    && nsm[g] == ns0[g].(rightChild := ns0[p].leftChild)
  }

  /** The first half of rb.cpp's right-left rotation reaches that state. */
  lemma RightLeftFirstHalfIsHalfway(ns0: seq<RBNode>, ks0: seq<set<int>>, root: int, g: int)
    requires Structure(ns0, ks0, root) && 0 <= g < |ns0| && ns0[g].rightChild != Nil
    requires ns0[ns0[g].rightChild].leftChild != Nil
    ensures RightLeftHalfway(ns0, ks0, g, RightLeftFirstHalf(ns0, g), RightLeftHalfwayKeys(ns0, ks0, g))
  {
    ZigZagNodes(ns0, ks0, root, g, false);
  }

  /** Halfway through the right-left rotation the arena is well formed. */
  lemma RightLeftHalfwayStructure(ns0: seq<RBNode>, ks0: seq<set<int>>, root: int, g: int, nsm: seq<RBNode>, ksm: seq<set<int>>)
    requires Structure(ns0, ks0, root) && 0 <= g < |ns0| && ns0[g].rightChild != Nil
    requires ns0[ns0[g].rightChild].leftChild != Nil
    requires RightLeftHalfway(ns0, ks0, g, nsm, ksm)
    ensures Structure(nsm, ksm, root) && Sub(nsm, ksm, root) == Sub(ns0, ks0, root)
  {
    var p := ns0[g].rightChild;
    ZigZagNodes(ns0, ks0, root, g, false);
    RightRotationRelinked(ns0, ks0, root, p, nsm[g := ns0[g]], ksm, nsm, root);
  }

  /** Halfway through the right-left rotation, the subtree at `g`'s right
      child has been rotated right and nothing else `Abs` reads has moved. */
  lemma RightLeftHalfwayRotated(ns0: seq<RBNode>, ks0: seq<set<int>>, root: int, g: int, nsm: seq<RBNode>, ksm: seq<set<int>>)
    requires Structure(ns0, ks0, root) && 0 <= g < |ns0| && ns0[g].rightChild != Nil
    requires ns0[ns0[g].rightChild].leftChild != Nil
    requires RightLeftHalfway(ns0, ks0, g, nsm, ksm)
    ensures RotatedRight(ns0, ks0, ns0[g].rightChild, nsm, ksm)
    ensures OrderedBelow(nsm, ksm, ns0[g].leftChild)
    ensures Abs(nsm, ksm, ns0[g].leftChild) == Abs(ns0, ks0, ns0[g].leftChild)
  {
    var p := ns0[g].rightChild;
    NodeFacts(ns0, ks0, root, g);
    NodeFacts(ns0, ks0, root, p);
    var x, d := ns0[p].leftChild, ns0[g].leftChild;
    NodeFacts(ns0, ks0, root, x);
    RightRotationFieldsShape(ns0, ks0, root, p, nsm[g := ns0[g]], ksm);
    assert Ordered(ns0, ks0, g) && Ordered(ns0, ks0, p);
    assert ns0[g].data in ks0[g] && ns0[g].data !in ks0[p];
    StructureOrderedBelow(ns0, ks0, root, d);
    SubtreeUnmoved(ns0, ks0, nsm, ksm, d, {g, p, x}, ns0[x].data, ns0[p].data);
  }

  /** Halfway through the right-left rotation the subtree at `g` reads as
      `g` over the right rotation of its old right subtree. */
  lemma RightLeftHalfwayAbs(ns0: seq<RBNode>, ks0: seq<set<int>>, root: int, g: int, nsm: seq<RBNode>, ksm: seq<set<int>>)
    requires Structure(ns0, ks0, root) && 0 <= g < |ns0| && ns0[g].rightChild != Nil
    requires ns0[ns0[g].rightChild].leftChild != Nil
    requires RightLeftHalfway(ns0, ks0, g, nsm, ksm)
    requires Structure(nsm, ksm, root)
    ensures var p := ns0[g].rightChild;
      Abs(nsm, ksm, g) == Node(ns0[g].isRed, Abs(ns0, ks0, ns0[g].leftChild), ns0[g].data,
                               RedBlackTree.RotateRight(Abs(ns0, ks0, p)))
  {
    var p := ns0[g].rightChild;
    RightLeftHalfwayRotated(ns0, ks0, root, g, nsm, ksm);
    RotateRightAbs(ns0, ks0, root, p, nsm, ksm);
    StructureOrderedBelow(nsm, ksm, root, g);
    assert Ordered(nsm, ksm, g);
  }

  /** rb.cpp:559-568, the second half of the right-left rotation about `g`,
      with the link updates in the source's order: a left rotation about
      `g` whose new subtree root finally takes `g`'s old parent link. */
  ghost function RightLeftSecondHalf(ns: seq<RBNode>, g: int, x: int, originParent: int): seq<RBNode>
    requires 0 <= g < |ns| && 0 <= x < |ns| && x != g && IsRef(ns, ns[x].leftChild)
  {
    var n1 := ns[g := ns[g].(rightChild := ns[x].leftChild)];
    var n2 := if n1[x].leftChild != Nil then n1[n1[x].leftChild := n1[n1[x].leftChild].(parentNd := g)] else n1;
    var n3 := n2[x := n2[x].(leftChild := g)];
    var n4 := n3[g := n3[g].(parentNd := x)];
    n4[x := n4[x].(parentNd := originParent)]
  }

  /** The second half of rb.cpp's right-left rotation is the left rotation
      about `g`. */
  lemma RightLeftSecondHalfIsRotation(nsm: seq<RBNode>, ksm: seq<set<int>>, root: int, g: int, ks2: seq<set<int>>)
    requires Structure(nsm, ksm, root) && 0 <= g < |nsm| && nsm[g].rightChild != Nil && nsm[g].rightChild != g
    requires ks2 == ksm[g := Sub(nsm, ksm, nsm[g].leftChild) + {nsm[g].data}
                             + Sub(nsm, ksm, nsm[nsm[g].rightChild].leftChild)]
                       [nsm[g].rightChild := ksm[g]]
    ensures LeftRotationFields(nsm, ksm, g, RightLeftSecondHalf(nsm, g, nsm[g].rightChild, nsm[g].parentNd), ks2)
  {
    NodeFacts(nsm, ksm, root, g);
    NodeFacts(nsm, ksm, root, nsm[g].rightChild);
  }

  /** The right-left rotation about `g`, taken in its two halves, reads as
      the right-left rotation of the tree at `g`. */
  lemma RightLeftAbs(ns0: seq<RBNode>, ks0: seq<set<int>>, root: int, g: int, nsm: seq<RBNode>, ksm: seq<set<int>>,
                     ns2: seq<RBNode>, ks2: seq<set<int>>)
    requires Structure(ns0, ks0, root) && 0 <= g < |ns0| && ns0[g].rightChild != Nil
    requires ns0[ns0[g].rightChild].leftChild != Nil
    requires RightLeftHalfway(ns0, ks0, g, nsm, ksm) && Structure(nsm, ksm, root)
    requires nsm[g].rightChild != Nil && LeftRotationFields(nsm, ksm, g, ns2, ks2)
    ensures var t := Abs(ns0, ks0, g);
      && t.Node? && t.right.Node? && t.right.left.Node?
      && OrderedBelow(ns2, ks2, nsm[g].rightChild)
      && Abs(ns2, ks2, nsm[g].rightChild) == RedBlackTree.RotateRightLeft(t)
  {
    var p := ns0[g].rightChild;
    ZigZagNodes(ns0, ks0, root, g, false);
    RightLeftHalfwayAbs(ns0, ks0, root, g, nsm, ksm);
    LeftRotationFieldsShape(nsm, ksm, root, g, ns2, ks2);
    RotateLeftAbs(nsm, ksm, root, g, ns2, ks2);
    StructureOrderedBelow(ns0, ks0, root, g);
    StructureOrderedBelow(ns0, ks0, root, p);
    assert Ordered(ns0, ks0, g) && Ordered(ns0, ks0, p);
    RotateRightLeftIsComposite(Abs(ns0, ks0, g));
  }

  /** The key sets after the right-left rotation about `g`, from those
      halfway. */
  ghost function RightLeftKeys(nsm: seq<RBNode>, ksm: seq<set<int>>, g: int): seq<set<int>>
    requires |ksm| == |nsm| && 0 <= g < |nsm| && IsRef(nsm, nsm[g].leftChild)
    requires 0 <= nsm[g].rightChild < |nsm| && IsRef(nsm, nsm[nsm[g].rightChild].leftChild)
  {
    ksm[g := Sub(nsm, ksm, nsm[g].leftChild) + {nsm[g].data} + Sub(nsm, ksm, nsm[nsm[g].rightChild].leftChild)]
       [nsm[g].rightChild := ksm[g]]
  }
}
