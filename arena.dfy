/** The node arena that stands for rb.cpp's heap of `RBNode<T>` records: node
    `i` is `ns[i]`, every link is an index into `ns`, and `Nil` is nullptr.

    Two ghost annotations run beside the arena: `ks[i]`, the set of keys in
    the subtree of node `i`, and `bh[i]`, the black height below node `i`.
    With them every invariant of the tree is local to one node and its
    neighbours, and `Abs` maps the arena to the `Tree` value it denotes. */
module RBArena {
  import opened RedBlackTree

  /** `nullptr`. */
  const Nil: int := -1

  /** One `RBNode<T>`: the key, the two child links, the parent link and the colour. */
  datatype RBNode = RBNode(data: int, leftChild: int, rightChild: int, parentNd: int, isRed: bool)

  /** `p` is null or the index of a node. */
  predicate IsRef(ns: seq<RBNode>, p: int)
  {
    p == Nil || 0 <= p < |ns|
  }

  /** The key set recorded for the subtree at `p`; empty for null. */
  ghost function Sub(ns: seq<RBNode>, ks: seq<set<int>>, p: int): set<int>
    requires |ks| == |ns| && IsRef(ns, p)
  {
    if p == Nil then {} else ks[p]
  }

  /** Node `i` records the key set of its subtree, and its key lies above every
      key on its left and below every key on its right. */
  ghost predicate Ordered(ns: seq<RBNode>, ks: seq<set<int>>, i: int)
    requires |ks| == |ns| && 0 <= i < |ns|
  {
    var n := ns[i];
    && IsRef(ns, n.leftChild) && IsRef(ns, n.rightChild)
    && ks[i] == Sub(ns, ks, n.leftChild) + {n.data} + Sub(ns, ks, n.rightChild)
    && (forall k :: k in Sub(ns, ks, n.leftChild) ==> k < n.data)
    && (forall k :: k in Sub(ns, ks, n.rightChild) ==> n.data < k)
  }

  /** The links of node `i` agree with those of its children and its parent,
      and only the root has no parent. */
  ghost predicate Linked(ns: seq<RBNode>, root: int, i: int)
    requires 0 <= i < |ns|
  {
    var n := ns[i];
    && IsRef(ns, n.leftChild) && IsRef(ns, n.rightChild) && IsRef(ns, n.parentNd)
    && (n.leftChild != Nil ==> ns[n.leftChild].parentNd == i)
    && (n.rightChild != Nil ==> ns[n.rightChild].parentNd == i)
    && (n.parentNd == Nil <==> i == root)
    && (n.parentNd != Nil ==> ns[n.parentNd].leftChild == i || ns[n.parentNd].rightChild == i)
  }

  /** Every link of every node is null or names a node. */
  predicate LinksInRange(ns: seq<RBNode>)
  {
    forall i :: 0 <= i < |ns| ==>
      IsRef(ns, ns[i].leftChild) && IsRef(ns, ns[i].rightChild) && IsRef(ns, ns[i].parentNd)
  }

  /** The arena is one binary search tree rooted at `root`, with consistent
      parent and child links and truthful key-set annotations. */
  ghost predicate Structure(ns: seq<RBNode>, ks: seq<set<int>>, root: int)
  {
    && |ks| == |ns| && IsRef(ns, root) && (root == Nil <==> |ns| == 0)
    && LinksInRange(ns)
    && (forall i :: 0 <= i < |ns| ==> Linked(ns, root, i) && Ordered(ns, ks, i))
    && (forall i :: 0 <= i < |ns| ==> ks[i] <= Sub(ns, ks, root))
  }

  /** A node is neither its own child nor its own parent, its two children
      differ, and each child's key set is a proper part of its own. */
  lemma NodeFacts(ns: seq<RBNode>, ks: seq<set<int>>, root: int, i: int)
    requires Structure(ns, ks, root) && 0 <= i < |ns|
    ensures var n := ns[i];
      && IsRef(ns, n.leftChild) && IsRef(ns, n.rightChild) && IsRef(ns, n.parentNd)
      && n.data in ks[i]
      && n.leftChild != i && n.rightChild != i && n.parentNd != i
      && (n.leftChild != Nil ==> n.leftChild != n.rightChild && ks[n.leftChild] < ks[i])
      && (n.rightChild != Nil ==> ks[n.rightChild] < ks[i])
  {
    var n := ns[i];
    assert Linked(ns, root, i) && Ordered(ns, ks, i);
    if n.leftChild != Nil {
      assert Ordered(ns, ks, n.leftChild);
      assert ns[n.leftChild].data in ks[n.leftChild];
    }
    if n.rightChild != Nil {
      assert Ordered(ns, ks, n.rightChild);
      assert ns[n.rightChild].data in ks[n.rightChild];
    }
    if n.parentNd != Nil {
      assert Linked(ns, root, n.parentNd) && Ordered(ns, ks, n.parentNd);
    }
  }

  /** A node's key set is a proper part of its parent's: walking up from a
      node strictly grows the key set. */
  lemma ParentKeys(ns: seq<RBNode>, ks: seq<set<int>>, root: int, i: int)
    requires Structure(ns, ks, root) && 0 <= i < |ns| && ns[i].parentNd != Nil
    ensures 0 <= ns[i].parentNd < |ns| && ks[i] < ks[ns[i].parentNd]
  {
    NodeFacts(ns, ks, root, i);
    assert Linked(ns, root, i);
    NodeFacts(ns, ks, root, ns[i].parentNd);
  }

  /** Every node whose key set lies within that of `p` is `Ordered`: enough
      to read the subtree at `p` as a `Tree`. */
  ghost predicate OrderedBelow(ns: seq<RBNode>, ks: seq<set<int>>, p: int)
    requires |ks| == |ns| && IsRef(ns, p)
  {
    p != Nil ==> forall j :: 0 <= j < |ns| && ks[j] <= ks[p] ==> Ordered(ns, ks, j)
  }

  /** The tree the arena denotes from `p` down. */
  ghost function Abs(ns: seq<RBNode>, ks: seq<set<int>>, p: int): (t: Tree)
    requires |ks| == |ns| && IsRef(ns, p) && OrderedBelow(ns, ks, p)
    ensures Keys(t) == Sub(ns, ks, p)
    ensures IsBST(t)
    ensures t.Node? <==> p != Nil
    decreases Sub(ns, ks, p)
  {
    if p == Nil then Leaf
    else
      var n := ns[p];
      assert Ordered(ns, ks, p);
      assert n.data in ks[p];
      assert Sub(ns, ks, n.leftChild) < ks[p] && Sub(ns, ks, n.rightChild) < ks[p];
      Node(n.isRed, Abs(ns, ks, n.leftChild), n.data, Abs(ns, ks, n.rightChild))
  }

  lemma StructureOrderedBelow(ns: seq<RBNode>, ks: seq<set<int>>, root: int, p: int)
    requires Structure(ns, ks, root) && IsRef(ns, p)
    ensures OrderedBelow(ns, ks, p)
  {
  }

  /** Nodes `j` of the two arenas agree on everything `Abs` reads when their
      key set lies within `s`. */
  ghost predicate AgreeWithin(ns1: seq<RBNode>, ks1: seq<set<int>>, ns2: seq<RBNode>, ks2: seq<set<int>>, s: set<int>)
    requires |ks1| == |ns1| == |ns2| == |ks2|
  {
    forall j :: 0 <= j < |ns1| && (ks1[j] <= s || ks2[j] <= s) ==>
      && ks1[j] == ks2[j]
      && ns1[j].data == ns2[j].data && ns1[j].isRed == ns2[j].isRed
      && ns1[j].leftChild == ns2[j].leftChild && ns1[j].rightChild == ns2[j].rightChild
  }

  /** `Abs` of a subtree only depends on the nodes of that subtree, and not on
      their parent links. */
  lemma {:induction false} AbsFrame(ns1: seq<RBNode>, ks1: seq<set<int>>, ns2: seq<RBNode>, ks2: seq<set<int>>, p: int)
    requires |ks1| == |ns1| == |ns2| == |ks2| && IsRef(ns1, p)
    requires OrderedBelow(ns1, ks1, p)
    requires AgreeWithin(ns1, ks1, ns2, ks2, Sub(ns1, ks1, p))
    ensures OrderedBelow(ns2, ks2, p) && Abs(ns2, ks2, p) == Abs(ns1, ks1, p)
    decreases Sub(ns1, ks1, p)
  {
    if p != Nil {
      var s := ks1[p];
      assert ks2[p] == s;
      forall j | 0 <= j < |ns2| && ks2[j] <= s
        ensures Ordered(ns2, ks2, j)
      {
        assert Ordered(ns1, ks1, j);
        var l, r := ns1[j].leftChild, ns1[j].rightChild;
        assert l != Nil ==> ks1[l] <= ks1[j] && ks2[l] == ks1[l];
        assert r != Nil ==> ks1[r] <= ks1[j] && ks2[r] == ks1[r];
      }
      var n := ns1[p];
      assert Ordered(ns1, ks1, p);
      assert n.data in s;
      AbsFrame(ns1, ks1, ns2, ks2, n.leftChild);
      AbsFrame(ns1, ks1, ns2, ks2, n.rightChild);
    }
  }

  // ---------------------------------------------------------------------
  // Colours

  /** The black height of the subtree at `p` seen from its parent: 0 for
      null, else the height below `p` plus one when `p` is black. */
  ghost function BH(ns: seq<RBNode>, bh: seq<nat>, p: int): nat
    requires |bh| == |ns| && IsRef(ns, p)
  {
    if p == Nil then 0 else bh[p] + (if ns[p].isRed then 0 else 1)
  }

  /** Both subtrees of node `i` have the black height recorded for `i`. */
  ghost predicate Balanced(ns: seq<RBNode>, bh: seq<nat>, i: int)
    requires |bh| == |ns| && 0 <= i < |ns|
  {
    var n := ns[i];
    && IsRef(ns, n.leftChild) && IsRef(ns, n.rightChild)
    && BH(ns, bh, n.leftChild) == bh[i] && BH(ns, bh, n.rightChild) == bh[i]
  }

  /** `c` is null, black, or the one node allowed to be red below a red parent. */
  predicate NotRedUnless(ns: seq<RBNode>, c: int, exempt: int)
    requires IsRef(ns, c)
  {
    c == Nil || c == exempt || !ns[c].isRed
  }

  /** A red node `i` has no red child other than `exempt`. */
  ghost predicate RedOK(ns: seq<RBNode>, i: int, exempt: int)
    requires 0 <= i < |ns|
  {
    var n := ns[i];
    && IsRef(ns, n.leftChild) && IsRef(ns, n.rightChild)
    && (n.isRed ==> NotRedUnless(ns, n.leftChild, exempt) && NotRedUnless(ns, n.rightChild, exempt))
  }

  /** The colour invariants, except that the edge into `exempt` may join two
      red nodes (`exempt == Nil`: no exception). */
  ghost predicate Colours(ns: seq<RBNode>, bh: seq<nat>, exempt: int)
  {
    |bh| == |ns| && forall i :: 0 <= i < |ns| ==> Balanced(ns, bh, i) && RedOK(ns, i, exempt)
  }

  lemma {:induction false} AbsColours(ns: seq<RBNode>, ks: seq<set<int>>, bh: seq<nat>, p: int)
    requires |ks| == |ns| && IsRef(ns, p) && OrderedBelow(ns, ks, p) && Colours(ns, bh, Nil)
    ensures BlackBalanced(Abs(ns, ks, p)) && NoRedRed(Abs(ns, ks, p))
    ensures BlackHeight(Abs(ns, ks, p)) == BH(ns, bh, p)
    ensures IsRed(Abs(ns, ks, p)) == (p != Nil && ns[p].isRed)
    decreases Sub(ns, ks, p)
  {
    if p != Nil {
      var n := ns[p];
      assert Ordered(ns, ks, p) && Balanced(ns, bh, p) && RedOK(ns, p, Nil);
      assert n.data in ks[p];
      AbsColours(ns, ks, bh, n.leftChild);
      AbsColours(ns, ks, bh, n.rightChild);
    }
  }

  /** A well-formed arena whose colours keep every invariant denotes a
      red-black tree holding exactly the recorded keys. */
  lemma ArenaIsRedBlack(ns: seq<RBNode>, ks: seq<set<int>>, bh: seq<nat>, root: int)
    requires Structure(ns, ks, root) && Colours(ns, bh, Nil)
    requires root != Nil ==> !ns[root].isRed
    ensures IsRedBlack(Abs(ns, ks, root))
    ensures Keys(Abs(ns, ks, root)) == Sub(ns, ks, root)
  {
    AbsColours(ns, ks, bh, root);
  }

  // ---------------------------------------------------------------------
  // The search for an insertion point

  /** The child of node `j` toward which the search for `e` descends
      (rb.cpp:262-269). */
  function Toward(ns: seq<RBNode>, j: int, e: int): int
    requires 0 <= j < |ns|
  {
    if e > ns[j].data then ns[j].rightChild else ns[j].leftChild
  }

  /** `path` lists the nodes visited, from the root, while searching for `e`;
      none holds `e`, and the search has arrived at `point`. */
  ghost predicate IsSearchPath(ns: seq<RBNode>, root: int, e: int, path: seq<int>, point: int)
  {
    && (forall k :: 0 <= k < |path| ==> 0 <= path[k] < |ns| && ns[path[k]].data != e)
    && (if path == [] then point == root else path[0] == root)
    && (forall k {:trigger Toward(ns, path[k], e)} :: 0 <= k < |path| ==>
          Toward(ns, path[k], e) == if k + 1 < |path| then path[k + 1] else point)
  }
}
