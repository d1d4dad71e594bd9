/** `RBTree<T>` of rb.cpp (namespace `_nmsp1`): insertion with rebalancing,
    over the node arena of arena.dfy. Keys are integers. */
module RB {
  import opened RedBlackTree
  import opened RBArena
  import opened RBRotate
  import opened RBBalance
  import opened RBInsert

  class RBTree {
    /** The heap of `RBNode<T>` records; links are indices into it. */
    var nodes: seq<RBNode>
    /** `RBTree<T>::root` (rb.cpp:581). */
    var root: int
    /** Ghost: the key set of the subtree below each node. */
    ghost var keys: seq<set<int>>
    /** Ghost: the black height below each node. */
    ghost var bh: seq<nat>

    /** The red-black invariants of rb.cpp:4-7 over the arena. */
    ghost predicate Valid()
      reads this
    {
      && Structure(nodes, keys, root)
      && Colours(nodes, bh, Nil)
      && (root != Nil ==> !nodes[root].isRed)
    }

    /** The tree the arena denotes. */
    ghost function Model(): Tree
      reads this
      requires Valid()
    {
      Abs(nodes, keys, root)
    }

    /** rb.cpp:172-175: the empty tree. */
    constructor ()
      ensures Valid() && Model() == Leaf
    {
      nodes, root := [], Nil;
      keys, bh := [], [];
    }

    // -------------------------------------------------------------------
    // Rotations (rb.cpp:447-569). Each takes the root of a subtree and
    // returns the new root of that subtree, whose parent link already names
    // the old root's parent; the caller rewrites that parent's child link
    // (or `root`).


    /** rb.cpp:448-467: the left rotation about `point`; `top` is the new
        subtree root. */
    method RotateLeft(point: int) returns (top: int)
      requires Structure(nodes, keys, root)
      requires 0 <= point < |nodes| && nodes[point].rightChild != Nil
      modifies this
      ensures top == old(nodes[point].rightChild)
      ensures root == old(root) && bh == old(bh)
      ensures LeftRotationFields(old(nodes), old(keys), point, nodes, keys)
      ensures OrderedBelow(nodes, keys, top)
      ensures Abs(nodes, keys, top) == RedBlackTree.RotateLeft(old(Abs(nodes, keys, point)))
    {
      ghost var ns0, ks0 := nodes, keys;
      NodeFacts(nodes, keys, root, point);
      NodeFacts(nodes, keys, root, nodes[point].rightChild);
      var ptmproot := point;
      top := nodes[ptmproot].rightChild;
      nodes := nodes[top := nodes[top].(parentNd := nodes[ptmproot].parentNd)];
      nodes := nodes[ptmproot := nodes[ptmproot].(rightChild := nodes[top].leftChild)];
      if nodes[top].leftChild != Nil {
        var b := nodes[top].leftChild;
        nodes := nodes[b := nodes[b].(parentNd := ptmproot)];
      }
      nodes := nodes[top := nodes[top].(leftChild := ptmproot)];
      nodes := nodes[ptmproot := nodes[ptmproot].(parentNd := top)];
      assert nodes == LeftRotationSteps(ns0, point, top);
      keys := keys[ptmproot := Sub(ns0, ks0, ns0[point].leftChild) + {ns0[point].data}
                               + Sub(ns0, ks0, ns0[top].leftChild)]
                  [top := ks0[point]];
      LeftRotationStepsFields(ns0, ks0, root, point, keys);
      LeftRotationFieldsShape(ns0, ks0, root, point, nodes, keys);
      RotateLeftAbs(ns0, ks0, root, point, nodes, keys);
    }

    /** rb.cpp:492-528: the left-right rotation about `point`, in the
        source's two halves. `mid` is the arena halfway, after the left
        rotation about `point`'s left child; the second half is the right
        rotation about `point` in `mid`. `top` is the new subtree root. */
    method RotateLeftRight(point: int) returns (top: int, ghost mid: seq<RBNode>, ghost midKeys: seq<set<int>>)
      requires Structure(nodes, keys, root)
      requires 0 <= point < |nodes| && nodes[point].leftChild != Nil
      requires nodes[nodes[point].leftChild].rightChild != Nil
      modifies this
      ensures top == old(nodes[nodes[point].leftChild].rightChild)
      ensures root == old(root) && bh == old(bh)
      ensures LeftRightHalfway(old(nodes), old(keys), point, mid, midKeys)
      ensures Structure(mid, midKeys, root) && mid[point].leftChild == top
      ensures RightRotationFields(mid, midKeys, point, nodes, keys)
      ensures var t := old(Abs(nodes, keys, point));
        && t.Node? && t.left.Node? && t.left.right.Node?
        && OrderedBelow(nodes, keys, top)
        && Abs(nodes, keys, top) == RedBlackTree.RotateLeftRight(t)
    {
      ghost var ns0, ks0 := nodes, keys;
      var ptmptroot := point;
      var ptmptrootLeft := nodes[ptmptroot].leftChild;
      top := nodes[ptmptrootLeft].rightChild;
      var originParent := nodes[ptmptroot].parentNd;
      RotateLeftRightFirstHalf(ptmptroot, ptmptrootLeft, top);
      mid, midKeys := nodes, keys;
      RotateLeftRightSecondHalf(ptmptroot, top, originParent);
      LeftRightAbs(ns0, ks0, root, point, mid, midKeys, nodes, keys);
    }

    /** rb.cpp:506-515: the first half of the left-right rotation about
        `g`, the left rotation about its left child `p`, whose right child
        `x` is linked in as `g`'s left child. */
    method RotateLeftRightFirstHalf(g: int, p: int, x: int)
      requires Structure(nodes, keys, root)
      requires 0 <= g < |nodes| && p == nodes[g].leftChild != Nil && x == nodes[p].rightChild != Nil
      modifies this
      ensures root == old(root) && bh == old(bh)
      ensures LeftRightHalfway(old(nodes), old(keys), g, nodes, keys)
      ensures Structure(nodes, keys, root) && nodes[g].leftChild == x && nodes[g].parentNd == old(nodes[g].parentNd)
      ensures x != g && IsRef(nodes, nodes[x].rightChild)
    {
      ghost var ns0, ks0 := nodes, keys;
      ZigZagNodes(nodes, keys, root, g, true);
      var ptmptroot, ptmptrootLeft, point := g, p, x;
      nodes := nodes[ptmptroot := nodes[ptmptroot].(leftChild := point)];
      nodes := nodes[point := nodes[point].(parentNd := ptmptroot)];
      nodes := nodes[ptmptrootLeft := nodes[ptmptrootLeft].(rightChild := nodes[point].leftChild)];
      if nodes[point].leftChild != Nil {
        var b := nodes[point].leftChild;
        nodes := nodes[b := nodes[b].(parentNd := ptmptrootLeft)];
      }
      nodes := nodes[point := nodes[point].(leftChild := ptmptrootLeft)];
      nodes := nodes[ptmptrootLeft := nodes[ptmptrootLeft].(parentNd := point)];
      assert nodes == LeftRightFirstHalf(ns0, g);
      keys := LeftRightHalfwayKeys(ns0, ks0, g);
      LeftRightFirstHalfIsHalfway(ns0, ks0, root, g);
      LeftRightHalfwayStructure(ns0, ks0, root, g, nodes, keys);
    }

    /** rb.cpp:518-527: the second half of the left-right rotation about
        `g`, the right rotation about `g` with its left child `x`, where
        `x` takes `g`'s old parent `originParent` last. */
    method RotateLeftRightSecondHalf(g: int, x: int, originParent: int)
      requires Structure(nodes, keys, root)
      requires 0 <= g < |nodes| && x == nodes[g].leftChild != Nil && originParent == nodes[g].parentNd
      modifies this
      ensures root == old(root) && bh == old(bh)
      ensures RightRotationFields(old(nodes), old(keys), g, nodes, keys)
    {
      ghost var ns0, ks0 := nodes, keys;
      NodeFacts(nodes, keys, root, g);
      NodeFacts(nodes, keys, root, x);
      var ptmptroot, point := g, x;
      nodes := nodes[ptmptroot := nodes[ptmptroot].(leftChild := nodes[point].rightChild)];
      if nodes[point].rightChild != Nil {
        var c := nodes[point].rightChild;
        nodes := nodes[c := nodes[c].(parentNd := ptmptroot)];
      }
      nodes := nodes[point := nodes[point].(rightChild := ptmptroot)];
      nodes := nodes[ptmptroot := nodes[ptmptroot].(parentNd := point)];
      nodes := nodes[point := nodes[point].(parentNd := originParent)];
      assert nodes == LeftRightSecondHalf(ns0, g, x, originParent);
      keys := LeftRightKeys(ns0, ks0, g);
      LeftRightSecondHalfIsRotation(ns0, ks0, root, g, keys);
    }

    /** rb.cpp:470-489: the right rotation about `point`; `top` is the new
        subtree root. */
    method RotateRight(point: int) returns (top: int)
      requires Structure(nodes, keys, root)
      requires 0 <= point < |nodes| && nodes[point].leftChild != Nil
      modifies this
      ensures top == old(nodes[point].leftChild)
      ensures root == old(root) && bh == old(bh)
      ensures RightRotationFields(old(nodes), old(keys), point, nodes, keys)
      ensures OrderedBelow(nodes, keys, top)
      ensures Abs(nodes, keys, top) == RedBlackTree.RotateRight(old(Abs(nodes, keys, point)))
    {
      ghost var ns0, ks0 := nodes, keys;
      NodeFacts(nodes, keys, root, point);
      NodeFacts(nodes, keys, root, nodes[point].leftChild);
      var ptmproot := point;
      top := nodes[ptmproot].leftChild;
      nodes := nodes[top := nodes[top].(parentNd := nodes[ptmproot].parentNd)];
      nodes := nodes[ptmproot := nodes[ptmproot].(leftChild := nodes[top].rightChild)];
      if nodes[top].rightChild != Nil {
        var b := nodes[top].rightChild;
        nodes := nodes[b := nodes[b].(parentNd := ptmproot)];
      }
      nodes := nodes[top := nodes[top].(rightChild := ptmproot)];
      nodes := nodes[ptmproot := nodes[ptmproot].(parentNd := top)];
      assert nodes == RightRotationSteps(ns0, point, top);
      keys := keys[ptmproot := Sub(ns0, ks0, ns0[point].rightChild) + {ns0[point].data}
                               + Sub(ns0, ks0, ns0[top].rightChild)]
                  [top := ks0[point]];
      RightRotationStepsFields(ns0, ks0, root, point, keys);
      RightRotationFieldsShape(ns0, ks0, root, point, nodes, keys);
      RotateRightAbs(ns0, ks0, root, point, nodes, keys);
    }

    /** rb.cpp:531-569: the right-left rotation about `point`, in the
        source's two halves. `mid` is the arena halfway, after the right
        rotation about `point`'s right child; the second half is the left
        rotation about `point` in `mid`. `top` is the new subtree root. */
    method RotateRightLeft(point: int) returns (top: int, ghost mid: seq<RBNode>, ghost midKeys: seq<set<int>>)
      requires Structure(nodes, keys, root)
      requires 0 <= point < |nodes| && nodes[point].rightChild != Nil
      requires nodes[nodes[point].rightChild].leftChild != Nil
      modifies this
      ensures top == old(nodes[nodes[point].rightChild].leftChild)
      ensures root == old(root) && bh == old(bh)
      ensures RightLeftHalfway(old(nodes), old(keys), point, mid, midKeys)
      ensures Structure(mid, midKeys, root) && mid[point].rightChild == top
      ensures LeftRotationFields(mid, midKeys, point, nodes, keys)
      ensures var t := old(Abs(nodes, keys, point));
        && t.Node? && t.right.Node? && t.right.left.Node?
        && OrderedBelow(nodes, keys, top)
        && Abs(nodes, keys, top) == RedBlackTree.RotateRightLeft(t)
    {
      ghost var ns0, ks0 := nodes, keys;
      var ptmptroot := point;
      var ptmptrootLeft := nodes[ptmptroot].rightChild;
      top := nodes[ptmptrootLeft].leftChild;
      var originParent := nodes[ptmptroot].parentNd;
      RotateRightLeftFirstHalf(ptmptroot, ptmptrootLeft, top);
      mid, midKeys := nodes, keys;
      RotateRightLeftSecondHalf(ptmptroot, top, originParent);
      RightLeftAbs(ns0, ks0, root, point, mid, midKeys, nodes, keys);
    }

    /** rb.cpp:547-556: the first half of the right-left rotation about
        `g`, the right rotation about its right child `p`, whose left child
        `x` is linked in as `g`'s right child. */
    method RotateRightLeftFirstHalf(g: int, p: int, x: int)
      requires Structure(nodes, keys, root)
      requires 0 <= g < |nodes| && p == nodes[g].rightChild != Nil && x == nodes[p].leftChild != Nil
      modifies this
      ensures root == old(root) && bh == old(bh)
      ensures RightLeftHalfway(old(nodes), old(keys), g, nodes, keys)
      ensures Structure(nodes, keys, root) && nodes[g].rightChild == x && nodes[g].parentNd == old(nodes[g].parentNd)
      ensures x != g && IsRef(nodes, nodes[x].leftChild)
    {
      ghost var ns0, ks0 := nodes, keys;
      ZigZagNodes(nodes, keys, root, g, false);
      var ptmptroot, ptmptrootLeft, point := g, p, x;
      nodes := nodes[ptmptroot := nodes[ptmptroot].(rightChild := point)];
      nodes := nodes[point := nodes[point].(parentNd := ptmptroot)];
      nodes := nodes[ptmptrootLeft := nodes[ptmptrootLeft].(leftChild := nodes[point].rightChild)];
      if nodes[point].rightChild != Nil {
        var b := nodes[point].rightChild;
        nodes := nodes[b := nodes[b].(parentNd := ptmptrootLeft)];
      }
      nodes := nodes[point := nodes[point].(rightChild := ptmptrootLeft)];
      nodes := nodes[ptmptrootLeft := nodes[ptmptrootLeft].(parentNd := point)];
      assert nodes == RightLeftFirstHalf(ns0, g);
      keys := RightLeftHalfwayKeys(ns0, ks0, g);
      RightLeftFirstHalfIsHalfway(ns0, ks0, root, g);
      RightLeftHalfwayStructure(ns0, ks0, root, g, nodes, keys);
    }

    /** rb.cpp:559-568: the second half of the right-left rotation about
        `g`, the left rotation about `g` with its right child `x`, where
        `x` takes `g`'s old parent `originParent` last. */
    method RotateRightLeftSecondHalf(g: int, x: int, originParent: int)
      requires Structure(nodes, keys, root)
      requires 0 <= g < |nodes| && x == nodes[g].rightChild != Nil && originParent == nodes[g].parentNd
      modifies this
      ensures root == old(root) && bh == old(bh)
      ensures LeftRotationFields(old(nodes), old(keys), g, nodes, keys)
    {
      ghost var ns0, ks0 := nodes, keys;
      NodeFacts(nodes, keys, root, g);
      NodeFacts(nodes, keys, root, x);
      var ptmptroot, point := g, x;
      nodes := nodes[ptmptroot := nodes[ptmptroot].(rightChild := nodes[point].leftChild)];
      if nodes[point].leftChild != Nil {
        var c := nodes[point].leftChild;
        nodes := nodes[c := nodes[c].(parentNd := ptmptroot)];
      }
      nodes := nodes[point := nodes[point].(leftChild := ptmptroot)];
      nodes := nodes[ptmptroot := nodes[ptmptroot].(parentNd := point)];
      nodes := nodes[point := nodes[point].(parentNd := originParent)];
      assert nodes == RightLeftSecondHalf(ns0, g, x, originParent);
      keys := RightLeftKeys(ns0, ks0, g);
      RightLeftSecondHalfIsRotation(ns0, ks0, root, g, keys);
    }

    // -------------------------------------------------------------------
    // Insertion (rb.cpp:244-445)

    /** rb.cpp:437-445: the sibling of `p`, the child of `p`'s parent that is
        not `p`; null when there is none. The caller guarantees that `p` has
        a parent. */
    function GetBrotherNode(p: int): (b: int)
      reads this
      requires Structure(nodes, keys, root)
      requires 0 <= p < |nodes| && nodes[p].parentNd != Nil
      ensures IsRef(nodes, b) && b != p
      ensures {nodes[nodes[p].parentNd].leftChild, nodes[nodes[p].parentNd].rightChild} == {p, b}
      ensures b != Nil ==> nodes[b].parentNd == nodes[p].parentNd
    {
      NodeFacts(nodes, keys, root, p);
      assert Linked(nodes, root, p);
      var q := nodes[p].parentNd;
      NodeFacts(nodes, keys, root, q);
      assert Linked(nodes, root, q);
      if nodes[q].leftChild == p then nodes[q].rightChild else nodes[q].leftChild
    }

    /** rb.cpp:251-269: the search for `e` from the root. It finds `e`, or
        ends at null below `parent`, the last node of the search path
        (null for an empty tree). */
    method FindInsertPoint(e: int) returns (found: bool, parent: int, ghost path: seq<int>)
      requires Structure(nodes, keys, root)
      ensures found <==> e in Sub(nodes, keys, root)
      ensures !found ==> IsSearchPath(nodes, root, e, path, Nil)
      ensures !found ==> parent == if path == [] then Nil else path[|path| - 1]
    {
      var point := root;
      parent := Nil;
      path := [];
      while point != Nil
        invariant IsRef(nodes, point)
        invariant IsSearchPath(nodes, root, e, path, point)
        invariant parent == if path == [] then Nil else path[|path| - 1]
        invariant e in Sub(nodes, keys, root) <==> e in Sub(nodes, keys, point)
        decreases Sub(nodes, keys, point)
      {
        NodeFacts(nodes, keys, root, point);
        assert Ordered(nodes, keys, point);
        if e == nodes[point].data {
          return true, parent, path;
        }
        parent := point;
        path := path + [point];
        if e > nodes[point].data {
          point := nodes[point].rightChild;
        } else {
          point := nodes[point].leftChild;
        }
      }
      found := false;
    }

    /** rb.cpp:244-318: inserts `e`. A key already present leaves the tree
        as it is; otherwise a new red node is attached where the search
        ended (a black root for an empty tree) and the tree is rebalanced;
        the root is black at the end. */
    method InsertElem(e: int)
      requires Valid()
      modifies this
      ensures Valid()
      ensures Keys(Model()) == old(Keys(Model())) + {e}
      ensures IsRedBlack(Model())
      ensures e in old(Keys(Model())) ==> nodes == old(nodes) && root == old(root)
      ensures old(root) == Nil ==> Model() == Node(false, Leaf, e, Leaf)
    {
      ArenaIsRedBlack(nodes, keys, bh, root);
      var found, parent, path := FindInsertPoint(e);
      if found {
        return;
      }
      ghost var ns0, ks0 := nodes, keys;
      // rb.cpp:272-277; allocated once, after the search (see README)
      var point := |nodes|;
      nodes := nodes + [RBNode(e, Nil, Nil, Nil, true)];
      if parent == Nil {
        nodes := nodes[point := nodes[point].(isRed := false)];
        root := point;
        keys, bh := [{e}], [0];
        assert Linked(nodes, root, point) && Ordered(nodes, keys, point);
        ArenaIsRedBlack(nodes, keys, bh, root);
        return;
      }
      if e > nodes[parent].data {
        nodes := nodes[parent := nodes[parent].(rightChild := point)];
      } else {
        nodes := nodes[parent := nodes[parent].(leftChild := point)];
      }
      nodes := nodes[point := nodes[point].(parentNd := parent)];
      assert nodes == Attached(ns0, parent, e);
      keys, bh := AttachedKeys(ks0, path, e), bh + [0];
      AttachStructure(ns0, ks0, root, e, path);
      PathLinks(ns0, ks0, root, e, path, Nil);
      AttachColours(ns0, old(bh), parent, e);
      if !nodes[parent].isRed {
        ColoursSettle(nodes, keys, root, bh, point);
        ArenaIsRedBlack(nodes, keys, bh, root);
        return;
      }
      BalanceTree(point, parent);
      ghost var ns2 := nodes;
      nodes := nodes[root := nodes[root].(isRed := false)];
      BlackenRoot(ns2, keys, root, bh, nodes);
      ArenaIsRedBlack(nodes, keys, bh, root);
    }

    /** rb.cpp:320-434: repairs the one red-red edge, from the red `point`
        into its red `parent`: a red uncle moves it two levels up by
        repainting, a black or missing uncle removes it by a rotation. Keys
        and black heights below the root stay; only the root may be left
        red. */
    method BalanceTree(point: int, parent: int)
      requires Structure(nodes, keys, root) && Colours(nodes, bh, point)
      requires 0 <= point < |nodes| && nodes[point].isRed
      requires parent == nodes[point].parentNd != Nil && nodes[parent].isRed
      requires root != Nil && !nodes[root].isRed
      modifies this
      ensures Structure(nodes, keys, root) && Sub(nodes, keys, root) == old(Sub(nodes, keys, root))
      ensures root != Nil && Colours(nodes, bh, root)
    {
      ghost var all := Sub(nodes, keys, root);
      var point, parent := point, parent;
      while true
        invariant Structure(nodes, keys, root) && Sub(nodes, keys, root) == all
        invariant Colours(nodes, bh, point)
        invariant 0 <= point < |nodes| && nodes[point].isRed
        invariant parent == nodes[point].parentNd != Nil && nodes[parent].isRed
        invariant root != Nil && !nodes[root].isRed
        decreases all - Sub(nodes, keys, point)
      {
        NodeFacts(nodes, keys, root, parent);
        assert Linked(nodes, root, parent);
        var parentBroNode := if nodes[parent].parentNd != Nil then GetBrotherNode(parent) else Nil;
        var grandFatherNode := nodes[nodes[point].parentNd].parentNd;
        // rb.cpp:329-333: a red parent is not the root, so this is never null
        assert grandFatherNode != Nil;
        if parentBroNode != Nil && nodes[parentBroNode].isRed {
          Recolour(point, parent, parentBroNode, grandFatherNode);
          if grandFatherNode == root {
            break;
          }
          ParentKeys(nodes, keys, root, point);
          ParentKeys(nodes, keys, root, parent);
          assert keys[point] < keys[grandFatherNode] <= all;
          point := grandFatherNode;
          parent := nodes[point].parentNd;
          assert Linked(nodes, root, point);
          assert parent != Nil;
          if !nodes[parent].isRed {
            ColoursSettle(nodes, keys, root, bh, point);
            ColoursExempt(nodes, bh, root);
            break;
          }
        } else {
          ghost var mid, midKeys, ns1, ks1;
          var top;
          top, mid, midKeys, ns1, ks1 := BalanceByRotation(point, parent, grandFatherNode);
          ColoursExempt(nodes, bh, root);
          break;
        }
      }
    }

    /** rb.cpp:336-342, the red uncle `u`: the parent and the uncle are
        painted black and the grandparent `gp` red. The black height below
        `gp` grows by one, so the only red-red edge left may be the one from
        `gp` into its parent. */
    method Recolour(point: int, parent: int, u: int, gp: int)
      requires Structure(nodes, keys, root) && Colours(nodes, bh, point)
      requires 0 <= point < |nodes| && nodes[point].isRed
      requires parent == nodes[point].parentNd != Nil && nodes[parent].isRed
      requires gp == nodes[parent].parentNd != Nil
      requires u != Nil && u != parent && (nodes[gp].leftChild == u || nodes[gp].rightChild == u) && nodes[u].isRed
      modifies this
      ensures keys == old(keys) && root == old(root)
      ensures nodes == old(nodes)[parent := old(nodes[parent]).(isRed := false)]
                                 [u := old(nodes[u]).(isRed := false)]
                                 [gp := old(nodes[gp]).(isRed := true)]
      ensures bh == old(bh)[gp := old(bh[gp]) + 1]
      ensures Structure(nodes, keys, root) && Sub(nodes, keys, root) == old(Sub(nodes, keys, root))
      ensures Colours(nodes, bh, gp)
    {
      ghost var ns0, bh0 := nodes, bh;
      nodes := nodes[parent := nodes[parent].(isRed := false)];
      nodes := nodes[u := nodes[u].(isRed := false)];
      nodes := nodes[gp := nodes[gp].(isRed := true)];
      bh := bh[gp := bh[gp] + 1];
      RecolourColours(ns0, keys, root, bh0, gp, parent, u, point, nodes, bh);
    }

    /** rb.cpp:366-428, the black or missing uncle: a single or double
        rotation about the grandparent `gp`, whose new top `top` is painted
        black and `gp`, now its child, red; then `top` takes `gp`'s place
        below `gp`'s old parent, or as the root. The rotation is done and
        the loop left in every case (see README). `ns1`/`ks1` are the
        records right after the rotation, and `mid`/`midKeys` those halfway
        through a double rotation. */
    method BalanceByRotation(point: int, parent: int, gp: int)
      returns (top: int, ghost mid: seq<RBNode>, ghost midKeys: seq<set<int>>,
               ghost ns1: seq<RBNode>, ghost ks1: seq<set<int>>)
      requires Structure(nodes, keys, root) && Colours(nodes, bh, point)
      requires 0 <= point < |nodes| && nodes[point].isRed
      requires parent == nodes[point].parentNd != Nil && nodes[parent].isRed
      requires gp == nodes[parent].parentNd != Nil
      requires var u := if nodes[gp].leftChild == parent then nodes[gp].rightChild else nodes[gp].leftChild;
        u == Nil || !nodes[u].isRed
      modifies this
      ensures Structure(nodes, keys, root) && Sub(nodes, keys, root) == old(Sub(nodes, keys, root))
      ensures Colours(nodes, bh, Nil) && bh == old(bh)
      ensures top in {point, parent} && !nodes[top].isRed && nodes[gp].isRed
      ensures nodes[top].leftChild == gp || nodes[top].rightChild == gp
      // the new top: the parent when `point` is on the parent's side (cases
      // b.2.2 and b.2.5), `point` itself otherwise (b.2.3 and b.2.6)
      ensures top == if (old(nodes[parent]).leftChild == point) == (old(nodes[gp]).leftChild == parent)
                     then parent else point
      // the rotation, with its full record frame, and the key annotations
      ensures keys == ks1 && |ns1| == |nodes| && 0 <= top < |ns1|
      ensures old(nodes[gp]).leftChild == parent ==>
                LeftSideRotated(old(nodes), old(keys), old(root), gp, parent, point, mid, midKeys, ns1, ks1, top)
      ensures old(nodes[gp]).rightChild == parent ==>
                RightSideRotated(old(nodes), old(keys), old(root), gp, parent, point, mid, midKeys, ns1, ks1, top)
      // `top` painted black, `gp` red, and `top` in `gp`'s old place
      ensures var gg := old(nodes[gp]).parentNd;
        && nodes == Splice(Repaint(ns1, top, gp), top, gg,
                           if gg != Nil && old(nodes)[gg].leftChild == gp then 1 else 2)
        && root == (if gg == Nil then top else old(root))
    {
      ghost var ns0, ks0, root0 := nodes, keys, root;
      var gff := nodes[gp].parentNd;
      var sign := 0;
      if gff != Nil {
        sign := if nodes[gff].leftChild == gp then 1 else 2;
      }
      if nodes[gp].leftChild == parent {
        top, mid, midKeys, ns1, ks1 := RepairLeftSide(point, parent, gp);
      } else {
        NodeFacts(nodes, keys, root, parent);
        assert Linked(nodes, root, parent);
        top, mid, midKeys, ns1, ks1 := RepairRightSide(point, parent, gp);
      }
      ghost var ns2 := nodes;
      if gff == Nil {
        root := top;
      } else if sign == 1 {
        nodes := nodes[gff := nodes[gff].(leftChild := top)];
      } else {
        nodes := nodes[gff := nodes[gff].(rightChild := top)];
      }
      assert nodes == Splice(ns2, top, gff, sign);
      if ns0[gp].leftChild == parent {
        LeftSideColours(ns0, ks0, root0, bh, gp, parent, point, mid, midKeys, ns1, ks1, top, sign, nodes, root);
      } else {
        RightSideColours(ns0, ks0, root0, bh, gp, parent, point, mid, midKeys, ns1, ks1, top, sign, nodes, root);
      }
    }

    /** rb.cpp:381-395: with the parent a left child, a right rotation
        about `gp` (`point` a left child) or a left-right rotation (`point`
        a right child); then the new top is painted black and its right
        child, the old grandparent, red. */
    method RepairLeftSide(point: int, parent: int, gp: int)
      returns (top: int, ghost mid: seq<RBNode>, ghost midKeys: seq<set<int>>,
               ghost ns1: seq<RBNode>, ghost ks1: seq<set<int>>)
      requires Structure(nodes, keys, root) && 0 <= point < |nodes|
      requires parent == nodes[point].parentNd != Nil && gp == nodes[parent].parentNd != Nil
      requires nodes[gp].leftChild == parent
      modifies this
      ensures root == old(root) && bh == old(bh) && keys == ks1
      ensures LeftSideRotated(old(nodes), old(keys), root, gp, parent, point, mid, midKeys, ns1, ks1, top)
      ensures 0 <= top < |ns1| && top != gp && 0 <= gp < |ns1| && nodes == Repaint(ns1, top, gp)
    {
      ghost var ns0, ks0 := nodes, keys;
      NodeFacts(nodes, keys, root, parent);
      NodeFacts(nodes, keys, root, gp);
      assert Linked(nodes, root, point) && Linked(nodes, root, parent);
      if nodes[parent].leftChild == point {
        mid, midKeys := nodes, keys;
        top := RotateRight(gp);
      } else {
        top, mid, midKeys := RotateLeftRight(gp);
      }
      ns1, ks1 := nodes, keys;
      nodes := nodes[top := nodes[top].(isRed := false)];
      var down := nodes[top].rightChild;
      nodes := nodes[down := nodes[down].(isRed := true)];
    }
    /** rb.cpp:398-412: with the parent a right child, a left rotation
        about `gp` (`point` a right child) or a right-left rotation (`point`
        a left child); then the new top is painted black and its left
        child, the old grandparent, red. */
    method RepairRightSide(point: int, parent: int, gp: int)
      returns (top: int, ghost mid: seq<RBNode>, ghost midKeys: seq<set<int>>,
               ghost ns1: seq<RBNode>, ghost ks1: seq<set<int>>)
      requires Structure(nodes, keys, root) && 0 <= point < |nodes|
      requires parent == nodes[point].parentNd != Nil && gp == nodes[parent].parentNd != Nil
      requires nodes[gp].rightChild == parent
      modifies this
      ensures root == old(root) && bh == old(bh) && keys == ks1
      ensures RightSideRotated(old(nodes), old(keys), root, gp, parent, point, mid, midKeys, ns1, ks1, top)
      ensures 0 <= top < |ns1| && top != gp && 0 <= gp < |ns1| && nodes == Repaint(ns1, top, gp)
    {
      ghost var ns0, ks0 := nodes, keys;
      NodeFacts(nodes, keys, root, parent);
      NodeFacts(nodes, keys, root, gp);
      assert Linked(nodes, root, point) && Linked(nodes, root, parent);
      if nodes[parent].rightChild == point {
        mid, midKeys := nodes, keys;
        top := RotateLeft(gp);
      } else {
        top, mid, midKeys := RotateRightLeft(gp);
      }
      ns1, ks1 := nodes, keys;
      nodes := nodes[top := nodes[top].(isRed := false)];
      var down := nodes[top].leftChild;
      nodes := nodes[down := nodes[down].(isRed := true)];
    }
  }
}
