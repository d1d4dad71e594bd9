/** The value view of a red-black tree: the shape, keys and colours that the
    node arena of rbtree.dfy denotes, the four invariants listed in the header
    comment of rb.cpp, and the four rotations written as functions on trees. */
module RedBlackTree {

  /** A node is red when `red` holds and black otherwise, so every node is
      red or black by construction; `Leaf` is the absent child, counted black. */
  datatype Tree = Leaf | Node(red: bool, left: Tree, key: int, right: Tree)

  function Keys(t: Tree): set<int>
  {
    match t
    case Leaf => {}
    case Node(_, l, k, r) => Keys(l) + {k} + Keys(r)
  }

  function InOrder(t: Tree): seq<int>
  {
    match t
    case Leaf => []
    case Node(_, l, k, r) => InOrder(l) + [k] + InOrder(r)
  }

  /** Binary-search-tree order: every key of the left subtree is smaller and
      every key of the right subtree larger than the node's key. */
  predicate IsBST(t: Tree)
  {
    match t
    case Leaf => true
    case Node(_, l, k, r) =>
      && IsBST(l) && IsBST(r)
      && (forall x :: x in Keys(l) ==> x < k)
      && (forall x :: x in Keys(r) ==> k < x)
  }

  predicate IsRed(t: Tree)
  {
    t.Node? && t.red
  }

  /** Black nodes on the leftmost downward path, the root of `t` included. */
  function BlackHeight(t: Tree): nat
  {
    match t
    case Leaf => 0
    case Node(red, l, _, _) => BlackHeight(l) + (if red then 0 else 1)
  }

  /** Every node sees the same black height on its left and on its right. */
  predicate BlackBalanced(t: Tree)
  {
    match t
    case Leaf => true
    case Node(_, l, _, r) =>
      BlackBalanced(l) && BlackBalanced(r) && BlackHeight(l) == BlackHeight(r)
  }

  /** No red node has a red child. */
  predicate NoRedRed(t: Tree)
  {
    match t
    case Leaf => true
    case Node(red, l, _, r) =>
      (red ==> !IsRed(l) && !IsRed(r)) && NoRedRed(l) && NoRedRed(r)
  }

  /** Properties (a)-(d) of the header comment (a black root, no two
      adjacent red nodes, one black count on every downward path; red or
      black and black null leaves hold by construction), together with the
      search-tree order of the descent in rb.cpp:254-269. */
  predicate IsRedBlack(t: Tree)
  {
    IsBST(t) && !IsRed(t) && NoRedRed(t) && BlackBalanced(t)
  }

  predicate StrictlyIncreasing(s: seq<int>)
  {
    forall i, j :: 0 <= i < j < |s| ==> s[i] < s[j]
  }

  lemma {:induction false} InOrderHasKeys(t: Tree)
    ensures forall x :: x in InOrder(t) <==> x in Keys(t)
  {
    match t
    case Leaf =>
    case Node(_, l, k, r) =>
      InOrderHasKeys(l);
      InOrderHasKeys(r);
  }

  /** The in-order walk of a search tree lists its keys once each, in
      increasing order. */
  lemma {:induction false} InOrderSorted(t: Tree)
    requires IsBST(t)
    ensures StrictlyIncreasing(InOrder(t))
    ensures forall x :: x in InOrder(t) <==> x in Keys(t)
  {
    InOrderHasKeys(t);
    match t
    case Leaf =>
    case Node(_, l, k, r) =>
      InOrderSorted(l);
      InOrderSorted(r);
      var s := InOrder(t);
      var m := |InOrder(l)|;
      assert s == InOrder(l) + [k] + InOrder(r);
      forall i, j | 0 <= i < j < |s| ensures s[i] < s[j] {
        if j < m {
          assert s[i] == InOrder(l)[i] && s[j] == InOrder(l)[j];
        } else if i > m {
          assert s[i] == InOrder(r)[i - m - 1] && s[j] == InOrder(r)[j - m - 1];
        } else {
          assert i < m ==> s[i] == InOrder(l)[i] && s[i] in InOrder(l);
          assert j > m ==> s[j] == InOrder(r)[j - m - 1] && s[j] in InOrder(r);
        }
      }
  }

  // ---------------------------------------------------------------------
  // Paths and heights

  /** `dirs` leads from the root of `t` to an absent child: `true` turns
      right, `false` turns left, and the directions run out at a `Leaf`. */
  predicate IsLeafPath(t: Tree, dirs: seq<bool>)
  {
    match t
    case Leaf => dirs == []
    case Node(_, l, _, r) => dirs != [] && IsLeafPath(if dirs[0] then r else l, dirs[1..])
  }

  /** Black nodes met along the path `dirs`. */
  function BlackOnPath(t: Tree, dirs: seq<bool>): nat
    requires IsLeafPath(t, dirs)
  {
    match t
    case Leaf => 0
    case Node(red, l, _, r) =>
      (if red then 0 else 1) + BlackOnPath(if dirs[0] then r else l, dirs[1..])
  }

  /** Property (d): in a black-balanced tree every downward path to an
      absent child holds the same number of black nodes. */
  lemma {:induction false} EveryPathSameBlack(t: Tree, dirs: seq<bool>)
    requires BlackBalanced(t) && IsLeafPath(t, dirs)
    ensures BlackOnPath(t, dirs) == BlackHeight(t)
  {
    match t
    case Leaf =>
    case Node(_, l, _, r) =>
      EveryPathSameBlack(if dirs[0] then r else l, dirs[1..]);
  }

  function Max(a: nat, b: nat): nat { if a < b then b else a }
  function Min(a: nat, b: nat): nat { if a < b then a else b }

  /** Nodes on the longest downward path. */
  function Height(t: Tree): nat
  {
    match t
    case Leaf => 0
    case Node(_, l, _, r) => 1 + Max(Height(l), Height(r))
  }

  /** Nodes on the shortest downward path. */
  function MinDepth(t: Tree): nat
  {
    match t
    case Leaf => 0
    case Node(_, l, _, r) => 1 + Min(MinDepth(l), MinDepth(r))
  }

  lemma {:induction false} HeightBound(t: Tree)
    requires NoRedRed(t) && BlackBalanced(t)
    ensures Height(t) <= 2 * BlackHeight(t) + (if IsRed(t) then 1 else 0)
  {
    match t
    case Leaf =>
    case Node(_, l, _, r) =>
      HeightBound(l);
      HeightBound(r);
  }

  lemma {:induction false} MinDepthBound(t: Tree)
    requires BlackBalanced(t)
    ensures BlackHeight(t) <= MinDepth(t)
  {
    match t
    case Leaf =>
    case Node(_, l, _, r) =>
      MinDepthBound(l);
      MinDepthBound(r);
  }

  /** The longest downward path of a red-black tree is at most twice as long
      as the shortest one. */
  lemma LongestAtMostTwiceShortest(t: Tree)
    requires IsRedBlack(t)
    ensures Height(t) <= 2 * MinDepth(t)
  {
    HeightBound(t);
    MinDepthBound(t);
  }

  // ---------------------------------------------------------------------
  // Rotations. Every node keeps its colour; only the shape changes.

  /** Left rotation about the root: the right child `y` becomes the root, the
      old root `x` its left child, and `y`'s left subtree becomes `x`'s right. */
  function RotateLeft(t: Tree): (r: Tree)
    requires t.Node? && t.right.Node?
    ensures InOrder(r) == InOrder(t) && Keys(r) == Keys(t)
  {
    var y := t.right;
    var x' := Node(t.red, t.left, t.key, y.left);
    assert Keys(t) == Keys(t.left) + {t.key} + (Keys(y.left) + {y.key} + Keys(y.right));
    assert InOrder(t) == InOrder(t.left) + [t.key] + (InOrder(y.left) + [y.key] + InOrder(y.right));
    Node(y.red, x', y.key, y.right)
  }

  /** Right rotation about the root, the mirror image of `RotateLeft`. */
  function RotateRight(t: Tree): (r: Tree)
    requires t.Node? && t.left.Node?
    ensures InOrder(r) == InOrder(t) && Keys(r) == Keys(t)
  {
    var x := t.left;
    var y' := Node(t.red, x.right, t.key, t.right);
    assert Keys(t) == (Keys(x.left) + {x.key} + Keys(x.right)) + {t.key} + Keys(t.right);
    assert InOrder(t) == (InOrder(x.left) + [x.key] + InOrder(x.right)) + [t.key] + InOrder(t.right);
    Node(x.red, x.left, x.key, y')
  }

  /** Double rotation: the left child's right child `z` becomes the root, with
      the old left child on its left and the old root on its right. */
  function RotateLeftRight(t: Tree): (r: Tree)
    requires t.Node? && t.left.Node? && t.left.right.Node?
    ensures InOrder(r) == InOrder(t) && Keys(r) == Keys(t)
  {
    var x := t.left;
    var z := x.right;
    var x' := Node(x.red, x.left, x.key, z.left);
    var t' := Node(t.red, z.right, t.key, t.right);
    assert Keys(x) == Keys(x.left) + {x.key} + (Keys(z.left) + {z.key} + Keys(z.right));
    assert InOrder(x) == InOrder(x.left) + [x.key] + (InOrder(z.left) + [z.key] + InOrder(z.right));
    Node(z.red, x', z.key, t')
  }

  /** Mirror image of `RotateLeftRight`: the right child's left child becomes
      the root. */
  function RotateRightLeft(t: Tree): (r: Tree)
    requires t.Node? && t.right.Node? && t.right.left.Node?
    ensures InOrder(r) == InOrder(t) && Keys(r) == Keys(t)
  {
    var y := t.right;
    var z := y.left;
    var t' := Node(t.red, t.left, t.key, z.left);
    var y' := Node(y.red, z.right, y.key, y.right);
    assert Keys(y) == (Keys(z.left) + {z.key} + Keys(z.right)) + {y.key} + Keys(y.right);
    assert InOrder(y) == (InOrder(z.left) + [z.key] + InOrder(z.right)) + [y.key] + InOrder(y.right);
    Node(z.red, t', z.key, y')
  }

  /** The double rotation is a left rotation about the left child followed by
      a right rotation about the root. */
  lemma RotateLeftRightIsComposite(t: Tree)
    requires t.Node? && t.left.Node? && t.left.right.Node?
    ensures RotateLeftRight(t) == RotateRight(Node(t.red, RotateLeft(t.left), t.key, t.right))
  {
  }

  /** The double rotation is a right rotation about the right child followed
      by a left rotation about the root. */
  lemma RotateRightLeftIsComposite(t: Tree)
    requires t.Node? && t.right.Node? && t.right.left.Node?
    ensures RotateRightLeft(t) == RotateLeft(Node(t.red, t.left, t.key, RotateRight(t.right)))
  {
  }

  /** Each rotation keeps the search-tree order. */
  lemma RotateLeftKeepsBST(t: Tree)
    requires IsBST(t) && t.Node? && t.right.Node?
    ensures IsBST(RotateLeft(t))
  {
    assert Keys(t.right) == Keys(t.right.left) + {t.right.key} + Keys(t.right.right);
  }

  lemma RotateRightKeepsBST(t: Tree)
    requires IsBST(t) && t.Node? && t.left.Node?
    ensures IsBST(RotateRight(t))
  {
    assert Keys(t.left) == Keys(t.left.left) + {t.left.key} + Keys(t.left.right);
  }

  lemma RotateLeftRightKeepsBST(t: Tree)
    requires IsBST(t) && t.Node? && t.left.Node? && t.left.right.Node?
    ensures IsBST(RotateLeftRight(t))
  {
    var x := t.left;
    var z := x.right;
    assert Keys(x) == Keys(x.left) + {x.key} + Keys(z);
    assert Keys(z) == Keys(z.left) + {z.key} + Keys(z.right);
    assert IsBST(x) && IsBST(z);
    assert z.key in Keys(x) && x.key < z.key < t.key;
    var x' := Node(x.red, x.left, x.key, z.left);
    var t' := Node(t.red, z.right, t.key, t.right);
    assert IsBST(x') && Keys(x') == Keys(x.left) + {x.key} + Keys(z.left);
    assert IsBST(t') && Keys(t') == Keys(z.right) + {t.key} + Keys(t.right);
    assert forall k :: k in Keys(x') ==> k < z.key;
    assert forall k :: k in Keys(t') ==> z.key < k;
  }

  lemma RotateRightLeftKeepsBST(t: Tree)
    requires IsBST(t) && t.Node? && t.right.Node? && t.right.left.Node?
    ensures IsBST(RotateRightLeft(t))
  {
    var y := t.right;
    var z := y.left;
    assert Keys(y) == Keys(z) + {y.key} + Keys(y.right);
    assert Keys(z) == Keys(z.left) + {z.key} + Keys(z.right);
    assert IsBST(y) && IsBST(z);
    assert z.key in Keys(y) && t.key < z.key < y.key;
    var t' := Node(t.red, t.left, t.key, z.left);
    var y' := Node(y.red, z.right, y.key, y.right);
    assert IsBST(t') && Keys(t') == Keys(t.left) + {t.key} + Keys(z.left);
    assert IsBST(y') && Keys(y') == Keys(z.right) + {y.key} + Keys(y.right);
    assert forall k :: k in Keys(t') ==> k < z.key;
    assert forall k :: k in Keys(y') ==> z.key < k;
  }
}
