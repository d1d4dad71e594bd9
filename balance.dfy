/** The colour repairs of rb.cpp's `BalanceTree` (rb.cpp:320-434): each
    keeps the arena's link and key invariants and moves the one red-red
    edge up the tree or removes it, with black heights unchanged below. */
module RBBalance {
  import opened RBArena
  import opened RBRotate

  /** Records with the same child links and colour: what the colour
      invariants read of a node. */
  predicate SameView(n1: RBNode, n0: RBNode)
  {
    n1.leftChild == n0.leftChild && n1.rightChild == n0.rightChild && n1.isRed == n0.isRed
  }

  /** Repainting keeps every link and key invariant. */
  lemma RepaintKeepsStructure(ns0: seq<RBNode>, ks: seq<set<int>>, root: int, ns1: seq<RBNode>)
    requires Structure(ns0, ks, root) && |ns1| == |ns0|
    requires forall j :: 0 <= j < |ns0| ==> SameLinks(ns1[j], ns0[j])
    ensures Structure(ns1, ks, root) && Sub(ns1, ks, root) == Sub(ns0, ks, root)
  {
    forall i | 0 <= i < |ns1|
      ensures Linked(ns1, root, i) && Ordered(ns1, ks, i)
    {
      assert Linked(ns0, root, i) && Ordered(ns0, ks, i);
      var n := ns0[i];
      assert n.leftChild != Nil ==> SameLinks(ns1[n.leftChild], ns0[n.leftChild]);
      assert n.rightChild != Nil ==> SameLinks(ns1[n.rightChild], ns0[n.rightChild]);
      assert n.parentNd != Nil ==> SameLinks(ns1[n.parentNd], ns0[n.parentNd]);
    }
  }

  /** The colour invariants survive a change confined to the nodes in
      `changed`, given that they hold at those nodes afterwards: outside
      `changed` the child links, colours and black heights stay, and the
      nodes in `visible`, the only ones whose colour or black height may
      change, as well as the red node `x` the old invariants exempt, have
      their parents in `changed`. */
  lemma ColoursFrame(ns0: seq<RBNode>, ks0: seq<set<int>>, root: int, bh0: seq<nat>, x: int,
                     ns1: seq<RBNode>, bh1: seq<nat>, exempt: int, changed: set<int>, visible: set<int>)
    requires Structure(ns0, ks0, root) && Colours(ns0, bh0, x) && 0 <= x < |ns0|
    requires |ns1| == |ns0| && |bh1| == |ns0|
    requires ns0[x].parentNd in changed && visible <= changed
    requires forall c :: c in visible ==> 0 <= c < |ns0| && (ns0[c].parentNd == Nil || ns0[c].parentNd in changed)
    requires forall i :: 0 <= i < |ns0| && i !in visible ==> ns1[i].isRed == ns0[i].isRed && bh1[i] == bh0[i]
    requires forall i :: 0 <= i < |ns0| && i !in changed ==> SameView(ns1[i], ns0[i])
    requires forall i :: i in changed ==> 0 <= i < |ns0| && Balanced(ns1, bh1, i) && RedOK(ns1, i, exempt)
    ensures Colours(ns1, bh1, exempt)
  {
    forall i | 0 <= i < |ns1|
      ensures Balanced(ns1, bh1, i) && RedOK(ns1, i, exempt)
    {
      if i !in changed {
        assert Balanced(ns0, bh0, i) && RedOK(ns0, i, x) && Linked(ns0, root, i);
        var l, r := ns0[i].leftChild, ns0[i].rightChild;
        if l != Nil {
          assert l !in visible && l != x;
          assert BH(ns1, bh1, l) == BH(ns0, bh0, l);
        }
        if r != Nil {
          assert r !in visible && r != x;
          assert BH(ns1, bh1, r) == BH(ns0, bh0, r);
        }
      }
    }
  }

  /** rb.cpp:336-342, the red uncle: the parent `p` and the uncle `u` turn
      black and the grandparent `g` red, one more black below `g`; the only
      red-red edge left is the one into `g`. */
  lemma RecolourColours(ns0: seq<RBNode>, ks0: seq<set<int>>, root: int, bh0: seq<nat>,
                        g: int, p: int, u: int, x: int, ns1: seq<RBNode>, bh1: seq<nat>)
    requires Structure(ns0, ks0, root) && Colours(ns0, bh0, x) && 0 <= x < |ns0| && ns0[x].isRed
    requires p == ns0[x].parentNd != Nil && ns0[p].isRed && g == ns0[p].parentNd != Nil
    requires u != Nil && u != p && (ns0[g].leftChild == u || ns0[g].rightChild == u) && ns0[u].isRed
    requires ns1 == ns0[p := ns0[p].(isRed := false)][u := ns0[u].(isRed := false)][g := ns0[g].(isRed := true)]
    requires bh1 == bh0[g := bh0[g] + 1]
    ensures Colours(ns1, bh1, g)
    ensures Structure(ns1, ks0, root) && Sub(ns1, ks0, root) == Sub(ns0, ks0, root)
  {
    NodeFacts(ns0, ks0, root, p);
    NodeFacts(ns0, ks0, root, g);
    assert Linked(ns0, root, g);
    RecolourAt(ns0, ks0, root, bh0, g, p, u, x, ns1, bh1, p);
    RecolourAt(ns0, ks0, root, bh0, g, p, u, x, ns1, bh1, u);
    RecolourAtGrandparent(ns0, ks0, root, bh0, g, p, u, x, ns1, bh1);
    var gg := ns0[g].parentNd;
    var changed := if gg == Nil then {p, u, g} else {p, u, g, gg};
    if gg != Nil {
      RecolourAbove(ns0, ks0, root, bh0, g, p, u, x, ns1, bh1);
    }
    RepaintFrame(ns0, bh0, p, u, g, ns1, bh1);
    ColoursFrame(ns0, ks0, root, bh0, x, ns1, bh1, g, changed, {p, u, g});
    RepaintKeepsStructure(ns0, ks0, root, ns1);
  }

  /** Repainting three distinct nodes `a`, `b`, `c`, with one more black
      below `c`, changes nothing else. */
  lemma RepaintFrame(ns0: seq<RBNode>, bh0: seq<nat>, a: int, b: int, c: int, ns1: seq<RBNode>, bh1: seq<nat>)
    requires 0 <= a < |ns0| && 0 <= b < |ns0| && 0 <= c < |ns0| && |bh0| == |ns0|
    requires ns1 == ns0[a := ns0[a].(isRed := false)][b := ns0[b].(isRed := false)][c := ns0[c].(isRed := true)]
    requires bh1 == bh0[c := bh0[c] + 1]
    ensures |ns1| == |ns0| && |bh1| == |ns0|
    ensures forall j :: 0 <= j < |ns0| ==> SameLinks(ns1[j], ns0[j])
    ensures forall i :: 0 <= i < |ns0| && i !in {a, b, c} ==> ns1[i].isRed == ns0[i].isRed && bh1[i] == bh0[i]
    ensures forall i :: 0 <= i < |ns0| && i !in {a, b, c} ==> SameView(ns1[i], ns0[i])
  {
  }

  /** In the red-uncle repaint, the grandparent `g`, red now over two black
      children, keeps its black height plus one. */
  lemma RecolourAtGrandparent(ns0: seq<RBNode>, ks0: seq<set<int>>, root: int, bh0: seq<nat>,
                              g: int, p: int, u: int, x: int, ns1: seq<RBNode>, bh1: seq<nat>)
    requires Structure(ns0, ks0, root) && Colours(ns0, bh0, x) && 0 <= x < |ns0| && ns0[x].isRed
    requires p == ns0[x].parentNd != Nil && ns0[p].isRed && g == ns0[p].parentNd != Nil
    requires u != Nil && u != p && (ns0[g].leftChild == u || ns0[g].rightChild == u) && ns0[u].isRed
    requires ns1 == ns0[p := ns0[p].(isRed := false)][u := ns0[u].(isRed := false)][g := ns0[g].(isRed := true)]
    requires bh1 == bh0[g := bh0[g] + 1]
    ensures Balanced(ns1, bh1, g) && RedOK(ns1, g, g)
  {
    NodeFacts(ns0, ks0, root, g);
    assert Linked(ns0, root, g) && Linked(ns0, root, p) && Balanced(ns0, bh0, g);
  }

  /** In the red-uncle repaint, the node above the grandparent `g` sees the
      same black height through `g`, and its edge into `g` is the one red-red
      edge allowed. */
  lemma RecolourAbove(ns0: seq<RBNode>, ks0: seq<set<int>>, root: int, bh0: seq<nat>,
                      g: int, p: int, u: int, x: int, ns1: seq<RBNode>, bh1: seq<nat>)
    requires Structure(ns0, ks0, root) && Colours(ns0, bh0, x) && 0 <= x < |ns0| && ns0[x].isRed
    requires p == ns0[x].parentNd != Nil && ns0[p].isRed && g == ns0[p].parentNd != Nil
    requires u != Nil && u != p && (ns0[g].leftChild == u || ns0[g].rightChild == u) && ns0[u].isRed
    requires ns1 == ns0[p := ns0[p].(isRed := false)][u := ns0[u].(isRed := false)][g := ns0[g].(isRed := true)]
    requires bh1 == bh0[g := bh0[g] + 1]
    requires ns0[g].parentNd != Nil
    ensures 0 <= ns0[g].parentNd < |ns0|
    ensures Balanced(ns1, bh1, ns0[g].parentNd) && RedOK(ns1, ns0[g].parentNd, g)
  {
    NodeFacts(ns0, ks0, root, x);
    NodeFacts(ns0, ks0, root, p);
    NodeFacts(ns0, ks0, root, g);
    NodeFacts(ns0, ks0, root, u);
    var gg := ns0[g].parentNd;
    NodeFacts(ns0, ks0, root, gg);
    assert Linked(ns0, root, g) && Linked(ns0, root, gg) && RedOK(ns0, g, x);
    assert Balanced(ns0, bh0, gg) && RedOK(ns0, gg, x);
    assert gg != p && gg != u;
    var o := if ns0[gg].leftChild == g then ns0[gg].rightChild else ns0[gg].leftChild;
    if o != Nil {
      assert Linked(ns0, root, o);
      assert o != x && o != p && o != u && o != g;
    }
  }

  /** In the red-uncle repaint, the parent or the uncle `c` (black now) keeps
      its black height and has no red-red edge below. */
  lemma RecolourAt(ns0: seq<RBNode>, ks0: seq<set<int>>, root: int, bh0: seq<nat>,
                   g: int, p: int, u: int, x: int, ns1: seq<RBNode>, bh1: seq<nat>, c: int)
    requires Structure(ns0, ks0, root) && Colours(ns0, bh0, x) && 0 <= x < |ns0| && ns0[x].isRed
    requires p == ns0[x].parentNd != Nil && ns0[p].isRed && g == ns0[p].parentNd != Nil
    requires u != Nil && u != p && (ns0[g].leftChild == u || ns0[g].rightChild == u) && ns0[u].isRed
    requires ns1 == ns0[p := ns0[p].(isRed := false)][u := ns0[u].(isRed := false)][g := ns0[g].(isRed := true)]
    requires bh1 == bh0[g := bh0[g] + 1]
    requires c == p || c == u
    ensures Balanced(ns1, bh1, c) && RedOK(ns1, c, g)
  {
    NodeFacts(ns0, ks0, root, c);
    NodeFacts(ns0, ks0, root, g);
    assert Linked(ns0, root, c) && Linked(ns0, root, g) && Balanced(ns0, bh0, c);
    assert c != g;
    assert ns1[c] == ns0[c].(isRed := false) && bh1[c] == bh0[c];
    var l, r := ns0[c].leftChild, ns0[c].rightChild;
    RecolourChild(ns0, ks0, root, bh0, g, p, u, x, ns1, bh1, c, l);
    RecolourChild(ns0, ks0, root, bh0, g, p, u, x, ns1, bh1, c, r);
  }

  /** A child `d` of the parent or the uncle `c` is none of the repainted
      nodes. */
  lemma RecolourChild(ns0: seq<RBNode>, ks0: seq<set<int>>, root: int, bh0: seq<nat>,
                      g: int, p: int, u: int, x: int, ns1: seq<RBNode>, bh1: seq<nat>, c: int, d: int)
    requires Structure(ns0, ks0, root) && 0 <= x < |ns0|
    requires p == ns0[x].parentNd != Nil && g == ns0[p].parentNd != Nil
    requires u != Nil && u != p && (ns0[g].leftChild == u || ns0[g].rightChild == u)
    requires ns1 == ns0[p := ns0[p].(isRed := false)][u := ns0[u].(isRed := false)][g := ns0[g].(isRed := true)]
    requires |bh0| == |ns0|
    requires bh1 == bh0[g := bh0[g] + 1]
    requires c == p || c == u
    requires d == ns0[c].leftChild || d == ns0[c].rightChild
    ensures d != Nil ==> 0 <= d < |ns0| && d != p && d != u && d != g && ns1[d] == ns0[d] && bh1[d] == bh0[d]
  {
    NodeFacts(ns0, ks0, root, c);
    NodeFacts(ns0, ks0, root, g);
    assert Linked(ns0, root, c) && Linked(ns0, root, g);
    if d != Nil {
      assert Linked(ns0, root, d);
    }
  }

  /** After a rotation about `g` spliced in below `g`'s old parent `gg`:
      `gg` keeps its colour, has the new subtree root `top` where it had
      `g`, and its other child reads as before. */
  ghost predicate SplicedView(ns0: seq<RBNode>, g: int, top: int, ns3: seq<RBNode>)
    requires 0 <= g < |ns0| == |ns3| && LinksInRange(ns0)
  {
    var gg := ns0[g].parentNd;
    gg != Nil ==>
      var o := if ns0[gg].leftChild == g then ns0[gg].rightChild else ns0[gg].leftChild;
      && ns3[gg].isRed == ns0[gg].isRed
      && (if ns0[gg].leftChild == g then ns3[gg].leftChild == top && ns3[gg].rightChild == o
          else ns3[gg].rightChild == top && ns3[gg].leftChild == o)
      && (o != Nil ==> SameView(ns3[o], ns0[o]))
  }

  /** The node above a rotated subtree keeps its colour invariants when the
      black root `top` of the new subtree has the black height `g` had. */
  lemma SpliceAbove(ns0: seq<RBNode>, ks0: seq<set<int>>, root: int, bh: seq<nat>, x: int, g: int, top: int,
                    ns3: seq<RBNode>)
    requires Structure(ns0, ks0, root) && Colours(ns0, bh, x) && 0 <= x < |ns0| && 0 <= g < |ns0|
    requires 0 <= top < |ns0| == |ns3| && ns0[g].parentNd != Nil && ns0[x].parentNd != ns0[g].parentNd
    requires SplicedView(ns0, g, top, ns3)
    requires !ns3[top].isRed && BH(ns3, bh, top) == BH(ns0, bh, g)
    ensures 0 <= ns0[g].parentNd < |ns0|
    ensures Balanced(ns3, bh, ns0[g].parentNd) && RedOK(ns3, ns0[g].parentNd, Nil)
  {
    NodeFacts(ns0, ks0, root, g);
    var gg := ns0[g].parentNd;
    NodeFacts(ns0, ks0, root, gg);
    assert Linked(ns0, root, g) && Linked(ns0, root, gg) && Balanced(ns0, bh, gg) && RedOK(ns0, gg, x);
    var o := if ns0[gg].leftChild == g then ns0[gg].rightChild else ns0[gg].leftChild;
    if o != Nil {
      assert Linked(ns0, root, o);
    }
  }

  /** Colour invariants with no exception hold with any exception. */
  lemma ColoursExempt(ns: seq<RBNode>, bh: seq<nat>, x: int)
    requires Colours(ns, bh, Nil)
    ensures Colours(ns, bh, x)
  {
    forall i | 0 <= i < |ns|
      ensures RedOK(ns, i, x)
    {
      assert RedOK(ns, i, Nil);
    }
  }

  /** When the red node `x` is the root or has a black parent, the red-red
      exception at `x` is void. */
  lemma ColoursSettle(ns: seq<RBNode>, ks: seq<set<int>>, root: int, bh: seq<nat>, x: int)
    requires Structure(ns, ks, root) && Colours(ns, bh, x) && 0 <= x < |ns|
    requires ns[x].parentNd != Nil ==> !ns[ns[x].parentNd].isRed
    ensures Colours(ns, bh, Nil)
  {
    forall i | 0 <= i < |ns|
      ensures RedOK(ns, i, Nil)
    {
      assert RedOK(ns, i, x) && Linked(ns, root, i);
      NodeFacts(ns, ks, root, x);
      assert Linked(ns, root, x);
    }
  }

  /** rb.cpp:316: blackening the root, the one node the invariants let be
      red above a red child, leaves no red-red edge. */
  lemma BlackenRoot(ns0: seq<RBNode>, ks: seq<set<int>>, root: int, bh: seq<nat>, ns1: seq<RBNode>)
    requires Structure(ns0, ks, root) && Colours(ns0, bh, root) && root != Nil
    requires ns1 == ns0[root := ns0[root].(isRed := false)]
    ensures Colours(ns1, bh, Nil) && !ns1[root].isRed
    ensures Structure(ns1, ks, root) && Sub(ns1, ks, root) == Sub(ns0, ks, root)
  {
    forall i | 0 <= i < |ns1|
      ensures Balanced(ns1, bh, i) && RedOK(ns1, i, Nil)
    {
      assert Balanced(ns0, bh, i) && RedOK(ns0, i, root) && Linked(ns0, root, i);
      var n := ns0[i];
      assert n.leftChild != Nil ==> Linked(ns0, root, n.leftChild);
      assert n.rightChild != Nil ==> Linked(ns0, root, n.rightChild);
    }
    RepaintKeepsStructure(ns0, ks, root, ns1);
  }

  /** After a rotation about `g`: the new subtree root `top` is linked into
      `g`'s old parent `gg` (or becomes the root) and painted black, and
      `down`, the old grandparent, red (rb.cpp:394-395, 411-412, 416-427). */
  ghost predicate Repainted(ns1: seq<RBNode>, root1: int, gg: int, g: int, top: int, down: int,
                            ns3: seq<RBNode>, root3: int)
    requires |ns3| == |ns1| && IsRef(ns1, gg) && 0 <= top < |ns1| && 0 <= down < |ns1|
  {
    && Relinked(ns1, root1, gg, g, top, ns3, root3)
    && !ns3[top].isRed && ns3[down].isRed
    && forall j :: 0 <= j < |ns1| && j != top && j != down ==> ns3[j].isRed == ns1[j].isRed
  }

  /** rb.cpp:394-395 (411-412): the new top `top` painted black and its
      child `down` red. */
  function Repaint(ns: seq<RBNode>, top: int, down: int): (ns2: seq<RBNode>)
    requires 0 <= top < |ns| && 0 <= down < |ns|
    ensures |ns2| == |ns|
  {
    var a := ns[top := ns[top].(isRed := false)];
    a[down := a[down].(isRed := true)]
  }

  /** rb.cpp:416-428: `top` linked in below `gg` on the side `sign` names
      (1: left, 2: right); with `gg` null, the caller makes `top` the
      root. */
  function Splice(ns: seq<RBNode>, top: int, gg: int, sign: int): (ns3: seq<RBNode>)
    requires IsRef(ns, gg)
    ensures |ns3| == |ns|
  {
    if gg == Nil then ns
    else if sign == 1 then ns[gg := ns[gg].(leftChild := top)]
    else ns[gg := ns[gg].(rightChild := top)]
  }

  /** `sign` names the side of `gg` that holds `g` (1: left, 2: right). */
  ghost predicate SideSign(ns: seq<RBNode>, gg: int, g: int, sign: int)
    requires IsRef(ns, gg)
  {
    gg != Nil ==> (sign == 1 <==> ns[gg].leftChild == g)
  }

  /** The repaint and splice after a rotation about `g` whose old parent
      `gg` had `g` on side `sign`: the records read as `Repainted`. */
  lemma RepaintSpliceIsRepainted(ns1: seq<RBNode>, root1: int, gg: int, g: int, top: int, down: int, sign: int)
    requires 0 <= top < |ns1| && 0 <= down < |ns1| && top != down && IsRef(ns1, gg)
    requires SideSign(ns1, gg, g, sign)
    ensures Repainted(ns1, root1, gg, g, top, down, Splice(Repaint(ns1, top, down), top, gg, sign),
                      if gg == Nil then top else root1)
  {
  }

  /** rb.cpp:383-387, 394-395 (the parent `p` and `x` are both left
      children): after the right rotation about the grandparent `g`, `p`
      black on top and `g` red, there is no red-red edge and every black
      height is as before. */
  lemma LeftLeftColours(ns0: seq<RBNode>, ks0: seq<set<int>>, root: int, bh: seq<nat>, g: int, p: int, x: int,
                        ns1: seq<RBNode>, ks1: seq<set<int>>, ns3: seq<RBNode>, root3: int)
    requires Structure(ns0, ks0, root) && Colours(ns0, bh, x) && 0 <= x < |ns0| && ns0[x].isRed
    requires p == ns0[x].parentNd != Nil && ns0[p].isRed && g == ns0[p].parentNd != Nil
    requires ns0[g].leftChild == p && ns0[p].leftChild == x
    requires ns0[g].rightChild == Nil || !ns0[ns0[g].rightChild].isRed
    requires RightRotationFields(ns0, ks0, g, ns1, ks1)
    requires |ns3| == |ns1| && Repainted(ns1, root, ns0[g].parentNd, g, p, g, ns3, root3)
    ensures Colours(ns3, bh, Nil)
    ensures Structure(ns3, ks1, root3) && Sub(ns3, ks1, root3) == Sub(ns0, ks0, root)
  {
    RightRotationViews(ns0, ks0, root, g, ns1, ks1, ns3, root3);
    LeftLeftRepaint(ns0, ks0, root, bh, g, p, x, ns3);
    var gg := ns0[g].parentNd;
    var changed := if gg == Nil then {p, g} else {p, g, gg};
    if gg != Nil {
      SpliceAbove(ns0, ks0, root, bh, x, g, p, ns3);
    }
    ColoursFrame(ns0, ks0, root, bh, x, ns3, bh, Nil, changed, {p, g});
    RightRotationRelinked(ns0, ks0, root, g, ns1, ks1, ns3, root3);
  }

  /** The records after a right rotation about `g` whose new top `y` is
      spliced in, painted black, with `g` red, as the colour invariants read
      them. */
  lemma RightRotationViews(ns0: seq<RBNode>, ks0: seq<set<int>>, root: int, g: int,
                           ns1: seq<RBNode>, ks1: seq<set<int>>, ns3: seq<RBNode>, root3: int)
    requires Structure(ns0, ks0, root) && 0 <= g < |ns0| && ns0[g].leftChild != Nil
    requires RightRotationFields(ns0, ks0, g, ns1, ks1)
    requires |ns3| == |ns1| && Repainted(ns1, root, ns0[g].parentNd, g, ns0[g].leftChild, g, ns3, root3)
    ensures var y := ns0[g].leftChild;
      && |ns3| == |ns0| && 0 <= y < |ns0| && ns0[g].parentNd != y
      && ns3[y].leftChild == ns0[y].leftChild && ns3[y].rightChild == g && !ns3[y].isRed
      && ns3[g].leftChild == ns0[y].rightChild && ns3[g].rightChild == ns0[g].rightChild && ns3[g].isRed
    ensures forall j :: 0 <= j < |ns0| && j != ns0[g].leftChild && j != g && j != ns0[g].parentNd ==>
      SameView(ns3[j], ns0[j])
    ensures SplicedView(ns0, g, ns0[g].leftChild, ns3)
  {
    var y := ns0[g].leftChild;
    NodeFacts(ns0, ks0, root, y);
    NodeFacts(ns0, ks0, root, g);
    assert Linked(ns0, root, y) && Linked(ns0, root, g);
    var gg := ns0[g].parentNd;
    if gg != Nil {
      NodeFacts(ns0, ks0, root, gg);
      assert Linked(ns0, root, gg);
      var o := if ns0[gg].leftChild == g then ns0[gg].rightChild else ns0[gg].leftChild;
      if o != Nil {
        assert Linked(ns0, root, o);
      }
    }
  }

  /** In the left-left case, `p`, black now over `x` and `g`, and `g`, red
      now over `p`'s old right subtree and the black uncle, keep their black
      heights and have no red-red edge below. */
  lemma LeftLeftRepaint(ns0: seq<RBNode>, ks0: seq<set<int>>, root: int, bh: seq<nat>, g: int, p: int, x: int,
                        ns3: seq<RBNode>)
    requires Structure(ns0, ks0, root) && Colours(ns0, bh, x) && 0 <= x < |ns0| && ns0[x].isRed
    requires p == ns0[x].parentNd != Nil && ns0[p].isRed && g == ns0[p].parentNd != Nil
    requires ns0[g].leftChild == p && ns0[p].leftChild == x
    requires ns0[g].rightChild == Nil || !ns0[ns0[g].rightChild].isRed
    requires |ns3| == |ns0|
    requires ns3[p].leftChild == x && ns3[p].rightChild == g && !ns3[p].isRed
    requires ns3[g].leftChild == ns0[p].rightChild && ns3[g].rightChild == ns0[g].rightChild && ns3[g].isRed
    requires forall j :: 0 <= j < |ns0| && j != p && j != g && j != ns0[g].parentNd ==> SameView(ns3[j], ns0[j])
    ensures Balanced(ns3, bh, p) && RedOK(ns3, p, Nil) && Balanced(ns3, bh, g) && RedOK(ns3, g, Nil)
    ensures BH(ns3, bh, p) == BH(ns0, bh, g)
  {
    NodeFacts(ns0, ks0, root, x);
    NodeFacts(ns0, ks0, root, p);
    NodeFacts(ns0, ks0, root, g);
    var c, u := ns0[p].rightChild, ns0[g].rightChild;
    assert Linked(ns0, root, p) && Linked(ns0, root, g);
    assert Balanced(ns0, bh, p) && Balanced(ns0, bh, g) && RedOK(ns0, p, x) && RedOK(ns0, g, x);
    assert SameView(ns3[x], ns0[x]);
    if c != Nil {
      assert Linked(ns0, root, c);
      assert SameView(ns3[c], ns0[c]);
    }
    if u != Nil {
      assert Linked(ns0, root, u);
      assert SameView(ns3[u], ns0[u]);
    }
  }

  /** rb.cpp:388-395 (the parent `p` a left child, `x` a right child):
      after the left-right rotation about the grandparent `g`, `x` black on
      top over `p` and `g`, both red, there is no red-red edge and every
      black height is as before. */
  lemma LeftRightColours(ns0: seq<RBNode>, ks0: seq<set<int>>, root: int, bh: seq<nat>, g: int, p: int, x: int,
                         mid: seq<RBNode>, midKeys: seq<set<int>>, ns1: seq<RBNode>, ks1: seq<set<int>>,
                         ns3: seq<RBNode>, root3: int)
    requires Structure(ns0, ks0, root) && Colours(ns0, bh, x) && 0 <= x < |ns0| && ns0[x].isRed
    requires p == ns0[x].parentNd != Nil && ns0[p].isRed && g == ns0[p].parentNd != Nil
    requires ns0[g].leftChild == p && ns0[p].rightChild == x
    requires ns0[g].rightChild == Nil || !ns0[ns0[g].rightChild].isRed
    requires LeftRightHalfway(ns0, ks0, g, mid, midKeys) && Structure(mid, midKeys, root)
    requires mid[g].leftChild == x && RightRotationFields(mid, midKeys, g, ns1, ks1)
    requires |ns3| == |ns1| && Repainted(ns1, root, ns0[g].parentNd, g, x, g, ns3, root3)
    ensures Colours(ns3, bh, Nil)
    ensures Structure(ns3, ks1, root3) && Sub(ns3, ks1, root3) == Sub(ns0, ks0, root)
  {
    LeftRightViews(ns0, ks0, root, g, p, x, mid, midKeys, ns1, ks1, ns3, root3);
    LeftRightRepaint(ns0, ks0, root, bh, g, p, x, ns3);
    var gg := ns0[g].parentNd;
    var changed := if gg == Nil then {x, p, g} else {x, p, g, gg};
    if gg != Nil {
      SpliceAbove(ns0, ks0, root, bh, x, g, x, ns3);
    }
    ColoursFrame(ns0, ks0, root, bh, x, ns3, bh, Nil, changed, {x, p, g});
    LeftRightHalfwayStructure(ns0, ks0, root, g, mid, midKeys);
    RightRotationRelinked(mid, midKeys, root, g, ns1, ks1, ns3, root3);
  }

  /** The records after the left-right rotation and repaint, as the colour
      invariants read them. */
  lemma LeftRightViews(ns0: seq<RBNode>, ks0: seq<set<int>>, root: int, g: int, p: int, x: int,
                       mid: seq<RBNode>, midKeys: seq<set<int>>, ns1: seq<RBNode>, ks1: seq<set<int>>,
                       ns3: seq<RBNode>, root3: int)
    requires Structure(ns0, ks0, root) && 0 <= x < |ns0|
    requires p == ns0[x].parentNd != Nil && g == ns0[p].parentNd != Nil
    requires ns0[g].leftChild == p && ns0[p].rightChild == x
    requires LeftRightHalfway(ns0, ks0, g, mid, midKeys) && Structure(mid, midKeys, root)
    requires mid[g].leftChild == x && RightRotationFields(mid, midKeys, g, ns1, ks1)
    requires |ns3| == |ns1| && Repainted(ns1, root, ns0[g].parentNd, g, x, g, ns3, root3)
    ensures |ns3| == |ns0| && 0 <= p < |ns0| && 0 <= g < |ns0| && ns0[g].parentNd != p
    ensures ns3[x].leftChild == p && ns3[x].rightChild == g && !ns3[x].isRed
    ensures ns3[p].leftChild == ns0[p].leftChild && ns3[p].rightChild == ns0[x].leftChild && ns3[p].isRed == ns0[p].isRed
    ensures ns3[g].leftChild == ns0[x].rightChild && ns3[g].rightChild == ns0[g].rightChild && ns3[g].isRed
    ensures forall j :: 0 <= j < |ns0| && j != x && j != p && j != g && j != ns0[g].parentNd ==> SameView(ns3[j], ns0[j])
    ensures SplicedView(ns0, g, x, ns3)
  {
    LeftRightMidViews(ns0, ks0, root, g, p, x, mid, midKeys);
    RightRotationViews(mid, midKeys, root, g, ns1, ks1, ns3, root3);
    var gg := ns0[g].parentNd;
    forall j | 0 <= j < |ns0| && j != x && j != p && j != g && j != gg
      ensures SameView(ns3[j], ns0[j])
    {
      assert SameView(ns3[j], mid[j]) && SameView(mid[j], ns0[j]);
    }
    if gg != Nil {
      NodeFacts(ns0, ks0, root, gg);
      assert Linked(ns0, root, gg) && Linked(ns0, root, g);
      var o := if ns0[gg].leftChild == g then ns0[gg].rightChild else ns0[gg].leftChild;
      if o != Nil {
        assert Linked(ns0, root, o);
        assert SameView(mid[o], ns0[o]);
      }
    }
  }

  /** Halfway through the left-right rotation, as the colour invariants read
      the records: `x` has taken `p`'s place below `g`, `p` sits left of
      `x` over `x`'s old left subtree. */
  lemma LeftRightMidViews(ns0: seq<RBNode>, ks0: seq<set<int>>, root: int, g: int, p: int, x: int,
                          mid: seq<RBNode>, midKeys: seq<set<int>>)
    requires Structure(ns0, ks0, root) && 0 <= x < |ns0|
    requires p == ns0[x].parentNd != Nil && g == ns0[p].parentNd != Nil
    requires ns0[g].leftChild == p && ns0[p].rightChild == x
    requires LeftRightHalfway(ns0, ks0, g, mid, midKeys)
    ensures |mid| == |ns0| && 0 <= p < |ns0| && 0 <= g < |ns0| && x != g && p != g && x != p
    ensures mid[g].leftChild == x && mid[g].rightChild == ns0[g].rightChild && mid[g].isRed == ns0[g].isRed
    ensures mid[g].parentNd == ns0[g].parentNd
    ensures mid[x].leftChild == p && mid[x].rightChild == ns0[x].rightChild && mid[x].isRed == ns0[x].isRed
    ensures mid[p].leftChild == ns0[p].leftChild && mid[p].rightChild == ns0[x].leftChild && mid[p].isRed == ns0[p].isRed
    ensures forall j :: 0 <= j < |ns0| && j != x && j != p && j != g ==> SameView(mid[j], ns0[j])
    ensures ns0[g].parentNd != Nil ==> ns0[g].parentNd != x && ns0[g].parentNd != p && mid[ns0[g].parentNd] == ns0[ns0[g].parentNd]
  {
    ZigZagNodes(ns0, ks0, root, g, true);
    var gg := ns0[g].parentNd;
    if gg != Nil {
      NodeFacts(ns0, ks0, root, x);
      NodeFacts(ns0, ks0, root, p);
      NodeFacts(ns0, ks0, root, g);
      NodeFacts(ns0, ks0, root, gg);
      assert Linked(ns0, root, g) && Linked(ns0, root, p);
    }
  }

  /** In the left-right case, `x`, black now over `p` and `g`, `p`, red
      over its old left subtree and `x`'s old left subtree, and `g`, red
      now over `x`'s old right subtree and the black uncle, keep their black
      heights and have no red-red edge below. */
  lemma LeftRightRepaint(ns0: seq<RBNode>, ks0: seq<set<int>>, root: int, bh: seq<nat>, g: int, p: int, x: int,
                         ns3: seq<RBNode>)
    requires Structure(ns0, ks0, root) && Colours(ns0, bh, x) && 0 <= x < |ns0| && ns0[x].isRed
    requires p == ns0[x].parentNd != Nil && ns0[p].isRed && g == ns0[p].parentNd != Nil
    requires ns0[g].leftChild == p && ns0[p].rightChild == x
    requires ns0[g].rightChild == Nil || !ns0[ns0[g].rightChild].isRed
    requires |ns3| == |ns0|
    requires ns3[x].leftChild == p && ns3[x].rightChild == g && !ns3[x].isRed
    requires ns3[p].leftChild == ns0[p].leftChild && ns3[p].rightChild == ns0[x].leftChild && ns3[p].isRed == ns0[p].isRed
    requires ns3[g].leftChild == ns0[x].rightChild && ns3[g].rightChild == ns0[g].rightChild && ns3[g].isRed
    requires forall j :: 0 <= j < |ns0| && j != x && j != p && j != g && j != ns0[g].parentNd ==> SameView(ns3[j], ns0[j])
    ensures Balanced(ns3, bh, x) && RedOK(ns3, x, Nil)
    ensures Balanced(ns3, bh, p) && RedOK(ns3, p, Nil) && Balanced(ns3, bh, g) && RedOK(ns3, g, Nil)
    ensures BH(ns3, bh, x) == BH(ns0, bh, g)
  {
    LeftRightRepaintParent(ns0, ks0, root, bh, g, p, x, ns3);
    LeftRightRepaintGrandparent(ns0, ks0, root, bh, g, p, x, ns3);
    ZigZagNodes(ns0, ks0, root, g, true);
    assert Linked(ns0, root, g) && Balanced(ns0, bh, g) && RedOK(ns0, g, x) && Balanced(ns0, bh, p);
  }

  /** In the left-right case, `p`, still red, now over its old left
      subtree and `x`'s old left subtree, keeps the black height of `x` and
      has black children. */
  lemma LeftRightRepaintParent(ns0: seq<RBNode>, ks0: seq<set<int>>, root: int, bh: seq<nat>, g: int, p: int, x: int,
                               ns3: seq<RBNode>)
    requires Structure(ns0, ks0, root) && Colours(ns0, bh, x) && 0 <= x < |ns0| && ns0[x].isRed
    requires p == ns0[x].parentNd != Nil && ns0[p].isRed && g == ns0[p].parentNd != Nil
    requires ns0[g].leftChild == p && ns0[p].rightChild == x
    requires ns0[g].rightChild == Nil || !ns0[ns0[g].rightChild].isRed
    requires |ns3| == |ns0|
    requires ns3[x].leftChild == p && ns3[x].rightChild == g && !ns3[x].isRed
    requires ns3[p].leftChild == ns0[p].leftChild && ns3[p].rightChild == ns0[x].leftChild && ns3[p].isRed == ns0[p].isRed
    requires ns3[g].leftChild == ns0[x].rightChild && ns3[g].rightChild == ns0[g].rightChild && ns3[g].isRed
    requires forall j :: 0 <= j < |ns0| && j != x && j != p && j != g && j != ns0[g].parentNd ==> SameView(ns3[j], ns0[j])
    ensures Balanced(ns3, bh, p) && RedOK(ns3, p, Nil) && bh[p] == bh[x] && ns3[p].isRed
  {
    ZigZagNodes(ns0, ks0, root, g, true);
    assert Linked(ns0, root, p) && Linked(ns0, root, g) && Linked(ns0, root, x);
    assert Balanced(ns0, bh, p) && Balanced(ns0, bh, g) && Balanced(ns0, bh, x);
    assert RedOK(ns0, p, x) && RedOK(ns0, g, x) && RedOK(ns0, x, x);
    var a, b := ns0[p].leftChild, ns0[x].leftChild;
    if a != Nil {
      assert Linked(ns0, root, a);
      assert SameView(ns3[a], ns0[a]);
    }
    if b != Nil {
      assert Linked(ns0, root, b);
      assert SameView(ns3[b], ns0[b]);
    }
  }

  /** In the left-right case, `g`, red now over `x`'s old right subtree and
      the black uncle, keeps the black height of `x` and has black
      children. */
  lemma LeftRightRepaintGrandparent(ns0: seq<RBNode>, ks0: seq<set<int>>, root: int, bh: seq<nat>, g: int, p: int, x: int,
                                    ns3: seq<RBNode>)
    requires Structure(ns0, ks0, root) && Colours(ns0, bh, x) && 0 <= x < |ns0| && ns0[x].isRed
    requires p == ns0[x].parentNd != Nil && ns0[p].isRed && g == ns0[p].parentNd != Nil
    requires ns0[g].leftChild == p && ns0[p].rightChild == x
    requires ns0[g].rightChild == Nil || !ns0[ns0[g].rightChild].isRed
    requires |ns3| == |ns0|
    requires ns3[x].leftChild == p && ns3[x].rightChild == g && !ns3[x].isRed
    requires ns3[p].leftChild == ns0[p].leftChild && ns3[p].rightChild == ns0[x].leftChild && ns3[p].isRed == ns0[p].isRed
    requires ns3[g].leftChild == ns0[x].rightChild && ns3[g].rightChild == ns0[g].rightChild && ns3[g].isRed
    requires forall j :: 0 <= j < |ns0| && j != x && j != p && j != g && j != ns0[g].parentNd ==> SameView(ns3[j], ns0[j])
    ensures Balanced(ns3, bh, g) && RedOK(ns3, g, Nil) && bh[g] == bh[x]
  {
    ZigZagNodes(ns0, ks0, root, g, true);
    assert Linked(ns0, root, p) && Linked(ns0, root, g) && Linked(ns0, root, x);
    assert Balanced(ns0, bh, p) && Balanced(ns0, bh, g) && Balanced(ns0, bh, x);
    assert RedOK(ns0, p, x) && RedOK(ns0, g, x) && RedOK(ns0, x, x);
    var c, u := ns0[x].rightChild, ns0[g].rightChild;
    if c != Nil {
      assert Linked(ns0, root, c);
      assert SameView(ns3[c], ns0[c]);
    }
    if u != Nil {
      assert Linked(ns0, root, u);
      assert SameView(ns3[u], ns0[u]);
    }
  }

  /** After rb.cpp:381-392 (the parent `p` a left child): a right rotation
      about `g` when `x` is `p`'s left child, a left-right rotation when it
      is the right child; `top` is the new subtree root. */
  ghost predicate LeftSideRotated(ns0: seq<RBNode>, ks0: seq<set<int>>, root: int, g: int, p: int, x: int,
                                  mid: seq<RBNode>, midKeys: seq<set<int>>, ns1: seq<RBNode>, ks1: seq<set<int>>, top: int)
    requires Structure(ns0, ks0, root) && 0 <= g < |ns0| && p == ns0[g].leftChild != Nil
  {
    if ns0[p].leftChild == x then top == p && RightRotationFields(ns0, ks0, g, ns1, ks1)
    else
      && x != Nil && ns0[p].rightChild == x && top == x
      && LeftRightHalfway(ns0, ks0, g, mid, midKeys) && Structure(mid, midKeys, root)
      && mid[g].leftChild == x && RightRotationFields(mid, midKeys, g, ns1, ks1)
  }

  /** rb.cpp:381-395 and 416-428 (the parent `p` a left child, the uncle
      black or missing): after the rotation, the repaint and the splice,
      the arena is a search tree with the same keys and no red-red edge. */
  lemma LeftSideColours(ns0: seq<RBNode>, ks0: seq<set<int>>, root: int, bh: seq<nat>, g: int, p: int, x: int,
                        mid: seq<RBNode>, midKeys: seq<set<int>>, ns1: seq<RBNode>, ks1: seq<set<int>>, top: int,
                        sign: int, ns3: seq<RBNode>, root3: int)
    requires Structure(ns0, ks0, root) && Colours(ns0, bh, x) && 0 <= x < |ns0| && ns0[x].isRed
    requires p == ns0[x].parentNd != Nil && ns0[p].isRed && g == ns0[p].parentNd != Nil
    requires ns0[g].leftChild == p
    requires ns0[g].rightChild == Nil || !ns0[ns0[g].rightChild].isRed
    requires LeftSideRotated(ns0, ks0, root, g, p, x, mid, midKeys, ns1, ks1, top)
    requires SideSign(ns0, ns0[g].parentNd, g, sign)
    requires 0 <= top < |ns1| && ns3 == Splice(Repaint(ns1, top, g), top, ns0[g].parentNd, sign)
    requires root3 == if ns0[g].parentNd == Nil then top else root
    ensures Colours(ns3, bh, Nil)
    ensures Structure(ns3, ks1, root3) && Sub(ns3, ks1, root3) == Sub(ns0, ks0, root)
    ensures (top == x || top == p) && !ns3[top].isRed && ns3[g].isRed && ns3[top].rightChild == g
  {
    NodeFacts(ns0, ks0, root, p);
    NodeFacts(ns0, ks0, root, g);
    assert Linked(ns0, root, x) && Linked(ns0, root, p);
    var gg := ns0[g].parentNd;
    if gg != Nil {
      NodeFacts(ns0, ks0, root, gg);
      assert Linked(ns0, root, g);
    }
    if ns0[p].leftChild == x {
      assert gg != Nil ==> ns1[gg] == ns0[gg];
      RepaintSpliceIsRepainted(ns1, root, gg, g, top, g, sign);
      LeftLeftColours(ns0, ks0, root, bh, g, p, x, ns1, ks1, ns3, root3);
    } else {
      LeftRightMidViews(ns0, ks0, root, g, p, x, mid, midKeys);
      assert gg != Nil ==> ns1[gg] == mid[gg] == ns0[gg];
      RepaintSpliceIsRepainted(ns1, root, gg, g, top, g, sign);
      LeftRightColours(ns0, ks0, root, bh, g, p, x, mid, midKeys, ns1, ks1, ns3, root3);
    }
  }

  /** rb.cpp:400-404, 411-412 (the parent `p` and `x` are both right
      children): after the left rotation about the grandparent `g`, `p`
      black on top and `g` red, there is no red-red edge and every black
      height is as before. */
  lemma RightRightColours(ns0: seq<RBNode>, ks0: seq<set<int>>, root: int, bh: seq<nat>, g: int, p: int, x: int,
                        ns1: seq<RBNode>, ks1: seq<set<int>>, ns3: seq<RBNode>, root3: int)
    requires Structure(ns0, ks0, root) && Colours(ns0, bh, x) && 0 <= x < |ns0| && ns0[x].isRed
    requires p == ns0[x].parentNd != Nil && ns0[p].isRed && g == ns0[p].parentNd != Nil
    requires ns0[g].rightChild == p && ns0[p].rightChild == x
    requires ns0[g].leftChild == Nil || !ns0[ns0[g].leftChild].isRed
    requires LeftRotationFields(ns0, ks0, g, ns1, ks1)
    requires |ns3| == |ns1| && Repainted(ns1, root, ns0[g].parentNd, g, p, g, ns3, root3)
    ensures Colours(ns3, bh, Nil)
    ensures Structure(ns3, ks1, root3) && Sub(ns3, ks1, root3) == Sub(ns0, ks0, root)
  {
    LeftRotationViews(ns0, ks0, root, g, ns1, ks1, ns3, root3);
    RightRightRepaint(ns0, ks0, root, bh, g, p, x, ns3);
    var gg := ns0[g].parentNd;
    var changed := if gg == Nil then {p, g} else {p, g, gg};
    if gg != Nil {
      SpliceAbove(ns0, ks0, root, bh, x, g, p, ns3);
    }
    ColoursFrame(ns0, ks0, root, bh, x, ns3, bh, Nil, changed, {p, g});
    LeftRotationRelinked(ns0, ks0, root, g, ns1, ks1, ns3, root3);
  }

  /** The records after a left rotation about `g` whose new top `y` is
      spliced in, painted black, with `g` red, as the colour invariants read
      them. */
  lemma LeftRotationViews(ns0: seq<RBNode>, ks0: seq<set<int>>, root: int, g: int,
                           ns1: seq<RBNode>, ks1: seq<set<int>>, ns3: seq<RBNode>, root3: int)
    requires Structure(ns0, ks0, root) && 0 <= g < |ns0| && ns0[g].rightChild != Nil
    requires LeftRotationFields(ns0, ks0, g, ns1, ks1)
    requires |ns3| == |ns1| && Repainted(ns1, root, ns0[g].parentNd, g, ns0[g].rightChild, g, ns3, root3)
    ensures var y := ns0[g].rightChild;
      && |ns3| == |ns0| && 0 <= y < |ns0| && ns0[g].parentNd != y
      && ns3[y].rightChild == ns0[y].rightChild && ns3[y].leftChild == g && !ns3[y].isRed
      && ns3[g].rightChild == ns0[y].leftChild && ns3[g].leftChild == ns0[g].leftChild && ns3[g].isRed
    ensures forall j :: 0 <= j < |ns0| && j != ns0[g].rightChild && j != g && j != ns0[g].parentNd ==>
      SameView(ns3[j], ns0[j])
    ensures SplicedView(ns0, g, ns0[g].rightChild, ns3)
  {
    var y := ns0[g].rightChild;
    NodeFacts(ns0, ks0, root, y);
    NodeFacts(ns0, ks0, root, g);
    assert Linked(ns0, root, y) && Linked(ns0, root, g);
    var gg := ns0[g].parentNd;
    if gg != Nil {
      NodeFacts(ns0, ks0, root, gg);
      assert Linked(ns0, root, gg);
      var o := if ns0[gg].rightChild == g then ns0[gg].leftChild else ns0[gg].rightChild;
      if o != Nil {
        assert Linked(ns0, root, o);
      }
    }
  }

  /** In the right-right case, `p`, black now over `g` and `x`, and `g`, red
      now over the black uncle and `p`'s old left subtree, keep their black
      heights and have no red-red edge below. */
  lemma RightRightRepaint(ns0: seq<RBNode>, ks0: seq<set<int>>, root: int, bh: seq<nat>, g: int, p: int, x: int,
                        ns3: seq<RBNode>)
    requires Structure(ns0, ks0, root) && Colours(ns0, bh, x) && 0 <= x < |ns0| && ns0[x].isRed
    requires p == ns0[x].parentNd != Nil && ns0[p].isRed && g == ns0[p].parentNd != Nil
    requires ns0[g].rightChild == p && ns0[p].rightChild == x
    requires ns0[g].leftChild == Nil || !ns0[ns0[g].leftChild].isRed
    requires |ns3| == |ns0|
    requires ns3[p].rightChild == x && ns3[p].leftChild == g && !ns3[p].isRed
    requires ns3[g].rightChild == ns0[p].leftChild && ns3[g].leftChild == ns0[g].leftChild && ns3[g].isRed
    requires forall j :: 0 <= j < |ns0| && j != p && j != g && j != ns0[g].parentNd ==> SameView(ns3[j], ns0[j])
    ensures Balanced(ns3, bh, p) && RedOK(ns3, p, Nil) && Balanced(ns3, bh, g) && RedOK(ns3, g, Nil)
    ensures BH(ns3, bh, p) == BH(ns0, bh, g)
  {
    NodeFacts(ns0, ks0, root, x);
    NodeFacts(ns0, ks0, root, p);
    NodeFacts(ns0, ks0, root, g);
    var c, u := ns0[p].leftChild, ns0[g].leftChild;
    assert Linked(ns0, root, p) && Linked(ns0, root, g);
    assert Balanced(ns0, bh, p) && Balanced(ns0, bh, g) && RedOK(ns0, p, x) && RedOK(ns0, g, x);
    assert SameView(ns3[x], ns0[x]);
    if c != Nil {
      assert Linked(ns0, root, c);
      assert SameView(ns3[c], ns0[c]);
    }
    if u != Nil {
      assert Linked(ns0, root, u);
      assert SameView(ns3[u], ns0[u]);
    }
  }

  /** rb.cpp:405-412 (the parent `p` a right child, `x` a left child):
      after the right-left rotation about the grandparent `g`, `x` black on
      top over `p` and `g`, both red, there is no red-red edge and every
      black height is as before. */
  lemma RightLeftColours(ns0: seq<RBNode>, ks0: seq<set<int>>, root: int, bh: seq<nat>, g: int, p: int, x: int,
                         mid: seq<RBNode>, midKeys: seq<set<int>>, ns1: seq<RBNode>, ks1: seq<set<int>>,
                         ns3: seq<RBNode>, root3: int)
    requires Structure(ns0, ks0, root) && Colours(ns0, bh, x) && 0 <= x < |ns0| && ns0[x].isRed
    requires p == ns0[x].parentNd != Nil && ns0[p].isRed && g == ns0[p].parentNd != Nil
    requires ns0[g].rightChild == p && ns0[p].leftChild == x
    requires ns0[g].leftChild == Nil || !ns0[ns0[g].leftChild].isRed
    requires RightLeftHalfway(ns0, ks0, g, mid, midKeys) && Structure(mid, midKeys, root)
    requires mid[g].rightChild == x && LeftRotationFields(mid, midKeys, g, ns1, ks1)
    requires |ns3| == |ns1| && Repainted(ns1, root, ns0[g].parentNd, g, x, g, ns3, root3)
    ensures Colours(ns3, bh, Nil)
    ensures Structure(ns3, ks1, root3) && Sub(ns3, ks1, root3) == Sub(ns0, ks0, root)
  {
    RightLeftViews(ns0, ks0, root, g, p, x, mid, midKeys, ns1, ks1, ns3, root3);
    RightLeftRepaint(ns0, ks0, root, bh, g, p, x, ns3);
    var gg := ns0[g].parentNd;
    var changed := if gg == Nil then {x, p, g} else {x, p, g, gg};
    if gg != Nil {
      SpliceAbove(ns0, ks0, root, bh, x, g, x, ns3);
    }
    ColoursFrame(ns0, ks0, root, bh, x, ns3, bh, Nil, changed, {x, p, g});
    RightLeftHalfwayStructure(ns0, ks0, root, g, mid, midKeys);
    LeftRotationRelinked(mid, midKeys, root, g, ns1, ks1, ns3, root3);
  }

  /** The records after the right-left rotation and repaint, as the colour
      invariants read them. */
  lemma RightLeftViews(ns0: seq<RBNode>, ks0: seq<set<int>>, root: int, g: int, p: int, x: int,
                       mid: seq<RBNode>, midKeys: seq<set<int>>, ns1: seq<RBNode>, ks1: seq<set<int>>,
                       ns3: seq<RBNode>, root3: int)
    requires Structure(ns0, ks0, root) && 0 <= x < |ns0|
    requires p == ns0[x].parentNd != Nil && g == ns0[p].parentNd != Nil
    requires ns0[g].rightChild == p && ns0[p].leftChild == x
    requires RightLeftHalfway(ns0, ks0, g, mid, midKeys) && Structure(mid, midKeys, root)
    requires mid[g].rightChild == x && LeftRotationFields(mid, midKeys, g, ns1, ks1)
    requires |ns3| == |ns1| && Repainted(ns1, root, ns0[g].parentNd, g, x, g, ns3, root3)
    ensures |ns3| == |ns0| && 0 <= p < |ns0| && 0 <= g < |ns0| && ns0[g].parentNd != p
    ensures ns3[x].rightChild == p && ns3[x].leftChild == g && !ns3[x].isRed
    ensures ns3[p].rightChild == ns0[p].rightChild && ns3[p].leftChild == ns0[x].rightChild && ns3[p].isRed == ns0[p].isRed
    ensures ns3[g].rightChild == ns0[x].leftChild && ns3[g].leftChild == ns0[g].leftChild && ns3[g].isRed
    ensures forall j :: 0 <= j < |ns0| && j != x && j != p && j != g && j != ns0[g].parentNd ==> SameView(ns3[j], ns0[j])
    ensures SplicedView(ns0, g, x, ns3)
  {
    RightLeftMidViews(ns0, ks0, root, g, p, x, mid, midKeys);
    LeftRotationViews(mid, midKeys, root, g, ns1, ks1, ns3, root3);
    var gg := ns0[g].parentNd;
    forall j | 0 <= j < |ns0| && j != x && j != p && j != g && j != gg
      ensures SameView(ns3[j], ns0[j])
    {
      assert SameView(ns3[j], mid[j]) && SameView(mid[j], ns0[j]);
    }
    if gg != Nil {
      NodeFacts(ns0, ks0, root, gg);
      assert Linked(ns0, root, gg) && Linked(ns0, root, g);
      var o := if ns0[gg].rightChild == g then ns0[gg].leftChild else ns0[gg].rightChild;
      if o != Nil {
        assert Linked(ns0, root, o);
        assert SameView(mid[o], ns0[o]);
      }
    }
  }

  /** Halfway through the right-left rotation, as the colour invariants read
      the records: `x` has taken `p`'s place below `g`, `p` sits right of
      `x` over `x`'s old right subtree. */
  lemma RightLeftMidViews(ns0: seq<RBNode>, ks0: seq<set<int>>, root: int, g: int, p: int, x: int,
                          mid: seq<RBNode>, midKeys: seq<set<int>>)
    requires Structure(ns0, ks0, root) && 0 <= x < |ns0|
    requires p == ns0[x].parentNd != Nil && g == ns0[p].parentNd != Nil
    requires ns0[g].rightChild == p && ns0[p].leftChild == x
    requires RightLeftHalfway(ns0, ks0, g, mid, midKeys)
    ensures |mid| == |ns0| && 0 <= p < |ns0| && 0 <= g < |ns0| && x != g && p != g && x != p
    ensures mid[g].rightChild == x && mid[g].leftChild == ns0[g].leftChild && mid[g].isRed == ns0[g].isRed
    ensures mid[g].parentNd == ns0[g].parentNd
    ensures mid[x].rightChild == p && mid[x].leftChild == ns0[x].leftChild && mid[x].isRed == ns0[x].isRed
    ensures mid[p].rightChild == ns0[p].rightChild && mid[p].leftChild == ns0[x].rightChild && mid[p].isRed == ns0[p].isRed
    ensures forall j :: 0 <= j < |ns0| && j != x && j != p && j != g ==> SameView(mid[j], ns0[j])
    ensures ns0[g].parentNd != Nil ==> ns0[g].parentNd != x && ns0[g].parentNd != p && mid[ns0[g].parentNd] == ns0[ns0[g].parentNd]
  {
    ZigZagNodes(ns0, ks0, root, g, false);
    var gg := ns0[g].parentNd;
    if gg != Nil {
      NodeFacts(ns0, ks0, root, x);
      NodeFacts(ns0, ks0, root, p);
      NodeFacts(ns0, ks0, root, g);
      NodeFacts(ns0, ks0, root, gg);
      assert Linked(ns0, root, g) && Linked(ns0, root, p);
    }
  }

  /** In the right-left case, `x`, black now over `p` and `g`, `p`, red
      over its old right subtree and `x`'s old right subtree, and `g`, red
      now over `x`'s old left subtree and the black uncle, keep their black
      heights and have no red-red edge below. */
  lemma RightLeftRepaint(ns0: seq<RBNode>, ks0: seq<set<int>>, root: int, bh: seq<nat>, g: int, p: int, x: int,
                         ns3: seq<RBNode>)
    requires Structure(ns0, ks0, root) && Colours(ns0, bh, x) && 0 <= x < |ns0| && ns0[x].isRed
    requires p == ns0[x].parentNd != Nil && ns0[p].isRed && g == ns0[p].parentNd != Nil
    requires ns0[g].rightChild == p && ns0[p].leftChild == x
    requires ns0[g].leftChild == Nil || !ns0[ns0[g].leftChild].isRed
    requires |ns3| == |ns0|
    requires ns3[x].rightChild == p && ns3[x].leftChild == g && !ns3[x].isRed
    requires ns3[p].rightChild == ns0[p].rightChild && ns3[p].leftChild == ns0[x].rightChild && ns3[p].isRed == ns0[p].isRed
    requires ns3[g].rightChild == ns0[x].leftChild && ns3[g].leftChild == ns0[g].leftChild && ns3[g].isRed
    requires forall j :: 0 <= j < |ns0| && j != x && j != p && j != g && j != ns0[g].parentNd ==> SameView(ns3[j], ns0[j])
    ensures Balanced(ns3, bh, x) && RedOK(ns3, x, Nil)
    ensures Balanced(ns3, bh, p) && RedOK(ns3, p, Nil) && Balanced(ns3, bh, g) && RedOK(ns3, g, Nil)
    ensures BH(ns3, bh, x) == BH(ns0, bh, g)
  {
    RightLeftRepaintParent(ns0, ks0, root, bh, g, p, x, ns3);
    RightLeftRepaintGrandparent(ns0, ks0, root, bh, g, p, x, ns3);
    ZigZagNodes(ns0, ks0, root, g, false);
    assert Linked(ns0, root, g) && Balanced(ns0, bh, g) && RedOK(ns0, g, x) && Balanced(ns0, bh, p);
  }

  /** In the right-left case, `p`, still red, now over `x`'s old right
      subtree and its own old right subtree, keeps the black height of `x` and
      has black children. */
  lemma RightLeftRepaintParent(ns0: seq<RBNode>, ks0: seq<set<int>>, root: int, bh: seq<nat>, g: int, p: int, x: int,
                               ns3: seq<RBNode>)
    requires Structure(ns0, ks0, root) && Colours(ns0, bh, x) && 0 <= x < |ns0| && ns0[x].isRed
    requires p == ns0[x].parentNd != Nil && ns0[p].isRed && g == ns0[p].parentNd != Nil
    requires ns0[g].rightChild == p && ns0[p].leftChild == x
    requires ns0[g].leftChild == Nil || !ns0[ns0[g].leftChild].isRed
    requires |ns3| == |ns0|
    requires ns3[x].rightChild == p && ns3[x].leftChild == g && !ns3[x].isRed
    requires ns3[p].rightChild == ns0[p].rightChild && ns3[p].leftChild == ns0[x].rightChild && ns3[p].isRed == ns0[p].isRed
    requires ns3[g].rightChild == ns0[x].leftChild && ns3[g].leftChild == ns0[g].leftChild && ns3[g].isRed
    requires forall j :: 0 <= j < |ns0| && j != x && j != p && j != g && j != ns0[g].parentNd ==> SameView(ns3[j], ns0[j])
    ensures Balanced(ns3, bh, p) && RedOK(ns3, p, Nil) && bh[p] == bh[x] && ns3[p].isRed
  {
    ZigZagNodes(ns0, ks0, root, g, false);
    assert Linked(ns0, root, p) && Linked(ns0, root, g) && Linked(ns0, root, x);
    assert Balanced(ns0, bh, p) && Balanced(ns0, bh, g) && Balanced(ns0, bh, x);
    assert RedOK(ns0, p, x) && RedOK(ns0, g, x) && RedOK(ns0, x, x);
    var a, b := ns0[p].rightChild, ns0[x].rightChild;
    if a != Nil {
      assert Linked(ns0, root, a);
      assert SameView(ns3[a], ns0[a]);
    }
    if b != Nil {
      assert Linked(ns0, root, b);
      assert SameView(ns3[b], ns0[b]);
    }
  }

  /** In the right-left case, `g`, red now over `x`'s old left subtree and
      the black uncle, keeps the black height of `x` and has black
      children. */
  lemma RightLeftRepaintGrandparent(ns0: seq<RBNode>, ks0: seq<set<int>>, root: int, bh: seq<nat>, g: int, p: int, x: int,
                                    ns3: seq<RBNode>)
    requires Structure(ns0, ks0, root) && Colours(ns0, bh, x) && 0 <= x < |ns0| && ns0[x].isRed
    requires p == ns0[x].parentNd != Nil && ns0[p].isRed && g == ns0[p].parentNd != Nil
    requires ns0[g].rightChild == p && ns0[p].leftChild == x
    requires ns0[g].leftChild == Nil || !ns0[ns0[g].leftChild].isRed
    requires |ns3| == |ns0|
    requires ns3[x].rightChild == p && ns3[x].leftChild == g && !ns3[x].isRed
    requires ns3[p].rightChild == ns0[p].rightChild && ns3[p].leftChild == ns0[x].rightChild && ns3[p].isRed == ns0[p].isRed
    requires ns3[g].rightChild == ns0[x].leftChild && ns3[g].leftChild == ns0[g].leftChild && ns3[g].isRed
    requires forall j :: 0 <= j < |ns0| && j != x && j != p && j != g && j != ns0[g].parentNd ==> SameView(ns3[j], ns0[j])
    ensures Balanced(ns3, bh, g) && RedOK(ns3, g, Nil) && bh[g] == bh[x]
  {
    ZigZagNodes(ns0, ks0, root, g, false);
    assert Linked(ns0, root, p) && Linked(ns0, root, g) && Linked(ns0, root, x);
    assert Balanced(ns0, bh, p) && Balanced(ns0, bh, g) && Balanced(ns0, bh, x);
    assert RedOK(ns0, p, x) && RedOK(ns0, g, x) && RedOK(ns0, x, x);
    var c, u := ns0[x].leftChild, ns0[g].leftChild;
    if c != Nil {
      assert Linked(ns0, root, c);
      assert SameView(ns3[c], ns0[c]);
    }
    if u != Nil {
      assert Linked(ns0, root, u);
      assert SameView(ns3[u], ns0[u]);
    }
  }

  /** After rb.cpp:398-409 (the parent `p` a right child): a left rotation
      about `g` when `x` is `p`'s right child, a right-left rotation when it
      is the left child; `top` is the new subtree root. */
  ghost predicate RightSideRotated(ns0: seq<RBNode>, ks0: seq<set<int>>, root: int, g: int, p: int, x: int,
                                  mid: seq<RBNode>, midKeys: seq<set<int>>, ns1: seq<RBNode>, ks1: seq<set<int>>, top: int)
    requires Structure(ns0, ks0, root) && 0 <= g < |ns0| && p == ns0[g].rightChild != Nil
  {
    if ns0[p].rightChild == x then top == p && LeftRotationFields(ns0, ks0, g, ns1, ks1)
    else
      && x != Nil && ns0[p].leftChild == x && top == x
      && RightLeftHalfway(ns0, ks0, g, mid, midKeys) && Structure(mid, midKeys, root)
      && mid[g].rightChild == x && LeftRotationFields(mid, midKeys, g, ns1, ks1)
  }

  /** rb.cpp:398-412 and 416-428 (the parent `p` a right child, the uncle
      black or missing): after the rotation, the repaint and the splice,
      the arena is a search tree with the same keys and no red-red edge. */
  lemma RightSideColours(ns0: seq<RBNode>, ks0: seq<set<int>>, root: int, bh: seq<nat>, g: int, p: int, x: int,
                        mid: seq<RBNode>, midKeys: seq<set<int>>, ns1: seq<RBNode>, ks1: seq<set<int>>, top: int,
                        sign: int, ns3: seq<RBNode>, root3: int)
    requires Structure(ns0, ks0, root) && Colours(ns0, bh, x) && 0 <= x < |ns0| && ns0[x].isRed
    requires p == ns0[x].parentNd != Nil && ns0[p].isRed && g == ns0[p].parentNd != Nil
    requires ns0[g].rightChild == p
    requires ns0[g].leftChild == Nil || !ns0[ns0[g].leftChild].isRed
    requires RightSideRotated(ns0, ks0, root, g, p, x, mid, midKeys, ns1, ks1, top)
    requires SideSign(ns0, ns0[g].parentNd, g, sign)
    requires 0 <= top < |ns1| && ns3 == Splice(Repaint(ns1, top, g), top, ns0[g].parentNd, sign)
    requires root3 == if ns0[g].parentNd == Nil then top else root
    ensures Colours(ns3, bh, Nil)
    ensures Structure(ns3, ks1, root3) && Sub(ns3, ks1, root3) == Sub(ns0, ks0, root)
    ensures (top == x || top == p) && !ns3[top].isRed && ns3[g].isRed && ns3[top].leftChild == g
  {
    NodeFacts(ns0, ks0, root, p);
    NodeFacts(ns0, ks0, root, g);
    assert Linked(ns0, root, x) && Linked(ns0, root, p);
    var gg := ns0[g].parentNd;
    if gg != Nil {
      NodeFacts(ns0, ks0, root, gg);
      assert Linked(ns0, root, g);
    }
    if ns0[p].rightChild == x {
      assert gg != Nil ==> ns1[gg] == ns0[gg];
      RepaintSpliceIsRepainted(ns1, root, gg, g, top, g, sign);
      RightRightColours(ns0, ks0, root, bh, g, p, x, ns1, ks1, ns3, root3);
    } else {
      RightLeftMidViews(ns0, ks0, root, g, p, x, mid, midKeys);
      assert gg != Nil ==> ns1[gg] == mid[gg] == ns0[gg];
      RepaintSpliceIsRepainted(ns1, root, gg, g, top, g, sign);
      RightLeftColours(ns0, ks0, root, bh, g, p, x, mid, midKeys, ns1, ks1, ns3, root3);
    }
  }
}
