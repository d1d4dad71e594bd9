/** The attach step of rb.cpp's `InsertElem` (rb.cpp:271-307): the new
    node, red, becomes the child of the last node on the search path, on
    the side the search would have gone next. */
module RBInsert {
  import opened RBArena

  /** The record rb.cpp:272-277 allocates for `e`: no links, red. */
  function NewNode(e: int): RBNode
  {
    RBNode(e, Nil, Nil, Nil, true)
  }

  /** The arena after rb.cpp:272-307 attaches a new node for `e`, at index
      `|ns|`, below `parent`. */
  function Attached(ns: seq<RBNode>, parent: int, e: int): (ns1: seq<RBNode>)
    requires 0 <= parent < |ns|
    ensures |ns1| == |ns| + 1
  {
    var n := |ns|;
    var ns1 := ns + [NewNode(e)];
    var ns2 := if e > ns1[parent].data then ns1[parent := ns1[parent].(rightChild := n)]
               else ns1[parent := ns1[parent].(leftChild := n)];
    ns2[n := ns2[n].(parentNd := parent)]
  }

  /** The key sets after the attach: every node on the search path gains
      `e`, and the new node holds `{e}`. */
  ghost function AttachedKeys(ks: seq<set<int>>, path: seq<int>, e: int): (ks1: seq<set<int>>)
    ensures |ks1| == |ks| + 1 && ks1[|ks|] == {e}
    ensures forall i :: 0 <= i < |ks| ==> ks1[i] == if i in path then ks[i] + {e} else ks[i]
  {
    seq(|ks| + 1, i requires 0 <= i <= |ks| => if i == |ks| then {e} else if i in path then ks[i] + {e} else ks[i])
  }

  /** Along a search path each node is the parent of the next, and the first
      is the root, which has no parent. */
  lemma PathLinks(ns: seq<RBNode>, ks: seq<set<int>>, root: int, e: int, path: seq<int>, point: int)
    requires Structure(ns, ks, root) && IsSearchPath(ns, root, e, path, point) && path != []
    ensures ns[root].parentNd == Nil
    ensures forall m :: 0 < m < |path| ==> ns[path[m]].parentNd == path[m - 1]
    ensures Toward(ns, path[|path| - 1], e) == point
  {
    assert Linked(ns, root, path[0]);
    forall m | 0 < m < |path|
      ensures ns[path[m]].parentNd == path[m - 1]
    {
      assert Linked(ns, root, path[m - 1]);
      assert Toward(ns, path[m - 1], e) == path[m];
    }
  }

  /** A child of a node off the search path is off the path too, and so is
      the child of a path node that the search does not take. */
  lemma OffPath(ns: seq<RBNode>, ks: seq<set<int>>, root: int, e: int, path: seq<int>, point: int, i: int, c: int)
    requires Structure(ns, ks, root) && IsSearchPath(ns, root, e, path, point) && path != []
    requires 0 <= i < |ns| && c != Nil && (c == ns[i].leftChild || c == ns[i].rightChild)
    requires i !in path || c != Toward(ns, i, e)
    ensures c !in path
  {
    PathLinks(ns, ks, root, e, path, point);
    NodeFacts(ns, ks, root, i);
    assert Linked(ns, root, i);
    assert ns[c].parentNd == i;
    forall m | 0 <= m < |path|
      ensures path[m] != c
    {
      if m > 0 {
        assert Toward(ns, path[m - 1], e) == path[m];
      }
    }
  }

  /** `ns1` and `ks1` are the arena and key sets after the attach below the
      last node of `path`, field by field. */
  ghost predicate AttachedState(ns: seq<RBNode>, ks: seq<set<int>>, path: seq<int>, e: int,
                                ns1: seq<RBNode>, ks1: seq<set<int>>)
    requires path != [] && 0 <= path[|path| - 1] < |ns|
  {
    var parent, n := path[|path| - 1], |ns|;
    && |ns1| == n + 1 && |ks1| == |ks| + 1
    && ns1[n] == NewNode(e).(parentNd := parent)
    && ns1[parent] == (if e > ns[parent].data then ns[parent].(rightChild := n) else ns[parent].(leftChild := n))
    && (forall j :: 0 <= j < n && j != parent ==> ns1[j] == ns[j])
    && ks1[|ks|] == {e}
    && (forall j :: 0 <= j < |ks| ==> ks1[j] == if j in path then ks[j] + {e} else ks[j])
  }

  /** `Attached` and `AttachedKeys` read field by field. */
  lemma AttachedFields(ns: seq<RBNode>, ks: seq<set<int>>, path: seq<int>, e: int)
    requires path != [] && 0 <= path[|path| - 1] < |ns|
    ensures AttachedState(ns, ks, path, e, Attached(ns, path[|path| - 1], e), AttachedKeys(ks, path, e))
  {
  }

  /** rb.cpp:299-307: attaching the new node below the last node of a
      search path that ends at null keeps the arena one search tree whose
      key set has gained `e`. */
  lemma AttachStructure(ns: seq<RBNode>, ks: seq<set<int>>, root: int, e: int, path: seq<int>)
    requires Structure(ns, ks, root) && IsSearchPath(ns, root, e, path, Nil) && path != []
    ensures var ns1, ks1 := Attached(ns, path[|path| - 1], e), AttachedKeys(ks, path, e);
      && Structure(ns1, ks1, root) && Sub(ns1, ks1, root) == Sub(ns, ks, root) + {e}
  {
    var parent, n := path[|path| - 1], |ns|;
    var ns1, ks1 := Attached(ns, parent, e), AttachedKeys(ks, path, e);
    AttachedFields(ns, ks, path, e);
    PathLinks(ns, ks, root, e, path, Nil);
    assert LinksInRange(ns1) by {
      forall i | 0 <= i < |ns1|
        ensures IsRef(ns1, ns1[i].leftChild) && IsRef(ns1, ns1[i].rightChild) && IsRef(ns1, ns1[i].parentNd)
      {
        if i < n {
          assert Linked(ns, root, i);
        }
      }
    }
    forall i | 0 <= i < |ns1|
      ensures Linked(ns1, root, i) && Ordered(ns1, ks1, i)
    {
      if i == n {
      } else if i == parent {
        AttachAtParent(ns, ks, root, e, path, ns1, ks1);
      } else if i in path {
        AttachAtPath(ns, ks, root, e, path, i, ns1, ks1);
      } else {
        AttachOffPath(ns, ks, root, e, path, i, ns1, ks1);
      }
    }
    forall i | 0 <= i < |ns1|
      ensures ks1[i] <= Sub(ns1, ks1, root)
    {
      if i < n {
        assert ks[i] <= Sub(ns, ks, root);
      }
    }
  }

  /** The attach at the last node of the search path: the new node becomes
      its child on the side the search would take. */
  lemma AttachAtParent(ns: seq<RBNode>, ks: seq<set<int>>, root: int, e: int, path: seq<int>,
                       ns1: seq<RBNode>, ks1: seq<set<int>>)
    requires Structure(ns, ks, root) && IsSearchPath(ns, root, e, path, Nil) && path != []
    requires AttachedState(ns, ks, path, e, ns1, ks1) && LinksInRange(ns1)
    ensures Linked(ns1, root, path[|path| - 1]) && Ordered(ns1, ks1, path[|path| - 1])
  {
    var i := path[|path| - 1];
    PathLinks(ns, ks, root, e, path, Nil);
    NodeFacts(ns, ks, root, i);
    assert Linked(ns, root, i) && Ordered(ns, ks, i);
    var o := if e > ns[i].data then ns[i].leftChild else ns[i].rightChild;
    if o != Nil {
      OffPath(ns, ks, root, e, path, Nil, i, o);
      assert Linked(ns, root, o);
    }
    if ns[i].parentNd != Nil {
      assert Linked(ns, root, ns[i].parentNd);
    }
  }

  /** The attach at a node `i` on the search path above its last node: its
      key set gains `e` through the child the search takes. */
  lemma AttachAtPath(ns: seq<RBNode>, ks: seq<set<int>>, root: int, e: int, path: seq<int>, i: int,
                     ns1: seq<RBNode>, ks1: seq<set<int>>)
    requires Structure(ns, ks, root) && IsSearchPath(ns, root, e, path, Nil) && path != []
    requires AttachedState(ns, ks, path, e, ns1, ks1) && LinksInRange(ns1)
    requires 0 <= i < |ns| && i in path && i != path[|path| - 1]
    ensures Linked(ns1, root, i) && Ordered(ns1, ks1, i)
  {
    PathLinks(ns, ks, root, e, path, Nil);
    NodeFacts(ns, ks, root, i);
    assert Linked(ns, root, i) && Ordered(ns, ks, i);
    var k :| 0 <= k < |path| && path[k] == i;
    var t, o := Toward(ns, i, e), if e > ns[i].data then ns[i].leftChild else ns[i].rightChild;
    assert k + 1 < |path| && t == path[k + 1];
    assert ns1[i] == ns[i] && ks1[i] == ks[i] + {e} && ns[i].data != e;
    assert Linked(ns, root, t) && ks1[t] == ks[t] + {e};
    if o != Nil {
      OffPath(ns, ks, root, e, path, Nil, i, o);
      assert Linked(ns, root, o) && ks1[o] == ks[o];
    }
    OrderedGainsKey(ns, ks, i, e, ns1, ks1);
    var q := ns[i].parentNd;
    if q != Nil {
      assert Linked(ns, root, q);
      assert ns1[q].leftChild == i || ns1[q].rightChild == i;
    }
  }

  /** A node whose key set gains `e` through the child on `e`'s side, the
      other child's key set unchanged, stays ordered. */
  lemma OrderedGainsKey(ns: seq<RBNode>, ks: seq<set<int>>, i: int, e: int, ns1: seq<RBNode>, ks1: seq<set<int>>)
    requires |ks| == |ns| && 0 <= i < |ns| && Ordered(ns, ks, i) && e != ns[i].data
    requires |ks1| == |ns1| && 0 <= i < |ns1| && ns1[i].data == ns[i].data
    requires IsRef(ns1, ns1[i].leftChild) && IsRef(ns1, ns1[i].rightChild)
    requires e > ns[i].data ==> && Sub(ns1, ks1, ns1[i].rightChild) == Sub(ns, ks, ns[i].rightChild) + {e}
                                && Sub(ns1, ks1, ns1[i].leftChild) == Sub(ns, ks, ns[i].leftChild)
    requires e < ns[i].data ==> && Sub(ns1, ks1, ns1[i].leftChild) == Sub(ns, ks, ns[i].leftChild) + {e}
                                && Sub(ns1, ks1, ns1[i].rightChild) == Sub(ns, ks, ns[i].rightChild)
    requires ks1[i] == ks[i] + {e}
    ensures Ordered(ns1, ks1, i)
  {
  }

  /** The attach at a node `i` off the search path leaves its links and key
      set as they were. */
  lemma AttachOffPath(ns: seq<RBNode>, ks: seq<set<int>>, root: int, e: int, path: seq<int>, i: int,
                      ns1: seq<RBNode>, ks1: seq<set<int>>)
    requires Structure(ns, ks, root) && IsSearchPath(ns, root, e, path, Nil) && path != []
    requires AttachedState(ns, ks, path, e, ns1, ks1) && LinksInRange(ns1)
    requires 0 <= i < |ns| && i !in path
    ensures Linked(ns1, root, i) && Ordered(ns1, ks1, i)
  {
    NodeFacts(ns, ks, root, i);
    assert Linked(ns, root, i) && Ordered(ns, ks, i);
    PathLinks(ns, ks, root, e, path, Nil);
    var l, r, p := ns[i].leftChild, ns[i].rightChild, ns[i].parentNd;
    if l != Nil {
      OffPath(ns, ks, root, e, path, Nil, i, l);
    }
    if r != Nil {
      OffPath(ns, ks, root, e, path, Nil, i, r);
    }
    if p != Nil {
      assert Linked(ns, root, p);
    }
  }

  /** rb.cpp:272-307: the new node, red with black height 0, keeps every
      black height; the only red-red edge can be the one into it. */
  lemma AttachColours(ns: seq<RBNode>, bh: seq<nat>, parent: int, e: int)
    requires Colours(ns, bh, Nil) && LinksInRange(ns)
    requires 0 <= parent < |ns| && Toward(ns, parent, e) == Nil
    ensures Colours(Attached(ns, parent, e), bh + [0], |ns|)
  {
    var n, ns1, bh1 := |ns|, Attached(ns, parent, e), bh + [0];
    forall i | 0 <= i < |ns1|
      ensures Balanced(ns1, bh1, i) && RedOK(ns1, i, n)
    {
      if i < n {
        assert Balanced(ns, bh, i) && RedOK(ns, i, Nil);
      }
    }
  }

  // ---------------------------------------------------------------------
  // rb.cpp:249-318 as written, with `isRed()` read as the field

  /** The source allocates the new node inside the descent loop
      (rb.cpp:272-277), so the first pass attaches: an empty tree skips the
      loop and gains nothing; otherwise a key other than the root's is
      attached directly below the root, over whatever child the root had
      on that side. A black root then ends the call (rb.cpp:309-312). A red
      root sends the new node into `BalanceTree`, which stops at once for
      want of a grandparent (rb.cpp:330-333); the root is painted black
      (rb.cpp:316), and the second pass finds `e` in the new node and
      returns (rb.cpp:256-258). */
  function InsertAsWritten(ns: seq<RBNode>, root: int, e: int): (r: (seq<RBNode>, int))
    requires IsRef(ns, root)
    ensures r.1 == root
    ensures root == Nil || e == ns[root].data ==> r.0 == ns
    ensures root != Nil && e != ns[root].data ==>
      && |r.0| == |ns| + 1 && !r.0[root].isRed
      && r.0 == Attached(ns, root, e)[root := Attached(ns, root, e)[root].(isRed := false)]
  {
    if root == Nil || e == ns[root].data then (ns, root)
    else
      var ns1 := Attached(ns, root, e);
      if !ns1[root].isRed then (ns1, root)
      else (ns1[root := ns1[root].(isRed := false)], root)
  }

  /** As written, an insert into the empty tree leaves it empty. */
  lemma InsertAsWrittenSkipsEmptyTree(e: int)
    ensures InsertAsWritten([], Nil, e) == ([], Nil)
  {
  }

  /** As written, inserting 0 into the tree with black root 2 and red left
      child 1 makes the new node the root's left child: the node holding 1
      is no longer reachable from the root, whose tree now holds 2 and 0
      only. */
  lemma InsertAsWrittenDropsSubtree()
    ensures var ns := [RBNode(2, 1, Nil, Nil, false), RBNode(1, Nil, Nil, 0, true)];
      var r := InsertAsWritten(ns, 0, 0);
      && r.1 == 0 && |r.0| == 3
      && r.0[0] == RBNode(2, 2, Nil, Nil, false)
      && r.0[2] == RBNode(0, Nil, Nil, 0, true)
  {
  }

  /** As written, inserting 1 into the tree whose only node, the root 2, is
      red attaches 1 as the root's left child and paints the root black. */
  lemma InsertAsWrittenBlackensRedRoot()
    ensures var r := InsertAsWritten([RBNode(2, Nil, Nil, Nil, true)], 0, 1);
      r == ([RBNode(2, 1, Nil, Nil, false), RBNode(1, Nil, Nil, 0, true)], 0)
  {
    var ns1 := Attached([RBNode(2, Nil, Nil, Nil, true)], 0, 1);
    assert ns1 == [RBNode(2, 1, Nil, Nil, true), RBNode(1, Nil, Nil, 0, true)];
    assert ns1[0 := ns1[0].(isRed := false)] == [RBNode(2, 1, Nil, Nil, false), RBNode(1, Nil, Nil, 0, true)];
  }
}
