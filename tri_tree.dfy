/**
 * What one subdivision pass does to the tri-tree, stated on values: the
 * subtree below an address is split at its deepest level, nothing outside it
 * changes, and every new triangle is a leaf one level further down.
 */
module TriTree {
  import opened Common
  import opened Icosahedron
  import opened GeoGraph

  /** Every address lies in its own subtree. */
  lemma InSubtreeRefl(a: Address)
    ensures InSubtree(a, a)
  {
    assert a.path[..|a.path|] == a.path;
  }

  /** The subtree of child slot k is the part of top's subtree whose step below top is k. */
  lemma SubtreeOfChild(a: Address, top: Address, k: int)
    ensures InSubtree(a, ChildAddress(top, k)) <==>
      InSubtree(a, top) && |a.path| > |top.path| && a.path[|top.path|] == k
  {
    var c := ChildAddress(top, k);
    if InSubtree(a, c) {
      assert a.path[..|top.path|] == a.path[..|c.path|][..|top.path|];
      assert a.path[|top.path|] == a.path[..|c.path|][|top.path|];
    }
    if InSubtree(a, top) && |a.path| > |top.path| && a.path[|top.path|] == k {
      assert a.path[..|c.path|] == a.path[..|top.path|] + [a.path[|top.path|]];
    }
  }

  /** Within a subtree, the only address as shallow as the top is the top itself. */
  lemma SameDepthInSubtree(a: Address, top: Address)
    requires InSubtree(a, top) && |a.path| == |top.path|
    ensures a == top
  {
    assert a.path == a.path[..|top.path|];
  }

  /** Every node of the subtree at top is at most L deep, and subdivided exactly when it is shallower than L. */
  ghost predicate LayeredBelow(tree: seq<TriTreeNode>, addr: seq<Address>, top: Address, L: int)
  {
    forall j :: 0 <= j < |tree| && j < |addr| && InSubtree(addr[j], top) ==>
      |addr[j].path| <= L && (Internal(tree[j]) <==> |addr[j].path| < L)
  }

  /**
   * Going from (t0, a0) to (t, a) subdivided the subtree at top at level L:
   * addresses of old nodes kept; nothing outside the subtree changed; inside
   * it, corners kept, nodes above level L untouched, nodes at level L now
   * subdivided; every new node is a leaf of the subtree at level L + 1;
   * split names the nodes at level L, four new nodes for each.
   */
  ghost predicate SubdividedBelow(t0: seq<TriTreeNode>, a0: seq<Address>, t: seq<TriTreeNode>, a: seq<Address>,
                                  top: Address, L: int, split: set<int>)
  {
    && |a0| == |t0| && |a| == |t| && |t0| <= |t| && a[..|t0|] == a0
    && (forall j :: 0 <= j < |t0| && !InSubtree(a0[j], top) ==> t[j] == t0[j])
    && (forall j :: 0 <= j < |t0| && InSubtree(a0[j], top) ==>
          t[j].vertices == t0[j].vertices &&
          (|a0[j].path| < L ==> t[j] == t0[j]) &&
          (|a0[j].path| == L ==> Internal(t[j])))
    && (forall j :: |t0| <= j < |t| ==> InSubtree(a[j], top) && |a[j].path| == L + 1 && !Internal(t[j]))
    && split == (set j | 0 <= j < |t0| && InSubtree(a0[j], top) && |a0[j].path| == L)
    && |t| == |t0| + 4 * |split|
  }

  /**
   * Part way through the children of an internal node at top: the subtrees
   * of child slots below k are subdivided, the others untouched.
   */
  ghost predicate PassedChildren(t0: seq<TriTreeNode>, a0: seq<Address>, t: seq<TriTreeNode>, a: seq<Address>,
                                 top: Address, L: int, k: int, split: set<int>)
  {
    && |top.path| < L && 0 <= k <= 4
    && |a0| == |t0| && |a| == |t| && |t0| <= |t| && a[..|t0|] == a0
    && (forall j :: 0 <= j < |t0| && !InSubtree(a0[j], top) ==> t[j] == t0[j])
    && (forall j :: 0 <= j < |t0| && InSubtree(a0[j], top) ==>
          t[j].vertices == t0[j].vertices &&
          (|a0[j].path| < L ==> t[j] == t0[j]) &&
          (|a0[j].path| == L ==> (Internal(t[j]) <==> a0[j].path[|top.path|] < k)))
    && (forall j :: |t0| <= j < |t| ==>
          InSubtree(a[j], top) && |a[j].path| == L + 1 && !Internal(t[j]) && a[j].path[|top.path|] < k)
    && split == (set j | 0 <= j < |t0| && InSubtree(a0[j], top) && |a0[j].path| == L && a0[j].path[|top.path|] < k)
    && |t| == |t0| + 4 * |split|
  }

  /** Before the first child nothing has changed. */
  lemma PassedChildrenStart(t0: seq<TriTreeNode>, a0: seq<Address>, nc: int, top: Address, L: int)
    requires TreeOk(t0, a0, nc) && |top.path| < L && LayeredBelow(t0, a0, top, L)
    ensures PassedChildren(t0, a0, t0, a0, top, L, 0, {})
  {
    forall j | 0 <= j < |t0| && InSubtree(a0[j], top) && |a0[j].path| == L
      ensures !Internal(t0[j]) && 0 <= a0[j].path[|top.path|]
    {
      assert TriOk(t0, a0, nc, j);
    }
    assert (set j | 0 <= j < |t0| && InSubtree(a0[j], top) && |a0[j].path| == L && a0[j].path[|top.path|] < 0) == {};
  }

  /** The subtree of the next child slot satisfies what subdividing it demands. */
  lemma PassedChildrenChildLayered(t0: seq<TriTreeNode>, a0: seq<Address>, t: seq<TriTreeNode>, a: seq<Address>,
                                   top: Address, L: int, k: int, split: set<int>)
    requires PassedChildren(t0, a0, t, a, top, L, k, split) && k < 4
    requires LayeredBelow(t0, a0, top, L)
    ensures LayeredBelow(t, a, ChildAddress(top, k), L)
  {
    var c := ChildAddress(top, k);
    forall j | 0 <= j < |t| && j < |a| && InSubtree(a[j], c)
      ensures |a[j].path| <= L && (Internal(t[j]) <==> |a[j].path| < L)
    {
      SubtreeOfChild(a[j], top, k);
      if j < |t0| {
        assert a[j] == a0[j];
      }
    }
  }

  /** Subdividing the subtree of child slot k moves the pass on to slot k + 1. */
  lemma PassedChildrenStep(t0: seq<TriTreeNode>, a0: seq<Address>, t: seq<TriTreeNode>, a: seq<Address>,
                           t': seq<TriTreeNode>, a': seq<Address>,
                           top: Address, L: int, k: int, split: set<int>, s: set<int>)
    requires PassedChildren(t0, a0, t, a, top, L, k, split) && k < 4
    requires SubdividedBelow(t, a, t', a', ChildAddress(top, k), L, s)
    ensures PassedChildren(t0, a0, t', a', top, L, k + 1, split + s)
  {
    var c := ChildAddress(top, k);
    var P := |top.path|;
    assert a'[..|t0|] == a0 by {
      forall j | 0 <= j < |t0| ensures a'[j] == a0[j] {
        assert a'[j] == a'[..|t|][j] == a[j] == a[..|t0|][j];
      }
    }
    forall j | 0 <= j < |t| ensures a'[j] == a[j] {
      assert a'[..|t|][j] == a'[j];
    }
    forall j | 0 <= j < |t0| ensures a[j] == a0[j] {
      assert a[..|t0|][j] == a[j];
    }
    forall j | 0 <= j < |t0| && !InSubtree(a0[j], top) ensures t'[j] == t0[j] {
      SubtreeOfChild(a0[j], top, k);
    }
    forall j | 0 <= j < |t0| && InSubtree(a0[j], top)
      ensures t'[j].vertices == t0[j].vertices
      ensures |a0[j].path| < L ==> t'[j] == t0[j]
      ensures |a0[j].path| == L ==> (Internal(t'[j]) <==> a0[j].path[P] < k + 1)
    {
      SubtreeOfChild(a0[j], top, k);
    }
    forall j | |t0| <= j < |t'|
      ensures InSubtree(a'[j], top) && |a'[j].path| == L + 1 && !Internal(t'[j]) && a'[j].path[P] < k + 1
    {
      if j < |t| {
        SubtreeOfChild(a[j], top, k);
      } else {
        SubtreeOfChild(a'[j], top, k);
      }
    }
    ChildSplitGrows(|t0|, a0, a, top, L, k, split, s);
  }

  /** The split set of a children pass grows by the level-L nodes below child slot k. */
  lemma ChildSplitGrows(n0: int, a0: seq<Address>, a: seq<Address>, top: Address, L: int, k: int,
                        split: set<int>, s: set<int>)
    requires 0 <= n0 == |a0| <= |a| && a[..n0] == a0 && |top.path| < L
    requires forall j :: n0 <= j < |a| ==> |a[j].path| == L + 1
    requires split == (set j | 0 <= j < n0 && InSubtree(a0[j], top) && |a0[j].path| == L && a0[j].path[|top.path|] < k)
    requires s == (set j | 0 <= j < |a| && InSubtree(a[j], ChildAddress(top, k)) && |a[j].path| == L)
    ensures split + s == (set j | 0 <= j < n0 && InSubtree(a0[j], top) && |a0[j].path| == L && a0[j].path[|top.path|] < k + 1)
    ensures |split + s| == |split| + |s|
  {
    var P := |top.path|;
    forall j | 0 <= j < n0 ensures a[j] == a0[j] {
      assert a[..n0][j] == a[j];
    }
    var sk := set j | 0 <= j < n0 && InSubtree(a0[j], top) && |a0[j].path| == L && a0[j].path[P] == k;
    assert s == sk by {
      forall j ensures j in s <==> j in sk {
        if 0 <= j < n0 {
          SubtreeOfChild(a0[j], top, k);
        }
      }
    }
    assert split * sk == {};
    var next := set j | 0 <= j < n0 && InSubtree(a0[j], top) && |a0[j].path| == L && a0[j].path[P] < k + 1;
    assert next == split + sk;
  }

  /** After the fourth child the whole subtree at top is subdivided. */
  lemma PassedChildrenEnd(t0: seq<TriTreeNode>, a0: seq<Address>, t: seq<TriTreeNode>, a: seq<Address>,
                          top: Address, L: int, split: set<int>, nc: int)
    requires PassedChildren(t0, a0, t, a, top, L, 4, split)
    requires TreeOk(t0, a0, nc)
    ensures SubdividedBelow(t0, a0, t, a, top, L, split)
  {
    var P := |top.path|;
    forall j | 0 <= j < |t0| && InSubtree(a0[j], top) && |a0[j].path| == L
      ensures a0[j].path[P] < 4
    {
      assert TriOk(t0, a0, nc, j);
    }
    var full := set j | 0 <= j < |t0| && InSubtree(a0[j], top) && |a0[j].path| == L;
    assert split == full;
  }

  /** Splitting a leaf at level L with nothing below it subdivides its subtree. */
  lemma SplitSubdivides(t0: seq<TriTreeNode>, a0: seq<Address>, nc: int, i: int, L: int, m: seq<int>)
    requires TreeOk(t0, a0, nc) && 0 <= i < |t0| && !Internal(t0[i]) && |t0[i].vertices| == 3 && |m| == 3
    requires |a0[i].path| == L && LayeredBelow(t0, a0, a0[i], L)
    ensures SubdividedBelow(t0, a0, SplitTree(t0, i, m), SplitAddrs(a0, i), a0[i], L, {i})
  {
    var n := |t0|;
    var t := SplitTree(t0, i, m);
    var a := SplitAddrs(a0, i);
    InSubtreeRefl(a0[i]);
    assert a[..n] == a0;
    forall j | 0 <= j < n && InSubtree(a0[j], a0[i]) && |a0[j].path| == L
      ensures j == i
    {
      SameDepthInSubtree(a0[j], a0[i]);
    }
    assert (set j | 0 <= j < n && InSubtree(a0[j], a0[i]) && |a0[j].path| == L) == {i};
    forall j | n <= j < |t| ensures InSubtree(a[j], a0[i]) && |a[j].path| == L + 1 && !Internal(t[j]) {
      ChildAddressBelow(a0[i], j - n);
    }
  }

  /** The subtree under root triangle r is everything whose root is r. */
  lemma RootSubtree(a: Address, r: int)
    ensures InSubtree(a, Address(r, [])) <==> a.root == r
  {
    assert a.path[..0] == [];
  }

  /**
   * Part way through one subdivision pass over the roots: the trees under
   * roots below r are subdivided at level L, the others untouched.
   */
  ghost predicate PassedRoots(t0: seq<TriTreeNode>, a0: seq<Address>, t: seq<TriTreeNode>, a: seq<Address>,
                              L: int, r: int, split: set<int>)
  {
    && 0 <= r <= TriangleCount
    && |a0| == |t0| && |a| == |t| && |t0| <= |t| && a[..|t0|] == a0
    && (forall j :: 0 <= j < |t0| ==>
          t[j].vertices == t0[j].vertices &&
          (|a0[j].path| < L ==> t[j] == t0[j]) &&
          (|a0[j].path| == L ==> (Internal(t[j]) <==> a0[j].root < r)))
    && (forall j :: |t0| <= j < |t| ==> |a[j].path| == L + 1 && !Internal(t[j]) && a[j].root < r)
    && split == (set j | 0 <= j < |t0| && |a0[j].path| == L && a0[j].root < r)
    && |t| == |t0| + 4 * |split|
  }

  /** Before the first root nothing has changed. */
  lemma PassedRootsStart(t0: seq<TriTreeNode>, a0: seq<Address>, nc: int, L: int)
    requires TreeOk(t0, a0, nc) && Layered(t0, a0, L)
    ensures PassedRoots(t0, a0, t0, a0, L, 0, {})
  {
    forall j | 0 <= j < |t0| ensures 0 <= a0[j].root {
      assert TriOk(t0, a0, nc, j);
    }
    assert (set j | 0 <= j < |t0| && |a0[j].path| == L && a0[j].root < 0) == {};
  }

  /** The tree under the next root satisfies what subdividing it demands. */
  lemma PassedRootsRootLayered(t0: seq<TriTreeNode>, a0: seq<Address>, t: seq<TriTreeNode>, a: seq<Address>,
                               L: int, r: int, split: set<int>)
    requires PassedRoots(t0, a0, t, a, L, r, split) && r < TriangleCount && Layered(t0, a0, L)
    ensures LayeredBelow(t, a, Address(r, []), L)
  {
    forall j | 0 <= j < |t| && j < |a| && InSubtree(a[j], Address(r, []))
      ensures |a[j].path| <= L && (Internal(t[j]) <==> |a[j].path| < L)
    {
      RootSubtree(a[j], r);
      if j < |t0| {
        assert a[j] == a[..|t0|][j];
      }
    }
  }

  /** Subdividing the tree under root r moves the pass on to root r + 1. */
  lemma PassedRootsStep(t0: seq<TriTreeNode>, a0: seq<Address>, t: seq<TriTreeNode>, a: seq<Address>,
                        t': seq<TriTreeNode>, a': seq<Address>, L: int, r: int, split: set<int>, s: set<int>)
    requires PassedRoots(t0, a0, t, a, L, r, split) && r < TriangleCount
    requires SubdividedBelow(t, a, t', a', Address(r, []), L, s)
    ensures PassedRoots(t0, a0, t', a', L, r + 1, split + s)
  {
    forall j | 0 <= j < |t| ensures a'[j] == a[j] {
      assert a'[..|t|][j] == a'[j];
    }
    forall j | 0 <= j < |t0| ensures a[j] == a0[j] {
      assert a[..|t0|][j] == a[j];
    }
    assert a'[..|t0|] == a0;
    forall j | 0 <= j < |t0|
      ensures t'[j].vertices == t0[j].vertices
      ensures |a0[j].path| < L ==> t'[j] == t0[j]
      ensures |a0[j].path| == L ==> (Internal(t'[j]) <==> a0[j].root < r + 1)
    {
      RootSubtree(a0[j], r);
    }
    forall j | |t0| <= j < |t'| ensures |a'[j].path| == L + 1 && !Internal(t'[j]) && a'[j].root < r + 1 {
      if j < |t| {
        RootSubtree(a[j], r);
      } else {
        RootSubtree(a'[j], r);
      }
    }
    RootSplitGrows(|t0|, a0, a, L, r, split, s);
  }

  /** The split set of a root pass grows by the level-L nodes under root r. */
  lemma RootSplitGrows(n0: int, a0: seq<Address>, a: seq<Address>, L: int, r: int, split: set<int>, s: set<int>)
    requires 0 <= n0 == |a0| <= |a| && a[..n0] == a0
    requires forall j :: n0 <= j < |a| ==> |a[j].path| == L + 1
    requires split == (set j | 0 <= j < n0 && |a0[j].path| == L && a0[j].root < r)
    requires s == (set j | 0 <= j < |a| && InSubtree(a[j], Address(r, [])) && |a[j].path| == L)
    ensures split + s == (set j | 0 <= j < n0 && |a0[j].path| == L && a0[j].root < r + 1)
    ensures |split + s| == |split| + |s|
  {
    forall j | 0 <= j < n0 ensures a[j] == a0[j] {
      assert a[..n0][j] == a[j];
    }
    var sr := set j | 0 <= j < n0 && |a0[j].path| == L && a0[j].root == r;
    assert s == sr by {
      forall j ensures j in s <==> j in sr {
        if 0 <= j < n0 {
          RootSubtree(a0[j], r);
        }
      }
    }
    assert split * sr == {};
    var next := set j | 0 <= j < n0 && |a0[j].path| == L && a0[j].root < r + 1;
    assert next == split + sr;
  }

  /**
   * After the last root the pass is complete: the tree is layered one level
   * deeper, the leaves are exactly the new nodes, and there are four times
   * as many of them as there were leaves before.
   */
  lemma PassedRootsEnd(t0: seq<TriTreeNode>, a0: seq<Address>, t: seq<TriTreeNode>, a: seq<Address>,
                       L: int, split: set<int>, nc: int)
    requires PassedRoots(t0, a0, t, a, L, TriangleCount, split)
    requires TreeOk(t0, a0, nc) && Layered(t0, a0, L)
    ensures Layered(t, a, L + 1)
    ensures split == LeafSet(t0)
    ensures LeafSet(t) == Interval(|t0|, |t|)
    ensures |LeafSet(t)| == 4 * |LeafSet(t0)|
  {
    forall j | 0 <= j < |t0| ensures a[j] == a0[j] && a0[j].root < TriangleCount {
      assert a[..|t0|][j] == a[j];
      assert TriOk(t0, a0, nc, j);
    }
    assert LeafSet(t) == Interval(|t0|, |t|);
    assert split == LeafSet(t0);
  }
}
