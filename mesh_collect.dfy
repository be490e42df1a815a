/**
 * What xCollectVertexes gathers, stated on values: the corners of every
 * tri-tree node it stops at, three per node, in depth-first child order.
 */
module MeshCollect {
  import opened Icosahedron
  import opened GeoGraph
  import opened TriTree

  /** MeshContainer: one position and one normal per mesh vertex, and three vertex indices per triangle. */
  datatype MeshContainer = MeshContainer(vertices: seq<Point>, normals: seq<Normal>, triangles: seq<int>)

  /** Triangle t of a corner list: its entries 3t, 3t+1 and 3t+2. */
  function Triangle(r: seq<int>, t: int): (tri: seq<int>)
    requires 0 <= t && 3 * t + 3 <= |r|
    ensures |tri| == 3 && forall k :: 0 <= k < 3 ==> tri[k] == r[3 * t + k]
  {
    r[3 * t .. 3 * t + 3]
  }

  /**
   * Collection below top with the given depth stops at node j: j lies in
   * top's subtree and is a leaf or lies depth levels below top.
   */
  ghost predicate Reached(tree: seq<TriTreeNode>, addr: seq<Address>, top: Address, depth: int, j: int)
  {
    && 0 <= j < |tree| && j < |addr| && InSubtree(addr[j], top)
    && (!Internal(tree[j]) || |addr[j].path| == |top.path| + depth)
  }

  /** Triangle t of r holds the corners of a node where collection below top stops. */
  ghost predicate TriangleReached(r: seq<int>, t: int, tree: seq<TriTreeNode>, addr: seq<Address>, top: Address, depth: int)
    requires 0 <= t && 3 * t + 3 <= |r|
  {
    exists j :: Reached(tree, addr, top, depth, j) && Triangle(r, t) == tree[j].vertices
  }

  /** Corner list r consists of whole triangles, each the corners of a node where collection below top stops. */
  ghost predicate TrianglesFrom(r: seq<int>, tree: seq<TriTreeNode>, addr: seq<Address>, top: Address, depth: int)
  {
    && |r| % 3 == 0
    && forall t :: 0 <= t && 3 * t + 3 <= |r| ==> TriangleReached(r, t, tree, addr, top, depth)
  }

  /**
   * xCollectVertexes below tri-tree node j: its corners when depth is 0 or
   * j is a leaf, else the corners collected below its four children in
   * slot order with one level less to go.  A negative depth never reaches
   * 0, so collection runs down to the leaves.
   */
  ghost function Corners(tree: seq<TriTreeNode>, addr: seq<Address>, nc: int, L: int, j: int, depth: int): seq<int>
    requires TreeOk(tree, addr, nc) && Layered(tree, addr, L) && 0 <= j < |tree|
    decreases L - |addr[j].path|
  {
    assert TriOk(tree, addr, nc, j);
    if depth == 0 || tree[j].children[0] < 0 then tree[j].vertices
    else
      var c := tree[j].children;
      assert forall k :: 0 <= k < 4 ==> |addr[c[k]].path| == |addr[j].path| + 1 <= L;
      Corners(tree, addr, nc, L, c[0], depth - 1) + Corners(tree, addr, nc, L, c[1], depth - 1) +
      Corners(tree, addr, nc, L, c[2], depth - 1) + Corners(tree, addr, nc, L, c[3], depth - 1)
  }

  /** What xCollectVertexes gathers below the first n children of internal node j, one level less to go. */
  ghost function ChildCorners(tree: seq<TriTreeNode>, addr: seq<Address>, nc: int, L: int, j: int, depth: int, n: int): seq<int>
    requires TreeOk(tree, addr, nc) && Layered(tree, addr, L) && 0 <= j < |tree| && Internal(tree[j]) && 0 <= n <= 4
  {
    assert TriOk(tree, addr, nc, j);
    if n == 0 then [] else ChildCorners(tree, addr, nc, L, j, depth, n - 1) + Corners(tree, addr, nc, L, tree[j].children[n - 1], depth - 1)
  }

  /** Below an internal node with levels left to go, what its four children give is everything collected. */
  lemma ChildCornersAll(tree: seq<TriTreeNode>, addr: seq<Address>, nc: int, L: int, j: int, depth: int)
    requires TreeOk(tree, addr, nc) && Layered(tree, addr, L) && 0 <= j < |tree| && Internal(tree[j]) && depth != 0
    ensures ChildCorners(tree, addr, nc, L, j, depth, 4) == Corners(tree, addr, nc, L, j, depth)
  {
    assert TriOk(tree, addr, nc, j);
    var c := tree[j].children;
    var k0, k1, k2, k3 := Corners(tree, addr, nc, L, c[0], depth - 1), Corners(tree, addr, nc, L, c[1], depth - 1),
                          Corners(tree, addr, nc, L, c[2], depth - 1), Corners(tree, addr, nc, L, c[3], depth - 1);
    assert ChildCorners(tree, addr, nc, L, j, depth, 1) == [] + k0 == k0;
    assert ChildCorners(tree, addr, nc, L, j, depth, 2) == k0 + k1;
    assert ChildCorners(tree, addr, nc, L, j, depth, 3) == k0 + k1 + k2;
    assert ChildCorners(tree, addr, nc, L, j, depth, 4) == k0 + k1 + k2 + k3;
  }

  /** xCollectVertexes over the first n root triangles, in root order. */
  ghost function RootCorners(tree: seq<TriTreeNode>, addr: seq<Address>, nc: int, L: int, n: int, depth: int): seq<int>
    requires TreeOk(tree, addr, nc) && Layered(tree, addr, L) && 0 <= n <= TriangleCount
  {
    if n == 0 then [] else RootCorners(tree, addr, nc, L, n - 1, depth) + Corners(tree, addr, nc, L, n - 1, depth)
  }

  /** Triangles of two lists stay triangles of their concatenation. */
  lemma TrianglesConcat(a: seq<int>, b: seq<int>, tree: seq<TriTreeNode>, addr: seq<Address>, top: Address, depth: int)
    requires TrianglesFrom(a, tree, addr, top, depth) && TrianglesFrom(b, tree, addr, top, depth)
    ensures TrianglesFrom(a + b, tree, addr, top, depth)
  {
    var r := a + b;
    forall t | 0 <= t && 3 * t + 3 <= |r|
      ensures TriangleReached(r, t, tree, addr, top, depth)
    {
      if 3 * t + 3 <= |a| {
        assert TriangleReached(a, t, tree, addr, top, depth);
        assert Triangle(r, t) == Triangle(a, t);
      } else {
        assert TriangleReached(b, t - |a| / 3, tree, addr, top, depth);
        assert Triangle(r, t) == Triangle(b, t - |a| / 3);
      }
    }
  }

  /** What collection below child slot k stops at with one level less to go, collection below its parent stops at too. */
  lemma TrianglesWiden(r: seq<int>, tree: seq<TriTreeNode>, addr: seq<Address>, top: Address, k: int, depth: int)
    requires TrianglesFrom(r, tree, addr, ChildAddress(top, k), depth - 1)
    ensures TrianglesFrom(r, tree, addr, top, depth)
  {
    forall t | 0 <= t && 3 * t + 3 <= |r|
      ensures TriangleReached(r, t, tree, addr, top, depth)
    {
      assert TriangleReached(r, t, tree, addr, ChildAddress(top, k), depth - 1);
      var j :| Reached(tree, addr, ChildAddress(top, k), depth - 1, j) && Triangle(r, t) == tree[j].vertices;
      SubtreeOfChild(addr[j], top, k);
    }
  }

  /** Every triangle collected below j holds the corners of a node where collection below j stops. */
  lemma {:induction false} CornersTriangles(tree: seq<TriTreeNode>, addr: seq<Address>, nc: int, L: int, j: int, depth: int)
    requires TreeOk(tree, addr, nc) && Layered(tree, addr, L) && 0 <= j < |tree|
    ensures TrianglesFrom(Corners(tree, addr, nc, L, j, depth), tree, addr, addr[j], depth)
    decreases L - |addr[j].path|
  {
    assert TriOk(tree, addr, nc, j);
    if depth == 0 || tree[j].children[0] < 0 {
      StopTriangles(tree, addr, nc, L, j, depth);
    } else {
      var c := tree[j].children;
      var top := addr[j];
      forall k | 0 <= k < 4
        ensures TrianglesFrom(Corners(tree, addr, nc, L, c[k], depth - 1), tree, addr, top, depth)
      {
        CornersTriangles(tree, addr, nc, L, c[k], depth - 1);
        TrianglesWiden(Corners(tree, addr, nc, L, c[k], depth - 1), tree, addr, top, k, depth);
      }
      FourTriangles(Corners(tree, addr, nc, L, c[0], depth - 1), Corners(tree, addr, nc, L, c[1], depth - 1),
                    Corners(tree, addr, nc, L, c[2], depth - 1), Corners(tree, addr, nc, L, c[3], depth - 1),
                    tree, addr, top, depth);
    }
  }

  /** Where collection stops at j, its one triangle is j's own corners. */
  lemma StopTriangles(tree: seq<TriTreeNode>, addr: seq<Address>, nc: int, L: int, j: int, depth: int)
    requires TreeOk(tree, addr, nc) && Layered(tree, addr, L) && 0 <= j < |tree|
    requires TriOk(tree, addr, nc, j) && (depth == 0 || tree[j].children[0] < 0)
    ensures TrianglesFrom(Corners(tree, addr, nc, L, j, depth), tree, addr, addr[j], depth)
  {
    var r := Corners(tree, addr, nc, L, j, depth);
    InSubtreeRefl(addr[j]);
    assert Triangle(r, 0) == tree[j].vertices;
    assert Reached(tree, addr, addr[j], depth, j);
    assert TriangleReached(r, 0, tree, addr, addr[j], depth);
  }

  /** Four runs of triangles that each stop where collection below top stops, joined, still do. */
  lemma FourTriangles(r0: seq<int>, r1: seq<int>, r2: seq<int>, r3: seq<int>,
                      tree: seq<TriTreeNode>, addr: seq<Address>, top: Address, depth: int)
    requires TrianglesFrom(r0, tree, addr, top, depth) && TrianglesFrom(r1, tree, addr, top, depth)
    requires TrianglesFrom(r2, tree, addr, top, depth) && TrianglesFrom(r3, tree, addr, top, depth)
    ensures TrianglesFrom(r0 + r1 + r2 + r3, tree, addr, top, depth)
  {
    TrianglesConcat(r0, r1, tree, addr, top, depth);
    TrianglesConcat(r0 + r1, r2, tree, addr, top, depth);
    TrianglesConcat(r0 + r1 + r2, r3, tree, addr, top, depth);
  }

  /** Triangle t of r holds the corners of a leaf or of a node exactly depth levels below its root. */
  ghost predicate TriangleAtCut(r: seq<int>, t: int, tree: seq<TriTreeNode>, addr: seq<Address>, depth: int)
    requires 0 <= t && 3 * t + 3 <= |r|
  {
    exists j :: && 0 <= j < |tree| && j < |addr| && (!Internal(tree[j]) || |addr[j].path| == depth)
                && Triangle(r, t) == tree[j].vertices
  }

  /**
   * Collection over the whole sphere: whole triangles, each the corners of
   * a leaf or of a node exactly depth levels below its root.
   */
  lemma {:induction false} RootCornersTriangles(tree: seq<TriTreeNode>, addr: seq<Address>, nc: int, L: int, n: int, depth: int)
    requires TreeOk(tree, addr, nc) && Layered(tree, addr, L) && 0 <= n <= TriangleCount
    ensures |RootCorners(tree, addr, nc, L, n, depth)| % 3 == 0
    ensures forall t :: 0 <= t && 3 * t + 3 <= |RootCorners(tree, addr, nc, L, n, depth)| ==>
      TriangleAtCut(RootCorners(tree, addr, nc, L, n, depth), t, tree, addr, depth)
  {
    if n > 0 {
      RootCornersTriangles(tree, addr, nc, L, n - 1, depth);
      var a, b := RootCorners(tree, addr, nc, L, n - 1, depth), Corners(tree, addr, nc, L, n - 1, depth);
      CornersTriangles(tree, addr, nc, L, n - 1, depth);
      assert addr[n - 1] == Address(n - 1, []);
      AppendAtCut(a, b, tree, addr, n - 1, depth);
    }
  }

  /** Whole triangles at the cut, followed by what collection below root gives, are whole triangles at the cut. */
  lemma AppendAtCut(a: seq<int>, b: seq<int>, tree: seq<TriTreeNode>, addr: seq<Address>, root: int, depth: int)
    requires |a| % 3 == 0 && forall t :: 0 <= t && 3 * t + 3 <= |a| ==> TriangleAtCut(a, t, tree, addr, depth)
    requires TrianglesFrom(b, tree, addr, Address(root, []), depth)
    ensures |a + b| % 3 == 0
    ensures forall t :: 0 <= t && 3 * t + 3 <= |a + b| ==> TriangleAtCut(a + b, t, tree, addr, depth)
  {
    var r := a + b;
    forall t | 0 <= t && 3 * t + 3 <= |r|
      ensures TriangleAtCut(r, t, tree, addr, depth)
    {
      if 3 * t + 3 <= |a| {
        assert TriangleAtCut(a, t, tree, addr, depth);
        assert Triangle(r, t) == Triangle(a, t);
      } else {
        assert Triangle(r, t) == Triangle(b, t - |a| / 3);
        assert TriangleReached(b, t - |a| / 3, tree, addr, Address(root, []), depth);
      }
    }
  }

  /** Every corner collected below j is a valid node id. */
  lemma {:induction false} CornersValid(tree: seq<TriTreeNode>, addr: seq<Address>, nc: int, L: int, j: int, depth: int)
    requires TreeOk(tree, addr, nc) && Layered(tree, addr, L) && 0 <= j < |tree|
    ensures forall x :: x in Corners(tree, addr, nc, L, j, depth) ==> 0 <= x < nc
    decreases L - |addr[j].path|
  {
    assert TriOk(tree, addr, nc, j);
    if !(depth == 0 || tree[j].children[0] < 0) {
      var c := tree[j].children;
      CornersValid(tree, addr, nc, L, c[0], depth - 1);
      CornersValid(tree, addr, nc, L, c[1], depth - 1);
      CornersValid(tree, addr, nc, L, c[2], depth - 1);
      CornersValid(tree, addr, nc, L, c[3], depth - 1);
    }
  }

  /** Every corner collected over the first n roots is a valid node id. */
  lemma {:induction false} RootCornersValid(tree: seq<TriTreeNode>, addr: seq<Address>, nc: int, L: int, n: int, depth: int)
    requires TreeOk(tree, addr, nc) && Layered(tree, addr, L) && 0 <= n <= TriangleCount
    ensures forall x :: x in RootCorners(tree, addr, nc, L, n, depth) ==> 0 <= x < nc
  {
    if n > 0 {
      RootCornersValid(tree, addr, nc, L, n - 1, depth);
      CornersValid(tree, addr, nc, L, n - 1, depth);
    }
  }

  /** The tri-tree nodes in top's subtree that lie lev steps below their root. */
  ghost function CutSet(tree: seq<TriTreeNode>, addr: seq<Address>, top: Address, lev: int): set<int>
  {
    set k | 0 <= k < |tree| && k < |addr| && InSubtree(addr[k], top) && |addr[k].path| == lev
  }

  /** The tri-tree nodes, under any root, that lie lev steps below their root. */
  ghost function SphereCut(tree: seq<TriTreeNode>, addr: seq<Address>, lev: int): set<int>
  {
    set k | 0 <= k < |tree| && k < |addr| && |addr[k].path| == lev
  }

  /**
   * How far below its root collection from a node p steps down stops when
   * every leaf is L steps down: depth steps further, but never past the
   * leaves; a negative depth runs to the leaves.
   */
  function StopLevel(p: int, depth: int, L: int): int
  {
    if depth < 0 || p + depth >= L then L else p + depth
  }

  /** The tri-tree nodes xCollectVertexes stops at below j, in the order it visits them. */
  ghost function Stops(tree: seq<TriTreeNode>, addr: seq<Address>, nc: int, L: int, j: int, depth: int): seq<int>
    requires TreeOk(tree, addr, nc) && Layered(tree, addr, L) && 0 <= j < |tree|
    decreases L - |addr[j].path|
  {
    assert TriOk(tree, addr, nc, j);
    if depth == 0 || tree[j].children[0] < 0 then [j]
    else
      var c := tree[j].children;
      assert forall k :: 0 <= k < 4 ==> |addr[c[k]].path| == |addr[j].path| + 1 <= L;
      Stops(tree, addr, nc, L, c[0], depth - 1) + Stops(tree, addr, nc, L, c[1], depth - 1) +
      Stops(tree, addr, nc, L, c[2], depth - 1) + Stops(tree, addr, nc, L, c[3], depth - 1)
  }

  /** The nodes xCollectVertexes stops at below the first n roots, in root order. */
  ghost function RootStops(tree: seq<TriTreeNode>, addr: seq<Address>, nc: int, L: int, n: int, depth: int): seq<int>
    requires TreeOk(tree, addr, nc) && Layered(tree, addr, L) && 0 <= n <= TriangleCount
  {
    if n == 0 then [] else RootStops(tree, addr, nc, L, n - 1, depth) + Stops(tree, addr, nc, L, n - 1, depth)
  }

  /** r is the corners of the nodes s, three per node, in the same order. */
  ghost predicate Triples(r: seq<int>, s: seq<int>, tree: seq<TriTreeNode>)
  {
    && |r| == 3 * |s|
    && forall i :: 0 <= i < |s| ==> 0 <= s[i] < |tree| && r[3 * i .. 3 * i + 3] == tree[s[i]].vertices
  }

  /** No node occurs twice. */
  predicate Distinct(s: seq<int>)
  {
    forall a, b :: 0 <= a < b < |s| ==> s[a] != s[b]
  }

  /** Corner triples of two node lists, joined, are the corner triples of the joined list. */
  lemma TriplesConcat(a: seq<int>, sa: seq<int>, b: seq<int>, sb: seq<int>, tree: seq<TriTreeNode>)
    requires Triples(a, sa, tree) && Triples(b, sb, tree)
    ensures Triples(a + b, sa + sb, tree)
  {
    var r, s := a + b, sa + sb;
    forall i | 0 <= i < |s|
      ensures 0 <= s[i] < |tree| && r[3 * i .. 3 * i + 3] == tree[s[i]].vertices
    {
      if i < |sa| {
        assert s[i] == sa[i];
        assert r[3 * i .. 3 * i + 3] == a[3 * i .. 3 * i + 3];
      } else {
        var i' := i - |sa|;
        assert s[i] == sb[i'];
        assert r[3 * i .. 3 * i + 3] == b[3 * i' .. 3 * i' + 3];
      }
    }
  }

  /** Joining two lists without repeats that share nothing gives a list without repeats. */
  lemma DistinctConcat(s: seq<int>, t: seq<int>)
    requires Distinct(s) && Distinct(t)
    requires forall x :: x in s ==> x !in t
    ensures Distinct(s + t)
  {
    var u := s + t;
    forall a, b | 0 <= a < b < |u|
      ensures u[a] != u[b]
    {
      if b < |s| {
        assert u[a] == s[a] && u[b] == s[b];
      } else if a >= |s| {
        assert u[a] == t[a - |s|] && u[b] == t[b - |s|];
      } else {
        assert u[a] == s[a] && u[b] == t[b - |s|];
        assert s[a] in s;
      }
    }
  }

  /** A list without repeats has as many elements as the set it enumerates. */
  lemma {:induction false} DistinctCard(s: seq<int>, S: set<int>)
    requires Distinct(s) && forall x :: x in s <==> x in S
    ensures |S| == |s|
  {
    if s == [] {
      forall x
        ensures x !in S
      {
        assert x !in s;
      }
      assert S == {};
    } else {
      var last := s[|s| - 1];
      var init := s[..|s| - 1];
      assert s == init + [last];
      forall x
        ensures x in init <==> x in S - {last}
      {
        if x in init {
          var a :| 0 <= a < |init| && init[a] == x;
          assert s[a] == x && a < |s| - 1;
        }
      }
      DistinctCard(init, S - {last});
    }
  }

  /** Below j, collection visits the nodes Stops lists and hands over their corners, three per node in that order. */
  lemma {:induction false} StopsTriples(tree: seq<TriTreeNode>, addr: seq<Address>, nc: int, L: int, j: int, depth: int)
    requires TreeOk(tree, addr, nc) && Layered(tree, addr, L) && 0 <= j < |tree|
    ensures Triples(Corners(tree, addr, nc, L, j, depth), Stops(tree, addr, nc, L, j, depth), tree)
    decreases L - |addr[j].path|
  {
    assert TriOk(tree, addr, nc, j);
    if depth == 0 || tree[j].children[0] < 0 {
      var r := Corners(tree, addr, nc, L, j, depth);
      assert r[0 .. 3] == r == tree[j].vertices;
    } else {
      var c := tree[j].children;
      StopsTriples(tree, addr, nc, L, c[0], depth - 1);
      StopsTriples(tree, addr, nc, L, c[1], depth - 1);
      StopsTriples(tree, addr, nc, L, c[2], depth - 1);
      StopsTriples(tree, addr, nc, L, c[3], depth - 1);
      var r0, r1, r2, r3 := Corners(tree, addr, nc, L, c[0], depth - 1), Corners(tree, addr, nc, L, c[1], depth - 1),
                            Corners(tree, addr, nc, L, c[2], depth - 1), Corners(tree, addr, nc, L, c[3], depth - 1);
      var s0, s1, s2, s3 := Stops(tree, addr, nc, L, c[0], depth - 1), Stops(tree, addr, nc, L, c[1], depth - 1),
                            Stops(tree, addr, nc, L, c[2], depth - 1), Stops(tree, addr, nc, L, c[3], depth - 1);
      TriplesConcat(r0, s0, r1, s1, tree);
      TriplesConcat(r0 + r1, s0 + s1, r2, s2, tree);
      TriplesConcat(r0 + r1 + r2, s0 + s1 + s2, r3, s3, tree);
    }
  }

  /** Where collection stops at j, the only node of j's subtree at the stopping level is j. */
  lemma StopCut(tree: seq<TriTreeNode>, addr: seq<Address>, nc: int, L: int, j: int, depth: int)
    requires TreeOk(tree, addr, nc) && Layered(tree, addr, L) && 0 <= j < |tree|
    requires depth == 0 || !Internal(tree[j])
    ensures CutSet(tree, addr, addr[j], StopLevel(|addr[j].path|, depth, L)) == {j}
  {
    var p := |addr[j].path|;
    assert StopLevel(p, depth, L) == p;
    forall x | x in CutSet(tree, addr, addr[j], p)
      ensures x == j
    {
      SameDepthInSubtree(addr[x], addr[j]);
    }
    InSubtreeRefl(addr[j]);
  }

  /** Below top, the nodes deeper than top split by the child slot their address passes through. */
  lemma ChildCuts(tree: seq<TriTreeNode>, addr: seq<Address>, nc: int, top: Address, D: int, x: int)
    requires TreeOk(tree, addr, nc) && |top.path| < D
    ensures x in CutSet(tree, addr, top, D) <==>
      x in CutSet(tree, addr, ChildAddress(top, 0), D) || x in CutSet(tree, addr, ChildAddress(top, 1), D) ||
      x in CutSet(tree, addr, ChildAddress(top, 2), D) || x in CutSet(tree, addr, ChildAddress(top, 3), D)
    ensures forall k :: x in CutSet(tree, addr, ChildAddress(top, k), D) ==> addr[x].path[|top.path|] == k
  {
    if 0 <= x < |tree| {
      var a := addr[x];
      SubtreeOfChild(a, top, 0);
      SubtreeOfChild(a, top, 1);
      SubtreeOfChild(a, top, 2);
      SubtreeOfChild(a, top, 3);
      forall k | x in CutSet(tree, addr, ChildAddress(top, k), D)
        ensures a.path[|top.path|] == k
      {
        SubtreeOfChild(a, top, k);
      }
      if x in CutSet(tree, addr, top, D) {
        assert TriOk(tree, addr, nc, x);
        assert 0 <= a.path[|top.path|] < 4;
      }
    }
  }

  /** Below top, the nodes deeper than top at level D are those of its four child subtrees, which share none. */
  lemma CutSplits(tree: seq<TriTreeNode>, addr: seq<Address>, nc: int, top: Address, D: int)
    requires TreeOk(tree, addr, nc) && |top.path| < D
    ensures CutSet(tree, addr, top, D) ==
      CutSet(tree, addr, ChildAddress(top, 0), D) + CutSet(tree, addr, ChildAddress(top, 1), D) +
      CutSet(tree, addr, ChildAddress(top, 2), D) + CutSet(tree, addr, ChildAddress(top, 3), D)
    ensures forall a, b :: 0 <= a < b < 4 ==>
      CutSet(tree, addr, ChildAddress(top, a), D) !! CutSet(tree, addr, ChildAddress(top, b), D)
  {
    forall x {
      ChildCuts(tree, addr, nc, top, D, x);
    }
  }

  /** Four lists without repeats that enumerate four disjoint sets, joined, enumerate their union without repeats. */
  lemma FourCuts(s0: seq<int>, s1: seq<int>, s2: seq<int>, s3: seq<int>,
                 c0: set<int>, c1: set<int>, c2: set<int>, c3: set<int>)
    requires Distinct(s0) && Distinct(s1) && Distinct(s2) && Distinct(s3)
    requires forall x :: (x in s0 <==> x in c0) && (x in s1 <==> x in c1) && (x in s2 <==> x in c2) && (x in s3 <==> x in c3)
    requires c0 !! c1 && c0 !! c2 && c0 !! c3 && c1 !! c2 && c1 !! c3 && c2 !! c3
    ensures Distinct(s0 + s1 + s2 + s3)
    ensures forall x :: x in s0 + s1 + s2 + s3 <==> x in c0 + c1 + c2 + c3
  {
    DistinctConcat(s0, s1);
    DistinctConcat(s0 + s1, s2);
    DistinctConcat(s0 + s1 + s2, s3);
  }

  /**
   * Collection below j visits each node of j's subtree at the stopping level
   * exactly once, and no other node.
   */
  lemma {:induction false} StopsCut(tree: seq<TriTreeNode>, addr: seq<Address>, nc: int, L: int, j: int, depth: int)
    requires TreeOk(tree, addr, nc) && Layered(tree, addr, L) && 0 <= j < |tree|
    ensures Distinct(Stops(tree, addr, nc, L, j, depth))
    ensures forall x :: x in Stops(tree, addr, nc, L, j, depth) <==>
      x in CutSet(tree, addr, addr[j], StopLevel(|addr[j].path|, depth, L))
    decreases L - |addr[j].path|
  {
    assert TriOk(tree, addr, nc, j);
    if depth == 0 || tree[j].children[0] < 0 {
      StopCut(tree, addr, nc, L, j, depth);
    } else {
      var c := tree[j].children;
      var top := addr[j];
      var D := StopLevel(|top.path|, depth, L);
      assert |top.path| < L;
      assert addr[c[0]] == ChildAddress(top, 0) && addr[c[1]] == ChildAddress(top, 1);
      assert addr[c[2]] == ChildAddress(top, 2) && addr[c[3]] == ChildAddress(top, 3);
      StopsCut(tree, addr, nc, L, c[0], depth - 1);
      StopsCut(tree, addr, nc, L, c[1], depth - 1);
      StopsCut(tree, addr, nc, L, c[2], depth - 1);
      StopsCut(tree, addr, nc, L, c[3], depth - 1);
      CutSplits(tree, addr, nc, top, D);
      FourCuts(Stops(tree, addr, nc, L, c[0], depth - 1), Stops(tree, addr, nc, L, c[1], depth - 1),
               Stops(tree, addr, nc, L, c[2], depth - 1), Stops(tree, addr, nc, L, c[3], depth - 1),
               CutSet(tree, addr, ChildAddress(top, 0), D), CutSet(tree, addr, ChildAddress(top, 1), D),
               CutSet(tree, addr, ChildAddress(top, 2), D), CutSet(tree, addr, ChildAddress(top, 3), D));
    }
  }

  /** Over the first n roots, collection visits each node under those roots at the stopping level exactly once. */
  lemma {:induction false} RootStopsCut(tree: seq<TriTreeNode>, addr: seq<Address>, nc: int, L: int, n: int, depth: int)
    requires TreeOk(tree, addr, nc) && Layered(tree, addr, L) && 0 <= n <= TriangleCount
    ensures Triples(RootCorners(tree, addr, nc, L, n, depth), RootStops(tree, addr, nc, L, n, depth), tree)
    ensures Distinct(RootStops(tree, addr, nc, L, n, depth))
    ensures forall x :: x in RootStops(tree, addr, nc, L, n, depth) <==>
      x in SphereCut(tree, addr, StopLevel(0, depth, L)) && addr[x].root < n
  {
    if n > 0 {
      var r := n - 1;
      RootStopsCut(tree, addr, nc, L, r, depth);
      StopsTriples(tree, addr, nc, L, r, depth);
      StopsCut(tree, addr, nc, L, r, depth);
      var a, s := RootStops(tree, addr, nc, L, r, depth), Stops(tree, addr, nc, L, r, depth);
      TriplesConcat(RootCorners(tree, addr, nc, L, r, depth), a, Corners(tree, addr, nc, L, r, depth), s, tree);
      assert addr[r] == Address(r, []);
      forall x
        ensures x in s <==> x in SphereCut(tree, addr, StopLevel(0, depth, L)) && addr[x].root == r
      {
        if 0 <= x < |tree| {
          RootSubtree(addr[x], r);
        }
      }
      DistinctConcat(a, s);
      assert RootStops(tree, addr, nc, L, n, depth) == a + s;
      forall x
        ensures x in a + s <==> x in SphereCut(tree, addr, StopLevel(0, depth, L)) && addr[x].root < n
      {
        assert x in a + s <==> x in a || x in s;
      }
    } else {
      forall x | x in SphereCut(tree, addr, StopLevel(0, depth, L))
        ensures addr[x].root >= 0
      {
        assert TriOk(tree, addr, nc, x);
      }
    }
  }

  /**
   * Collection below j hands over exactly three corners per node of j's
   * subtree at the stopping level: each such node once, in visiting order.
   */
  lemma CornersCoverCut(tree: seq<TriTreeNode>, addr: seq<Address>, nc: int, L: int, j: int, depth: int)
    requires TreeOk(tree, addr, nc) && Layered(tree, addr, L) && 0 <= j < |tree|
    ensures Triples(Corners(tree, addr, nc, L, j, depth), Stops(tree, addr, nc, L, j, depth), tree)
    ensures Distinct(Stops(tree, addr, nc, L, j, depth))
    ensures forall x :: x in Stops(tree, addr, nc, L, j, depth) <==>
      x in CutSet(tree, addr, addr[j], StopLevel(|addr[j].path|, depth, L))
    ensures |Corners(tree, addr, nc, L, j, depth)| == 3 * |CutSet(tree, addr, addr[j], StopLevel(|addr[j].path|, depth, L))|
  {
    StopsTriples(tree, addr, nc, L, j, depth);
    StopsCut(tree, addr, nc, L, j, depth);
    DistinctCard(Stops(tree, addr, nc, L, j, depth), CutSet(tree, addr, addr[j], StopLevel(|addr[j].path|, depth, L)));
  }

  /**
   * Collection over the whole sphere hands over exactly three corners per
   * node at the stopping level, each once; with no depth limit, per leaf.
   */
  lemma RootCornersCoverCut(tree: seq<TriTreeNode>, addr: seq<Address>, nc: int, L: int, depth: int)
    requires TreeOk(tree, addr, nc) && Layered(tree, addr, L)
    ensures Triples(RootCorners(tree, addr, nc, L, TriangleCount, depth), RootStops(tree, addr, nc, L, TriangleCount, depth), tree)
    ensures Distinct(RootStops(tree, addr, nc, L, TriangleCount, depth))
    ensures forall x :: x in RootStops(tree, addr, nc, L, TriangleCount, depth) <==> x in SphereCut(tree, addr, StopLevel(0, depth, L))
    ensures |RootCorners(tree, addr, nc, L, TriangleCount, depth)| == 3 * |SphereCut(tree, addr, StopLevel(0, depth, L))|
    ensures depth < 0 ==> SphereCut(tree, addr, StopLevel(0, depth, L)) == LeafSet(tree)
  {
    RootStopsCut(tree, addr, nc, L, TriangleCount, depth);
    forall x | x in SphereCut(tree, addr, StopLevel(0, depth, L))
      ensures addr[x].root < TriangleCount
    {
      assert TriOk(tree, addr, nc, x);
    }
    DistinctCard(RootStops(tree, addr, nc, L, TriangleCount, depth), SphereCut(tree, addr, StopLevel(0, depth, L)));
  }
}
