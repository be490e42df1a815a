/**
 * TGeosphere: a sphere built from an icosahedron whose triangles are split
 * into four, level by level.  Nodes carry one neighbour list per level; the
 * tri-tree records every triangle ever made, roots 0..19 being the
 * icosahedron's faces.
 */
module Geosphere {
  import opened Common
  import opened Icosahedron
  import opened GeoGraph
  import opened IcosahedronAdjacency
  import opened TriTree
  import opened MeshCollect
  import opened GeoMesh
  import opened RingWalk

  /** The icosahedron's corner k with its level-0 neighbours. */
  function IcoNode(k: int): GeoNode
    requires 0 <= k < VertexCount
  {
    GeoNode(IcoVertex(k), NoNormal, [IcoAdj[k]])
  }

  /** The 12 icosahedron nodes, in id order. */
  function IcoNodes(): seq<GeoNode>
  {
    seq(VertexCount, k requires 0 <= k < VertexCount => IcoNode(k))
  }

  /** The 20 root triangles, childless, in face order. */
  function RootTris(): seq<TriTreeNode>
  {
    seq(TriangleCount, t requires 0 <= t < TriangleCount => TriTreeNode(IcoTris[t], NoChildren))
  }

  /** The addresses of the 20 roots. */
  function RootAddrs(): seq<Address>
  {
    seq(TriangleCount, r => Address(r, []))
  }

  /** The icosahedron alone is a valid level-0 sphere with symmetric adjacency, every node having neighbours. */
  lemma IcosahedronIsValid()
    ensures TreeOk(RootTris(), RootAddrs(), |IcoNodes()|)
    ensures AdjOk(IcoNodes()) && AdjSymmetric(IcoNodes()) && TopListsOk(IcoNodes())
    ensures Layered(RootTris(), RootAddrs(), 0)
    ensures forall j :: j in LeafSet(RootTris()) <==> 0 <= j < TriangleCount
  {
    var nodes, tree, addr := IcoNodes(), RootTris(), RootAddrs();
    TablesWellFormed();
    IcoAdjSymmetric();
    assert forall j :: 0 <= j < TriangleCount ==> TriOk(tree, addr, |nodes|, j);
    forall n, lev, x | 0 <= n < |nodes| && x in AdjAt(nodes[n].adjacency, lev) ensures 0 <= x < |nodes| {
      assert AdjAt(nodes[n].adjacency, lev) == if lev == 0 then IcoAdj[n] else [];
    }
    forall a, b, lev | 0 <= a < |nodes| && 0 <= b < |nodes|
      ensures b in AdjAt(nodes[a].adjacency, lev) <==> a in AdjAt(nodes[b].adjacency, lev)
    {
      assert AdjAt(nodes[a].adjacency, lev) == if lev == 0 then IcoAdj[a] else [];
      assert AdjAt(nodes[b].adjacency, lev) == if lev == 0 then IcoAdj[b] else [];
    }
  }

  /**
   * Splitting a leaf at level L, whose subtree holds nothing else, keeps the
   * sphere well formed, grows the adjacency validly and symmetrically, and
   * subdivides that leaf's subtree.
   */
  lemma LeafSplitFacts(nodes: seq<GeoNode>, tree: seq<TriTreeNode>, addr: seq<Address>, i: int, L: int)
    requires TreeOk(tree, addr, |nodes|) && AdjOk(nodes) && L >= 0
    requires 0 <= i < |tree| && !Internal(tree[i]) && |addr[i].path| == L
    requires LayeredBelow(tree, addr, addr[i], L)
    ensures |tree[i].vertices| == 3 && forall k :: 0 <= k < 3 ==> 0 <= tree[i].vertices[k] < |nodes|
    ensures tree[i].children == NoChildren
    ensures TreeOk(SplitTree(tree, i, SplitMidpoints(nodes, tree[i].vertices, L + 1)), SplitAddrs(addr, i),
                   |SplitNodes(nodes, tree[i].vertices, L + 1)|)
    ensures AdjOk(SplitNodes(nodes, tree[i].vertices, L + 1))
    ensures AdjExtends(nodes, SplitNodes(nodes, tree[i].vertices, L + 1))
    ensures AdjSymmetric(nodes) ==> AdjSymmetric(SplitNodes(nodes, tree[i].vertices, L + 1))
    ensures TopListsOk(nodes) ==> TopListsOk(SplitNodes(nodes, tree[i].vertices, L + 1))
    ensures SubdividedBelow(tree, addr, SplitTree(tree, i, SplitMidpoints(nodes, tree[i].vertices, L + 1)),
                            SplitAddrs(addr, i), addr[i], L, {i})
  {
    assert TriOk(tree, addr, |nodes|, i);
    var v := tree[i].vertices;
    var m := SplitMidpoints(nodes, v, L + 1);
    SplitNodesProps(nodes, v, L + 1);
    if TopListsOk(nodes) {
      SplitNodesTop(nodes, v, L + 1);
    }
    SplitKeepsTreeOk(tree, addr, |nodes|, |SplitNodes(nodes, v, L + 1)|, i, m);
    SplitSubdivides(tree, addr, |nodes|, i, L, m);
  }

  /** 4 to the power n: the factor by which n passes of Subdivide multiply the leaves. */
  function Pow4(n: nat): (r: nat)
    ensures r >= 1
  {
    if n == 0 then 1 else 4 * Pow4(n - 1)
  }

  /** Multiplying by 4^(n+1) is multiplying by 4^n and then by 4. */
  lemma Pow4Step(a: int, n: nat)
    ensures a * Pow4(n + 1) == 4 * (a * Pow4(n))
  {
    assert Pow4(n + 1) == 4 * Pow4(n);
  }

  class Geosphere {
    var nodes: seq<GeoNode>
    var tree: seq<TriTreeNode>
    var level: int
    const seed: int
    /** Where each tri-tree node sits: its root face and the child slots leading to it. */
    ghost var addr: seq<Address>

    /** Nothing built yet. */
    ghost predicate Empty()
      reads this
    {
      nodes == [] && tree == [] && addr == [] && level == 0
    }

    /**
     * The sphere invariant: a well-formed tri-tree over valid node ids, all
     * adjacency entries valid, and every leaf exactly at the current level.
     */
    ghost predicate Valid()
      reads this
    {
      && TreeOk(tree, addr, |nodes|)
      && AdjOk(nodes)
      && level >= 0
      && Layered(tree, addr, level)
    }

    /** The current leaves: the triangles of the finest mesh. */
    ghost function Leaves(): set<int>
      reads this
    {
      LeafSet(tree)
    }

    constructor(seed: int)
      ensures Empty() && this.seed == seed
    {
      this.seed := seed;
      nodes := [];
      tree := [];
      level := 0;
      addr := [];
    }

    /** Drops every node and triangle and returns to level 0. */
    method Clear()
      modifies this
      ensures Empty()
    {
      nodes := [];
      tree := [];
      level := 0;
      addr := [];
    }

    /**
     * BuildIcosahedron: appends the 12 icosahedron nodes with their level-0
     * neighbour lists, then the 20 root triangles.  Built on an empty sphere
     * it yields a valid level-0 sphere with symmetric adjacency whose leaves
     * are the 20 faces.
     */
    method BuildIcosahedron()
      modifies this
      ensures nodes == old(nodes) + IcoNodes()
      ensures tree == old(tree) + RootTris()
      ensures level == old(level)
      ensures old(Empty()) ==> Valid() && AdjSymmetric(nodes) && TopListsOk(nodes) && forall j :: j in Leaves() <==> 0 <= j < TriangleCount
    {
      ghost var n0, t0, a0 := nodes, tree, addr;
      for k := 0 to VertexCount
        invariant nodes == n0 + IcoNodes()[..k]
        invariant tree == t0 && addr == a0 && level == old(level)
      {
        nodes := nodes + [IcoNode(k)];
      }
      assert IcoNodes()[..VertexCount] == IcoNodes();
      for t := 0 to TriangleCount
        invariant tree == t0 + RootTris()[..t]
        invariant addr == a0 + seq(t, r => Address(|t0| + r, []))
        invariant nodes == n0 + IcoNodes() && level == old(level)
      {
        var _ := AddTriTreeNode(IcoTris[t], -1);
      }
      assert RootTris()[..TriangleCount] == RootTris();
      if n0 == [] && t0 == [] && a0 == [] && old(level) == 0 {
        IcosahedronIsValid();
        assert nodes == IcoNodes() && tree == RootTris() && addr == RootAddrs();
      }
    }

    /**
     * One edge of the leaf branch of xSubdivide: the first common neighbour
     * of a and b at level lev, or else a new node at their midpoint,
     * connected to both at that level.
     */
    method EdgeMidpointNode(a: int, b: int, lev: int) returns (m: int)
      requires 0 <= a < |nodes| && 0 <= b < |nodes| && 0 <= lev
      modifies this
      ensures (nodes, m) == MidpointStep(old(nodes), a, b, lev)
      ensures tree == old(tree) && addr == old(addr) && level == old(level)
    {
      m := FindNodesCommonAdjacency(a, b, lev);
      if m < 0 {
        m := AddNode(GeoNode(EdgeMidpoint(a, b), NoNormal, []));
        ConnectNodes(m, a, lev);
        ConnectNodes(m, b, lev);
      }
    }

    /** The first phase of the leaf branch of xSubdivide: a midpoint node for each edge (v[k], v[k+1]) in turn. */
    method EdgeMidpoints(v: seq<int>, lev: int) returns (sub: seq<int>)
      requires |v| == 3 && (forall k :: 0 <= k < 3 ==> 0 <= v[k] < |nodes|) && 0 <= lev
      modifies this
      ensures (nodes, sub) == MidpointsFrom(old(nodes), v, lev, 3)
      ensures tree == old(tree) && addr == old(addr) && level == old(level)
    {
      ghost var n0 := nodes;
      sub := [];
      for k := 0 to 3
        invariant (nodes, sub) == MidpointsFrom(n0, v, lev, k)
        invariant tree == old(tree) && addr == old(addr) && level == old(level)
      {
        var m := EdgeMidpointNode(EdgeStart(v, k), EdgeEnd(v, k), lev);
        sub := sub + [m];
      }
    }

    /** The second phase of the leaf branch of xSubdivide: connect the three midpoints in a ring. */
    method ConnectRing(sub: seq<int>, lev: int)
      requires |sub| == 3 && (forall k :: 0 <= k < 3 ==> 0 <= sub[k] < |nodes|) && 0 <= lev
      modifies this
      ensures nodes == RingConnect(old(nodes), sub, lev)
      ensures tree == old(tree) && addr == old(addr) && level == old(level)
    {
      ConnectNodes(sub[0], sub[1], lev);
      ConnectNodes(sub[1], sub[2], lev);
      ConnectNodes(sub[2], sub[0], lev);
    }

    /** The last phase of the leaf branch of xSubdivide: the four children, in their fixed order, under leaf i. */
    method AddChildren(i: int, sub: seq<int>)
      requires |addr| == |tree| && 0 <= i < |tree| && tree[i].children == NoChildren
      requires |tree[i].vertices| == 3 && |sub| == 3
      modifies this
      ensures nodes == old(nodes) && level == old(level)
      ensures tree == SplitTree(old(tree), i, sub)
      ensures addr == SplitAddrs(old(addr), i)
    {
      var n := |tree|;
      ghost var t0 := tree;
      var v := tree[i].vertices;
      var c0 := AddTriTreeNode([v[0], sub[0], sub[2]], i);
      assert tree[i].children == [n, -1, -1, -1];
      assert FirstFree(tree[i].children) == Some(1);
      var c1 := AddTriTreeNode([v[1], sub[1], sub[0]], i);
      assert tree[i].children == [n, n + 1, -1, -1];
      assert FirstFree(tree[i].children) == Some(2);
      var c2 := AddTriTreeNode([v[2], sub[2], sub[1]], i);
      assert tree[i].children == [n, n + 1, n + 2, -1];
      FirstFreeIs(tree[i].children, 3);
      var c3 := AddTriTreeNode([sub[0], sub[1], sub[2]], i);
      assert tree[i].children == [n, n + 1, n + 2, n + 3];
      assert tree[..n] == t0[i := tree[i]];
    }

    /**
     * The leaf branch of xSubdivide: settle on a midpoint node for each edge
     * (v[k], v[k+1]) of leaf i at level+1, connect the three midpoints in a
     * ring, and hang the four children under i.
     */
    method SplitLeaf(i: int)
      requires AdjOk(nodes) && |addr| == |tree| && level >= 0
      requires 0 <= i < |tree| && tree[i].children == NoChildren
      requires |tree[i].vertices| == 3 && forall k :: 0 <= k < 3 ==> 0 <= tree[i].vertices[k] < |nodes|
      modifies this
      ensures level == old(level)
      ensures nodes == SplitNodes(old(nodes), old(tree[i].vertices), level + 1)
      ensures tree == SplitTree(old(tree), i, SplitMidpoints(old(nodes), old(tree[i].vertices), level + 1))
      ensures addr == SplitAddrs(old(addr), i)
    {
      ghost var n0 := nodes;
      var lev := level + 1;
      var v := tree[i].vertices;
      var sub := EdgeMidpoints(v, lev);
      SplitMidpointsValid(n0, v, lev);
      ConnectRing(sub, lev);
      AddChildren(i, sub);
    }

    /**
     * Subdivide: depth passes, each running xSubdivide on the 20 roots and
     * then raising the level.  Every pass splits each leaf into four, so the
     * leaves multiply by 4^depth; the adjacency only grows and stays
     * symmetric.  A depth of zero or less changes nothing.
     */
    method Subdivide(depth: int)
      requires Valid()
      modifies this
      ensures Valid()
      ensures AdjExtends(old(nodes), nodes)
      ensures old(AdjSymmetric(nodes)) ==> AdjSymmetric(nodes)
      ensures old(TopListsOk(nodes)) ==> TopListsOk(nodes)
      ensures depth >= 0 ==> level == old(level) + depth && |Leaves()| == old(|Leaves()|) * Pow4(depth)
      ensures depth <= 0 ==> nodes == old(nodes) && tree == old(tree) && level == old(level)
    {
      var iter := 0;
      while iter < depth
        invariant Valid() && 0 <= iter <= if depth > 0 then depth else 0
        invariant level == old(level) + iter
        invariant |Leaves()| == old(|Leaves()|) * Pow4(iter)
        invariant AdjExtends(old(nodes), nodes)
        invariant old(AdjSymmetric(nodes)) ==> AdjSymmetric(nodes)
        invariant old(TopListsOk(nodes)) ==> TopListsOk(nodes)
        invariant iter == 0 ==> nodes == old(nodes) && tree == old(tree)
      {
        ghost var n1, l1 := nodes, |Leaves()|;
        SubdividePass();
        AdjExtendsTrans(old(nodes), n1, nodes);
        Pow4Step(old(|Leaves()|), iter);
        iter := iter + 1;
      }
    }

    /**
     * One pass of Subdivide: xSubdivide on each root in turn, then the level
     * goes up.  The old leaves are exactly the triangles split; the new
     * leaves are exactly the triangles the pass appended, four per old leaf.
     */
    method SubdividePass()
      requires Valid()
      modifies this
      ensures Valid() && level == old(level) + 1
      ensures AdjExtends(old(nodes), nodes)
      ensures old(AdjSymmetric(nodes)) ==> AdjSymmetric(nodes)
      ensures old(TopListsOk(nodes)) ==> TopListsOk(nodes)
      ensures old(|tree|) <= |tree| && forall j :: j in Leaves() <==> old(|tree|) <= j < |tree|
      ensures |Leaves()| == 4 * old(|Leaves()|)
    {
      SubdivideRoots();
      level := level + 1;
    }

    /**
     * The inner loop of Subdivide: xSubdivide on roots 0..19, all at the
     * current level.  Afterwards every leaf sits one level deeper, the
     * leaves are exactly the triangles appended, and there are four times
     * as many.
     */
    method SubdivideRoots()
      requires TreeOk(tree, addr, |nodes|) && AdjOk(nodes) && level >= 0 && Layered(tree, addr, level)
      modifies this
      ensures TreeOk(tree, addr, |nodes|) && AdjOk(nodes) && level == old(level)
      ensures AdjExtends(old(nodes), nodes)
      ensures old(AdjSymmetric(nodes)) ==> AdjSymmetric(nodes)
      ensures old(TopListsOk(nodes)) ==> TopListsOk(nodes)
      ensures Layered(tree, addr, level + 1)
      ensures old(|tree|) <= |tree| && LeafSet(tree) == Interval(old(|tree|), |tree|)
      ensures |LeafSet(tree)| == 4 * |LeafSet(old(tree))|
    {
      ghost var n0, t0, a0 := nodes, tree, addr;
      PassedRootsStart(t0, a0, |n0|, level);
      ghost var split := {};
      for r := 0 to TriangleCount
        invariant TreeOk(tree, addr, |nodes|) && AdjOk(nodes) && level == old(level)
        invariant AdjExtends(n0, nodes)
        invariant AdjSymmetric(n0) ==> AdjSymmetric(nodes)
        invariant TopListsOk(n0) ==> TopListsOk(nodes)
        invariant PassedRoots(t0, a0, tree, addr, level, r, split)
      {
        split := SubdivideRoot(r, n0, t0, a0, split);
      }
      PassedRootsEnd(t0, a0, tree, addr, level, split, |n0|);
    }

    /**
     * One turn of the roots loop: xSubdivide on root r, whose subtree still
     * has its leaves at the current level, extends the record of the pass
     * by the leaves it split.
     */
    method SubdivideRoot(r: int, ghost n0: seq<GeoNode>, ghost t0: seq<TriTreeNode>, ghost a0: seq<Address>,
                         ghost split: set<int>) returns (ghost split': set<int>)
      requires 0 <= r < TriangleCount && level >= 0
      requires TreeOk(tree, addr, |nodes|) && AdjOk(nodes)
      requires AdjExtends(n0, nodes) && (AdjSymmetric(n0) ==> AdjSymmetric(nodes))
      requires TopListsOk(n0) ==> TopListsOk(nodes)
      requires PassedRoots(t0, a0, tree, addr, level, r, split) && Layered(t0, a0, level)
      modifies this
      ensures TreeOk(tree, addr, |nodes|) && AdjOk(nodes) && level == old(level)
      ensures AdjExtends(n0, nodes) && (AdjSymmetric(n0) ==> AdjSymmetric(nodes))
      ensures TopListsOk(n0) ==> TopListsOk(nodes)
      ensures PassedRoots(t0, a0, tree, addr, level, r + 1, split')
    {
      PassedRootsRootLayered(t0, a0, tree, addr, level, r, split);
      assert addr[r] == Address(r, []);
      ghost var n1, t1, a1 := nodes, tree, addr;
      var s := SubdivideNode(r);
      AdjExtendsTrans(n0, n1, nodes);
      PassedRootsStep(t0, a0, t1, a1, tree, addr, level, r, split, s);
      split' := split + s;
    }

    /**
     * xSubdivide: split every leaf in the subtree at i into four at level + 1,
     * reusing the midpoint node a neighbouring split already made for an
     * edge.  The subtree must have all its leaves at the current level;
     * afterwards those leaves are subdivided and the new leaves sit one
     * level deeper, four for each of the leaves named by split.
     */
    method SubdivideNode(i: int) returns (ghost split: set<int>)
      requires TreeOk(tree, addr, |nodes|) && AdjOk(nodes) && level >= 0
      requires 0 <= i < |tree| && |addr[i].path| <= level
      requires LayeredBelow(tree, addr, addr[i], level)
      modifies this
      ensures TreeOk(tree, addr, |nodes|) && AdjOk(nodes) && level == old(level)
      ensures AdjExtends(old(nodes), nodes)
      ensures old(AdjSymmetric(nodes)) ==> AdjSymmetric(nodes)
      ensures old(TopListsOk(nodes)) ==> TopListsOk(nodes)
      ensures SubdividedBelow(old(tree), old(addr), tree, addr, old(addr[i]), level, split)
      decreases level - |addr[i].path|
    {
      ghost var n0, t0, a0 := nodes, tree, addr;
      assert TriOk(tree, addr, |nodes|, i);
      InSubtreeRefl(addr[i]);
      if tree[i].children[0] < 0 {
        split := SubdivideLeaf(i);
      } else {
        var children := tree[i].children;
        ghost var top := addr[i];
        PassedChildrenStart(t0, a0, |n0|, top, level);
        split := {};
        for k := 0 to 4
          invariant TreeOk(tree, addr, |nodes|) && AdjOk(nodes) && level == old(level)
          invariant AdjExtends(n0, nodes)
          invariant AdjSymmetric(n0) ==> AdjSymmetric(nodes)
          invariant TopListsOk(n0) ==> TopListsOk(nodes)
          invariant PassedChildren(t0, a0, tree, addr, top, level, k, split)
        {
          var c := children[k];
          assert addr[c] == ChildAddress(top, k) by {
            assert addr[..|t0|][c] == addr[c];
          }
          PassedChildrenChildLayered(t0, a0, tree, addr, top, level, k, split);
          ghost var n1, t1, a1 := nodes, tree, addr;
          var s := SubdivideNode(c);
          AdjExtendsTrans(n0, n1, nodes);
          PassedChildrenStep(t0, a0, t1, a1, tree, addr, top, level, k, split, s);
          split := split + s;
        }
        PassedChildrenEnd(t0, a0, tree, addr, top, level, split, |n0|);
      }
    }

    /** The leaf case of xSubdivide, with the contract of SubdivideNode: a leaf at the current level is split. */
    method SubdivideLeaf(i: int) returns (ghost split: set<int>)
      requires TreeOk(tree, addr, |nodes|) && AdjOk(nodes) && level >= 0
      requires 0 <= i < |tree| && !Internal(tree[i]) && |addr[i].path| == level
      requires LayeredBelow(tree, addr, addr[i], level)
      modifies this
      ensures TreeOk(tree, addr, |nodes|) && AdjOk(nodes) && level == old(level)
      ensures AdjExtends(old(nodes), nodes)
      ensures old(AdjSymmetric(nodes)) ==> AdjSymmetric(nodes)
      ensures old(TopListsOk(nodes)) ==> TopListsOk(nodes)
      ensures SubdividedBelow(old(tree), old(addr), tree, addr, old(addr[i]), level, split)
    {
      LeafSplitFacts(nodes, tree, addr, i, level);
      SplitLeaf(i);
      split := {i};
    }

    /**
     * GenerateMesh: collect the corners below region (every root when
     * negative) down depth levels, rewrite them as positions in the sorted
     * id list, build the normals, and emit one vertex per listed id.  The
     * vertices are shared: there is one for each distinct collected node,
     * in ascending id order, carrying that node's position and new normal,
     * and every corner's index names the vertex of the node collected there.
     */
    method GenerateMesh(region: int, depth: int, fuel: nat) returns (mc: MeshContainer, ghost ids: seq<int>)
      requires Valid() && region < |tree| && AdjSymmetric(nodes) && TopListsOk(nodes)
      modifies this
      ensures Valid() && tree == old(tree) && addr == old(addr) && level == old(level) && |nodes| == old(|nodes|)
      ensures forall k :: 0 <= k < |nodes| ==> nodes[k] == old(nodes[k]).(normal := NormalAfter(old(nodes), k, fuel))
      ensures StrictlySorted(ids) && |mc.vertices| == |mc.normals| == |ids|
      ensures forall x :: x in ids <==> x in Collected(region, depth)
      ensures |mc.vertices| == |set x | x in Collected(region, depth)|
      ensures forall y :: 0 <= y < |ids| ==>
        0 <= ids[y] < |nodes| && mc.vertices[y] == nodes[ids[y]].position && mc.normals[y] == nodes[ids[y]].normal
      ensures |mc.triangles| == |Collected(region, depth)| && |mc.triangles| % 3 == 0
      ensures forall t :: 0 <= t < |mc.triangles| ==>
        0 <= mc.triangles[t] < |ids| && ids[mc.triangles[t]] == Collected(region, depth)[t]
      ensures forall v :: 0 <= v < |mc.vertices| ==> v in mc.triangles
    {
      var indexes, triangles := IndexedCorners(region, depth);
      ghost var corners := Collected(region, depth);
      IndexesAreCorners(indexes, triangles, corners);
      BuildNormals(fuel);
      assert Collected(region, depth) == corners;
      var vertices, normals := MeshVertices(indexes);
      mc := MeshContainer(vertices, normals, triangles);
      ids := indexes;
    }

    /** The sorted ids that the corners are rewritten against are exactly the distinct corners. */
    static lemma IndexesAreCorners(indexes: seq<int>, triangles: seq<int>, corners: seq<int>)
      requires StrictlySorted(indexes) && |triangles| == |corners|
      requires forall t :: 0 <= t < |triangles| ==> 0 <= triangles[t] < |indexes| && indexes[triangles[t]] == corners[t]
      requires forall v :: 0 <= v < |indexes| ==> v in triangles
      ensures forall x :: x in indexes <==> x in corners
      ensures |indexes| == |set x | x in corners|
    {
      forall x | x in indexes ensures x in corners {
        var v :| 0 <= v < |indexes| && indexes[v] == x;
        assert v in triangles;
        var t :| 0 <= t < |triangles| && triangles[t] == v;
      }
      forall x | x in corners ensures x in indexes {
        var t :| 0 <= t < |corners| && corners[t] == x;
      }
      DistinctCard(indexes, set x | x in corners);
    }

    /**
     * The index part of GenerateMesh: a fresh mesh is handed the corners
     * below region and rewrites them as positions in its sorted id list.
     * Each output index points at the id collected at that corner, and
     * every listed id is pointed at.
     */
    method IndexedCorners(region: int, depth: int) returns (indexes: seq<int>, triangles: seq<int>)
      requires Valid() && region < |tree|
      ensures StrictlySorted(indexes)
      ensures forall y :: 0 <= y < |indexes| ==> 0 <= indexes[y] < |nodes|
      ensures |triangles| == |Collected(region, depth)|
      ensures forall t :: 0 <= t < |triangles| ==>
        0 <= triangles[t] < |indexes| && indexes[triangles[t]] == Collected(region, depth)[t]
      ensures forall v :: 0 <= v < |indexes| ==> v in triangles
    {
      var geomesh := new MutableGeoMesh();
      CollectVertexes(geomesh, region, depth);
      ghost var corners := geomesh.triangles;
      geomesh.IndexTriangles();
      forall y | 0 <= y < |geomesh.indexes| ensures 0 <= geomesh.indexes[y] < |nodes| {
        assert geomesh.indexes[y] in geomesh.indexes;
      }
      indexes, triangles := geomesh.indexes, geomesh.triangles;
      EveryIndexUsed(indexes, triangles, corners);
    }

    /** When every listed id is a corner and each corner points at its id, every position of the sorted list is pointed at. */
    static lemma EveryIndexUsed(indexes: seq<int>, triangles: seq<int>, corners: seq<int>)
      requires StrictlySorted(indexes) && |triangles| == |corners|
      requires forall x :: x in indexes ==> x in corners
      requires forall t :: 0 <= t < |triangles| && corners[t] in indexes ==>
        0 <= triangles[t] < |indexes| && indexes[triangles[t]] == corners[t]
      ensures forall v :: 0 <= v < |indexes| ==> v in triangles
    {
      forall v | 0 <= v < |indexes| ensures v in triangles {
        var x := indexes[v];
        assert x in corners;
        var t :| 0 <= t < |corners| && corners[t] == x;
        assert indexes[triangles[t]] == x;
      }
    }

    /** The vertex and normal lists of a mesh over the listed node ids, one entry per id in order. */
    method MeshVertices(indexes: seq<int>) returns (vertices: seq<Point>, normals: seq<Normal>)
      requires forall y :: 0 <= y < |indexes| ==> 0 <= indexes[y] < |nodes|
      ensures |vertices| == |normals| == |indexes|
      ensures forall y :: 0 <= y < |indexes| ==>
        vertices[y] == nodes[indexes[y]].position && normals[y] == nodes[indexes[y]].normal
    {
      vertices, normals := [], [];
      for k := 0 to |indexes|
        invariant |vertices| == |normals| == k
        invariant forall y :: 0 <= y < k ==>
          vertices[y] == nodes[indexes[y]].position && normals[y] == nodes[indexes[y]].normal
      {
        vertices := vertices + [nodes[indexes[k]].position];
        normals := normals + [nodes[indexes[k]].normal];
      }
    }

    /**
     * BuildNormals: gives every node the normal of the walk round it at its
     * top level, computed on the lists as they stand (the loop changes only
     * normals, so every walk sees the same lists).  A walk that does not
     * close within fuel steps leaves that node's normal as it was.
     */
    method BuildNormals(fuel: nat)
      requires AdjOk(nodes) && AdjSymmetric(nodes) && TopListsOk(nodes)
      modifies this
      ensures |nodes| == old(|nodes|)
      ensures forall k :: 0 <= k < |nodes| ==> nodes[k] == old(nodes[k]).(normal := NormalAfter(old(nodes), k, fuel))
      ensures tree == old(tree) && addr == old(addr) && level == old(level)
      ensures old(Valid()) ==> Valid()
      ensures AdjSymmetric(nodes) && TopListsOk(nodes)
    {
      var n0 := nodes;
      for i := 0 to |n0|
        invariant |nodes| == |n0| && tree == old(tree) && addr == old(addr) && level == old(level)
        invariant forall k :: 0 <= k < i ==> nodes[k] == n0[k].(normal := NormalAfter(n0, k, fuel))
        invariant forall k :: i <= k < |n0| ==> nodes[k] == n0[k]
      {
        assert HasTopNeighbours(n0[i]);
        var closed, ring := TraceRing(n0, i, fuel);
        if closed {
          nodes := nodes[i := nodes[i].(normal := FanNormal([i] + ring))];
        }
      }
      assert forall k :: 0 <= k < |nodes| ==> nodes[k].adjacency == n0[k].adjacency;
    }

    /** The corners GenerateMesh collects: below region, or below every root when region is negative; whole triangles of valid node ids. */
    ghost function Collected(region: int, depth: int): (r: seq<int>)
      requires Valid() && region < |tree|
      reads this
      ensures |r| % 3 == 0 && forall x :: x in r ==> 0 <= x < |nodes|
      ensures forall t :: 0 <= t < |r| ==> 0 <= r[t] < |nodes|
    {
      if region < 0 then
        RootCornersTriangles(tree, addr, |nodes|, level, TriangleCount, depth);
        RootCornersValid(tree, addr, |nodes|, level, TriangleCount, depth);
        var r := RootCorners(tree, addr, |nodes|, level, TriangleCount, depth);
        assert forall t :: 0 <= t < |r| ==> r[t] in r;
        r
      else
        CornersTriangles(tree, addr, |nodes|, level, region, depth);
        CornersValid(tree, addr, |nodes|, level, region, depth);
        var r := Corners(tree, addr, |nodes|, level, region, depth);
        assert forall t :: 0 <= t < |r| ==> r[t] in r;
        r
    }

    /**
     * What GenerateMesh collects is three corners for each tri-tree node at
     * the level where collection stops, each such node once: below region,
     * or under every root when region is negative.  With no depth limit
     * over the whole sphere, those nodes are exactly the current leaves.
     */
    lemma CollectedCoversCut(region: int, depth: int)
      requires Valid() && region < |tree|
      ensures region < 0 ==> |Collected(region, depth)| == 3 * |SphereCut(tree, addr, StopLevel(0, depth, level))|
      ensures 0 <= region ==>
        |Collected(region, depth)| == 3 * |CutSet(tree, addr, addr[region], StopLevel(|addr[region].path|, depth, level))|
      ensures region < 0 && depth < 0 ==> |Collected(region, depth)| == 3 * |Leaves()|
    {
      if region < 0 {
        RootCornersCoverCut(tree, addr, |nodes|, level, depth);
      } else {
        CornersCoverCut(tree, addr, |nodes|, level, region, depth);
      }
    }

    /**
     * xCollectVertexes: hands the mesh the corners below tri-tree node base
     * (below every root in turn when base is negative), stopping at leaves
     * and, when depth is not negative, depth levels down.
     */
    method CollectVertexes(mesh: MutableGeoMesh, base: int, depth: int)
      requires Valid() && mesh.Valid() && base < |tree|
      modifies mesh
      ensures mesh.Valid()
      ensures mesh.triangles == old(mesh.triangles) + Collected(base, depth)
      ensures forall x :: x in mesh.indexes <==> x in old(mesh.indexes) || x in Collected(base, depth)
    {
      if base < 0 {
        CollectRoots(mesh, depth);
      } else {
        CollectBelow(mesh, base, depth);
      }
    }

    /** The branch of xCollectVertexes for a tri-tree node: what Corners gathers below base. */
    method CollectBelow(mesh: MutableGeoMesh, base: int, depth: int)
      requires Valid() && mesh.Valid() && 0 <= base < |tree|
      modifies mesh
      ensures mesh.Valid()
      ensures mesh.triangles == old(mesh.triangles) + Corners(tree, addr, |nodes|, level, base, depth)
      ensures forall x :: x in mesh.indexes <==> x in old(mesh.indexes) || x in Corners(tree, addr, |nodes|, level, base, depth)
      decreases level - |addr[base].path|, 1
    {
      assert TriOk(tree, addr, |nodes|, base);
      if depth == 0 || tree[base].children[0] < 0 {
        CollectCorners(mesh, base);
      } else {
        CollectChildren(mesh, base, depth);
        ChildCornersAll(tree, addr, |nodes|, level, base, depth);
      }
    }

    /** The root loop of xCollectVertexes: each of the 20 roots in turn. */
    method CollectRoots(mesh: MutableGeoMesh, depth: int)
      requires Valid() && mesh.Valid()
      modifies mesh
      ensures mesh.Valid()
      ensures mesh.triangles == old(mesh.triangles) + RootCorners(tree, addr, |nodes|, level, TriangleCount, depth)
      ensures forall x :: x in mesh.indexes <==>
        x in old(mesh.indexes) || x in RootCorners(tree, addr, |nodes|, level, TriangleCount, depth)
    {
      for i := 0 to TriangleCount
        invariant mesh.Valid()
        invariant mesh.triangles == old(mesh.triangles) + RootCorners(tree, addr, |nodes|, level, i, depth)
        invariant forall x :: x in mesh.indexes <==>
          x in old(mesh.indexes) || x in RootCorners(tree, addr, |nodes|, level, i, depth)
      {
        assert addr[i] == Address(i, []);
        CollectBelow(mesh, i, depth);
      }
    }

    /** The stopping case of xCollectVertexes: the three corners of base, in order. */
    method CollectCorners(mesh: MutableGeoMesh, base: int)
      requires Valid() && mesh.Valid() && 0 <= base < |tree|
      modifies mesh
      ensures mesh.Valid()
      ensures mesh.triangles == old(mesh.triangles) + tree[base].vertices
      ensures forall x :: x in mesh.indexes <==> x in old(mesh.indexes) || x in tree[base].vertices
    {
      assert TriOk(tree, addr, |nodes|, base);
      var v := tree[base].vertices;
      for i := 0 to 3
        invariant mesh.Valid()
        invariant mesh.triangles == old(mesh.triangles) + v[..i]
        invariant forall x :: x in mesh.indexes <==> x in old(mesh.indexes) || x in v[..i]
      {
        mesh.AddVertex(v[i]);
        assert v[..i + 1] == v[..i] + [v[i]];
      }
      assert v[..3] == v;
    }

    /** The descending case of xCollectVertexes: the four children of base in slot order, one level less to go. */
    method CollectChildren(mesh: MutableGeoMesh, base: int, depth: int)
      requires Valid() && mesh.Valid() && 0 <= base < |tree| && Internal(tree[base])
      modifies mesh
      ensures mesh.Valid()
      ensures mesh.triangles == old(mesh.triangles) + ChildCorners(tree, addr, |nodes|, level, base, depth, 4)
      ensures forall x :: x in mesh.indexes <==>
        x in old(mesh.indexes) || x in ChildCorners(tree, addr, |nodes|, level, base, depth, 4)
      decreases level - |addr[base].path|, 0
    {
      assert TriOk(tree, addr, |nodes|, base);
      var c := tree[base].children;
      for i := 0 to 4
        invariant mesh.Valid()
        invariant mesh.triangles == old(mesh.triangles) + ChildCorners(tree, addr, |nodes|, level, base, depth, i)
        invariant forall x :: x in mesh.indexes <==>
          x in old(mesh.indexes) || x in ChildCorners(tree, addr, |nodes|, level, base, depth, i)
      {
        assert addr[c[i]] == ChildAddress(addr[base], i);
        CollectBelow(mesh, c[i], depth - 1);
      }
    }

    /** xAddNode: appends a node and returns its id. */
    method AddNode(node: GeoNode) returns (index: int)
      modifies this
      ensures index == old(|nodes|) && nodes == old(nodes) + [node]
      ensures tree == old(tree) && addr == old(addr) && level == old(level)
    {
      index := |nodes|;
      nodes := nodes + [node];
    }

    /**
     * xAddTriTreeNode: appends a childless triangle and, when a parent is
     * given, records it in the parent's first empty child slot (if any).
     */
    method AddTriTreeNode(vertices: seq<int>, parent: int) returns (index: int)
      requires parent <= |tree|
      requires 0 <= parent < |tree| ==> |tree[parent].children| == 4
      modifies this
      ensures index == old(|tree|)
      ensures tree == AddTri(old(tree), vertices, parent)
      ensures addr == old(addr) + [NewAddress(old(tree), old(addr), parent)]
      ensures nodes == old(nodes) && level == old(level)
    {
      addr := addr + [NewAddress(tree, addr, parent)];
      index := |tree|;
      tree := tree + [TriTreeNode(vertices, NoChildren)];
      if parent >= 0 {
        var children := tree[parent].children;
        for k := 0 to 4
          invariant forall c :: 0 <= c < k ==> children[c] != -1
        {
          if children[k] == -1 {
            assert FirstFree(children) == Some(k);
            tree := tree[parent := tree[parent].(children := children[k := index])];
            return;
          }
        }
      }
    }

    /** xAddNodeAdjacency: pads node n's lists up to level lev, then appends a to list lev. */
    method AddNodeAdjacency(n: int, lev: int, a: int)
      requires 0 <= n < |nodes| && 0 <= lev
      modifies this
      ensures nodes == AddEdge(old(nodes), n, lev, a)
      ensures tree == old(tree) && addr == old(addr) && level == old(level)
    {
      var adjacency := nodes[n].adjacency;
      var maxLevel := |adjacency| - 1;
      if maxLevel < lev {
        for i := maxLevel to lev
          invariant adjacency == nodes[n].adjacency + EmptyLists(i - maxLevel)
        {
          adjacency := adjacency + [[]];
        }
      }
      adjacency := adjacency[lev := adjacency[lev] + [a]];
      nodes := nodes[n := nodes[n].(adjacency := adjacency)];
    }

    /** xConnectNodes: records each of two nodes as the other's neighbour at level lev. */
    method ConnectNodes(n1: int, n2: int, lev: int)
      requires 0 <= n1 < |nodes| && 0 <= n2 < |nodes| && 0 <= lev
      modifies this
      ensures nodes == Connect(old(nodes), n1, n2, lev)
      ensures tree == old(tree) && addr == old(addr) && level == old(level)
    {
      AddNodeAdjacency(n1, lev, n2);
      AddNodeAdjacency(n2, lev, n1);
    }

    /**
     * xFindNodesCommonAdjacency: the first neighbour of n1 at level lev, in
     * n1's list order, that is also a neighbour of n2 there; -1 if there is
     * none or either node has no list at that level.
     */
    method FindNodesCommonAdjacency(n1: int, n2: int, lev: int) returns (r: int)
      requires 0 <= n1 < |nodes| && 0 <= n2 < |nodes| && 0 <= lev
      ensures var f := FirstCommon(AdjAt(nodes[n1].adjacency, lev), AdjAt(nodes[n2].adjacency, lev));
        if f.Some? then r == f.value else r == -1
    {
      if |nodes[n1].adjacency| <= lev || |nodes[n2].adjacency| <= lev {
        return -1;
      }
      var l1 := nodes[n1].adjacency[lev];
      var l2 := nodes[n2].adjacency[lev];
      for a := 0 to |l1|
        invariant forall b :: 0 <= b < a ==> l1[b] !in l2
      {
        for c := 0 to |l2|
          invariant forall d :: 0 <= d < c ==> l2[d] != l1[a]
        {
          if l1[a] == l2[c] {
            FirstCommonAt(l1, l2, a);
            return l1[a];
          }
        }
      }
      return -1;
    }
  }
}
