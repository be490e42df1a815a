/**
 * Value-level vocabulary of the geodesic sphere: nodes with per-level
 * adjacency lists, tri-tree nodes with four child slots, and the functions
 * that say what one adjacency update or one child-slot update does.
 */
module GeoGraph {
  import opened Common
  import opened Icosahedron

  /** A node position, kept symbolic: an icosahedron corner or the normalised midpoint of two nodes. */
  datatype Point = IcoVertex(corner: int) | EdgeMidpoint(a: int, b: int)

  /**
   * A node normal, kept symbolic: not yet built, or the normalised
   * cross-product (Newell) sum over the closed polygon through the given
   * node ids, turned to face away from the sphere's centre.
   */
  datatype Normal = NoNormal | FanNormal(polygon: seq<int>)

  /** TGeoNode: position, normal, and one neighbour list per subdivision level. */
  datatype GeoNode = GeoNode(position: Point, normal: Normal, adjacency: seq<seq<int>>)

  /** TGeoTriTreeNode: three corner node ids and four child slots (-1 = no child). */
  datatype TriTreeNode = TriTreeNode(vertices: seq<int>, children: seq<int>)

  /** The empty child slots of a freshly added tri-tree node. */
  const NoChildren: seq<int> := [-1, -1, -1, -1]

  /** A node is subdivided when its first child slot is filled. */
  predicate Internal(t: TriTreeNode)
  {
    |t.children| > 0 && t.children[0] >= 0
  }

  /** The neighbour list of adjacency at level lev; a missing level reads as empty. */
  function AdjAt(adjacency: seq<seq<int>>, lev: int): seq<int>
  {
    if 0 <= lev < |adjacency| then adjacency[lev] else []
  }

  /**
   * xAddNodeAdjacency on one node's lists: pad with empty lists up to level
   * lev, then append a to list lev.  Only list lev changes.
   */
  function AddAdjacency(adjacency: seq<seq<int>>, lev: nat, a: int): (r: seq<seq<int>>)
    ensures |r| == if |adjacency| > lev then |adjacency| else lev + 1
    ensures AdjAt(r, lev) == AdjAt(adjacency, lev) + [a]
    ensures forall l :: l != lev ==> AdjAt(r, l) == AdjAt(adjacency, l)
  {
    var padded := if |adjacency| > lev then adjacency else adjacency + EmptyLists(lev + 1 - |adjacency|);
    padded[lev := padded[lev] + [a]]
  }

  /** n empty neighbour lists. */
  function EmptyLists(n: nat): (r: seq<seq<int>>)
    ensures |r| == n && forall k :: 0 <= k < n ==> r[k] == []
  {
    if n == 0 then [] else EmptyLists(n - 1) + [[]]
  }

  /** The whole node list after appending a to list lev of node n. */
  function AddEdge(nodes: seq<GeoNode>, n: int, lev: nat, a: int): seq<GeoNode>
    requires 0 <= n < |nodes|
  {
    nodes[n := nodes[n].(adjacency := AddAdjacency(nodes[n].adjacency, lev, a))]
  }

  /** The first element of l1, in l1's order, that also occurs in l2. */
  function FirstCommon(l1: seq<int>, l2: seq<int>): (r: Option<int>)
    ensures r.None? <==> forall x :: x in l1 ==> x !in l2
    ensures r.Some? ==> (r.value in l2 &&
      exists a :: 0 <= a < |l1| && l1[a] == r.value && forall b :: 0 <= b < a ==> l1[b] !in l2)
  {
    if l1 == [] then None
    else if l1[0] in l2 then
      var x := l1[0];
      assert x in l1 && x in l2;
      Some(x)
    else
      var r := FirstCommon(l1[1..], l2);
      assert forall x :: x in l1[1..] ==> x in l1;
      if r.Some? then
        var a :| 0 <= a < |l1[1..]| && l1[1..][a] == r.value && forall b :: 0 <= b < a ==> l1[1..][b] !in l2;
        assert l1[a + 1] == r.value && forall b :: 0 <= b < a + 1 ==> l1[b] !in l2;
        r
      else r
  }

  /** The first common element is the one at the first position of l1 whose element l2 holds. */
  lemma FirstCommonAt(l1: seq<int>, l2: seq<int>, a: int)
    requires 0 <= a < |l1| && l1[a] in l2
    requires forall b :: 0 <= b < a ==> l1[b] !in l2
    ensures FirstCommon(l1, l2) == Some(l1[a])
  {
    var r := FirstCommon(l1, l2);
    var a' :| 0 <= a' < |l1| && l1[a'] == r.value && forall b :: 0 <= b < a' ==> l1[b] !in l2;
    assert !(a' < a) && !(a < a');
  }

  /**
   * Appending only ids at or above bound to two lists whose entries lie below
   * it keeps their first common element, and any common element found only
   * after the appends is one of the appended ids.
   */
  lemma FirstCommonGrow(l1: seq<int>, l2: seq<int>, e1: seq<int>, e2: seq<int>, bound: int)
    requires forall x :: x in l1 ==> x < bound
    requires forall x :: x in e1 ==> x >= bound
    requires forall x :: x in e2 ==> x >= bound
    ensures FirstCommon(l1, l2).Some? ==> FirstCommon(l1 + e1, l2 + e2) == FirstCommon(l1, l2)
    ensures FirstCommon(l1, l2).None? && FirstCommon(l1 + e1, l2 + e2).Some? ==>
      FirstCommon(l1 + e1, l2 + e2).value >= bound
  {
    var f := FirstCommon(l1, l2);
    if f.Some? {
      var a :| 0 <= a < |l1| && l1[a] == f.value && forall b :: 0 <= b < a ==> l1[b] !in l2;
      assert (l1 + e1)[a] == l1[a] && l1[a] in l2 + e2;
      forall b | 0 <= b < a ensures (l1 + e1)[b] !in l2 + e2 {
        assert (l1 + e1)[b] == l1[b] && l1[b] in l1;
      }
      FirstCommonAt(l1 + e1, l2 + e2, a);
    } else {
      var g := FirstCommon(l1 + e1, l2 + e2);
      if g.Some? {
        var a :| 0 <= a < |l1 + e1| && (l1 + e1)[a] == g.value && forall b :: 0 <= b < a ==> (l1 + e1)[b] !in l2 + e2;
        var v := g.value;
        assert v in l1 + e1 && v in l2 + e2;
        assert v in e1 || v in e2;
      }
    }
  }

  /** The index of the first empty (-1) slot, if any. */
  function FirstFree(children: seq<int>): (r: Option<nat>)
    ensures r.Some? ==> (r.value < |children| && children[r.value] == -1 &&
      forall k :: 0 <= k < r.value ==> children[k] != -1)
    ensures r.None? ==> forall k :: 0 <= k < |children| ==> children[k] != -1
  {
    if children == [] then None
    else if children[0] == -1 then Some(0)
    else
      var r := FirstFree(children[1..]);
      if r.Some? then Some(r.value + 1) else None
  }

  /** The first empty slot is the first position holding -1. */
  lemma FirstFreeIs(children: seq<int>, k: nat)
    requires k < |children| && children[k] == -1 && forall c :: 0 <= c < k ==> children[c] != -1
    ensures FirstFree(children) == Some(k)
  {
    var r := FirstFree(children);
    assert r.Some? && !(r.value < k) && !(r.value > k);
  }

  /**
   * xAddTriTreeNode on values: a childless triangle appended at the end and,
   * when a parent is given, recorded in the parent's first empty child slot;
   * a parent whose slots are all taken is left as it was.
   */
  function AddTri(tree: seq<TriTreeNode>, vertices: seq<int>, parent: int): (r: seq<TriTreeNode>)
    requires parent <= |tree|
    requires 0 <= parent < |tree| ==> |tree[parent].children| == 4
    ensures |r| == |tree| + 1 && r[|tree|].vertices == vertices
    ensures forall j :: 0 <= j < |tree| && j != parent ==> r[j] == tree[j]
    ensures 0 <= parent < |tree| ==> r[parent].vertices == tree[parent].vertices
    ensures 0 <= parent < |tree| && FirstFree(tree[parent].children).Some? ==>
      r[parent].children == tree[parent].children[FirstFree(tree[parent].children).value := |tree|]
    ensures parent < 0 || (parent < |tree| && FirstFree(tree[parent].children).None?) ==>
      r == tree + [TriTreeNode(vertices, NoChildren)]
    ensures parent != |tree| ==> r[|tree|] == TriTreeNode(vertices, NoChildren)
    ensures parent == |tree| ==> r[|tree|].children == [|tree|, -1, -1, -1]
  {
    var t := tree + [TriTreeNode(vertices, NoChildren)];
    if parent < 0 then t
    else
      var f := FirstFree(t[parent].children);
      if f.None? then t else t[parent := t[parent].(children := t[parent].children[f.value := |tree|])]
  }

  /** A tri-tree node's place: its root triangle and the child slots taken from there. */
  datatype Address = Address(root: int, path: seq<int>)

  /** The address of child slot k below a. */
  function ChildAddress(a: Address, k: int): Address
  {
    Address(a.root, a.path + [k])
  }

  /** A child address lies one level below its parent, and its last step tells the slot. */
  lemma ChildAddressBelow(a: Address, k: int)
    ensures InSubtree(ChildAddress(a, k), a)
    ensures |ChildAddress(a, k).path| == |a.path| + 1 && ChildAddress(a, k).path[|a.path|] == k
  {
    assert (a.path + [k])[..|a.path|] == a.path;
  }

  /** a lies in the subtree whose top has address top. */
  predicate InSubtree(a: Address, top: Address)
  {
    a.root == top.root && |top.path| <= |a.path| && a.path[..|top.path|] == top.path
  }

  /** The address the triangle appended by AddTri takes: the child slot it fills, or else a root address of its own. */
  ghost function NewAddress(tree: seq<TriTreeNode>, addr: seq<Address>, parent: int): Address
  {
    if 0 <= parent < |tree| == |addr| && FirstFree(tree[parent].children).Some?
    then ChildAddress(addr[parent], FirstFree(tree[parent].children).value)
    else Address(|tree|, [])
  }

  /** Tri-tree node j is well formed: three valid corners, four slots that are all empty or all valid children at their addresses. */
  ghost predicate TriOk(tree: seq<TriTreeNode>, addr: seq<Address>, nodeCount: int, j: int)
    requires 0 <= j < |tree| == |addr|
  {
    var t := tree[j];
    && |t.vertices| == 3 && (forall k :: 0 <= k < 3 ==> 0 <= t.vertices[k] < nodeCount)
    && |t.children| == 4
    && (t.children[0] < 0 ==> t.children == NoChildren)
    && (t.children[0] >= 0 ==> forall k :: 0 <= k < 4 ==>
          0 <= t.children[k] < |tree| && addr[t.children[k]] == ChildAddress(addr[j], k))
    && 0 <= addr[j].root < TriangleCount
    && (forall m :: 0 <= m < |addr[j].path| ==> 0 <= addr[j].path[m] < 4)
  }

  /** The tri-tree is a forest of quad-trees under the 20 roots, each node at its own address. */
  ghost predicate TreeOk(tree: seq<TriTreeNode>, addr: seq<Address>, nodeCount: int)
  {
    && |tree| >= TriangleCount && |addr| == |tree|
    && (forall r :: 0 <= r < TriangleCount ==> addr[r] == Address(r, []))
    && (forall j :: 0 <= j < |tree| ==> TriOk(tree, addr, nodeCount, j))
    && (forall j1, j2 :: 0 <= j1 < j2 < |tree| ==> addr[j1] != addr[j2])
  }

  /** Every adjacency entry names an existing node. */
  ghost predicate AdjOk(nodes: seq<GeoNode>)
  {
    forall n, lev, x :: 0 <= n < |nodes| && x in AdjAt(nodes[n].adjacency, lev) ==> 0 <= x < |nodes|
  }

  /** At every level, b is a neighbour of a exactly when a is a neighbour of b. */
  ghost predicate AdjSymmetric(nodes: seq<GeoNode>)
  {
    forall a, b, lev :: 0 <= a < |nodes| && 0 <= b < |nodes| ==>
      (b in AdjAt(nodes[a].adjacency, lev) <==> a in AdjAt(nodes[b].adjacency, lev))
  }

  /** m grows n: same positions, and every list of n is a prefix of the same list in m. */
  ghost predicate AdjExtends(n: seq<GeoNode>, m: seq<GeoNode>)
  {
    && |n| <= |m|
    && (forall v :: 0 <= v < |n| ==> m[v].position == n[v].position)
    && (forall v, lev :: 0 <= v < |n| ==> AdjAt(n[v].adjacency, lev) <= AdjAt(m[v].adjacency, lev))
  }

  /** m grows n, and whatever was appended to the lists of n's nodes are nodes that n does not have. */
  ghost predicate AdjGrowsByNew(n: seq<GeoNode>, m: seq<GeoNode>)
  {
    && AdjExtends(n, m)
    && (forall v, lev, t :: 0 <= v < |n| && |AdjAt(n[v].adjacency, lev)| <= t < |AdjAt(m[v].adjacency, lev)| ==>
          AdjAt(m[v].adjacency, lev)[t] >= |n|)
  }

  /** Connecting two existing nodes in both directions keeps the adjacency symmetric and valid. */
  lemma ConnectKeepsSymmetric(nodes: seq<GeoNode>, a: int, b: int, lev: nat)
    requires 0 <= a < |nodes| && 0 <= b < |nodes|
    requires AdjSymmetric(nodes)
    ensures AdjSymmetric(AddEdge(AddEdge(nodes, a, lev, b), b, lev, a))
  {
    var n1 := AddEdge(nodes, a, lev, b);
    var n2 := AddEdge(n1, b, lev, a);
    forall x, y, l | 0 <= x < |n2| && 0 <= y < |n2|
      ensures y in AdjAt(n2[x].adjacency, l) <==> x in AdjAt(n2[y].adjacency, l)
    {
      assert y in AdjAt(nodes[x].adjacency, l) <==> x in AdjAt(nodes[y].adjacency, l);
    }
  }

  /** Appending one adjacency entry grows the node list; an entry naming an existing node keeps it valid. */
  lemma AddEdgeExtends(nodes: seq<GeoNode>, n: int, lev: nat, a: int)
    requires 0 <= n < |nodes|
    ensures AdjExtends(nodes, AddEdge(nodes, n, lev, a))
    ensures AdjOk(nodes) && 0 <= a < |nodes| ==> AdjOk(AddEdge(nodes, n, lev, a))
  {
    var m := AddEdge(nodes, n, lev, a);
    forall v, l | 0 <= v < |nodes| ensures AdjAt(nodes[v].adjacency, l) <= AdjAt(m[v].adjacency, l) {
      if v == n && l == lev {
        assert AdjAt(m[v].adjacency, l) == AdjAt(nodes[v].adjacency, l) + [a];
      }
    }
    if AdjOk(nodes) && 0 <= a < |nodes| {
      forall v, l, x | 0 <= v < |m| && x in AdjAt(m[v].adjacency, l) ensures 0 <= x < |m| {
        if v == n && l == lev {
          assert AdjAt(m[v].adjacency, l) == AdjAt(nodes[v].adjacency, l) + [a];
        }
      }
    }
  }

  /** Growth composes. */
  lemma AdjExtendsTrans(n1: seq<GeoNode>, n2: seq<GeoNode>, n3: seq<GeoNode>)
    requires AdjExtends(n1, n2) && AdjExtends(n2, n3)
    ensures AdjExtends(n1, n3)
  {
    forall v, lev | 0 <= v < |n1| ensures AdjAt(n1[v].adjacency, lev) <= AdjAt(n3[v].adjacency, lev) {
      assert AdjAt(n1[v].adjacency, lev) <= AdjAt(n2[v].adjacency, lev);
      assert AdjAt(n2[v].adjacency, lev) <= AdjAt(n3[v].adjacency, lev);
    }
  }

  /**
   * x is the midpoint xSubdivide settles on for the edge (a, b) at level lev,
   * judged against the nodes as they were before the split: the first common
   * neighbour of a and b when they have one, otherwise a node made afresh.
   */
  ghost predicate MidpointChosen(nodes: seq<GeoNode>, a: int, b: int, lev: int, x: int)
  {
    && 0 <= a < |nodes| && 0 <= b < |nodes|
    && var f := FirstCommon(AdjAt(nodes[a].adjacency, lev), AdjAt(nodes[b].adjacency, lev));
       if f.Some? then x == f.value else x >= |nodes|
  }

  /** Corner k of a triangle and the corner after it, cyclically. */
  function EdgeStart(v: seq<int>, k: int): int
    requires |v| == 3 && 0 <= k < 3
  {
    v[k]
  }

  function EdgeEnd(v: seq<int>, k: int): int
    requires |v| == 3 && 0 <= k < 3
  {
    v[(k + 1) % 3]
  }

  /**
   * Looking up a common neighbour after lists have only gained new nodes
   * finds what it would have found before, or a new node.
   */
  lemma MidpointLookup(n0: seq<GeoNode>, m: seq<GeoNode>, a: int, b: int, lev: int)
    requires AdjGrowsByNew(n0, m) && AdjOk(n0)
    requires 0 <= a < |n0| && 0 <= b < |n0|
    ensures var f := FirstCommon(AdjAt(n0[a].adjacency, lev), AdjAt(n0[b].adjacency, lev));
      var g := FirstCommon(AdjAt(m[a].adjacency, lev), AdjAt(m[b].adjacency, lev));
      (f.Some? ==> g == f) && (f.None? && g.Some? ==> g.value >= |n0|)
  {
    var l1, l2 := AdjAt(n0[a].adjacency, lev), AdjAt(n0[b].adjacency, lev);
    var c1, c2 := AdjAt(m[a].adjacency, lev), AdjAt(m[b].adjacency, lev);
    GrownTailIsNew(n0, m, a, lev);
    GrownTailIsNew(n0, m, b, lev);
    FirstCommonGrow(l1, l2, c1[|l1|..], c2[|l2|..], |n0|);
  }

  /** A list that has only gained new nodes is the old list followed by ids of new nodes. */
  lemma GrownTailIsNew(n0: seq<GeoNode>, m: seq<GeoNode>, v: int, lev: int)
    requires AdjGrowsByNew(n0, m) && 0 <= v < |n0|
    ensures |AdjAt(n0[v].adjacency, lev)| <= |AdjAt(m[v].adjacency, lev)|
    ensures AdjAt(m[v].adjacency, lev) ==
      AdjAt(n0[v].adjacency, lev) + AdjAt(m[v].adjacency, lev)[|AdjAt(n0[v].adjacency, lev)|..]
    ensures forall x :: x in AdjAt(m[v].adjacency, lev)[|AdjAt(n0[v].adjacency, lev)|..] ==> x >= |n0|
  {
    var l, c := AdjAt(n0[v].adjacency, lev), AdjAt(m[v].adjacency, lev);
    assert l <= c;
    var e := c[|l|..];
    assert c == l + e;
    forall x | x in e ensures x >= |n0| {
      var t :| 0 <= t < |e| && e[t] == x;
      assert c[|l| + t] == x;
    }
  }

  /** Growth by new nodes composes. */
  lemma AdjGrowsByNewTrans(n1: seq<GeoNode>, n2: seq<GeoNode>, n3: seq<GeoNode>)
    requires AdjGrowsByNew(n1, n2) && AdjGrowsByNew(n2, n3)
    ensures AdjGrowsByNew(n1, n3)
  {
    AdjExtendsTrans(n1, n2, n3);
    forall v, l, t | 0 <= v < |n1| && |AdjAt(n1[v].adjacency, l)| <= t < |AdjAt(n3[v].adjacency, l)|
      ensures AdjAt(n3[v].adjacency, l)[t] >= |n1|
    {
      assert AdjAt(n2[v].adjacency, l) <= AdjAt(n3[v].adjacency, l);
      if t < |AdjAt(n2[v].adjacency, l)| {
        assert AdjAt(n3[v].adjacency, l)[t] == AdjAt(n2[v].adjacency, l)[t];
      }
    }
  }

  /** Appending a node with no neighbour lists keeps the adjacency valid and symmetric, and is a growth by new nodes. */
  lemma AddIsolatedNode(nodes: seq<GeoNode>, node: GeoNode)
    requires AdjOk(nodes) && node.adjacency == []
    ensures AdjOk(nodes + [node]) && AdjGrowsByNew(nodes, nodes + [node])
    ensures AdjSymmetric(nodes) ==> AdjSymmetric(nodes + [node])
  {
    var m := nodes + [node];
    assert forall u :: 0 <= u < |nodes| ==> m[u] == nodes[u];
    assert forall l :: AdjAt(m[|nodes|].adjacency, l) == [];
    if AdjSymmetric(nodes) {
      forall a, b, l | 0 <= a < |m| && 0 <= b < |m|
        ensures b in AdjAt(m[a].adjacency, l) <==> a in AdjAt(m[b].adjacency, l)
      {
        if a < |nodes| && b < |nodes| {
          assert b in AdjAt(nodes[a].adjacency, l) <==> a in AdjAt(nodes[b].adjacency, l);
        }
      }
    }
  }

  /** Connecting a node that n0 does not have to any node keeps m a growth of n0 by new nodes only. */
  lemma ConnectNewKeepsGrowth(n0: seq<GeoNode>, m: seq<GeoNode>, a: int, b: int, lev: nat)
    requires AdjGrowsByNew(n0, m)
    requires |n0| <= a < |m| && 0 <= b < |m|
    ensures AdjGrowsByNew(n0, AddEdge(AddEdge(m, a, lev, b), b, lev, a))
  {
    var m1 := AddEdge(m, a, lev, b);
    var m2 := AddEdge(m1, b, lev, a);
    AddEdgeExtends(m, a, lev, b);
    AddEdgeExtends(m1, b, lev, a);
    AdjExtendsTrans(n0, m, m1);
    AdjExtendsTrans(n0, m1, m2);
    forall v, l, t | 0 <= v < |n0| && |AdjAt(n0[v].adjacency, l)| <= t < |AdjAt(m2[v].adjacency, l)|
      ensures AdjAt(m2[v].adjacency, l)[t] >= |n0|
    {
      assert AdjAt(m1[v].adjacency, l) == AdjAt(m[v].adjacency, l);
      if v == b && l == lev {
        assert AdjAt(m2[v].adjacency, l) == AdjAt(m[v].adjacency, l) + [a];
      }
    }
  }

  /** Every tri-tree node is at most L deep, and subdivided exactly when it is shallower than L. */
  ghost predicate Layered(tree: seq<TriTreeNode>, addr: seq<Address>, L: int)
    requires |addr| == |tree|
  {
    forall j :: 0 <= j < |tree| ==> |addr[j].path| <= L && (Internal(tree[j]) <==> |addr[j].path| < L)
  }

  /** The ids of the tri-tree's leaves. */
  ghost function LeafSet(tree: seq<TriTreeNode>): set<int>
  {
    set j | 0 <= j < |tree| && !Internal(tree[j])
  }

  /** The four children of a triangle with corners v and edge midpoints m, in xSubdivide's order. */
  function ChildTris(v: seq<int>, m: seq<int>): (r: seq<TriTreeNode>)
    requires |v| == 3 && |m| == 3
    ensures |r| == 4 && forall k :: 0 <= k < 4 ==> r[k].children == NoChildren && |r[k].vertices| == 3
    ensures forall k :: 0 <= k < 3 ==> r[k].vertices == [v[k], m[k], m[(k + 2) % 3]]
    ensures r[3].vertices == m
  {
    [TriTreeNode([v[0], m[0], m[2]], NoChildren), TriTreeNode([v[1], m[1], m[0]], NoChildren),
     TriTreeNode([v[2], m[2], m[1]], NoChildren), TriTreeNode([m[0], m[1], m[2]], NoChildren)]
  }

  /** The addresses of the four child slots below a. */
  function ChildAddrs(a: Address): (r: seq<Address>)
    ensures |r| == 4 && forall k :: 0 <= k < 4 ==> r[k] == ChildAddress(a, k)
  {
    [ChildAddress(a, 0), ChildAddress(a, 1), ChildAddress(a, 2), ChildAddress(a, 3)]
  }

  /** The tri-tree after leaf i is split around midpoints m: i takes four new children appended at the end. */
  function SplitTree(tree: seq<TriTreeNode>, i: int, m: seq<int>): seq<TriTreeNode>
    requires 0 <= i < |tree| && |tree[i].vertices| == 3 && |m| == 3
  {
    var n := |tree|;
    tree[i := TriTreeNode(tree[i].vertices, [n, n + 1, n + 2, n + 3])] + ChildTris(tree[i].vertices, m)
  }

  /** The addresses after leaf i is split: those of its four child slots appended. */
  function SplitAddrs(addr: seq<Address>, i: int): seq<Address>
    requires 0 <= i < |addr|
  {
    addr + ChildAddrs(addr[i])
  }

  /**
   * Splitting a leaf with nothing below it into four children at the end of
   * the tree keeps the tri-tree well formed.
   */
  lemma SplitKeepsTreeOk(tree: seq<TriTreeNode>, addr: seq<Address>, nc: int, nc': int, i: int, m: seq<int>)
    requires TreeOk(tree, addr, nc) && nc <= nc'
    requires 0 <= i < |tree| && !Internal(tree[i]) && |tree[i].vertices| == 3
    requires forall j :: 0 <= j < |tree| && InSubtree(addr[j], addr[i]) ==> |addr[j].path| <= |addr[i].path|
    requires |m| == 3 && forall k :: 0 <= k < 3 ==> 0 <= m[k] < nc'
    ensures TreeOk(SplitTree(tree, i, m), SplitAddrs(addr, i), nc')
  {
    var n := |tree|;
    var v := tree[i].vertices;
    var t' := SplitTree(tree, i, m);
    var a' := SplitAddrs(addr, i);
    assert TriOk(tree, addr, nc, i);
    forall j | 0 <= j < |t'| ensures TriOk(t', a', nc', j) {
      if j < n {
        assert TriOk(tree, addr, nc, j);
        assert a'[j] == addr[j];
        if j != i && Internal(tree[j]) {
          forall k | 0 <= k < 4 ensures a'[t'[j].children[k]] == ChildAddress(a'[j], k) {
            assert a'[tree[j].children[k]] == addr[tree[j].children[k]];
          }
        }
      } else {
        assert a'[j] == ChildAddress(addr[i], j - n);
      }
    }
    forall j1, j2 | 0 <= j1 < j2 < |t'| ensures a'[j1] != a'[j2] {
      if j2 >= n {
        ChildAddressBelow(addr[i], j2 - n);
        if j1 >= n {
          ChildAddressBelow(addr[i], j1 - n);
        }
      }
    }
  }

  /** xConnectNodes on values: a is recorded as b's neighbour at level lev and b as a's. */
  function Connect(nodes: seq<GeoNode>, a: int, b: int, lev: nat): (r: seq<GeoNode>)
    requires 0 <= a < |nodes| && 0 <= b < |nodes|
    ensures |r| == |nodes| && forall y :: 0 <= y < |r| ==> r[y].position == nodes[y].position
  {
    AddEdge(AddEdge(nodes, a, lev, b), b, lev, a)
  }

  /** Connecting keeps earlier lists as prefixes, and keeps the adjacency valid and symmetric. */
  lemma ConnectPreserves(nodes: seq<GeoNode>, a: int, b: int, lev: nat)
    requires 0 <= a < |nodes| && 0 <= b < |nodes|
    ensures AdjExtends(nodes, Connect(nodes, a, b, lev))
    ensures AdjOk(nodes) ==> AdjOk(Connect(nodes, a, b, lev))
    ensures AdjSymmetric(nodes) ==> AdjSymmetric(Connect(nodes, a, b, lev))
  {
    var m := AddEdge(nodes, a, lev, b);
    AddEdgeExtends(nodes, a, lev, b);
    AddEdgeExtends(m, b, lev, a);
    AdjExtendsTrans(nodes, m, Connect(nodes, a, b, lev));
    if AdjSymmetric(nodes) {
      ConnectKeepsSymmetric(nodes, a, b, lev);
    }
  }

  /** The node list after making the midpoint node of (a, b) and connecting it to both at level lev. */
  function NewMidpoint(nodes: seq<GeoNode>, a: int, b: int, lev: nat): (r: seq<GeoNode>)
    requires 0 <= a < |nodes| && 0 <= b < |nodes|
    ensures |r| == |nodes| + 1 && r[|nodes|].position == EdgeMidpoint(a, b)
    ensures forall y :: 0 <= y < |nodes| ==> r[y].position == nodes[y].position
  {
    var k := |nodes|;
    Connect(Connect(nodes + [GeoNode(EdgeMidpoint(a, b), NoNormal, [])], k, a, lev), k, b, lev)
  }

  /**
   * One edge of a leaf split on values: the first common neighbour of a and
   * b at level lev when it is a node id, otherwise a new midpoint node.
   * Returns the new node list and the midpoint's id.
   */
  function MidpointStep(nodes: seq<GeoNode>, a: int, b: int, lev: nat): (r: (seq<GeoNode>, int))
    requires 0 <= a < |nodes| && 0 <= b < |nodes|
    ensures |nodes| <= |r.0| <= |nodes| + 1
    ensures forall y :: 0 <= y < |nodes| ==> r.0[y].position == nodes[y].position
    ensures forall y :: |nodes| <= y < |r.0| ==> r.0[y].position == EdgeMidpoint(a, b)
  {
    var f := FirstCommon(AdjAt(nodes[a].adjacency, lev), AdjAt(nodes[b].adjacency, lev));
    if f.Some? && f.value >= 0 then (nodes, f.value) else (NewMidpoint(nodes, a, b, lev), |nodes|)
  }

  /** One edge step keeps the adjacency a valid, symmetric growth of the old one by new nodes. */
  lemma MidpointStepGrowth(nodes: seq<GeoNode>, a: int, b: int, lev: nat)
    requires AdjOk(nodes) && 0 <= a < |nodes| && 0 <= b < |nodes|
    ensures AdjGrowsByNew(nodes, MidpointStep(nodes, a, b, lev).0) && AdjOk(MidpointStep(nodes, a, b, lev).0)
    ensures AdjSymmetric(nodes) ==> AdjSymmetric(MidpointStep(nodes, a, b, lev).0)
  {
    var f := FirstCommon(AdjAt(nodes[a].adjacency, lev), AdjAt(nodes[b].adjacency, lev));
    if !(f.Some? && f.value >= 0) {
      var k := |nodes|;
      var node := GeoNode(EdgeMidpoint(a, b), NoNormal, []);
      var m0 := nodes + [node];
      AddIsolatedNode(nodes, node);
      var m1 := Connect(m0, k, a, lev);
      ConnectNewKeepsGrowth(nodes, m0, k, a, lev);
      ConnectPreserves(m0, k, a, lev);
      ConnectNewKeepsGrowth(nodes, m1, k, b, lev);
      ConnectPreserves(m1, k, b, lev);
      AdjExtendsTrans(m0, m1, Connect(m1, k, b, lev));
    } else {
      assert AdjGrowsByNew(nodes, nodes);
    }
  }

  /** One edge step settles on a valid node: the common neighbour the lists already know, or a fresh one. */
  lemma MidpointStepChosen(nodes: seq<GeoNode>, a: int, b: int, lev: nat)
    requires AdjOk(nodes) && 0 <= a < |nodes| && 0 <= b < |nodes|
    ensures 0 <= MidpointStep(nodes, a, b, lev).1 < |MidpointStep(nodes, a, b, lev).0|
    ensures MidpointChosen(nodes, a, b, lev, MidpointStep(nodes, a, b, lev).1)
  {
    var f := FirstCommon(AdjAt(nodes[a].adjacency, lev), AdjAt(nodes[b].adjacency, lev));
    if f.Some? {
      assert f.value in AdjAt(nodes[b].adjacency, lev);
    }
  }

  /** A choice judged against lists that have since only gained new nodes is the choice the old lists dictate. */
  lemma ChosenCarries(n0: seq<GeoNode>, m: seq<GeoNode>, a: int, b: int, lev: int, x: int)
    requires AdjGrowsByNew(n0, m) && AdjOk(n0)
    requires 0 <= a < |n0| && 0 <= b < |n0|
    requires MidpointChosen(m, a, b, lev, x)
    ensures MidpointChosen(n0, a, b, lev, x)
  {
    MidpointLookup(n0, m, a, b, lev);
  }

  /**
   * The first phase of a leaf split on values: the edges (v[c], v[c+1]) for
   * c < k handled in order.  Returns the node list and the midpoint ids.
   */
  function MidpointsFrom(nodes: seq<GeoNode>, v: seq<int>, lev: nat, k: int): (r: (seq<GeoNode>, seq<int>))
    requires |v| == 3 && (forall c :: 0 <= c < 3 ==> 0 <= v[c] < |nodes|) && 0 <= k <= 3
    ensures |nodes| <= |r.0| && |r.1| == k
  {
    if k == 0 then (nodes, [])
    else
      var prev := MidpointsFrom(nodes, v, lev, k - 1);
      var step := MidpointStep(prev.0, EdgeStart(v, k - 1), EdgeEnd(v, k - 1), lev);
      (step.0, prev.1 + [step.1])
  }

  /** After the first k edges the adjacency is a valid, symmetric growth of the old one by new nodes, at most one per edge. */
  lemma {:induction false} MidpointsFromGrowth(nodes: seq<GeoNode>, v: seq<int>, lev: nat, k: int)
    requires AdjOk(nodes)
    requires |v| == 3 && (forall c :: 0 <= c < 3 ==> 0 <= v[c] < |nodes|) && 0 <= k <= 3
    ensures AdjGrowsByNew(nodes, MidpointsFrom(nodes, v, lev, k).0) && AdjOk(MidpointsFrom(nodes, v, lev, k).0)
    ensures |MidpointsFrom(nodes, v, lev, k).0| <= |nodes| + k
    ensures AdjSymmetric(nodes) ==> AdjSymmetric(MidpointsFrom(nodes, v, lev, k).0)
  {
    if k == 0 {
      assert AdjGrowsByNew(nodes, nodes);
    } else {
      MidpointsFromGrowth(nodes, v, lev, k - 1);
      var n1 := MidpointsFrom(nodes, v, lev, k - 1).0;
      var a, b := EdgeStart(v, k - 1), EdgeEnd(v, k - 1);
      MidpointStepGrowth(n1, a, b, lev);
      AdjGrowsByNewTrans(nodes, n1, MidpointStep(n1, a, b, lev).0);
    }
  }

  /**
   * After the first k edges every midpoint id is valid and is the one the
   * old lists dictate: their first common neighbour, or else a new node.
   */
  lemma {:induction false} MidpointsFromChosen(nodes: seq<GeoNode>, v: seq<int>, lev: nat, k: int)
    requires AdjOk(nodes)
    requires |v| == 3 && (forall c :: 0 <= c < 3 ==> 0 <= v[c] < |nodes|) && 0 <= k <= 3
    ensures forall c :: 0 <= c < k ==>
      0 <= MidpointsFrom(nodes, v, lev, k).1[c] < |MidpointsFrom(nodes, v, lev, k).0| &&
      MidpointChosen(nodes, EdgeStart(v, c), EdgeEnd(v, c), lev, MidpointsFrom(nodes, v, lev, k).1[c])
  {
    if k > 0 {
      MidpointsFromChosen(nodes, v, lev, k - 1);
      MidpointsFromGrowth(nodes, v, lev, k - 1);
      var n1, s1 := MidpointsFrom(nodes, v, lev, k - 1).0, MidpointsFrom(nodes, v, lev, k - 1).1;
      var a, b := EdgeStart(v, k - 1), EdgeEnd(v, k - 1);
      var n2, x := MidpointStep(n1, a, b, lev).0, MidpointStep(n1, a, b, lev).1;
      MidpointStepChosen(n1, a, b, lev);
      ChosenCarries(nodes, n1, a, b, lev, x);
      var sub := s1 + [x];
      assert MidpointsFrom(nodes, v, lev, k).0 == n2 && MidpointsFrom(nodes, v, lev, k).1 == sub;
      forall c | 0 <= c < k
        ensures 0 <= sub[c] < |n2| && MidpointChosen(nodes, EdgeStart(v, c), EdgeEnd(v, c), lev, sub[c])
      {
        if c < k - 1 {
          assert sub[c] == s1[c];
        }
      }
    }
  }

  /** After the first k edges every new node sits at the midpoint of one of those edges. */
  lemma {:induction false} MidpointsFromPositions(nodes: seq<GeoNode>, v: seq<int>, lev: nat, k: int)
    requires |v| == 3 && (forall c :: 0 <= c < 3 ==> 0 <= v[c] < |nodes|) && 0 <= k <= 3
    ensures forall y :: |nodes| <= y < |MidpointsFrom(nodes, v, lev, k).0| ==>
      exists c :: 0 <= c < k && MidpointsFrom(nodes, v, lev, k).0[y].position == EdgeMidpoint(EdgeStart(v, c), EdgeEnd(v, c))
  {
    if k > 0 {
      MidpointsFromPositions(nodes, v, lev, k - 1);
      var n1 := MidpointsFrom(nodes, v, lev, k - 1).0;
      var a, b := EdgeStart(v, k - 1), EdgeEnd(v, k - 1);
      var n2 := MidpointStep(n1, a, b, lev).0;
      assert MidpointsFrom(nodes, v, lev, k).0 == n2;
      forall y | |nodes| <= y < |n2|
        ensures exists c :: 0 <= c < k && n2[y].position == EdgeMidpoint(EdgeStart(v, c), EdgeEnd(v, c))
      {
        if y < |n1| {
          var c :| 0 <= c < k - 1 && n1[y].position == EdgeMidpoint(EdgeStart(v, c), EdgeEnd(v, c));
          assert n2[y].position == n1[y].position;
        } else {
          assert n2[y].position == EdgeMidpoint(EdgeStart(v, k - 1), EdgeEnd(v, k - 1));
        }
      }
    } else {
      assert MidpointsFrom(nodes, v, lev, k).0 == nodes;
    }
  }

  /** The second phase of a leaf split on values: the three midpoints connected in a ring. */
  function RingConnect(nodes: seq<GeoNode>, m: seq<int>, lev: nat): (r: seq<GeoNode>)
    requires |m| == 3 && forall c :: 0 <= c < 3 ==> 0 <= m[c] < |nodes|
    ensures |r| == |nodes|
  {
    Connect(Connect(Connect(nodes, m[0], m[1], lev), m[1], m[2], lev), m[2], m[0], lev)
  }

  /** The ring keeps earlier lists as prefixes, and keeps the adjacency valid and symmetric. */
  lemma RingConnectPreserves(nodes: seq<GeoNode>, m: seq<int>, lev: nat)
    requires |m| == 3 && forall c :: 0 <= c < 3 ==> 0 <= m[c] < |nodes|
    ensures AdjExtends(nodes, RingConnect(nodes, m, lev))
    ensures AdjOk(nodes) ==> AdjOk(RingConnect(nodes, m, lev))
    ensures AdjSymmetric(nodes) ==> AdjSymmetric(RingConnect(nodes, m, lev))
  {
    var n1 := Connect(nodes, m[0], m[1], lev);
    var n2 := Connect(n1, m[1], m[2], lev);
    ConnectPreserves(nodes, m[0], m[1], lev);
    ConnectPreserves(n1, m[1], m[2], lev);
    ConnectPreserves(n2, m[2], m[0], lev);
    AdjExtendsTrans(nodes, n1, n2);
    AdjExtendsTrans(nodes, n2, RingConnect(nodes, m, lev));
  }

  /** The midpoint ids a leaf split with corners v settles on. */
  function SplitMidpoints(nodes: seq<GeoNode>, v: seq<int>, lev: nat): (m: seq<int>)
    requires |v| == 3 && forall c :: 0 <= c < 3 ==> 0 <= v[c] < |nodes|
    ensures |m| == 3
  {
    MidpointsFrom(nodes, v, lev, 3).1
  }

  /** The node list after a leaf split with corners v: midpoints settled, then connected in a ring. */
  function SplitNodes(nodes: seq<GeoNode>, v: seq<int>, lev: nat): seq<GeoNode>
    requires AdjOk(nodes)
    requires |v| == 3 && forall c :: 0 <= c < 3 ==> 0 <= v[c] < |nodes|
  {
    MidpointsFromChosen(nodes, v, lev, 3);
    RingConnect(MidpointsFrom(nodes, v, lev, 3).0, SplitMidpoints(nodes, v, lev), lev)
  }

  /**
   * A leaf split adds at most three nodes, each at the midpoint of an edge
   * of the leaf; it settles each edge on the midpoint the old lists dictate;
   * and it keeps the adjacency a valid, symmetric growth of the old one.
   */
  lemma SplitNodesProps(nodes: seq<GeoNode>, v: seq<int>, lev: nat)
    requires AdjOk(nodes)
    requires |v| == 3 && forall c :: 0 <= c < 3 ==> 0 <= v[c] < |nodes|
    ensures AdjExtends(nodes, SplitNodes(nodes, v, lev)) && AdjOk(SplitNodes(nodes, v, lev))
    ensures |SplitNodes(nodes, v, lev)| <= |nodes| + 3
    ensures AdjSymmetric(nodes) ==> AdjSymmetric(SplitNodes(nodes, v, lev))
    ensures forall c :: 0 <= c < 3 ==>
      0 <= SplitMidpoints(nodes, v, lev)[c] < |SplitNodes(nodes, v, lev)| &&
      MidpointChosen(nodes, EdgeStart(v, c), EdgeEnd(v, c), lev, SplitMidpoints(nodes, v, lev)[c])
    ensures forall y :: |nodes| <= y < |SplitNodes(nodes, v, lev)| ==>
      exists c :: 0 <= c < 3 && SplitNodes(nodes, v, lev)[y].position == EdgeMidpoint(EdgeStart(v, c), EdgeEnd(v, c))
  {
    MidpointsFromGrowth(nodes, v, lev, 3);
    MidpointsFromChosen(nodes, v, lev, 3);
    MidpointsFromPositions(nodes, v, lev, 3);
    var m, sub := MidpointsFrom(nodes, v, lev, 3).0, SplitMidpoints(nodes, v, lev);
    RingConnectPreserves(m, sub, lev);
    AdjExtendsTrans(nodes, m, RingConnect(m, sub, lev));
  }

  /** The midpoint ids of a leaf split name nodes of the split's node list. */
  lemma SplitMidpointsValid(nodes: seq<GeoNode>, v: seq<int>, lev: nat)
    requires AdjOk(nodes)
    requires |v| == 3 && forall c :: 0 <= c < 3 ==> 0 <= v[c] < |nodes|
    ensures |MidpointsFrom(nodes, v, lev, 3).0| <= |nodes| + 3
    ensures forall c :: 0 <= c < 3 ==> 0 <= MidpointsFrom(nodes, v, lev, 3).1[c] < |MidpointsFrom(nodes, v, lev, 3).0|
  {
    MidpointsFromGrowth(nodes, v, lev, 3);
    MidpointsFromChosen(nodes, v, lev, 3);
  }

  /** Node n has at least one neighbour list and its last one is not empty. */
  predicate HasTopNeighbours(n: GeoNode)
  {
    |n.adjacency| > 0 && |n.adjacency[|n.adjacency| - 1]| > 0
  }

  /** Every node has a non-empty top-level neighbour list. */
  predicate TopListsOk(nodes: seq<GeoNode>)
  {
    forall k :: 0 <= k < |nodes| ==> HasTopNeighbours(nodes[k])
  }

  /**
   * Appending to list lev of node n leaves n's last list non-empty when it
   * was non-empty before or lev is at or past it; other nodes are untouched.
   */
  lemma AddEdgeTop(nodes: seq<GeoNode>, n: int, lev: nat, a: int)
    requires 0 <= n < |nodes|
    requires HasTopNeighbours(nodes[n]) || |nodes[n].adjacency| <= lev + 1
    ensures HasTopNeighbours(AddEdge(nodes, n, lev, a)[n])
    ensures forall y :: 0 <= y < |nodes| && y != n ==> AddEdge(nodes, n, lev, a)[y] == nodes[y]
  {
    var adj := nodes[n].adjacency;
    var r := AddAdjacency(adj, lev, a);
    if |r| - 1 != lev {
      assert AdjAt(r, |r| - 1) == AdjAt(adj, |r| - 1);
    } else {
      assert AdjAt(r, lev) == AdjAt(adj, lev) + [a];
    }
  }

  /**
   * Connecting a and b leaves every node with a non-empty last list, given
   * that all others had one and a and b either had one or get list lev as
   * their last.
   */
  lemma ConnectTop(nodes: seq<GeoNode>, a: int, b: int, lev: nat)
    requires 0 <= a < |nodes| && 0 <= b < |nodes|
    requires forall y :: 0 <= y < |nodes| && y != a && y != b ==> HasTopNeighbours(nodes[y])
    requires HasTopNeighbours(nodes[a]) || |nodes[a].adjacency| <= lev + 1
    requires HasTopNeighbours(nodes[b]) || |nodes[b].adjacency| <= lev + 1
    ensures TopListsOk(Connect(nodes, a, b, lev))
  {
    var m := AddEdge(nodes, a, lev, b);
    AddEdgeTop(nodes, a, lev, b);
    AddEdgeTop(m, b, lev, a);
  }

  /** One edge step keeps every node's last list non-empty, a new midpoint included. */
  lemma MidpointStepTop(nodes: seq<GeoNode>, a: int, b: int, lev: nat)
    requires TopListsOk(nodes) && 0 <= a < |nodes| && 0 <= b < |nodes|
    ensures TopListsOk(MidpointStep(nodes, a, b, lev).0)
  {
    var f := FirstCommon(AdjAt(nodes[a].adjacency, lev), AdjAt(nodes[b].adjacency, lev));
    if !(f.Some? && f.value >= 0) {
      var k := |nodes|;
      var m0 := nodes + [GeoNode(EdgeMidpoint(a, b), NoNormal, [])];
      ConnectTop(m0, k, a, lev);
      ConnectTop(Connect(m0, k, a, lev), k, b, lev);
    }
  }

  /** After the first k edges of a leaf split every node still has a non-empty last list. */
  lemma {:induction false} MidpointsFromTop(nodes: seq<GeoNode>, v: seq<int>, lev: nat, k: int)
    requires TopListsOk(nodes)
    requires |v| == 3 && (forall c :: 0 <= c < 3 ==> 0 <= v[c] < |nodes|) && 0 <= k <= 3
    ensures TopListsOk(MidpointsFrom(nodes, v, lev, k).0)
  {
    if k > 0 {
      MidpointsFromTop(nodes, v, lev, k - 1);
      MidpointStepTop(MidpointsFrom(nodes, v, lev, k - 1).0, EdgeStart(v, k - 1), EdgeEnd(v, k - 1), lev);
    }
  }

  /** A leaf split keeps every node's last list non-empty. */
  lemma SplitNodesTop(nodes: seq<GeoNode>, v: seq<int>, lev: nat)
    requires AdjOk(nodes) && TopListsOk(nodes)
    requires |v| == 3 && forall c :: 0 <= c < 3 ==> 0 <= v[c] < |nodes|
    ensures TopListsOk(SplitNodes(nodes, v, lev))
  {
    MidpointsFromTop(nodes, v, lev, 3);
    SplitMidpointsValid(nodes, v, lev);
    var m, sub := MidpointsFrom(nodes, v, lev, 3).0, SplitMidpoints(nodes, v, lev);
    ConnectTop(m, sub[0], sub[1], lev);
    var m1 := Connect(m, sub[0], sub[1], lev);
    ConnectTop(m1, sub[1], sub[2], lev);
    ConnectTop(Connect(m1, sub[1], sub[2], lev), sub[2], sub[0], lev);
  }
}
