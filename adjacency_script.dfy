/**
 * Derivation of the vertex adjacency of the icosahedron from its triangle
 * list: for every vertex id 0..11, the set of the other vertices of every
 * triangle that contains it.
 */
module IcosahedronAdjacency {
  import opened Icosahedron

  /** The vertices that share some triangle of tris[..n] with v, v excluded, added triangle by triangle. */
  function NeighbourSet(tris: seq<seq<int>>, v: int): set<int>
  {
    if tris == [] then {}
    else
      var last := tris[|tris| - 1];
      NeighbourSet(tris[..|tris| - 1], v) + (if v in last then VertexSet(last) - {v} else {})
  }

  /** u is a neighbour of v exactly when u differs from v and some triangle holds both. */
  lemma {:induction false} NeighbourSetMeans(tris: seq<seq<int>>, v: int, u: int)
    ensures u in NeighbourSet(tris, v) <==>
      u != v && exists t :: 0 <= t < |tris| && v in tris[t] && u in tris[t]
  {
    if tris != [] {
      var init := tris[..|tris| - 1];
      NeighbourSetMeans(init, v, u);
      if u != v && exists t :: 0 <= t < |tris| && v in tris[t] && u in tris[t] {
        var t :| 0 <= t < |tris| && v in tris[t] && u in tris[t];
        if t < |init| {
          assert init[t] == tris[t];
        }
      }
      if u != v && exists t :: 0 <= t < |init| && v in init[t] && u in init[t] {
        var t :| 0 <= t < |init| && v in init[t] && u in init[t];
        assert tris[t] == init[t];
      }
    }
  }

  /** The relation is symmetric: u is a neighbour of v exactly when v is a neighbour of u. */
  lemma NeighbourSetSymmetric(tris: seq<seq<int>>, v: int, u: int)
    ensures u in NeighbourSet(tris, v) <==> v in NeighbourSet(tris, u)
  {
    NeighbourSetMeans(tris, v, u);
    NeighbourSetMeans(tris, u, v);
  }

  /** No vertex is its own neighbour. */
  lemma NeighbourSetIrreflexive(tris: seq<seq<int>>, v: int)
    ensures v !in NeighbourSet(tris, v)
  {
    NeighbourSetMeans(tris, v, v);
  }

  /**
   * The script's nested loops: for each vertex 0..11, walk the triangles in
   * order and add every other vertex of a triangle that contains it.
   */
  method BuildAdjacency(tris: seq<seq<int>>) returns (adj: seq<set<int>>)
    ensures |adj| == VertexCount
    ensures forall v :: 0 <= v < VertexCount ==> adj[v] == NeighbourSet(tris, v)
  {
    adj := seq(VertexCount, _ => {});
    for vertex := 0 to VertexCount
      invariant |adj| == VertexCount
      invariant forall w :: 0 <= w < vertex ==> adj[w] == NeighbourSet(tris, w)
    invariant forall w :: vertex <= w < VertexCount ==> adj[w] == {}
    {
      for t := 0 to |tris|
        invariant |adj| == VertexCount
        invariant forall w :: 0 <= w < vertex ==> adj[w] == NeighbourSet(tris, w)
        invariant forall w :: vertex < w < VertexCount ==> adj[w] == {}
        invariant adj[vertex] == NeighbourSet(tris[..t], vertex)
      {
        var tri := tris[t];
        ghost var before := adj[vertex];
        if vertex in tri {
          for k := 0 to |tri|
            invariant |adj| == VertexCount
            invariant forall w :: 0 <= w < vertex ==> adj[w] == NeighbourSet(tris, w)
            invariant forall w :: vertex < w < VertexCount ==> adj[w] == {}
            invariant adj[vertex] == before + (VertexSet(tri[..k]) - {vertex})
          {
            var neighbour := tri[k];
            if neighbour != vertex {
              adj := adj[vertex := adj[vertex] + {neighbour}];
            }
            assert VertexSet(tri[..k + 1]) == VertexSet(tri[..k]) + {tri[k]} by {
              assert tri[..k + 1] == tri[..k] + [tri[k]];
            }
          }
          assert tri[..|tri|] == tri;
        }
        assert tris[..t + 1][..t] == tris[..t];
      }
      assert tris[..|tris|] == tris;
    }
  }

  /** For each entry IcoAdj[x][k], the index of a root triangle that holds both x and that entry. */
  ghost const EdgeWitness: seq<seq<int>> := [
    [7, 4, 5, 7, 4], [6, 6, 2, 2, 3], [4, 0, 0, 5, 4], [3, 1, 1, 2, 2],
    [5, 8, 5, 8, 9], [9, 2, 2, 8, 8], [4, 4, 10, 11, 10], [10, 3, 11, 3, 10],
    [7, 6, 6, 9, 9], [1, 0, 0, 8, 8], [6, 6, 11, 7, 11], [0, 0, 1, 10, 10]]

  /** Every two distinct vertices of a root triangle are listed as neighbours in the table. */
  lemma TriangleEdgesInTable()
    ensures forall t, x, y :: 0 <= t < |IcoTris| && x in IcoTris[t] && y in IcoTris[t] && x != y ==>
      0 <= x < VertexCount && y in IcoAdj[x]
  {
  }

  /** Every table entry is backed by the root triangle that EdgeWitness names. */
  lemma TableEdgesWitnessed()
    ensures forall x :: 0 <= x < VertexCount ==> |IcoAdj[x]| == 5
    ensures forall x, k :: 0 <= x < VertexCount && 0 <= k < 5 ==>
      0 <= EdgeWitness[x][k] < |IcoTris| && x in IcoTris[EdgeWitness[x][k]] && IcoAdj[x][k] in IcoTris[EdgeWitness[x][k]]
  {
  }

  /** For the fixed triangle list, every derived neighbour set equals the hard-coded adjacency row. */
  lemma AdjacencyTableMatchesTriangles()
    ensures forall v :: 0 <= v < VertexCount ==> NeighbourSet(IcoTris, v) == VertexSet(IcoAdj[v])
  {
    forall v, u | 0 <= v < VertexCount
      ensures u in NeighbourSet(IcoTris, v) <==> u in VertexSet(IcoAdj[v])
    {
      NeighbourMatchesRow(v, u);
    }
  }

  /** One entry of the comparison: u is a derived neighbour of v exactly when row v of the table lists it. */
  lemma NeighbourMatchesRow(v: int, u: int)
    requires 0 <= v < VertexCount
    ensures u in NeighbourSet(IcoTris, v) <==> u in IcoAdj[v]
  {
    NeighbourSetMeans(IcoTris, v, u);
    if u in IcoAdj[v] {
      TableEdgesWitnessed();
      var k :| 0 <= k < 5 && IcoAdj[v][k] == u;
      var t := EdgeWitness[v][k];
      assert v in IcoTris[t] && u in IcoTris[t];
      assert u != v;
    }
    if u in NeighbourSet(IcoTris, v) {
      TriangleEdgesInTable();
    }
  }

  /** The hard-coded level-0 adjacency is symmetric, being the neighbour relation of the triangles. */
  lemma IcoAdjSymmetric()
    ensures forall a, b :: 0 <= a < VertexCount && 0 <= b < VertexCount ==> (b in IcoAdj[a] <==> a in IcoAdj[b])
  {
    AdjacencyTableMatchesTriangles();
    forall a, b | 0 <= a < VertexCount && 0 <= b < VertexCount
      ensures b in IcoAdj[a] <==> a in IcoAdj[b]
    {
      NeighbourSetSymmetric(IcoTris, a, b);
      assert b in IcoAdj[a] <==> b in VertexSet(IcoAdj[a]);
      assert a in IcoAdj[b] <==> a in VertexSet(IcoAdj[b]);
    }
  }
}
