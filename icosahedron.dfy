/**
 * The hard-coded level-0 tables of the geodesic sphere: the 20 root
 * triangles of the icosahedron, the 5-neighbour ring of each of its
 * 12 vertices, and the pairing of root triangles into 10 texture charts
 * together with its inverse map.  The lemmas check that the tables agree
 * with one another.
 */
module Icosahedron {

  /** Number of root triangles (IcosahedronTriangles). */
  const TriangleCount: nat := 20

  /** Number of icosahedron vertices. */
  const VertexCount: nat := 12

  /** The root triangles, as vertex-id triples, in the order they are added to the tri-tree. */
  const IcoTris: seq<seq<int>> := [
    [2, 9, 11], [3, 11, 9], [3, 5, 1],  [3, 1, 7],  [2, 6, 0],
    [2, 0, 4],  [1, 8, 10], [0, 10, 8], [9, 4, 5],  [8, 5, 4],
    [11, 7, 6], [10, 6, 7], [3, 9, 5],  [3, 7, 11], [2, 4, 9],
    [2, 11, 6], [0, 8, 4],  [0, 6, 10], [1, 5, 8],  [1, 10, 7]]

  /** The level-0 adjacency list of each vertex. */
  const IcoAdj: seq<seq<int>> := [
    [8, 2, 4, 10, 6], [8, 10, 3, 5, 7], [0, 9, 11, 4, 6],  [7, 9, 11, 5, 1],
    [0, 9, 2, 5, 8],  [8, 1, 3, 4, 9],  [0, 2, 11, 10, 7], [11, 1, 10, 3, 6],
    [0, 1, 10, 4, 5], [3, 2, 11, 4, 5], [8, 1, 6, 0, 7],   [9, 2, 3, 6, 7]]

  /** The 10 pairs of root triangles that share an edge and form one texture chart. */
  const TrianglePairs: seq<(int, int)> := [
    (0, 1), (2, 3), (15, 4), (14, 5), (19, 6), (16, 7), (12, 8), (18, 9), (13, 10), (17, 11)]

  /** For each root triangle, the index of the pair it belongs to. */
  const TriangleToPairsMap: seq<int> := [
    0, 0, 1, 1, 2, 3, 4, 5, 6, 7, 8, 9, 6, 8, 3, 2, 5, 9, 7, 4]

  /** Every root triangle has three corners and every table entry is a vertex id. */
  lemma TablesWellFormed()
    ensures |IcoTris| == TriangleCount && |IcoAdj| == VertexCount
    ensures forall t :: 0 <= t < TriangleCount ==> |IcoTris[t]| == 3
    ensures forall t, k :: 0 <= t < TriangleCount && 0 <= k < 3 ==> 0 <= IcoTris[t][k] < VertexCount
    ensures forall v, x :: 0 <= v < VertexCount && x in IcoAdj[v] ==> 0 <= x < VertexCount
  {
  }

  /** The vertex set of a triangle. */
  function VertexSet(tri: seq<int>): (s: set<int>)
    ensures forall x :: x in s <==> x in tri
  {
    set x | x in tri
  }

  /** Both triangles of every pair are root triangles, and the map sends each back to its pair. */
  lemma PairsMapIsInverse()
    ensures |TrianglePairs| == TriangleCount / 2 && |TriangleToPairsMap| == TriangleCount
    ensures forall p :: 0 <= p < |TrianglePairs| ==>
      0 <= TrianglePairs[p].0 < TriangleCount && 0 <= TrianglePairs[p].1 < TriangleCount &&
      TriangleToPairsMap[TrianglePairs[p].0] == p && TriangleToPairsMap[TrianglePairs[p].1] == p
  {
  }

  /** The pairs partition the root triangles: every triangle lies in the pair the map names, and no triangle lies in two slots. */
  lemma PairsPartitionTriangles()
    ensures forall t :: 0 <= t < TriangleCount ==>
      0 <= TriangleToPairsMap[t] < |TrianglePairs| &&
      (TrianglePairs[TriangleToPairsMap[t]].0 == t || TrianglePairs[TriangleToPairsMap[t]].1 == t)
    ensures forall p, q :: 0 <= p < |TrianglePairs| && 0 <= q < |TrianglePairs| && p != q ==>
      TrianglePairs[p].0 != TrianglePairs[q].0 && TrianglePairs[p].0 != TrianglePairs[q].1 &&
      TrianglePairs[p].1 != TrianglePairs[q].1
    ensures forall p :: 0 <= p < |TrianglePairs| ==> TrianglePairs[p].0 != TrianglePairs[p].1
  {
  }

  /** Two triangles whose common vertices are exactly x and y share exactly two vertices. */
  lemma SharedPair(a: seq<int>, b: seq<int>, x: int, y: int)
    requires x != y && x in a && y in a && x in b && y in b
    requires forall z :: z in a && z in b ==> z == x || z == y
    ensures |VertexSet(a) * VertexSet(b)| == 2
  {
    forall z ensures z in VertexSet(a) * VertexSet(b) <==> z in {x, y} {
      assert z in VertexSet(a) <==> z in a;
      assert z in VertexSet(b) <==> z in b;
    }
    assert VertexSet(a) * VertexSet(b) == {x, y};
  }

  /** The two triangles of every chart share exactly one edge, i.e. exactly two vertices. */
  lemma PairsShareAnEdge()
    ensures forall p :: 0 <= p < |TrianglePairs| ==>
      |VertexSet(IcoTris[TrianglePairs[p].0]) * VertexSet(IcoTris[TrianglePairs[p].1])| == 2
  {
    forall p | 0 <= p < |TrianglePairs|
      ensures |VertexSet(IcoTris[TrianglePairs[p].0]) * VertexSet(IcoTris[TrianglePairs[p].1])| == 2
    {
      if p == 0 { SharedPair(IcoTris[0], IcoTris[1], 9, 11); }
      else if p == 1 { SharedPair(IcoTris[2], IcoTris[3], 1, 3); }
      else if p == 2 { SharedPair(IcoTris[15], IcoTris[4], 2, 6); }
      else if p == 3 { SharedPair(IcoTris[14], IcoTris[5], 2, 4); }
      else if p == 4 { SharedPair(IcoTris[19], IcoTris[6], 1, 10); }
      else if p == 5 { SharedPair(IcoTris[16], IcoTris[7], 0, 8); }
      else if p == 6 { SharedPair(IcoTris[12], IcoTris[8], 5, 9); }
      else if p == 7 { SharedPair(IcoTris[18], IcoTris[9], 5, 8); }
      else if p == 8 { SharedPair(IcoTris[13], IcoTris[10], 7, 11); }
      else { SharedPair(IcoTris[17], IcoTris[11], 6, 10); }
    }
  }

  /** No two corners of triangle a both lie in b. */
  predicate OneCommon(a: seq<int>, b: seq<int>)
    requires |a| == 3
  {
    forall k, l :: 0 <= k < l < 3 ==> !(a[k] in b && a[l] in b)
  }

  /** A subset is no larger than the set that holds it. */
  lemma SubsetCard(s: set<int>, t: set<int>)
    requires s <= t
    ensures |s| <= |t|
  {
    assert t == s + (t - s);
  }

  /** A common vertex of two triangles that have one. */
  lemma PickCommon(a: seq<int>, b: seq<int>) returns (y: int)
    requires VertexSet(a) * VertexSet(b) != {}
    ensures y in a && y in b
  {
    var k :| 0 <= k < |a| && a[k] in b;
    y := a[k];
  }

  /** When no two corners of a lie in b, the two triangles share at most one vertex. */
  lemma OneCommonMeet(a: seq<int>, b: seq<int>)
    requires |a| == 3 && OneCommon(a, b)
    ensures |VertexSet(a) * VertexSet(b)| <= 1
  {
    var s := VertexSet(a) * VertexSet(b);
    if s != {} {
      var y := PickCommon(a, b);
      forall z | z in s
        ensures z == y
      {
        var k :| 0 <= k < 3 && a[k] == y;
        var l :| 0 <= l < 3 && a[l] == z;
      }
      SubsetCard(s, {y});
    }
  }

  /** Root triangles 2k and 2k + 1 share an edge, for k below 6. */
  lemma ConsecutiveRootsShareAnEdge(k: int)
    requires 0 <= k < 6
    ensures |VertexSet(IcoTris[2 * k + 1]) * VertexSet(IcoTris[2 * k])| == 2
  {
    if k == 0 { SharedPair(IcoTris[1], IcoTris[0], 9, 11); }
    else if k == 1 { SharedPair(IcoTris[3], IcoTris[2], 1, 3); }
    else if k == 2 { SharedPair(IcoTris[5], IcoTris[4], 0, 2); }
    else if k == 3 { SharedPair(IcoTris[7], IcoTris[6], 8, 10); }
    else if k == 4 { SharedPair(IcoTris[9], IcoTris[8], 4, 5); }
    else { SharedPair(IcoTris[11], IcoTris[10], 6, 7); }
  }

  /*
   * Among root triangles 12 to 19 no two corners of one lie in another;
   * the check is split by rows to keep each proof small.
   */
  lemma RowsMeetOnce13To16()
    ensures forall i, j :: 12 <= j < i && 13 <= i <= 16 ==> OneCommon(IcoTris[i], IcoTris[j])
  {
    forall i, j | 12 <= j < i && 13 <= i <= 16
      ensures OneCommon(IcoTris[i], IcoTris[j])
    {
      if i == 13 {
      } else if i == 14 {
        if j == 12 {} else {}
      } else if i == 15 {
        if j == 12 {} else if j == 13 {} else {}
      } else {
        if j == 12 {} else if j == 13 {} else if j == 14 {} else {}
      }
    }
  }

  lemma RowsMeetOnce17To18()
    ensures forall i, j :: 12 <= j < i && 17 <= i <= 18 ==> OneCommon(IcoTris[i], IcoTris[j])
  {
    forall i, j | 12 <= j < i && 17 <= i <= 18
      ensures OneCommon(IcoTris[i], IcoTris[j])
    {
      if i == 17 {
        if j == 12 {} else if j == 13 {} else if j == 14 {} else if j == 15 {} else {}
      } else {
        if j == 12 {} else if j == 13 {} else if j == 14 {} else if j == 15 {} else if j == 16 {} else {}
      }
    }
  }

  lemma RowMeetsOnce19()
    ensures forall i, j :: 12 <= j < i && i == 19 ==> OneCommon(IcoTris[i], IcoTris[j])
  {
    forall i, j | 12 <= j < i && i == 19
      ensures OneCommon(IcoTris[i], IcoTris[j])
    {
      if j == 12 {} else if j == 13 {} else if j == 14 {} else if j == 15 {} else if j == 16 {} else if j == 17 {} else {}
    }
  }

  /** No two of the last eight root triangles (12 to 19) share an edge: any two meet in at most one vertex. */
  lemma LastRootsShareNoEdge()
    ensures forall i, j :: 12 <= j < i < TriangleCount ==> |VertexSet(IcoTris[i]) * VertexSet(IcoTris[j])| <= 1
  {
    RowsMeetOnce13To16();
    RowsMeetOnce17To18();
    RowMeetsOnce19();
    forall i, j | 12 <= j < i < TriangleCount
      ensures |VertexSet(IcoTris[i]) * VertexSet(IcoTris[j])| <= 1
    {
      OneCommonMeet(IcoTris[i], IcoTris[j]);
    }
  }
}
