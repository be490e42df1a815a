/**
 * The search for texture charts: the pairs of root triangles that share an
 * edge, and a greedy first-fit scan for a set of disjoint such pairs that
 * covers the sphere.
 */
module IcosahedronPairs {
  import opened Common
  import opened Icosahedron

  /** A pair of triangle indices; the scanner emits (i, j) with j < i. */
  type Pair = (int, int)

  /** Two triangles share an edge when their vertex sets meet in exactly two vertices. */
  predicate SharesEdge(triset: seq<set<int>>, i: int, j: int)
    requires 0 <= i < |triset| && 0 <= j < |triset|
  {
    |triset[i] * triset[j]| == 2
  }

  /** Strict lexicographic order on pairs: by the first index, then by the second. */
  predicate LexLess(p: Pair, q: Pair)
  {
    p.0 < q.0 || (p.0 == q.0 && p.1 < q.1)
  }

  /** The triangles mentioned by a list of pairs. */
  function TrisOf(ps: seq<Pair>): set<int>
  {
    if ps == [] then {} else TrisOf(ps[..|ps| - 1]) + {ps[|ps| - 1].0, ps[|ps| - 1].1}
  }

  /** Both triangles of every listed pair are among the triangles the list mentions. */
  lemma {:induction false} TrisOfContains(ps: seq<Pair>, k: int)
    requires 0 <= k < |ps|
    ensures ps[k].0 in TrisOf(ps) && ps[k].1 in TrisOf(ps)
  {
    if k < |ps| - 1 {
      TrisOfContains(ps[..|ps| - 1], k);
    }
  }

  /** A triangle the list mentions belongs to one of its pairs. */
  lemma {:induction false} TrisOfWitness(ps: seq<Pair>, x: int) returns (k: int)
    requires x in TrisOf(ps)
    ensures 0 <= k < |ps| && (ps[k].0 == x || ps[k].1 == x)
  {
    if x in TrisOf(ps[..|ps| - 1]) {
      k := TrisOfWitness(ps[..|ps| - 1], x);
    } else {
      k := |ps| - 1;
    }
  }

  /** The two pairs have no triangle in common. */
  predicate DisjointPairs(p: Pair, q: Pair)
  {
    p.0 != q.0 && p.0 != q.1 && p.1 != q.0 && p.1 != q.1
  }

  /** No triangle is used by two different pairs of the list. */
  predicate PairwiseDisjoint(ps: seq<Pair>)
  {
    forall a, b :: 0 <= a < b < |ps| ==> DisjointPairs(ps[a], ps[b])
  }

  /** Appending a pair that avoids every triangle of a disjoint list keeps it disjoint. */
  lemma AppendDisjoint(ps: seq<Pair>, p: Pair)
    requires PairwiseDisjoint(ps)
    requires p.0 !in TrisOf(ps) && p.1 !in TrisOf(ps)
    ensures PairwiseDisjoint(ps + [p])
    ensures TrisOf(ps + [p]) == TrisOf(ps) + {p.0, p.1}
  {
    assert (ps + [p])[..|ps|] == ps;
  }

  /**
   * A list whose prefix up to m is disjoint from position lo on and whose
   * suffix from m avoids every triangle that prefix uses is disjoint from lo on.
   */
  lemma JoinDisjoint(r: seq<Pair>, lo: nat, m: nat, base: set<int>, used: set<int>)
    requires lo <= m <= |r|
    requires PairwiseDisjoint(r[lo..m]) && PairwiseDisjoint(r[m..])
    requires used == base + TrisOf(r[lo..m])
    requires forall k :: m <= k < |r| ==> r[k].0 !in used && r[k].1 !in used
    ensures PairwiseDisjoint(r[lo..])
  {
    forall a, b | lo <= a < b < |r|
      ensures DisjointPairs(r[a], r[b])
    {
      if b < m {
        assert r[lo..m][a - lo] == r[a] && r[lo..m][b - lo] == r[b];
      } else if a >= m {
        assert r[m..][a - m] == r[a] && r[m..][b - m] == r[b];
      } else {
        assert r[lo..m][a - lo] == r[a];
        TrisOfContains(r[lo..m], a - lo);
      }
    }
  }

  /** Disjoint pairs of two distinct triangles each mention twice as many triangles as there are pairs. */
  lemma {:induction false} TrisOfSize(ps: seq<Pair>)
    requires PairwiseDisjoint(ps)
    requires forall k :: 0 <= k < |ps| ==> ps[k].0 != ps[k].1
    ensures |TrisOf(ps)| == 2 * |ps|
  {
    if ps != [] {
      var init, p := ps[..|ps| - 1], ps[|ps| - 1];
      TrisOfSize(init);
      assert forall k :: 0 <= k < |init| ==> DisjointPairs(init[k], p) by {
        forall k | 0 <= k < |init| ensures DisjointPairs(init[k], p) {
          assert init[k] == ps[k];
        }
      }
      if p.0 in TrisOf(init) {
        var k := TrisOfWitness(init, p.0);
        assert false;
      }
      if p.1 in TrisOf(init) {
        var k := TrisOfWitness(init, p.1);
        assert false;
      }
    }
  }

  /**
   * n/2 disjoint pairs of distinct triangles drawn from 0..n-1 use every
   * triangle: they partition the triangles into charts.
   */
  lemma PairsPartitionRange(ps: seq<Pair>, n: nat)
    requires PairwiseDisjoint(ps) && 2 * |ps| == n
    requires forall k :: 0 <= k < |ps| ==> ps[k].0 != ps[k].1 && 0 <= ps[k].0 < n && 0 <= ps[k].1 < n
    ensures TrisOf(ps) == Interval(0, n)
  {
    TrisOfSize(ps);
    forall x | x in TrisOf(ps) ensures x in Interval(0, n) {
      var k := TrisOfWitness(ps, x);
    }
    var rest := Interval(0, n) - TrisOf(ps);
    assert Interval(0, n) == TrisOf(ps) + rest;
    assert |Interval(0, n)| == |TrisOf(ps)| + |rest|;
  }

  /** The loop that turns every triangle tuple into its vertex set, in order. */
  method BuildTriSets(tris: seq<seq<int>>) returns (triset: seq<set<int>>)
    ensures |triset| == |tris|
    ensures forall i :: 0 <= i < |tris| ==> triset[i] == VertexSet(tris[i])
  {
    triset := [];
    for i := 0 to |tris|
      invariant |triset| == i
      invariant forall k :: 0 <= k < i ==> triset[k] == VertexSet(tris[k])
    {
      triset := triset + [VertexSet(tris[i])];
    }
  }

  /**
   * The double loop over i and j < i that collects every pair of triangles
   * sharing an edge: exactly those pairs, each once, in lexicographic order.
   */
  method EdgePairs(triset: seq<set<int>>) returns (pairs: seq<Pair>)
    ensures forall k :: 0 <= k < |pairs| ==>
      0 <= pairs[k].1 < pairs[k].0 < |triset| && SharesEdge(triset, pairs[k].0, pairs[k].1)
    ensures forall i, j :: 0 <= j < i < |triset| && SharesEdge(triset, i, j) ==> (i, j) in pairs
    ensures forall a, b :: 0 <= a < b < |pairs| ==> LexLess(pairs[a], pairs[b])
  {
    pairs := [];
    for i := 0 to |triset|
      invariant forall k :: 0 <= k < |pairs| ==>
        0 <= pairs[k].1 < pairs[k].0 < i && SharesEdge(triset, pairs[k].0, pairs[k].1)
      invariant forall i', j :: 0 <= j < i' < i && SharesEdge(triset, i', j) ==> (i', j) in pairs
      invariant forall a, b :: 0 <= a < b < |pairs| ==> LexLess(pairs[a], pairs[b])
    {
      for j := 0 to i
        invariant forall k :: 0 <= k < |pairs| ==>
          0 <= pairs[k].1 < pairs[k].0 <= i && SharesEdge(triset, pairs[k].0, pairs[k].1)
        invariant forall k :: 0 <= k < |pairs| && pairs[k].0 == i ==> pairs[k].1 < j
        invariant forall i', j' :: 0 <= j' < i' < i && SharesEdge(triset, i', j') ==> (i', j') in pairs
        invariant forall j' :: 0 <= j' < j && SharesEdge(triset, i, j') ==> (i, j') in pairs
        invariant forall a, b :: 0 <= a < b < |pairs| ==> LexLess(pairs[a], pairs[b])
      {
        var s := triset[i] * triset[j];
        if |s| == 2 {
          pairs := pairs + [(i, j)];
        }
      }
    }
  }

  /**
   * r is col followed by candidate pairs that avoid the used triangles and
   * one another.
   */
  predicate Extends(r: seq<Pair>, col: seq<Pair>, cpairs: seq<Pair>, usedtris: set<int>)
  {
    && |col| <= |r| && r[..|col|] == col
    && (forall k :: |col| <= k < |r| ==> r[k] in cpairs && r[k].0 !in usedtris && r[k].1 !in usedtris)
    && PairwiseDisjoint(r[|col|..])
  }

  /** Appending a candidate whose triangles are unused keeps the extension and marks them used. */
  lemma ExtendsAppend(acc: seq<Pair>, col: seq<Pair>, cpairs: seq<Pair>, usedtris: set<int>, used: set<int>, p: Pair)
    requires Extends(acc, col, cpairs, usedtris) && used == usedtris + TrisOf(acc[|col|..])
    requires p in cpairs && p.0 !in used && p.1 !in used
    ensures Extends(acc + [p], col, cpairs, usedtris)
    ensures used + {p.0, p.1} == usedtris + TrisOf((acc + [p])[|col|..])
  {
    assert (acc + [p])[|col|..] == acc[|col|..] + [p];
    AppendDisjoint(acc[|col|..], p);
    assert (acc + [p])[..|col|] == acc[..|col|];
  }

  /** An extension of an extension is an extension, once the middle list's triangles count as used. */
  lemma ExtendsTrans(r: seq<Pair>, acc: seq<Pair>, col: seq<Pair>, cpairs: seq<Pair>, usedtris: set<int>, used: set<int>)
    requires Extends(acc, col, cpairs, usedtris) && used == usedtris + TrisOf(acc[|col|..])
    requires Extends(r, acc, cpairs, used)
    ensures Extends(r, col, cpairs, usedtris)
  {
    assert r[..|col|] == acc[..|col|];
    forall k | |col| <= k < |r|
      ensures r[k] in cpairs && r[k].0 !in usedtris && r[k].1 !in usedtris
    {
      if k < |acc| {
        assert r[..|acc|][k] == acc[k];
      }
    }
    assert r[|col|..][..|acc| - |col|] == acc[|col|..];
    assert r[|col|..][|acc| - |col|..] == r[|acc|..];
    JoinDisjoint(r[|col|..], 0, |acc| - |col|, usedtris, used);
    assert r[|col|..][0..] == r[|col|..];
  }

  /**
   * A candidate list sorted strictly by LexLess is fixed by its members:
   * the edge-pair list is therefore the one sequence meeting the contract of EdgePairs.
   */
  lemma {:induction false} SortedPairsUnique(a: seq<Pair>, b: seq<Pair>)
    requires forall i, j :: 0 <= i < j < |a| ==> LexLess(a[i], a[j])
    requires forall i, j :: 0 <= i < j < |b| ==> LexLess(b[i], b[j])
    requires forall p :: p in a <==> p in b
    ensures a == b
    decreases |a|
  {
    if |a| > 0 {
      assert a[0] in b;
    }
    if |b| > 0 {
      assert b[0] in a;
      assert a[0] in b;
      assert a[0] == b[0];
      forall p
        ensures p in a[1..] <==> p in b[1..]
      {
        if p in a[1..] {
          var i :| 1 <= i < |a| && a[i] == p;
          assert LexLess(a[0], a[i]);
          assert p in b;
          var j :| 0 <= j < |b| && b[j] == p;
          assert j != 0;
          assert b[j] == b[1..][j - 1];
        }
        if p in b[1..] {
          var j :| 1 <= j < |b| && b[j] == p;
          assert LexLess(b[0], b[j]);
          assert p in a;
          var i :| 0 <= i < |a| && a[i] == p;
          assert i != 0;
          assert a[i] == a[1..][i - 1];
        }
      }
      SortedPairsUnique(a[1..], b[1..]);
      assert a == [a[0]] + a[1..] && b == [b[0]] + b[1..];
    }
  }

  /**
   * The first-fit scan from position n on: every candidate whose triangles
   * are both still unused is appended to acc and its triangles marked used.
   */
  function Scan(cpairs: seq<Pair>, used: set<int>, acc: seq<Pair>, n: nat): (r: seq<Pair>)
    requires n <= |cpairs|
    ensures |acc| <= |r| && r[..|acc|] == acc
    decreases |cpairs| - n
  {
    if n == |cpairs| then acc
    else if cpairs[n].0 !in used && cpairs[n].1 !in used then
      Scan(cpairs, used + {cpairs[n].0, cpairs[n].1}, acc + [cpairs[n]], n + 1)
    else Scan(cpairs, used, acc, n + 1)
  }

  /** The first-fit scan over all candidates, starting from col and the used set. */
  function Greedy(cpairs: seq<Pair>, used: set<int>, col: seq<Pair>): seq<Pair>
  {
    Scan(cpairs, used, col, 0)
  }

  /** Candidates before n that are already blocked change nothing: the scan may as well start at n. */
  lemma {:induction false} ScanSkipsBlocked(cpairs: seq<Pair>, used: set<int>, acc: seq<Pair>, m: nat, n: nat)
    requires m <= n <= |cpairs|
    requires forall k :: m <= k < n ==> cpairs[k].0 in used || cpairs[k].1 in used
    ensures Scan(cpairs, used, acc, m) == Scan(cpairs, used, acc, n)
    decreases n - m
  {
    if m < n {
      ScanSkipsBlocked(cpairs, used, acc, m + 1, n);
    }
  }

  /** The scan only appends candidates that avoid the used triangles and one another. */
  lemma {:induction false} ScanExtends(cpairs: seq<Pair>, usedtris: set<int>, col: seq<Pair>,
                                       used: set<int>, acc: seq<Pair>, n: nat)
    requires n <= |cpairs|
    requires Extends(acc, col, cpairs, usedtris) && used == usedtris + TrisOf(acc[|col|..])
    ensures Extends(Scan(cpairs, used, acc, n), col, cpairs, usedtris)
    decreases |cpairs| - n
  {
    if n < |cpairs| {
      var p := cpairs[n];
      if p.0 !in used && p.1 !in used {
        ExtendsAppend(acc, col, cpairs, usedtris, used, p);
        ScanExtends(cpairs, usedtris, col, used + {p.0, p.1}, acc + [p], n + 1);
      } else {
        ScanExtends(cpairs, usedtris, col, used, acc, n + 1);
      }
    }
  }

  /** The greedy result extends col by candidates that avoid the used triangles and one another. */
  lemma GreedyExtends(cpairs: seq<Pair>, used: set<int>, col: seq<Pair>)
    ensures Extends(Greedy(cpairs, used, col), col, cpairs, used)
  {
    assert col[|col|..] == [];
    ScanExtends(cpairs, used, col, used, col, 0);
  }

  /**
   * collectpairs2: scan the candidate pairs in order; append every pair whose
   * triangles are both still unused; stop as soon as the list reaches count,
   * otherwise recurse on copies of the list and the used set and return the
   * first success.  The copies make the recursion unable to alter this
   * call's list and used set; on a failed recursion the appended pair stays.
   */
  method CollectPairs2(cpairs: seq<Pair>, usedtris: set<int>, col: seq<Pair>, count: int)
    returns (res: Option<seq<Pair>>)
    ensures res.Some? ==> |res.value| == count && |col| < count
    ensures res.Some? ==> Extends(res.value, col, cpairs, usedtris)
    ensures (forall p :: p in cpairs ==> p.0 in usedtris || p.1 in usedtris) ==> res.None?
    ensures res == if |col| < count <= |Greedy(cpairs, usedtris, col)|
                   then Some(Greedy(cpairs, usedtris, col)[..count]) else None
    decreases TrisOf(cpairs) - usedtris
  {
    ghost var g := Greedy(cpairs, usedtris, col);
    var used := usedtris;
    var acc := col;
    for n := 0 to |cpairs|
      invariant usedtris <= used
      invariant Extends(acc, col, cpairs, usedtris) && used == usedtris + TrisOf(acc[|col|..])
      invariant (forall p :: p in cpairs ==> p.0 in usedtris || p.1 in usedtris) ==> acc == col
      invariant Scan(cpairs, used, acc, n) == g
      invariant forall k :: 0 <= k < n ==> cpairs[k].0 in used || cpairs[k].1 in used
      invariant |col| < count ==> |acc| < count
    {
      var pair := cpairs[n];
      if pair.0 !in used && pair.1 !in used {
        ExtendsAppend(acc, col, cpairs, usedtris, used, pair);
        acc := acc + [pair];
        if |acc| == count {
          return Some(acc);
        }
        used := used + {pair.0, pair.1};
        TrisOfContains(cpairs, n);
        assert TrisOf(cpairs) - used < TrisOf(cpairs) - usedtris;
        ScanSkipsBlocked(cpairs, used, acc, 0, n + 1);
        var sub := CollectPairs2(cpairs, used, acc, count);
        if sub.Some? {
          ExtendsTrans(sub.value, acc, col, cpairs, usedtris, used);
          return sub;
        }
      }
    }
    return None;
  }

  /** What collectpairs hands back: a list, Python's None, or the TypeError raised on iterating None. */
  datatype PairsResult = Pairs(list: seq<Pair>) | NoPairs | TypeError

  /**
   * collectpairs: for count 2, the first two candidates (in scan order)
   * that share no triangle; for larger counts, the result for count - 1
   * extended by the first candidate that is new and avoids its triangles.
   * A None from the inner call is iterated over and raises.  Below 2 the
   * source recurses without end, so callers must ask for at least 2.
   */
  method CollectPairs(cpairs: seq<Pair>, count: int) returns (r: PairsResult)
    requires count >= 2
    ensures r.Pairs? ==> |r.list| == count && PairwiseDisjoint(r.list)
    ensures r.Pairs? ==> forall k :: 0 <= k < |r.list| ==> r.list[k] in cpairs
    ensures count == 2 ==> !r.TypeError?
    ensures count == 2 && r.NoPairs? ==> forall p1, p2 :: p1 in cpairs && p2 in cpairs ==>
      !DisjointPairs(p1, p2)
    decreases count
  {
    if count == 2 {
      for a := 0 to |cpairs|
        invariant forall a', b :: 0 <= a' < a && 0 <= b < |cpairs| ==> !DisjointPairs(cpairs[a'], cpairs[b])
      {
        for b := 0 to |cpairs|
          invariant forall a', b' :: 0 <= a' < a && 0 <= b' < |cpairs| ==> !DisjointPairs(cpairs[a'], cpairs[b'])
          invariant forall b' :: 0 <= b' < b ==> !DisjointPairs(cpairs[a], cpairs[b'])
        {
          var p1, p2 := cpairs[a], cpairs[b];
          if p1.0 != p2.0 && p1.1 != p2.1 && p1.0 != p2.1 && p1.1 != p2.0 {
            return Pairs([p1, p2]);
          }
        }
      }
      return NoPairs;
    } else {
      var inner := CollectPairs(cpairs, count - 1);
      if !inner.Pairs? {
        return TypeError;
      }
      var ppairs := inner.list;
      var usedtris: set<int> := {};
      for k := 0 to |ppairs|
        invariant usedtris == TrisOf(ppairs[..k])
      {
        usedtris := usedtris + {ppairs[k].0, ppairs[k].1};
        assert ppairs[..k + 1][..k] == ppairs[..k];
      }
      assert ppairs[..|ppairs|] == ppairs;
      for n := 0 to |cpairs| {
        var p := cpairs[n];
        if p !in ppairs && p.0 !in usedtris && p.1 !in usedtris {
          AppendDisjoint(ppairs, p);
          return Pairs(ppairs + [p]);
        }
      }
      return NoPairs;
    }
  }

  /**
   * The script's driver: vertex sets, the edge-sharing pairs, then a search
   * for count disjoint pairs starting from an empty list and no used triangle.
   * Any list it returns consists of count edge-sharing pairs (i, j) with
   * j < i, no two of which share a triangle.
   */
  method FindCharts(tris: seq<seq<int>>, count: int) returns (pairs: seq<Pair>, col: Option<seq<Pair>>)
    ensures forall k :: 0 <= k < |pairs| ==>
      0 <= pairs[k].1 < pairs[k].0 < |tris| && |VertexSet(tris[pairs[k].0]) * VertexSet(tris[pairs[k].1])| == 2
    ensures forall i, j :: 0 <= j < i < |tris| && |VertexSet(tris[i]) * VertexSet(tris[j])| == 2 ==> (i, j) in pairs
    ensures forall a, b :: 0 <= a < b < |pairs| ==> LexLess(pairs[a], pairs[b])
    ensures col == if 0 < count <= |Greedy(pairs, {}, [])| then Some(Greedy(pairs, {}, [])[..count]) else None
    ensures col.Some? ==> |col.value| == count && PairwiseDisjoint(col.value)
    ensures col.Some? ==> forall k :: 0 <= k < count ==>
      0 <= col.value[k].1 < col.value[k].0 < |tris| &&
      |VertexSet(tris[col.value[k].0]) * VertexSet(tris[col.value[k].1])| == 2
    ensures col.Some? && 2 * count == |tris| ==> TrisOf(col.value) == Interval(0, |tris|)
  {
    var triset := BuildTriSets(tris);
    pairs := EdgePairs(triset);
    col := CollectPairs2(pairs, {}, [], count);
    if col.Some? {
      assert col.value[0..] == col.value;
      forall k | 0 <= k < count
        ensures 0 <= col.value[k].1 < col.value[k].0 < |tris| &&
          |VertexSet(tris[col.value[k].0]) * VertexSet(tris[col.value[k].1])| == 2
      {
        var m :| 0 <= m < |pairs| && pairs[m] == col.value[k];
      }
      if 2 * count == |tris| {
        PairsPartitionRange(col.value, |tris|);
      }
    }
  }

  /*
   * The script as written, on its own input.  The removals that would undo a
   * failed choice are commented out, so the search is the first-fit scan:
   * on the icosahedron it takes (1, 0), (3, 2), ..., (11, 10) and finds every
   * later candidate blocked.
   */

  /** The k-th pair the first-fit scan takes on the root triangles: (2k + 1, 2k). */
  function FirstFitPair(k: int): Pair
  {
    (2 * k + 1, 2 * k)
  }

  /** The first m pairs the first-fit scan takes on the root triangles. */
  function FirstFitPrefix(m: nat): (r: seq<Pair>)
    ensures |r| == m && forall k :: 0 <= k < m ==> r[k] == FirstFitPair(k)
  {
    if m == 0 then [] else FirstFitPrefix(m - 1) + [FirstFitPair(m - 1)]
  }

  /** How many pairs the first-fit scan takes on the root triangles. */
  const FirstFitCount: nat := 6

  /** The six pairs the first-fit scan settles on for the root triangles. */
  const FirstFitCharts: seq<Pair> := [(1, 0), (3, 2), (5, 4), (7, 6), (9, 8), (11, 10)]

  /** The list the first-fit proof works on: sorted, holding the six pairs, and every smaller triangle below 12. */
  predicate FirstFitInput(pairs: seq<Pair>)
  {
    && (forall a, b :: 0 <= a < b < |pairs| ==> LexLess(pairs[a], pairs[b]))
    && (forall k :: 0 <= k < 6 ==> FirstFitPair(k) in pairs)
    && (forall q :: 0 <= q < |pairs| ==> 0 <= pairs[q].1 < pairs[q].0 && pairs[q].1 < 12)
  }

  /** When none of the pairs FirstFitPair(m) to FirstFitPair(5) occurs, although all six are listed, m is 6. */
  lemma FirstFitAllPassed(pairs: seq<Pair>, m: nat)
    requires forall k :: 0 <= k < 6 ==> FirstFitPair(k) in pairs
    requires m <= 6
    requires forall k, q :: m <= k < 6 && 0 <= q < |pairs| ==> pairs[q] != FirstFitPair(k)
    ensures m == 6
  {
    assert m < 6 ==> FirstFitPair(m) in pairs;
  }

  /**
   * In a sorted list holding all six pairs and no pair whose smaller
   * triangle is 12 or more, a candidate at n other than FirstFitPair(m),
   * with FirstFitPair(m) not yet passed, uses a triangle below 2m: it is
   * blocked, and it is none of the pairs still to come.
   */
  lemma FirstFitBlocked(pairs: seq<Pair>, m: nat, n: nat)
    requires FirstFitInput(pairs)
    requires m <= 6 && n < |pairs|
    requires forall k, q :: m <= k < 6 && 0 <= q < n ==> pairs[q] != FirstFitPair(k)
    requires m < 6 ==> pairs[n] != FirstFitPair(m)
    ensures 0 <= pairs[n].1 < 2 * m
    ensures forall k :: m <= k < 6 ==> pairs[n] != FirstFitPair(k)
  {
    if m < 6 {
      assert FirstFitPair(m) in pairs;
      var q :| 0 <= q < |pairs| && pairs[q] == FirstFitPair(m);
      assert n < q;
      assert LexLess(pairs[n], pairs[q]);
    }
  }

  /** A candidate that touches a used triangle is passed over. */
  lemma ScanSkips(cpairs: seq<Pair>, used: set<int>, acc: seq<Pair>, n: nat)
    requires n < |cpairs| && (cpairs[n].0 in used || cpairs[n].1 in used)
    ensures Scan(cpairs, used, acc, n) == Scan(cpairs, used, acc, n + 1)
  {
  }

  /**
   * The scan's state on such a list: the first m of the six pairs taken,
   * exactly triangles 0 to 2m - 1 used, and none of the others passed
   * before position n.
   */
  ghost predicate FirstFitState(pairs: seq<Pair>, used: set<int>, m: nat, n: nat)
  {
    && FirstFitInput(pairs)
    && m <= 6 && n <= |pairs|
    && (forall x :: x in used <==> 0 <= x < 2 * m)
    && (forall k, q :: m <= k < 6 && 0 <= q < n ==> pairs[q] != FirstFitPair(k))
  }

  /** Taking FirstFitPair(m) at n moves the scan to m + 1 pairs taken and its two triangles used. */
  lemma FirstFitTakes(pairs: seq<Pair>, used: set<int>, used': set<int>, m: nat, n: nat)
    requires FirstFitState(pairs, used, m, n)
    requires m < 6 && n < |pairs| && pairs[n] == FirstFitPair(m)
    requires used' == used + {2 * m + 1, 2 * m}
    ensures FirstFitState(pairs, used', m + 1, n + 1)
    ensures Scan(pairs, used, FirstFitPrefix(m), n) == Scan(pairs, used', FirstFitPrefix(m + 1), n + 1)
  {
  }

  /** Any other candidate at n is blocked and passed over, and none of the pairs still to come is passed. */
  lemma FirstFitPasses(pairs: seq<Pair>, used: set<int>, m: nat, n: nat)
    requires FirstFitState(pairs, used, m, n)
    requires n < |pairs| && (m < 6 ==> pairs[n] != FirstFitPair(m))
    ensures FirstFitState(pairs, used, m, n + 1)
    ensures Scan(pairs, used, FirstFitPrefix(m), n) == Scan(pairs, used, FirstFitPrefix(m), n + 1)
  {
    FirstFitBlocked(pairs, m, n);
    ScanSkips(pairs, used, FirstFitPrefix(m), n);
  }

  /** One step of the scan from such a state: it takes FirstFitPair(m) or passes over a blocked candidate. */
  lemma FirstFitStep(pairs: seq<Pair>, used: set<int>, m: nat, n: nat) returns (used': set<int>, m': nat)
    requires FirstFitState(pairs, used, m, n) && n < |pairs|
    ensures FirstFitState(pairs, used', m', n + 1)
    ensures Scan(pairs, used, FirstFitPrefix(m), n) == Scan(pairs, used', FirstFitPrefix(m'), n + 1)
  {
    if m < 6 && pairs[n] == FirstFitPair(m) {
      used', m' := used + {2 * m + 1, 2 * m}, m + 1;
      FirstFitTakes(pairs, used, used', m, n);
    } else {
      used', m' := used, m;
      FirstFitPasses(pairs, used, m, n);
    }
  }

  /** The first-fit scan from such a state ends with exactly the six pairs. */
  lemma {:induction false} ScanFirstFit(pairs: seq<Pair>, used: set<int>, m: nat, n: nat)
    requires FirstFitState(pairs, used, m, n)
    ensures Scan(pairs, used, FirstFitPrefix(m), n) == FirstFitPrefix(FirstFitCount)
    decreases |pairs| - n
  {
    if n == |pairs| {
      FirstFitAllPassed(pairs, m);
    } else {
      var used', m' := FirstFitStep(pairs, used, m, n);
      ScanFirstFit(pairs, used', m', n + 1);
    }
  }

  /** A list holding every edge-sharing pair of root triangles holds the six pairs (2k + 1, 2k). */
  lemma EdgePairsHoldFirstFit(pairs: seq<Pair>)
    requires forall i, j :: 0 <= j < i < |IcoTris| && |VertexSet(IcoTris[i]) * VertexSet(IcoTris[j])| == 2 ==> (i, j) in pairs
    ensures forall k :: 0 <= k < 6 ==> FirstFitPair(k) in pairs
  {
    forall k | 0 <= k < 6 ensures FirstFitPair(k) in pairs {
      ConsecutiveRootsShareAnEdge(k);
    }
  }

  /** In a list of edge-sharing pairs (i, j) of root triangles with j < i, every j is below 12. */
  lemma EdgePairsBelowTwelve(pairs: seq<Pair>)
    requires forall k :: 0 <= k < |pairs| ==>
      0 <= pairs[k].1 < pairs[k].0 < |IcoTris| && |VertexSet(IcoTris[pairs[k].0]) * VertexSet(IcoTris[pairs[k].1])| == 2
    ensures forall q :: 0 <= q < |pairs| ==> 0 <= pairs[q].1 < pairs[q].0 && pairs[q].1 < 12
  {
    LastRootsShareNoEdge();
  }

  /** On such a list the first-fit scan from nothing yields exactly the six pairs. */
  lemma GreedyFirstFit(pairs: seq<Pair>)
    requires FirstFitInput(pairs)
    ensures Greedy(pairs, {}, []) == FirstFitCharts
  {
    ScanFirstFit(pairs, {}, 0, 0);
    assert FirstFitPrefix(FirstFitCount) == FirstFitCharts;
  }

  /**
   * Whatever list meets the contract of EdgePairs on the root triangles,
   * the first-fit scan over it from nothing yields the six pairs
   * (1, 0), (3, 2), ..., (11, 10) and no more.
   */
  lemma GreedyStopsAtSix(pairs: seq<Pair>)
    requires forall k :: 0 <= k < |pairs| ==>
      0 <= pairs[k].1 < pairs[k].0 < |IcoTris| && |VertexSet(IcoTris[pairs[k].0]) * VertexSet(IcoTris[pairs[k].1])| == 2
    requires forall i, j :: 0 <= j < i < |IcoTris| && |VertexSet(IcoTris[i]) * VertexSet(IcoTris[j])| == 2 ==> (i, j) in pairs
    requires forall a, b :: 0 <= a < b < |pairs| ==> LexLess(pairs[a], pairs[b])
    ensures Greedy(pairs, {}, []) == FirstFitCharts
  {
    EdgePairsHoldFirstFit(pairs);
    EdgePairsBelowTwelve(pairs);
    GreedyFirstFit(pairs);
  }

  /**
   * Line 105 of the script: the search for ten charts over the root
   * triangles' edge pairs.  The first-fit scan stops at six pairs, so the
   * call yields None.
   */
  method ChartsScript() returns (col: Option<seq<Pair>>)
    ensures col == None
  {
    var pairs;
    pairs, col := FindCharts(IcoTris, 10);
    GreedyStopsAtSix(pairs);
  }

  /*
   * The search with the removals restored: a failed choice is undone and
   * the scan moves on to the next candidate, which makes it a backtracking
   * search that finds count disjoint candidates whenever they exist.
   */

  /** The backtracking search from position n: on a failed choice the pair is dropped again and the scan goes on. */
  function Backtrack(cpairs: seq<Pair>, used: set<int>, col: seq<Pair>, count: int, n: nat): Option<seq<Pair>>
    requires n <= |cpairs|
    decreases TrisOf(cpairs) - used, |cpairs| - n
  {
    if n == |cpairs| then None
    else
      var p := cpairs[n];
      if p.0 in used || p.1 in used then Backtrack(cpairs, used, col, count, n + 1)
      else if |col| + 1 == count then Some(col + [p])
      else
        TrisOfContains(cpairs, n);
        var sub := Backtrack(cpairs, used + {p.0, p.1}, col + [p], count, 0);
        if sub.Some? then sub else Backtrack(cpairs, used, col, count, n + 1)
  }

  /** A found list has count pairs and extends col by candidates that avoid the used triangles and one another. */
  lemma {:induction false} BacktrackSound(cpairs: seq<Pair>, used: set<int>, col: seq<Pair>, count: int, n: nat)
    requires n <= |cpairs|
    ensures Backtrack(cpairs, used, col, count, n).Some? ==>
      |Backtrack(cpairs, used, col, count, n).value| == count &&
      Extends(Backtrack(cpairs, used, col, count, n).value, col, cpairs, used)
    decreases TrisOf(cpairs) - used, |cpairs| - n
  {
    if n < |cpairs| {
      var p := cpairs[n];
      if p.0 in used || p.1 in used {
        BacktrackSound(cpairs, used, col, count, n + 1);
      } else {
        assert col[|col|..] == [];
        ExtendsAppend(col, col, cpairs, used, used, p);
        if |col| + 1 != count {
          TrisOfContains(cpairs, n);
          BacktrackSound(cpairs, used + {p.0, p.1}, col + [p], count, 0);
          var sub := Backtrack(cpairs, used + {p.0, p.1}, col + [p], count, 0);
          if sub.Some? {
            ExtendsTrans(sub.value, col + [p], col, cpairs, used, used + {p.0, p.1});
          } else {
            BacktrackSound(cpairs, used, col, count, n + 1);
          }
        }
      }
    }
  }

  /** Dropping one pair of a disjoint list leaves a disjoint list of pairs that all avoid the dropped one. */
  lemma RemoveAt(sol: seq<Pair>, i: int)
    requires 0 <= i < |sol| && PairwiseDisjoint(sol)
    ensures |sol[..i] + sol[i + 1..]| == |sol| - 1
    ensures PairwiseDisjoint(sol[..i] + sol[i + 1..])
    ensures forall x :: x in sol[..i] + sol[i + 1..] ==> x in sol && DisjointPairs(x, sol[i])
  {
    var rest := sol[..i] + sol[i + 1..];
    assert forall k :: 0 <= k < |rest| ==> rest[k] == if k < i then sol[k] else sol[k + 1];
    forall x | x in rest
      ensures x in sol && DisjointPairs(x, sol[i])
    {
      var k :| 0 <= k < |rest| && rest[k] == x;
    }
  }

  /** A candidate not in sol and ahead of every pair of sol: those pairs all lie further on. */
  lemma SkipCandidate(cpairs: seq<Pair>, n: nat, sol: seq<Pair>)
    requires n < |cpairs|
    requires forall k :: 0 <= k < |sol| ==> sol[k] in cpairs[n..] && sol[k] != cpairs[n]
    ensures forall k :: 0 <= k < |sol| ==> sol[k] in cpairs[n + 1..]
  {
    assert cpairs[n..] == [cpairs[n]] + cpairs[n + 1..];
  }

  /**
   * Completeness: when count - |col| disjoint candidates from position n on
   * avoid the used triangles, the backtracking search finds a list.
   */
  lemma {:induction false} BacktrackComplete(cpairs: seq<Pair>, used: set<int>, col: seq<Pair>, count: int, n: nat, sol: seq<Pair>)
    requires n <= |cpairs|
    requires |col| < count && |col| + |sol| == count
    requires PairwiseDisjoint(sol)
    requires forall k :: 0 <= k < |sol| ==> sol[k] in cpairs[n..] && sol[k].0 !in used && sol[k].1 !in used
    ensures Backtrack(cpairs, used, col, count, n).Some?
    decreases TrisOf(cpairs) - used, |cpairs| - n
  {
    assert sol[0] in cpairs[n..];
    var p := cpairs[n];
    if p.0 in used || p.1 in used {
      SkipCandidate(cpairs, n, sol);
      BacktrackComplete(cpairs, used, col, count, n + 1, sol);
    } else if |col| + 1 != count {
      TrisOfContains(cpairs, n);
      if p in sol {
        var i :| 0 <= i < |sol| && sol[i] == p;
        RemoveAt(sol, i);
        var rest := sol[..i] + sol[i + 1..];
        forall k | 0 <= k < |rest|
          ensures rest[k] in cpairs[0..] && rest[k].0 !in used + {p.0, p.1} && rest[k].1 !in used + {p.0, p.1}
        {
          assert rest[k] in rest;
          assert cpairs[0..] == cpairs;
        }
        BacktrackComplete(cpairs, used + {p.0, p.1}, col + [p], count, 0, rest);
      } else {
        SkipCandidate(cpairs, n, sol);
        BacktrackComplete(cpairs, used, col, count, n + 1, sol);
      }
    }
  }

  /**
   * collectpairs2 with lines 101-103 restored: after a failed recursion the
   * pair's two triangles leave the used set again and the pair leaves the
   * list, and the scan goes on with the next candidate.  The list's own
   * triangles are used ones, so the pair just appended is the only copy of
   * it in the list and col.remove drops the last element; a pair (x, x)
   * would make the second removal raise, so candidates have two triangles.
   */
  method CollectPairsRestoring(cpairs: seq<Pair>, usedtris: set<int>, col: seq<Pair>, count: int)
    returns (res: Option<seq<Pair>>)
    requires forall k :: 0 <= k < |cpairs| ==> cpairs[k].0 != cpairs[k].1
    requires TrisOf(col) <= usedtris
    ensures res == Backtrack(cpairs, usedtris, col, count, 0)
    decreases TrisOf(cpairs) - usedtris
  {
    var used := usedtris;
    var acc := col;
    for n := 0 to |cpairs|
      invariant used == usedtris && acc == col
      invariant Backtrack(cpairs, usedtris, col, count, n) == Backtrack(cpairs, usedtris, col, count, 0)
    {
      var pair := cpairs[n];
      if pair.0 !in used && pair.1 !in used {
        acc := acc + [pair];
        if |acc| == count {
          return Some(acc);
        }
        used := used + {pair.0, pair.1};
        TrisOfContains(cpairs, n);
        assert acc[..|acc| - 1] == col;
        var sub := CollectPairsRestoring(cpairs, used, acc, count);
        if sub.Some? {
          return sub;
        }
        used := used - {pair.0, pair.1};
        acc := acc[..|acc| - 1];
      }
    }
    return None;
  }

  /** The root-triangle table of pairs, each written larger triangle first as the edge list writes it. */
  function TablePairs(): (r: seq<Pair>)
    ensures |r| == |TrianglePairs|
    ensures forall k :: 0 <= k < |r| ==> r[k] == Ordered(TrianglePairs[k])
  {
    seq(|TrianglePairs|, k requires 0 <= k < |TrianglePairs| => Ordered(TrianglePairs[k]))
  }

  /** A pair written larger triangle first. */
  function Ordered(p: Pair): Pair
  {
    if p.0 > p.1 then p else (p.1, p.0)
  }

  /** The table's pairs use no triangle twice. */
  lemma TablePairsDisjoint()
    ensures PairwiseDisjoint(TablePairs())
  {
    var sol := TablePairs();
    PairsPartitionTriangles();
    forall a, b | 0 <= a < b < |sol|
      ensures DisjointPairs(sol[a], sol[b])
    {
    }
  }

  /** Each pair of the table, larger triangle first, is an edge-sharing pair of root triangles. */
  lemma TablePairsShareEdges()
    ensures forall k :: 0 <= k < |TablePairs()| ==>
      0 <= TablePairs()[k].1 < TablePairs()[k].0 < |IcoTris| &&
      |VertexSet(IcoTris[TablePairs()[k].0]) * VertexSet(IcoTris[TablePairs()[k].1])| == 2
  {
    TablesWellFormed();
    PairsShareAnEdge();
    PairsPartitionTriangles();
    forall k | 0 <= k < |TrianglePairs|
      ensures |VertexSet(IcoTris[TrianglePairs[k].1]) * VertexSet(IcoTris[TrianglePairs[k].0])| == 2
    {
      var t := TrianglePairs[k];
      assert VertexSet(IcoTris[t.0]) * VertexSet(IcoTris[t.1]) == VertexSet(IcoTris[t.1]) * VertexSet(IcoTris[t.0]);
    }
  }

  /** Pairs that share an edge, larger triangle first, are all in a list holding every such pair. */
  lemma EdgeSharingListed(tris: seq<seq<int>>, pairs: seq<Pair>, sol: seq<Pair>)
    requires forall i, j :: 0 <= j < i < |tris| && |VertexSet(tris[i]) * VertexSet(tris[j])| == 2 ==> (i, j) in pairs
    requires forall k :: 0 <= k < |sol| ==>
      0 <= sol[k].1 < sol[k].0 < |tris| && |VertexSet(tris[sol[k].0]) * VertexSet(tris[sol[k].1])| == 2
    ensures forall k :: 0 <= k < |sol| ==> sol[k] in pairs
  {
    forall k | 0 <= k < |sol|
      ensures sol[k] in pairs
    {
      assert (sol[k].0, sol[k].1) == sol[k];
    }
  }

  /**
   * The table's ten pairs, in any list holding every edge-sharing pair of
   * root triangles, are ten disjoint candidates: the restored search over
   * such a list finds ten charts.
   */
  lemma RestoredChartsExist(pairs: seq<Pair>)
    requires forall i, j :: 0 <= j < i < |IcoTris| && |VertexSet(IcoTris[i]) * VertexSet(IcoTris[j])| == 2 ==> (i, j) in pairs
    ensures Backtrack(pairs, {}, [], 10, 0).Some?
  {
    TablePairsDisjoint();
    TablePairsShareEdges();
    EdgeSharingListed(IcoTris, pairs, TablePairs());
    assert pairs[0..] == pairs;
    BacktrackComplete(pairs, {}, [], 10, 0, TablePairs());
  }

  /** The script's search for count charts with the removals restored. */
  method FindChartsRestoring(tris: seq<seq<int>>, count: int) returns (pairs: seq<Pair>, col: Option<seq<Pair>>)
    ensures forall k :: 0 <= k < |pairs| ==>
      0 <= pairs[k].1 < pairs[k].0 < |tris| && |VertexSet(tris[pairs[k].0]) * VertexSet(tris[pairs[k].1])| == 2
    ensures forall i, j :: 0 <= j < i < |tris| && |VertexSet(tris[i]) * VertexSet(tris[j])| == 2 ==> (i, j) in pairs
    ensures forall a, b :: 0 <= a < b < |pairs| ==> LexLess(pairs[a], pairs[b])
    ensures col == Backtrack(pairs, {}, [], count, 0)
    ensures col.Some? ==> |col.value| == count && PairwiseDisjoint(col.value)
    ensures col.Some? ==> forall k :: 0 <= k < count ==>
      0 <= col.value[k].1 < col.value[k].0 < |tris| &&
      |VertexSet(tris[col.value[k].0]) * VertexSet(tris[col.value[k].1])| == 2
    ensures col.Some? && 2 * count == |tris| ==> TrisOf(col.value) == Interval(0, |tris|)
  {
    var triset := BuildTriSets(tris);
    pairs := EdgePairs(triset);
    assert TrisOf([]) == {};
    col := CollectPairsRestoring(pairs, {}, [], count);
    BacktrackSound(pairs, {}, [], count, 0);
    if col.Some? {
      assert col.value[0..] == col.value;
      forall k | 0 <= k < count
        ensures 0 <= col.value[k].1 < col.value[k].0 < |tris| &&
          |VertexSet(tris[col.value[k].0]) * VertexSet(tris[col.value[k].1])| == 2
      {
        var m :| 0 <= m < |pairs| && pairs[m] == col.value[k];
      }
      if 2 * count == |tris| {
        PairsPartitionRange(col.value, |tris|);
      }
    }
  }

  /**
   * Line 105 with the removals restored: ten disjoint edge-sharing pairs
   * that together cover all twenty root triangles.
   */
  method ChartsScriptRestoring() returns (col: Option<seq<Pair>>)
    ensures col.Some? && |col.value| == 10 && PairwiseDisjoint(col.value)
    ensures col.Some? ==> forall k :: 0 <= k < 10 ==>
      0 <= col.value[k].1 < col.value[k].0 < |IcoTris| &&
      |VertexSet(IcoTris[col.value[k].0]) * VertexSet(IcoTris[col.value[k].1])| == 2
    ensures col.Some? ==> TrisOf(col.value) == Interval(0, |IcoTris|)
  {
    var pairs;
    pairs, col := FindChartsRestoring(IcoTris, 10);
    RestoredChartsExist(pairs);
  }
}
