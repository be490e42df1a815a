/**
 * The neighbour walk of BuildNormals, on node ids: starting from the first
 * neighbour in a centre's top-level list, step to the first neighbour of the
 * centre (in the centre's list order) that the current node also lists and
 * that is not the node just left, until the walk is back at its start.
 * Positions and the fan sum itself stay symbolic.
 */
module RingWalk {
  import opened Common
  import opened GeoGraph

  /**
   * One step of the walk: the first id of the centre's list lc, in lc's
   * order, that the current node's list lcur also holds and that is not
   * prev; None when there is no such id.
   */
  function NextOnRing(lc: seq<int>, lcur: seq<int>, prev: int): (r: Option<int>)
    ensures r.Some? ==> r.value in lc && r.value in lcur && r.value != prev
    ensures r.None? <==> forall x :: x in lc && x in lcur ==> x == prev
  {
    if lc == [] then None
    else if lc[0] in lcur && lc[0] != prev then Some(lc[0])
    else
      var r := NextOnRing(lc[1..], lcur, prev);
      assert forall x :: x in lc ==> x == lc[0] || x in lc[1..];
      r
  }

  /** The step picks the first qualifying id: the one at position a when a is the first position that qualifies. */
  lemma {:induction false} NextOnRingAt(lc: seq<int>, lcur: seq<int>, prev: int, a: int)
    requires 0 <= a < |lc| && lc[a] in lcur && lc[a] != prev
    requires forall b :: 0 <= b < a ==> !(lc[b] in lcur && lc[b] != prev)
    ensures NextOnRing(lc, lcur, prev) == Some(lc[a])
  {
    if a > 0 {
      NextOnRingAt(lc[1..], lcur, prev, a - 1);
    }
  }

  /** A walk result with the given ids put in front; None stays None. */
  function Then(prefix: seq<int>, o: Option<seq<int>>): (r: Option<seq<int>>)
    ensures r.Some? <==> o.Some?
    ensures r.Some? ==> r.value == prefix + o.value
  {
    match o
    case None => None
    case Some(rest) => Some(prefix + rest)
  }

  /**
   * The ids the walk round centre i at level hl moves to after cur (having
   * come from prev) until it is back at first, or None when fuel steps do
   * not get it there.  A step that finds nothing leaves the walk where it
   * is, so unless it is at first it spins until the fuel is gone.
   */
  function Walk(nodes: seq<GeoNode>, i: int, hl: int, prev: int, cur: int, first: int, fuel: nat): Option<seq<int>>
    requires AdjOk(nodes) && 0 <= i < |nodes| && 0 <= cur < |nodes|
    decreases fuel
  {
    if fuel == 0 then None
    else
      var n := NextOnRing(AdjAt(nodes[i].adjacency, hl), AdjAt(nodes[cur].adjacency, hl), prev);
      if n.None? then
        if cur == first then Some([]) else Walk(nodes, i, hl, prev, cur, first, fuel - 1)
      else if n.value == first then Some([])
      else Then([n.value], Walk(nodes, i, hl, cur, n.value, first, fuel - 1))
  }

  /**
   * The ring BuildNormals fans node i over, given fuel steps: the first
   * neighbour in i's top-level list followed by the ids the walk visits;
   * None when the walk does not close within the fuel.
   */
  function Ring(nodes: seq<GeoNode>, i: int, fuel: nat): Option<seq<int>>
    requires AdjOk(nodes) && 0 <= i < |nodes| && HasTopNeighbours(nodes[i])
  {
    var hl := |nodes[i].adjacency| - 1;
    var first := nodes[i].adjacency[hl][0];
    assert first in AdjAt(nodes[i].adjacency, hl);
    Then([first], Walk(nodes, i, hl, -1, first, first, fuel))
  }

  /**
   * The normal BuildNormals leaves on node i: the sum over the polygon that
   * starts at i itself and runs along its ring (the edge from the ring's
   * last id back to its first is not summed; the polygon returns to i
   * instead), or the old normal when the walk does not close.
   */
  function NormalAfter(nodes: seq<GeoNode>, i: int, fuel: nat): Normal
    requires AdjOk(nodes) && 0 <= i < |nodes| && HasTopNeighbours(nodes[i])
  {
    match Ring(nodes, i, fuel)
    case Some(ring) => FanNormal([i] + ring)
    case None => nodes[i].normal
  }

  /**
   * A path round centre i at level hl: every id after the first is a
   * neighbour of the centre and of the id before it, and differs from
   * the id two places back.
   */
  ghost predicate RingPath(nodes: seq<GeoNode>, i: int, hl: int, prev: int, path: seq<int>)
    requires 0 <= i < |nodes|
  {
    && |path| >= 1
    && (forall k :: 0 <= k < |path| - 1 ==> 0 <= path[k] < |nodes|)
    && (forall k :: 1 <= k < |path| ==>
          path[k] in AdjAt(nodes[i].adjacency, hl) && path[k] in AdjAt(nodes[path[k - 1]].adjacency, hl))
    && (|path| >= 2 ==> path[1] != prev)
    && (forall k :: 2 <= k < |path| ==> path[k] != path[k - 2])
  }

  /** The ids a closing walk passes through, cur included. */
  function Traced(nodes: seq<GeoNode>, i: int, hl: int, prev: int, cur: int, first: int, fuel: nat): (path: seq<int>)
    requires AdjOk(nodes) && 0 <= i < |nodes| && 0 <= cur < |nodes|
    requires Walk(nodes, i, hl, prev, cur, first, fuel).Some?
    ensures |path| >= 1 && path[0] == cur
  {
    [cur] + Walk(nodes, i, hl, prev, cur, first, fuel).value
  }

  /** A path that does not pass first after its start and whose last id is first or lists first as a neighbour at hl. */
  ghost predicate ClosesAt(nodes: seq<GeoNode>, hl: int, path: seq<int>, first: int)
  {
    && |path| >= 1
    && (forall k :: 1 <= k < |path| ==> path[k] != first)
    && 0 <= path[|path| - 1] < |nodes|
    && (path[|path| - 1] == first || first in AdjAt(nodes[path[|path| - 1]].adjacency, hl))
  }

  /** A path from x, entered from cur, extends to a path from cur when x is a neighbour of the centre and of cur and is not prev. */
  lemma RingPathExtend(nodes: seq<GeoNode>, i: int, hl: int, prev: int, cur: int, tail: seq<int>)
    requires 0 <= i < |nodes| && 0 <= cur < |nodes|
    requires RingPath(nodes, i, hl, cur, tail)
    requires tail[0] in AdjAt(nodes[i].adjacency, hl) && tail[0] in AdjAt(nodes[cur].adjacency, hl)
    requires tail[0] != prev
    ensures RingPath(nodes, i, hl, prev, [cur] + tail)
  {
    var path := [cur] + tail;
    forall k | 1 <= k < |path|
      ensures path[k] in AdjAt(nodes[i].adjacency, hl) && path[k] in AdjAt(nodes[path[k - 1]].adjacency, hl)
    {
      assert path[k] == tail[k - 1];
    }
    forall k | 2 <= k < |path|
      ensures path[k] != path[k - 2]
    {
      assert path[k] == tail[k - 1] && path[k - 2] == (if k == 2 then cur else tail[k - 3]);
    }
    assert forall k :: 0 <= k < |path| - 1 ==> path[k] == (if k == 0 then cur else tail[k - 1]);
  }

  /**
   * A walk that closes traces a path from cur round the centre, never
   * passing first on the way, whose last id is first's neighbour or first
   * itself: the ring closes.
   */
  lemma {:induction false} WalkTracesRing(nodes: seq<GeoNode>, i: int, hl: int, prev: int, cur: int, first: int, fuel: nat)
    requires AdjOk(nodes) && 0 <= i < |nodes| && 0 <= cur < |nodes|
    requires Walk(nodes, i, hl, prev, cur, first, fuel).Some?
    ensures RingPath(nodes, i, hl, prev, Traced(nodes, i, hl, prev, cur, first, fuel))
    ensures ClosesAt(nodes, hl, Traced(nodes, i, hl, prev, cur, first, fuel), first)
    decreases fuel
  {
    var n := NextOnRing(AdjAt(nodes[i].adjacency, hl), AdjAt(nodes[cur].adjacency, hl), prev);
    if n.None? {
      if cur != first {
        WalkTracesRing(nodes, i, hl, prev, cur, first, fuel - 1);
      }
    } else if n.value != first {
      var x := n.value;
      WalkTracesRing(nodes, i, hl, cur, x, first, fuel - 1);
      var tail := Traced(nodes, i, hl, cur, x, first, fuel - 1);
      assert Traced(nodes, i, hl, prev, cur, first, fuel) == [cur] + tail;
      RingPathExtend(nodes, i, hl, prev, cur, tail);
    }
  }

  /**
   * The ring of node i closes up: it starts with i's first top-level
   * neighbour, every id in it is a neighbour of i at the top level, each
   * id is a neighbour of the one before it there, the walk never steps
   * straight back, and the last id leads back to the first.
   */
  lemma RingIsClosedFan(nodes: seq<GeoNode>, i: int, fuel: nat)
    requires AdjOk(nodes) && 0 <= i < |nodes| && HasTopNeighbours(nodes[i])
    requires Ring(nodes, i, fuel).Some?
    ensures var hl, ring := |nodes[i].adjacency| - 1, Ring(nodes, i, fuel).value;
      && ring[0] == nodes[i].adjacency[hl][0]
      && (forall k :: 0 <= k < |ring| ==> ring[k] in AdjAt(nodes[i].adjacency, hl))
      && (forall k :: 1 <= k < |ring| ==> ring[k] in AdjAt(nodes[ring[k - 1]].adjacency, hl))
      && (forall k :: 2 <= k < |ring| ==> ring[k] != ring[k - 2])
      && (forall k :: 1 <= k < |ring| ==> ring[k] != ring[0])
      && (|ring| == 1 || ring[0] in AdjAt(nodes[ring[|ring| - 1]].adjacency, hl))
  {
    var hl := |nodes[i].adjacency| - 1;
    var first := nodes[i].adjacency[hl][0];
    assert first in AdjAt(nodes[i].adjacency, hl);
    WalkTracesRing(nodes, i, hl, -1, first, first, fuel);
  }

  /** Putting ids in front of a walk result in two goes is putting them all in front at once. */
  lemma ThenThen(p: seq<int>, q: seq<int>, o: Option<seq<int>>)
    ensures Then(p, Then(q, o)) == Then(p + q, o)
  {
    if o.Some? {
      assert p + (q + o.value) == (p + q) + o.value;
    }
  }

  /**
   * One step of the BuildNormals walk as the source searches for it: run
   * through the centre's list lc in order and, for each id, through the
   * current node's list lcur, stopping at the first id found in both that
   * is not prev.  It finds exactly the step NextOnRing describes.
   */
  method NextRingNode(lc: seq<int>, lcur: seq<int>, prev: int) returns (found: bool, next: int)
    ensures found <==> NextOnRing(lc, lcur, prev).Some?
    ensures found ==> next == NextOnRing(lc, lcur, prev).value
  {
    found, next := false, 0;
    for j := 0 to |lc|
      invariant forall b :: 0 <= b < j ==> !(lc[b] in lcur && lc[b] != prev)
    {
      for k := 0 to |lcur|
        invariant lc[j] != prev ==> lc[j] !in lcur[..k]
      {
        if lc[j] == lcur[k] && lc[j] != prev {
          found, next := true, lc[j];
          NextOnRingAt(lc, lcur, prev, j);
          return;
        }
      }
      assert lcur[..|lcur|] == lcur;
    }
  }

  /**
   * The walk BuildNormals makes round node i, stopped after fuel steps:
   * closed tells whether it got back to its first id, and then ring holds
   * the ids it passed, as Ring describes.  Symmetric neighbour lists make
   * every id on the walk have a list at i's top level.
   */
  method TraceRing(nodes: seq<GeoNode>, i: int, fuel: nat) returns (closed: bool, ring: seq<int>)
    requires AdjOk(nodes) && AdjSymmetric(nodes) && 0 <= i < |nodes| && HasTopNeighbours(nodes[i])
    ensures closed <==> Ring(nodes, i, fuel).Some?
    ensures closed ==> ring == Ring(nodes, i, fuel).value
  {
    var hl := |nodes[i].adjacency| - 1;
    var icurrent := -1;
    var inext := nodes[i].adjacency[hl][0];
    var ifirst := inext;
    assert ifirst in AdjAt(nodes[i].adjacency, hl);
    ring := [ifirst];
    ghost var w0 := Walk(nodes, i, hl, -1, ifirst, ifirst, fuel);
    assert w0.Some? ==> [] + w0.value == w0.value;
    closed := false;
    var steps := 0;
    while steps < fuel
      invariant 0 <= steps <= fuel && !closed
      invariant inext in AdjAt(nodes[i].adjacency, hl) && 0 <= inext < |nodes|
      invariant |ring| >= 1 && ring[0] == ifirst
      invariant Walk(nodes, i, hl, -1, ifirst, ifirst, fuel)
        == Then(ring[1..], Walk(nodes, i, hl, icurrent, inext, ifirst, fuel - steps))
      decreases fuel - steps
    {
      assert i in AdjAt(nodes[inext].adjacency, hl);
      ghost var w := Walk(nodes, i, hl, icurrent, inext, ifirst, fuel - steps);
      var found, next := NextRingNode(nodes[i].adjacency[hl], nodes[inext].adjacency[hl], icurrent);
      if found {
        icurrent, inext := inext, next;
      }
      steps := steps + 1;
      if inext == ifirst {
        closed := true;
        assert w == Some([]);
        break;
      }
      if found {
        ThenThen(ring[1..], [inext], Walk(nodes, i, hl, icurrent, inext, ifirst, fuel - steps));
        assert (ring + [inext])[1..] == ring[1..] + [inext];
        ring := ring + [inext];
      }
    }
  }
}
