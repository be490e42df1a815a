/**
 * The intermediate mesh of one region: a sorted, duplicate-free list of the
 * global node ids it uses, and the list of triangle corners, first as
 * global ids and, once indexed, as positions in the id list.
 */
module GeoMesh {
  import opened Common

  /** The insertion point of x in s: the number of elements of s below x. */
  function InsertionPoint(s: seq<int>, x: int): (ip: nat)
    requires StrictlySorted(s)
    ensures ip <= |s|
    ensures forall k :: 0 <= k < ip ==> s[k] < x
    ensures forall k :: ip <= k < |s| ==> s[k] >= x
  {
    if s == [] || s[0] >= x then 0 else 1 + InsertionPoint(s[1..], x)
  }

  /** The insertion point is the only split of s into a part below x and a part from x on. */
  lemma {:induction false} InsertionPointUnique(s: seq<int>, x: int, p: int)
    requires StrictlySorted(s) && 0 <= p <= |s|
    requires forall k :: 0 <= k < p ==> s[k] < x
    requires forall k :: p <= k < |s| ==> s[k] >= x
    ensures p == InsertionPoint(s, x)
  {
    if s != [] && s[0] < x {
      InsertionPointUnique(s[1..], x, p - 1);
    }
  }

  /**
   * List.BinarySearch on a sorted list: the index of x when present,
   * otherwise the bitwise complement (-p - 1) of the insertion point p.
   */
  method BinarySearch(s: seq<int>, x: int) returns (r: int)
    requires StrictlySorted(s)
    ensures 0 <= r ==> r < |s| && s[r] == x
    ensures r < 0 ==> x !in s && -r - 1 == InsertionPoint(s, x)
    ensures x in s ==> 0 <= r
  {
    var lo, hi := 0, |s| - 1;
    while lo <= hi
      invariant 0 <= lo <= |s| && -1 <= hi < |s| && lo <= hi + 1
      invariant forall k :: 0 <= k < lo ==> s[k] < x
      invariant forall k :: hi < k < |s| ==> s[k] > x
    {
      var mid := lo + (hi - lo) / 2;
      if s[mid] == x {
        return mid;
      } else if s[mid] < x {
        lo := mid + 1;
      } else {
        hi := mid - 1;
      }
    }
    InsertionPointUnique(s, x, lo);
    return -lo - 1;
  }

  /** s with x put in at position p. */
  function Inserted(s: seq<int>, x: int, p: int): (r: seq<int>)
    requires 0 <= p <= |s|
    ensures |r| == |s| + 1 && r[p] == x
    ensures forall k :: 0 <= k < p ==> r[k] == s[k]
    ensures forall k :: p < k < |r| ==> r[k] == s[k - 1]
  {
    s[..p] + [x] + s[p..]
  }

  /** Putting a missing x in at its insertion point keeps the list sorted and adds exactly x. */
  lemma InsertAt(s: seq<int>, x: int, p: int)
    requires StrictlySorted(s) && x !in s && 0 <= p <= |s| && p == InsertionPoint(s, x)
    ensures StrictlySorted(Inserted(s, x, p))
    ensures forall y :: y in Inserted(s, x, p) <==> y in s || y == x
  {
    var r := Inserted(s, x, p);
    forall a, b | 0 <= a < b < |r|
      ensures r[a] < r[b]
    {
      if b < p {
        assert s[a] < s[b];
      } else if a > p {
        assert s[a - 1] < s[b - 1];
      } else if b > p {
        assert s[b - 1] in s;
      }
    }
    assert r == s[..p] + [x] + s[p..] && s == s[..p] + s[p..];
  }

  /** TMutableGeoMesh. */
  class MutableGeoMesh {
    /** The distinct global node ids, ascending. */
    var indexes: seq<int>
    /** Triangle corners, three per triangle: global ids, then local indices once indexed. */
    var triangles: seq<int>

    ghost predicate Valid()
      reads this
    {
      StrictlySorted(indexes)
    }

    /** Every corner is still a global id that occurs in the id list. */
    ghost predicate CornersListed()
      reads this
    {
      forall t :: 0 <= t < |triangles| ==> triangles[t] in indexes
    }

    constructor ()
      ensures Valid() && indexes == [] && triangles == []
    {
      indexes := [];
      triangles := [];
    }

    /**
     * Records one triangle corner: the id joins the sorted list unless it is
     * already there, and is appended to the corners.
     */
    method AddVertex(nodeIndex: int)
      requires Valid()
      modifies this
      ensures Valid()
      ensures forall x :: x in indexes <==> x in old(indexes) || x == nodeIndex
      ensures |indexes| == if nodeIndex in old(indexes) then old(|indexes|) else old(|indexes|) + 1
      ensures triangles == old(triangles) + [nodeIndex]
      ensures old(CornersListed()) ==> CornersListed()
    {
      if |indexes| == 0 {
        indexes := indexes + [nodeIndex];
      } else {
        var subIndex := BinarySearch(indexes, nodeIndex);
        if subIndex < 0 {
          subIndex := -subIndex - 1;
          InsertAt(indexes, nodeIndex, subIndex);
          indexes := Inserted(indexes, nodeIndex, subIndex);
        }
      }
      triangles := triangles + [nodeIndex];
    }

    /**
     * Rewrites every corner as its position in the id list; a corner that is
     * not listed becomes the complement of its insertion point.
     */
    method IndexTriangles()
      requires Valid()
      modifies this
      ensures Valid() && indexes == old(indexes)
      ensures |triangles| == old(|triangles|)
      ensures forall t :: 0 <= t < |triangles| && old(triangles[t]) in indexes ==>
        0 <= triangles[t] < |indexes| && indexes[triangles[t]] == old(triangles[t])
      ensures forall t :: 0 <= t < |triangles| && old(triangles[t]) !in indexes ==>
        triangles[t] == -(InsertionPoint(indexes, old(triangles[t])) as int) - 1
    {
      for i := 0 to |triangles|
        invariant indexes == old(indexes) && |triangles| == old(|triangles|)
        invariant forall t :: i <= t < |triangles| ==> triangles[t] == old(triangles[t])
        invariant forall t :: 0 <= t < i && old(triangles[t]) in indexes ==>
          0 <= triangles[t] < |indexes| && indexes[triangles[t]] == old(triangles[t])
        invariant forall t :: 0 <= t < i && old(triangles[t]) !in indexes ==>
          triangles[t] == -(InsertionPoint(indexes, old(triangles[t])) as int) - 1
      {
        var r := BinarySearch(indexes, triangles[i]);
        triangles := triangles[i := r];
      }
    }
  }
}
