/** Small value types shared by the other modules. */
module Common {

  /** An optional value, for the source's -1 / None results. */
  datatype Option<T> = None | Some(value: T)

  /** Strictly increasing: sorted and free of duplicates. */
  predicate StrictlySorted(s: seq<int>)
  {
    forall a, b :: 0 <= a < b < |s| ==> s[a] < s[b]
  }

  /** The integers from lo up to hi, hi excluded. */
  function Interval(lo: int, hi: int): (r: set<int>)
    ensures forall j :: j in r <==> lo <= j < hi
    ensures lo <= hi ==> |r| == hi - lo
    decreases hi - lo
  {
    if lo >= hi then {} else {lo} + Interval(lo + 1, hi)
  }
}
