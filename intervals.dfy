/**
 * The value types of the gridline engine: interval lists built from edge
 * positions, range entries describing a category of interval lengths, and
 * labelled ("combined") lists.
 */
module Intervals {
  import opened GoNum
  import opened Seqs

  /**
   * Segment lengths along one image axis. The source's `TotalCount` field is
   * the number of segments, which is how the constructor below sets it.
   */
  datatype IntervalList = IntervalList(intervals: seq<nat>, totalCount: int)

  /** What every list built by `IntervalListFromSortedEdgeIndexes` satisfies. */
  predicate WellFormed(l: IntervalList)
  {
    l.totalCount == |l.intervals|
  }

  /**
   * A category of interval lengths: inclusive bounds [lo, hi], the number of
   * interior intervals whose length falls inside them, and their mean length.
   */
  datatype RangeEntry = RangeEntry(lo: int, hi: int, count: nat, mean: real)

  /** The sentinel entry meaning "no such category": bounds [0,0], count 0, mean 0. */
  function ZeroRangeEntry(): (e: RangeEntry)
    ensures e.lo == 0 && e.hi == 0 && e.count == 0 && e.mean == 0.0
  {
    RangeEntry(0, 0, 0, 0.0)
  }

  /** The type of a labelled interval. */
  datatype Label = Pixel | Grid | Unknown

  /** The `uint8` code the source stores for each label. */
  function Code(t: Label): (c: nat)
    ensures c <= 2
  {
    match t
    case Pixel => 0
    case Grid => 1
    case Unknown => 2
  }

  /** Interval lengths with a parallel sequence of their labels. */
  datatype CombinedList = CombinedList(intervals: seq<nat>, types: seq<Label>)

  predicate Parallel(c: CombinedList)
  {
    |c.intervals| == |c.types|
  }

  /** Position of boundary `i` of the axis: -1 is the start, |edges| the end. */
  function Boundary(edges: seq<int>, dimLength: int, i: int): int
    requires -1 <= i <= |edges|
  {
    if i == -1 then 0 else if i == |edges| then dimLength else edges[i]
  }

  /** Interval i is the distance between boundaries i-1 and i, converted to `uint`. */
  function EdgeGaps(edges: seq<int>, dimLength: int): (r: seq<nat>)
    ensures |r| == |edges| + 1
  {
    seq(|edges| + 1, i requires 0 <= i <= |edges| =>
      ToUint(Boundary(edges, dimLength, i) - Boundary(edges, dimLength, i - 1)))
  }

  /** Edge positions sorted ascending inside [0, dimLength]. */
  predicate SortedWithin(edges: seq<int>, dimLength: int)
  {
    && 0 <= dimLength
    && (forall i, j :: 0 <= i < j < |edges| ==> edges[i] <= edges[j])
    && (forall i :: 0 <= i < |edges| ==> 0 <= edges[i] <= dimLength)
  }

  /** types.IntervalListFromSortedEdgeIndexes */
  method IntervalListFromSortedEdgeIndexes(edgeIndexes: seq<int>, dimLength: int) returns (r: IntervalList)
    ensures r.totalCount == |edgeIndexes| + 1 && WellFormed(r)
    ensures r.intervals == EdgeGaps(edgeIndexes, dimLength)
  {
    var newLength := |edgeIndexes| + 1;
    var data := new nat[newLength];
    var accumulated := 0;
    for i := 0 to |edgeIndexes|
      invariant accumulated == Boundary(edgeIndexes, dimLength, i - 1)
      invariant forall k :: 0 <= k < i ==> data[k] == EdgeGaps(edgeIndexes, dimLength)[k]
    {
      data[i] := ToUint(edgeIndexes[i] - accumulated);
      assert data[i] == EdgeGaps(edgeIndexes, dimLength)[i];
      accumulated := edgeIndexes[i];
    }
    data[newLength - 1] := ToUint(dimLength - accumulated);
    r := IntervalList(data[..], newLength);
  }

  /** For sorted edges inside the axis, no conversion wraps: each interval is the exact gap. */
  lemma GapsExact(edges: seq<int>, dimLength: int, i: int)
    requires SortedWithin(edges, dimLength) && dimLength < TwoTo64
    requires 0 <= i <= |edges|
    ensures EdgeGaps(edges, dimLength)[i] == Boundary(edges, dimLength, i) - Boundary(edges, dimLength, i - 1)
  {
    var d := Boundary(edges, dimLength, i) - Boundary(edges, dimLength, i - 1);
    if 0 < i < |edges| {
      assert edges[i - 1] <= edges[i];
    }
    assert 0 <= d < TwoTo64;
  }

  /** The first k intervals add up to the position of boundary k-1. */
  lemma {:induction false} GapsPrefixSum(edges: seq<int>, dimLength: int, k: nat)
    requires SortedWithin(edges, dimLength) && dimLength < TwoTo64
    requires k <= |edges| + 1
    ensures Sum(EdgeGaps(edges, dimLength)[..k]) == Boundary(edges, dimLength, k - 1)
  {
    var g := EdgeGaps(edges, dimLength);
    if k > 0 {
      GapsPrefixSum(edges, dimLength, k - 1);
      assert g[..k][..k - 1] == g[..k - 1];
      GapsExact(edges, dimLength, k - 1);
    }
  }

  /** For sorted edges inside the axis, the intervals add up to its length. */
  lemma GapsSumToLength(edges: seq<int>, dimLength: int)
    requires SortedWithin(edges, dimLength) && dimLength < TwoTo64
    ensures Sum(EdgeGaps(edges, dimLength)) == dimLength
  {
    var g := EdgeGaps(edges, dimLength);
    GapsPrefixSum(edges, dimLength, |edges| + 1);
    assert g[..|edges| + 1] == g;
  }

  /** The first interval runs from the axis start, the last one up to its end. */
  lemma GapsEnds(edges: seq<int>, dimLength: int)
    ensures |edges| > 0 ==> EdgeGaps(edges, dimLength)[0] == ToUint(edges[0])
    ensures |edges| > 0 ==> EdgeGaps(edges, dimLength)[|edges|] == ToUint(dimLength - edges[|edges| - 1])
    ensures |edges| == 0 ==> EdgeGaps(edges, dimLength) == [ToUint(dimLength)]
  {
  }

  /** Every other interval is the difference of two consecutive edges. */
  lemma GapsInterior(edges: seq<int>, dimLength: int)
    ensures forall i :: 0 < i < |edges| ==> EdgeGaps(edges, dimLength)[i] == ToUint(edges[i] - edges[i - 1])
  {
  }

  /** The example from the source's documentation: 16 pixels cut at 4, 7 and 12. */
  lemma GapsExample()
    ensures EdgeGaps([4, 7, 12], 16) == [4, 3, 5, 4]
  {
  }
}
