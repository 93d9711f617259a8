/**
 * The arrangement side of the gridline guesser (gridlines/guess.go): boolean
 * lookups over the interior intervals, the lengths of their runs of `true`,
 * the sums that turn runs into scores, the alignment test for double-sized
 * intervals and the squashing of [1,1] pairs.
 */
module GuessRuns {
  import opened GoNum
  import opened Seqs

  /** Inclusive range bounds, the source's `[2]int`. */
  datatype Bounds = Bounds(lo: int, hi: int)

  predicate InBounds(v: int, b: Bounds)
  {
    b.lo <= v <= b.hi
  }

  /** Entry i tells whether interval i lies in the bounds. */
  function BelongsLookup(s: seq<nat>, b: Bounds): (r: seq<bool>)
    ensures |r| == |s|
    ensures forall i :: 0 <= i < |s| ==> (r[i] <==> InBounds(s[i], b))
  {
    seq(|s|, i requires 0 <= i < |s| => InBounds(s[i], b))
  }

  /** candidateBelongsLookup */
  method CandidateBelongsLookup(s: seq<nat>, b: Bounds) returns (lookup: seq<bool>)
    ensures lookup == BelongsLookup(s, b)
  {
    var a := new bool[|s|](_ => false);
    for i := 0 to |s|
      invariant forall k :: 0 <= k < i ==> a[k] == InBounds(s[k], b)
    {
      a[i] := s[i] as int >= b.lo && s[i] as int <= b.hi;
    }
    lookup := a[..];
  }

  /** Adjacent pair i is one interval of each of the two bounds, in either order. */
  predicate AlternatingPair(left: int, right: int, first: Bounds, second: Bounds)
  {
    (InBounds(left, first) && InBounds(right, second)) || (InBounds(left, second) && InBounds(right, first))
  }

  function AlternatingLookup(s: seq<nat>, first: Bounds, second: Bounds): (r: seq<bool>)
    requires |s| >= 1
    ensures |r| == |s| - 1
  {
    seq(|s| - 1, i requires 0 <= i < |s| - 1 => AlternatingPair(s[i], s[i + 1], first, second))
  }

  /** Adjacent pair i is two intervals in the bounds, or one in the bounds and a 1. */
  predicate WithOnePair(left: int, right: int, b: Bounds)
  {
    (InBounds(left, b) && InBounds(right, b)) || (left == 1 && InBounds(right, b)) || (right == 1 && InBounds(left, b))
  }

  function WithOneLookup(s: seq<nat>, b: Bounds): (r: seq<bool>)
    requires |s| >= 1
    ensures |r| == |s| - 1
  {
    seq(|s| - 1, i requires 0 <= i < |s| - 1 => WithOnePair(s[i], s[i + 1], b))
  }

  /** The number of `true` entries ending just before position n. */
  function TrailingTrue(bs: seq<bool>, n: nat): (k: nat)
    requires n <= |bs|
    ensures k <= n
    ensures forall i :: n - k <= i < n ==> bs[i]
    ensures k < n ==> !bs[n - k - 1]
  {
    if n == 0 || !bs[n - 1] then 0 else TrailingTrue(bs, n - 1) + 1
  }

  /** The lengths of the maximal runs of `true` in the first n entries, left to right. */
  function Runs(bs: seq<bool>, n: nat): seq<nat>
    requires n <= |bs|
  {
    if n == 0 then []
    else if !bs[n - 1] then Runs(bs, n - 1)
    else Runs(bs, n - TrailingTrue(bs, n)) + [TrailingTrue(bs, n)]
  }

  function RunLengths(bs: seq<bool>): seq<nat>
  {
    Runs(bs, |bs|)
  }

  /** Every run is non-empty and the runs together hold every `true`. */
  lemma {:induction false} RunsSum(bs: seq<bool>, n: nat)
    requires n <= |bs|
    ensures forall i :: 0 <= i < |Runs(bs, n)| ==> Runs(bs, n)[i] >= 1
    ensures Sum(Runs(bs, n)) == CountTrue(bs[..n])
  {
    if n > 0 {
      assert bs[..n][..n - 1] == bs[..n - 1];
      if !bs[n - 1] {
        RunsSum(bs, n - 1);
      } else {
        var k := TrailingTrue(bs, n);
        RunsSum(bs, n - k);
        SumConcat(Runs(bs, n - k), [k]);
        SumSingleton(k);
        TrailingCount(bs, n);
      }
    }
  }

  /** The trailing run of `true` before n adds its length to the count. */
  lemma TrailingCount(bs: seq<bool>, n: nat)
    requires n <= |bs|
    ensures CountTrue(bs[..n]) == CountTrue(bs[..n - TrailingTrue(bs, n)]) + TrailingTrue(bs, n)
  {
    var k := TrailingTrue(bs, n);
    assert bs[..n] == bs[..n - k] + bs[n - k..n];
    CountTrueConcat(bs[..n - k], bs[n - k..n]);
    AllTrueCount(bs[n - k..n]);
  }

  lemma RunLengthsSum(bs: seq<bool>)
    ensures forall i :: 0 <= i < |RunLengths(bs)| ==> RunLengths(bs)[i] >= 1
    ensures Sum(RunLengths(bs)) == CountTrue(bs)
  {
    RunsSum(bs, |bs|);
    assert bs[..|bs|] == bs;
  }

  lemma {:induction false} AllTrueCount(bs: seq<bool>)
    requires forall i :: 0 <= i < |bs| ==> bs[i]
    ensures CountTrue(bs) == |bs|
    decreases |bs|
  {
    if |bs| > 0 {
      AllTrueCount(bs[..|bs| - 1]);
    }
  }

  /** An all-true lookup is a single run. */
  lemma RunLengthsAllTrue(bs: seq<bool>)
    requires |bs| > 0 && forall i :: 0 <= i < |bs| ==> bs[i]
    ensures RunLengths(bs) == [|bs|]
  {
    assert TrailingTrue(bs, |bs|) == |bs|;
    assert Runs(bs, 0) == [];
  }

  /** How the runs grow when entry n is read. */
  lemma RunsStep(bs: seq<bool>, n: nat)
    requires n < |bs|
    ensures !bs[n] ==> Runs(bs, n + 1) == Runs(bs, n)
    ensures bs[n] && (n == 0 || !bs[n - 1]) ==> Runs(bs, n + 1) == Runs(bs, n) + [1]
    ensures bs[n] && n > 0 && bs[n - 1] ==>
      |Runs(bs, n)| > 0 &&
      Runs(bs, n + 1) == Runs(bs, n)[..|Runs(bs, n)| - 1] + [TrailingTrue(bs, n) + 1]
  {
    if bs[n] {
      var k := TrailingTrue(bs, n);
      assert TrailingTrue(bs, n + 1) == k + 1;
      if k > 0 {
        assert Runs(bs, n) == Runs(bs, n - k) + [k];
      }
    }
  }

  /** consecutiveTrueRunlengths */
  method ConsecutiveTrueRunlengths(slice: seq<bool>) returns (runlengths: seq<nat>)
    ensures runlengths == RunLengths(slice)
  {
    runlengths := [];
    var previousBelongs := false;
    var runlengthCount: nat := 0;
    for k := 0 to |slice|
      invariant previousBelongs == (k > 0 && slice[k - 1])
      invariant previousBelongs ==> runlengthCount == TrailingTrue(slice, k)
      invariant !previousBelongs ==> runlengthCount == 0
      invariant Runs(slice, k) == if previousBelongs then runlengths + [runlengthCount] else runlengths
    {
      RunsStep(slice, k);
      if !slice[k] {
        if previousBelongs {
          runlengths := runlengths + [runlengthCount];
        }
        previousBelongs := false;
        runlengthCount := 0;
        continue;
      }
      previousBelongs := true;
      runlengthCount := runlengthCount + 1;
    }
    if previousBelongs {
      runlengths := runlengths + [runlengthCount];
    }
  }

  /** alternatingCandidatesRunlengths */
  method AlternatingCandidatesRunlengths(s: seq<nat>, first: Bounds, second: Bounds) returns (runlengths: seq<nat>)
    requires |s| >= 1
    ensures runlengths == RunLengths(AlternatingLookup(s, first, second))
  {
    var lookupSize := |s| - 1;
    var lookup := new bool[lookupSize](_ => false);
    for i := 0 to lookupSize
      invariant forall k :: 0 <= k < i ==> lookup[k] == AlternatingPair(s[k], s[k + 1], first, second)
    {
      var left, right := s[i] as int, s[i + 1] as int;
      var leftBelongsToFirst := first.lo <= left && left <= first.hi;
      var rightBelongsToFirst := first.lo <= right && right <= first.hi;
      var leftBelongsToSecond := second.lo <= left && left <= second.hi;
      var rightBelongsToSecond := second.lo <= right && right <= second.hi;
      lookup[i] := (leftBelongsToFirst && rightBelongsToSecond) || (leftBelongsToSecond && rightBelongsToFirst);
    }
    assert lookup[..] == AlternatingLookup(s, first, second);
    runlengths := ConsecutiveTrueRunlengths(lookup[..]);
  }

  /** singleCandidateWithOneRunlengths */
  method SingleCandidateWithOneRunlengths(s: seq<nat>, b: Bounds) returns (runlengths: seq<nat>)
    requires |s| >= 1
    ensures runlengths == RunLengths(WithOneLookup(s, b))
  {
    var lookupSize := |s| - 1;
    var lookup := new bool[lookupSize](_ => false);
    for i := 0 to lookupSize
      invariant forall k :: 0 <= k < i ==> lookup[k] == WithOnePair(s[k], s[k + 1], b)
    {
      var left, right := s[i] as int, s[i + 1] as int;
      var leftBelongs := b.lo <= left && left <= b.hi;
      var rightBelongs := b.lo <= right && right <= b.hi;
      lookup[i] := (leftBelongs && rightBelongs) || (left == 1 && rightBelongs) || (right == 1 && leftBelongs);
    }
    assert lookup[..] == WithOneLookup(s, b);
    runlengths := ConsecutiveTrueRunlengths(lookup[..]);
  }

  /** singleCandidateRunlengths */
  method SingleCandidateRunlengths(s: seq<nat>, b: Bounds) returns (runlengths: seq<nat>)
    ensures runlengths == RunLengths(BelongsLookup(s, b))
  {
    var lookup := CandidateBelongsLookup(s, b);
    runlengths := ConsecutiveTrueRunlengths(lookup);
  }

  /** The sum of the entries strictly above the cutoff. */
  function SumAbove(s: seq<int>, cutoff: int): int
  {
    if |s| == 0 then 0
    else SumAbove(s[..|s| - 1], cutoff) + (if s[|s| - 1] > cutoff then s[|s| - 1] else 0)
  }

  /** Raising the cutoff only drops entries; with every entry above it, the sum is the plain sum. */
  lemma {:induction false} SumAboveMonotone(s: seq<int>, c1: int, c2: int)
    requires c1 <= c2
    requires forall i :: 0 <= i < |s| ==> s[i] >= 0
    ensures 0 <= SumAbove(s, c2) <= SumAbove(s, c1)
    ensures (forall i :: 0 <= i < |s| ==> s[i] > c1) ==> SumAbove(s, c1) == Sum(s)
    decreases |s|
  {
    if |s| > 0 {
      SumAboveMonotone(s[..|s| - 1], c1, c2);
    }
  }

  /** sumLargerThan */
  method SumLargerThan(slice: seq<int>, cutoff: int) returns (sum: int)
    ensures sum == SumAbove(slice, cutoff)
  {
    sum := 0;
    for k := 0 to |slice|
      invariant sum == SumAbove(slice[..k], cutoff)
    {
      assert slice[..k + 1][..k] == slice[..k];
      if slice[k] > cutoff {
        sum := sum + slice[k];
      }
    }
    assert slice[..|slice|] == slice;
  }

  /** sliceSumU; interval sums stay far below 2^64, so no wrap is modelled. */
  method SliceSumU(slice: seq<nat>) returns (sum: nat)
    ensures sum == Sum(slice)
  {
    sum := 0;
    for k := 0 to |slice|
      invariant sum == Sum(slice[..k])
    {
      assert slice[..k + 1][..k] == slice[..k];
      sum := sum + slice[k];
    }
    assert slice[..|slice|] == slice;
  }

  /**
   * The score of a run-length list: runs longer than one in full, and half of
   * the single-pair runs (integer division).
   */
  function RunScore(runs: seq<nat>): int
  {
    SumAbove(runs, 1) + (SumAbove(runs, 0) - SumAbove(runs, 1)) / 2
  }

  /** The score lies between the long-run sum and the number of matching pairs. */
  lemma RunScoreBounds(lookup: seq<bool>)
    ensures 0 <= SumAbove(RunLengths(lookup), 1) <= RunScore(RunLengths(lookup)) <= CountTrue(lookup)
  {
    var runs := RunLengths(lookup);
    RunLengthsSum(lookup);
    SumAboveMonotone(runs, 0, 1);
  }

  /** The index of every `true` entry among the first n, in increasing order. */
  function TrueIndexesTo(bs: seq<bool>, n: nat): (r: seq<int>)
    requires n <= |bs|
    ensures forall k :: 0 <= k < |r| ==> 0 <= r[k] < n && bs[r[k]]
    ensures forall j, k :: 0 <= j < k < |r| ==> r[j] < r[k]
  {
    if n == 0 then []
    else
      var p := TrueIndexesTo(bs, n - 1);
      if bs[n - 1] then p + [n - 1] else p
  }

  function TrueIndexes(bs: seq<bool>): (r: seq<int>)
  {
    TrueIndexesTo(bs, |bs|)
  }

  /** Every `true` entry is listed. */
  lemma {:induction false} TrueIndexesComplete(bs: seq<bool>, n: nat, i: int)
    requires n <= |bs| && 0 <= i < n && bs[i]
    ensures i in TrueIndexesTo(bs, n)
  {
    if i < n - 1 {
      TrueIndexesComplete(bs, n - 1, i);
    }
  }

  /** indexesOfTrue */
  method IndexesOfTrue(slice: seq<bool>) returns (result: seq<int>)
    ensures result == TrueIndexes(slice)
  {
    result := [];
    for i := 0 to |slice|
      invariant result == TrueIndexesTo(slice, i)
    {
      if slice[i] {
        result := result + [i];
      }
    }
  }

  /**
   * A gap of total length `gap` between two candidate intervals is misaligned
   * when gap/mean has a fractional part in [0.2, 0.8]. A zero mean makes the
   * source's float quotient infinite or NaN, and every comparison false.
   */
  predicate Misaligned(gap: nat, mean: real)
  {
    if mean == 0.0 then false
    else
      var x := gap as real / mean;
      var f := x - Floor(x) as real;
      0.2 <= f <= 0.8
  }

  /** Sum of the intervals strictly between interior positions i and j. */
  function GapBetween(s: seq<nat>, i: int, j: int): nat
    requires 0 <= i < j <= |s|
  {
    var g := Sum(s[i + 1..j]);
    SumNonNegative(s[i + 1..j]);
    g
  }

  /** Every gap between consecutive candidate intervals is close to a multiple of the mean. */
  predicate Aligned(s: seq<nat>, b: Bounds, mean: real)
  {
    var idx := TrueIndexes(BelongsLookup(s, b));
    forall k :: 1 <= k < |idx| ==> !Misaligned(GapBetween(s, idx[k - 1], idx[k]), mean)
  }

  /** isDoubleSizedIntervalAligned, on the interior intervals. */
  method IsDoubleSizedIntervalAligned(s: seq<nat>, b: Bounds, mean: real) returns (aligned: bool)
    ensures aligned == Aligned(s, b, mean)
  {
    var belongment := CandidateBelongsLookup(s, b);
    var indexesTrue := IndexesOfTrue(belongment);
    var i := 1;
    while i < |indexesTrue|
      invariant 1 <= i
      invariant forall k :: 1 <= k < i && k < |indexesTrue| ==>
        !Misaligned(GapBetween(s, indexesTrue[k - 1], indexesTrue[k]), mean)
    {
      var leftId, rightId := indexesTrue[i - 1], indexesTrue[i];
      var totalSegmentLength := SliceSumU(s[leftId + 1..rightId]);
      if mean != 0.0 {
        var exact := totalSegmentLength as real / mean;
        var truncated := exact - Floor(exact) as real;
        if truncated >= 0.2 && truncated <= 0.8 {
          assert Misaligned(GapBetween(s, leftId, rightId), mean);
          return false;
        }
      }
      i := i + 1;
    }
    return true;
  }

  lemma IndexesExampleA()
    ensures TrueIndexes([true, false, true, true]) == [0, 2, 3]
  {
    var l := [true, false, true, true];
    assert TrueIndexesTo(l, 0) == [];
    assert TrueIndexesTo(l, 1) == [0];
    assert TrueIndexesTo(l, 2) == [0];
    assert TrueIndexesTo(l, 3) == [0] + [2] == [0, 2];
    assert TrueIndexesTo(l, 4) == [0, 2] + [3] == [0, 2, 3];
  }

  lemma IndexesExampleB()
    ensures TrueIndexes([true, false, false, false, false, true]) == [0, 5]
  {
    var l := [true, false, false, false, false, true];
    assert TrueIndexesTo(l, 0) == [];
    assert TrueIndexesTo(l, 1) == [0];
    FalseRunSkipped(l, 1, 5);
    assert TrueIndexesTo(l, 6) == [0] + [5] == [0, 5];
  }

  /** A run of `false` entries adds no index. */
  lemma {:induction false} FalseRunSkipped(bs: seq<bool>, lo: nat, hi: nat)
    requires lo <= hi <= |bs|
    requires forall k :: lo <= k < hi ==> !bs[k]
    ensures TrueIndexesTo(bs, hi) == TrueIndexesTo(bs, lo)
    decreases hi
  {
    if lo < hi {
      FalseRunSkipped(bs, lo, hi - 1);
    }
  }

  /** The source's first example: a lone 4 between two 8s breaks the alignment. */
  lemma MisalignedExample()
    ensures !Aligned([8, 4, 8, 8], Bounds(8, 8), 8.0)
  {
    var s1: seq<nat> := [8, 4, 8, 8];
    assert s1[1..2] == [4] && [4][..0] == [];
    assert GapBetween(s1, 0, 2) == 4;
    assert Floor(4.0 / 8.0) == 0;
    assert Misaligned(4, 8.0);
    var l1 := [true, false, true, true];
    assert BelongsLookup(s1, Bounds(8, 8)) == l1;
    IndexesExampleA();
    var idx := TrueIndexes(BelongsLookup(s1, Bounds(8, 8)));
    assert idx[0] == 0 && idx[1] == 2;
    assert Misaligned(GapBetween(s1, idx[0], idx[1]), 8.0);
  }

  /** The source's second example: 4, 4, 3, 4 add up to 15, close to twice 8. */
  lemma AlignedExample()
    ensures Aligned([8, 4, 4, 3, 4, 8], Bounds(8, 8), 8.0)
  {
    var s2: seq<nat> := [8, 4, 4, 3, 4, 8];
    assert s2[1..5] == [4, 4, 3, 4];
    assert [4, 4, 3, 4][..3] == [4, 4, 3] && [4, 4, 3][..2] == [4, 4] && [4, 4][..1] == [4] && [4][..0] == [];
    assert GapBetween(s2, 0, 5) == 15;
    assert Floor(15.0 / 8.0) == 1;
    assert !Misaligned(15, 8.0);
    var l2 := [true, false, false, false, false, true];
    assert BelongsLookup(s2, Bounds(8, 8)) == l2;
    IndexesExampleB();
  }

  /** The squash window at i: two 1s with an in-bounds interval on each side. */
  predicate SquashHit(s: seq<nat>, b: Bounds, i: int)
    requires 1 <= i && i + 2 < |s|
  {
    s[i] == 1 && s[i + 1] == 1 && InBounds(s[i - 1], b) && InBounds(s[i + 2], b)
  }

  /** The output from window position i on: a hit emits 2 and skips one position. */
  function SquashFrom(s: seq<nat>, b: Bounds, i: nat): (r: seq<nat>)
    requires 1 <= i <= |s|
    ensures |r| <= |s| - i
    ensures i < |s| ==> |r| >= 1
    decreases |s| - i
  {
    if i >= |s| - 2 then s[i..]
    else if SquashHit(s, b, i) then [2] + SquashFrom(s, b, i + 2)
    else [s[i]] + SquashFrom(s, b, i + 1)
  }

  /** squashSurroundedDoubleOnesIntervals as a value: lists shorter than 4 are copied. */
  function Squash(s: seq<nat>, b: Bounds): (r: seq<nat>)
    ensures |r| <= |s|
    ensures |s| >= 1 ==> |r| >= 1
  {
    if |s| < 4 then s else [s[0]] + SquashFrom(s, b, 1)
  }

  /** The number of squashes from window position i on; a squash skips the window after it. */
  function Hits(s: seq<nat>, b: Bounds, i: nat): nat
    requires 1 <= i <= |s|
    decreases |s| - i
  {
    if i >= |s| - 2 then 0
    else if SquashHit(s, b, i) then 1 + Hits(s, b, i + 2)
    else Hits(s, b, i + 1)
  }

  /** Each squash shortens the output by exactly one. */
  lemma {:induction false} SquashFromLength(s: seq<nat>, b: Bounds, i: nat)
    requires 1 <= i <= |s|
    ensures |SquashFrom(s, b, i)| == |s| - i - Hits(s, b, i)
    decreases |s| - i
  {
    if i < |s| - 2 {
      if SquashHit(s, b, i) {
        SquashFromLength(s, b, i + 2);
      } else {
        SquashFromLength(s, b, i + 1);
      }
    }
  }

  /** Without a squash the rest of the list is copied unchanged. */
  lemma {:induction false} SquashFromNoHit(s: seq<nat>, b: Bounds, i: nat)
    requires 1 <= i <= |s| && Hits(s, b, i) == 0
    ensures SquashFrom(s, b, i) == s[i..]
    decreases |s| - i
  {
    if i < |s| - 2 {
      SquashFromNoHit(s, b, i + 1);
      assert s[i..] == [s[i]] + s[i + 1..];
    }
  }

  /** No squash happens exactly when no window from position i on is a squash window. */
  lemma {:induction false} HitsZeroIff(s: seq<nat>, b: Bounds, i: nat)
    requires 1 <= i <= |s|
    ensures Hits(s, b, i) == 0 <==> forall j | i <= j < |s| - 2 :: !SquashHit(s, b, j)
    decreases |s| - i
  {
    if i < |s| - 2 && !SquashHit(s, b, i) {
      HitsZeroIff(s, b, i + 1);
    }
  }

  /** The squashed list is |s| minus one per squash long, and equals s when nothing is squashed. */
  lemma SquashLength(s: seq<nat>, b: Bounds)
    ensures |s| >= 4 ==> |Squash(s, b)| == |s| - Hits(s, b, 1)
    ensures (|s| < 4 || forall j | 1 <= j < |s| - 2 :: !SquashHit(s, b, j)) ==> Squash(s, b) == s
  {
    if |s| >= 4 {
      SquashFromLength(s, b, 1);
      HitsZeroIff(s, b, 1);
      if Hits(s, b, 1) == 0 {
        SquashFromNoHit(s, b, 1);
        assert s == [s[0]] + s[1..];
      }
    }
  }

  lemma {:induction false} SquashFromSum(s: seq<nat>, b: Bounds, i: nat)
    requires 1 <= i <= |s|
    ensures Sum(SquashFrom(s, b, i)) == Sum(s[i..])
    decreases |s| - i
  {
    if i < |s| - 2 {
      if SquashHit(s, b, i) {
        SquashFromSum(s, b, i + 2);
        assert s[i..] == [s[i]] + ([s[i + 1]] + s[i + 2..]);
        SumCons(s[i], [s[i + 1]] + s[i + 2..]);
        SumCons(s[i + 1], s[i + 2..]);
        SumCons(2, SquashFrom(s, b, i + 2));
      } else {
        SquashFromSum(s, b, i + 1);
        assert s[i..] == [s[i]] + s[i + 1..];
        SumCons(s[i], s[i + 1..]);
        SumCons(s[i], SquashFrom(s, b, i + 1));
      }
    }
  }

  /** Squashing keeps the total length of the intervals. */
  lemma SquashKeepsSum(s: seq<nat>, b: Bounds)
    ensures Sum(Squash(s, b)) == Sum(s)
  {
    if |s| >= 4 {
      SquashFromSum(s, b, 1);
      assert s == [s[0]] + s[1..];
      SumCons(s[0], s[1..]);
      SumCons(s[0], SquashFrom(s, b, 1));
    }
  }

  lemma SquashExampleTail(s: seq<nat>, b: Bounds)
    requires s == [1, 3, 6, 1, 1, 7, 1, 6, 1, 1, 7, 1, 1, 1, 6] && b == Bounds(6, 8)
    ensures SquashFrom(s, b, 8) == [2, 7, 1, 1, 1, 6]
  {
    assert s[13..] == [1, 6];
    assert SquashFrom(s, b, 13) == [1, 6];
    assert !SquashHit(s, b, 12);
    assert SquashFrom(s, b, 12) == [1, 1, 6];
    assert !SquashHit(s, b, 11);
    assert SquashFrom(s, b, 11) == [1, 1, 1, 6];
    assert !SquashHit(s, b, 10);
    assert SquashFrom(s, b, 10) == [7, 1, 1, 1, 6];
    assert SquashHit(s, b, 8);
  }

  lemma SquashExampleMiddle(s: seq<nat>, b: Bounds)
    requires s == [1, 3, 6, 1, 1, 7, 1, 6, 1, 1, 7, 1, 1, 1, 6] && b == Bounds(6, 8)
    ensures SquashFrom(s, b, 5) == [7, 1, 6, 2, 7, 1, 1, 1, 6]
  {
    SquashExampleTail(s, b);
    assert !SquashHit(s, b, 7);
    assert SquashFrom(s, b, 7) == [6, 2, 7, 1, 1, 1, 6];
    assert !SquashHit(s, b, 6);
    assert SquashFrom(s, b, 6) == [1, 6, 2, 7, 1, 1, 1, 6];
    assert !SquashHit(s, b, 5);
  }

  lemma SquashExampleHead(s: seq<nat>, b: Bounds)
    requires s == [1, 3, 6, 1, 1, 7, 1, 6, 1, 1, 7, 1, 1, 1, 6] && b == Bounds(6, 8)
    ensures SquashFrom(s, b, 1) == [3, 6, 2, 7, 1, 6, 2, 7, 1, 1, 1, 6]
  {
    SquashExampleMiddle(s, b);
    assert SquashHit(s, b, 3);
    assert SquashFrom(s, b, 3) == [2, 7, 1, 6, 2, 7, 1, 1, 1, 6];
    assert !SquashHit(s, b, 2);
    assert SquashFrom(s, b, 2) == [6, 2, 7, 1, 6, 2, 7, 1, 1, 1, 6];
    assert !SquashHit(s, b, 1);
  }

  /** The source's example for bounds [6,8]. */
  lemma SquashExample()
    ensures Squash([1, 3, 6, 1, 1, 7, 1, 6, 1, 1, 7, 1, 1, 1, 6], Bounds(6, 8))
         == [1, 3, 6, 2, 7, 1, 6, 2, 7, 1, 1, 1, 6]
  {
    SquashExampleHead([1, 3, 6, 1, 1, 7, 1, 6, 1, 1, 7, 1, 1, 1, 6], Bounds(6, 8));
  }

  /** squashSurroundedDoubleOnesIntervals */
  method SquashSurroundedDoubleOnesIntervals(s: seq<nat>, b: Bounds) returns (result: seq<nat>)
    ensures result == Squash(s, b)
  {
    if |s| < 4 {
      return s;
    }
    result := [s[0]];
    var i := 1;
    while i < |s| - 2
      invariant 1 <= i <= |s| - 1
      invariant result + SquashFrom(s, b, i) == Squash(s, b)
    {
      var left, right := s[i - 1], s[i + 2];
      var midleft, midright := s[i], s[i + 1];
      var middleOnes := midleft == 1 && midright == 1;
      var leftInRange := left as int >= b.lo && left as int <= b.hi;
      var rightInRange := right as int >= b.lo && right as int <= b.hi;
      if middleOnes && leftInRange && rightInRange {
        assert SquashHit(s, b, i);
        result := result + [2];
        i := i + 1;
      } else {
        result := result + [midleft];
      }
      i := i + 1;
    }
    while i < |s|
      invariant 1 <= i <= |s|
      invariant result + s[i..] == Squash(s, b)
    {
      assert s[i..] == [s[i]] + s[i + 1..];
      result := result + [s[i]];
      i := i + 1;
    }
  }

  lemma SingleRunsLiteral(bs: seq<bool>)
    requires bs == [false, true, false, false, true, true, true, true, false, true, false]
    ensures RunLengths(bs) == [1, 4, 1]
  {
    assert TrailingTrue(bs, 1) == 0 && TrailingTrue(bs, 2) == 1;
    assert Runs(bs, 1) == [] && Runs(bs, 2) == [1];
    assert Runs(bs, 4) == [1];
    assert TrailingTrue(bs, 4) == 0 && TrailingTrue(bs, 5) == 1 && TrailingTrue(bs, 6) == 2;
    assert TrailingTrue(bs, 7) == 3 && TrailingTrue(bs, 8) == 4;
    assert Runs(bs, 8) == [1] + [4] == [1, 4];
    assert TrailingTrue(bs, 9) == 0 && TrailingTrue(bs, 10) == 1;
    assert Runs(bs, 10) == [1, 4] + [1] == [1, 4, 1];
    assert Runs(bs, 11) == [1, 4, 1];
  }

  /** The source's example for single-candidate runs, bounds [4,5]. */
  lemma SingleRunsExample()
    ensures RunLengths(BelongsLookup([2, 5, 1, 7, 4, 4, 5, 4, 3, 5, 7], Bounds(4, 5))) == [1, 4, 1]
  {
    var bs := [false, true, false, false, true, true, true, true, false, true, false];
    assert BelongsLookup([2, 5, 1, 7, 4, 4, 5, 4, 3, 5, 7], Bounds(4, 5)) == bs;
    SingleRunsLiteral(bs);
  }

  lemma AlternatingRunsLiteral(bs: seq<bool>)
    requires bs == [true, true, false, false, false, false, false, true, true, false, false, true]
    ensures RunLengths(bs) == [2, 2, 1]
  {
    assert TrailingTrue(bs, 0) == 0 && TrailingTrue(bs, 1) == 1 && TrailingTrue(bs, 2) == 2;
    assert Runs(bs, 0) == [];
    assert Runs(bs, 2) == [] + [2] == [2];
    assert Runs(bs, 3) == [2] && Runs(bs, 4) == [2] && Runs(bs, 5) == [2];
    assert Runs(bs, 6) == [2] && Runs(bs, 7) == [2];
    assert TrailingTrue(bs, 7) == 0 && TrailingTrue(bs, 8) == 1 && TrailingTrue(bs, 9) == 2;
    assert Runs(bs, 9) == [2] + [2] == [2, 2];
    assert Runs(bs, 11) == [2, 2];
    assert TrailingTrue(bs, 11) == 0 && TrailingTrue(bs, 12) == 1;
    assert Runs(bs, 12) == [2, 2] + [1] == [2, 2, 1];
  }

  /** The source's example for alternating runs, bounds [4,5] and [1,2]. */
  lemma AlternatingRunsExample()
    ensures RunLengths(AlternatingLookup([2, 5, 1, 7, 4, 4, 5, 4, 1, 5, 7, 1, 5], Bounds(4, 5), Bounds(1, 2))) == [2, 2, 1]
  {
    var bs := [true, true, false, false, false, false, false, true, true, false, false, true];
    assert AlternatingLookup([2, 5, 1, 7, 4, 4, 5, 4, 1, 5, 7, 1, 5], Bounds(4, 5), Bounds(1, 2)) == bs;
    AlternatingRunsLiteral(bs);
  }

  lemma WithOneRunsLiteral(bs: seq<bool>)
    requires bs == [false, true, false, false, true, true, true, true, true, false, false, true]
    ensures RunLengths(bs) == [1, 5, 1]
  {
    assert TrailingTrue(bs, 1) == 0 && TrailingTrue(bs, 2) == 1;
    assert Runs(bs, 1) == [] && Runs(bs, 2) == [1];
    assert Runs(bs, 4) == [1];
    assert TrailingTrue(bs, 4) == 0 && TrailingTrue(bs, 5) == 1 && TrailingTrue(bs, 6) == 2;
    assert TrailingTrue(bs, 7) == 3 && TrailingTrue(bs, 8) == 4 && TrailingTrue(bs, 9) == 5;
    assert Runs(bs, 9) == [1] + [5] == [1, 5];
    assert Runs(bs, 11) == [1, 5];
    assert TrailingTrue(bs, 11) == 0 && TrailingTrue(bs, 12) == 1;
    assert Runs(bs, 12) == [1, 5] + [1] == [1, 5, 1];
  }

  /** The source's example for runs with ones, bounds [4,5]. */
  lemma WithOneRunsExample()
    ensures RunLengths(WithOneLookup([2, 5, 1, 7, 4, 4, 5, 4, 1, 5, 7, 1, 5], Bounds(4, 5))) == [1, 5, 1]
  {
    var bs := [false, true, false, false, true, true, true, true, true, false, false, true];
    assert WithOneLookup([2, 5, 1, 7, 4, 4, 5, 4, 1, 5, 7, 1, 5], Bounds(4, 5)) == bs;
    WithOneRunsLiteral(bs);
  }
}
