/**
 * The histogram side of the gridline guesser (gridlines/guess.go): interval
 * counts, the ranges of "similar" lengths built from them, the most common
 * range and the copy of the ranges with every collision zeroed.
 */
module GuessRanges {
  import opened GoNum
  import opened Seqs
  import opened Intervals

  /** The interval list without its first and last interval. */
  function Interior(l: IntervalList): (s: seq<nat>)
    requires WellFormed(l) && l.totalCount >= 3
    ensures |s| == l.totalCount - 2 >= 1
    ensures forall k :: 0 <= k < |s| ==> s[k] == l.intervals[k + 1]
  {
    l.intervals[1..l.totalCount - 1]
  }

  /** Entry v counts the interior intervals of length v, up to the longest one. */
  function IntervalCounts(s: seq<nat>): (counts: seq<nat>)
    requires |s| > 0
    ensures |counts| == Max(s) + 1
    ensures forall v :: 0 <= v < |counts| ==> counts[v] == Occurrences(s, v)
  {
    seq(Max(s) + 1, v => Occurrences(s, v))
  }

  /** getIntervalCounts */
  method GetIntervalCounts(l: IntervalList) returns (counts: seq<nat>)
    requires WellFormed(l) && l.totalCount >= 3
    ensures counts == IntervalCounts(Interior(l))
    ensures Sum(counts) == l.totalCount - 2
  {
    var s := Interior(l);
    var largest := Max(s);
    counts := CountLengths(s, largest + 1);
    assert counts == IntervalCounts(s);
  }

  /** The counting loop of getIntervalCounts: one tally per length below n. */
  method CountLengths(s: seq<nat>, n: nat) returns (counts: seq<nat>)
    requires forall k :: 0 <= k < |s| ==> s[k] < n
    ensures counts == Histogram(s, n)
    ensures Sum(counts) == |s|
  {
    var c := new nat[n](_ => 0);
    SumZeros(c[..]);
    assert c[..] == Histogram(s[..0], n);
    for k := 0 to |s|
      invariant c[..] == Histogram(s[..k], n)
      invariant Sum(c[..]) == k
    {
      HistogramStep(s, k, n);
      SumUpdate(c[..], s[k], c[s[k]] + 1);
      c[s[k]] := c[s[k]] + 1;
    }
    assert s[..|s|] == s;
    counts := c[..];
  }

  /** Entry v counts the elements of t equal to v, for v below n. */
  function Histogram(t: seq<nat>, n: nat): (h: seq<nat>)
    ensures |h| == n
  {
    seq(n, v => Occurrences(t, v))
  }

  /** Taking one more element of s adds one to its entry of the histogram and leaves the others. */
  lemma HistogramStep(s: seq<nat>, k: int, n: nat)
    requires 0 <= k < |s| && s[k] < n
    ensures Histogram(s[..k + 1], n) == Histogram(s[..k], n)[s[k] := Histogram(s[..k], n)[s[k]] + 1]
  {
    assert s[..k + 1][..k] == s[..k];
  }

  /** getRangeOffset: how far a range reaches beyond its left bound. */
  function RangeOffset(base: int): (r: int)
    ensures 1 <= r <= 5
  {
    if base <= 2 then 1
    else if base <= 10 then 2
    else if base <= 25 then 3
    else if base <= 50 then 4
    else 5
  }

  /** Ranges widen, never narrow, as their left bound grows. */
  lemma RangeOffsetMonotone(a: int, b: int)
    requires a <= b
    ensures RangeOffset(a) <= RangeOffset(b)
  {
  }

  /** The right bound of range i over a histogram of n lengths. */
  function RangeHi(n: int, i: int): int
  {
    if n - 1 < i + RangeOffset(i) then n - 1 else i + RangeOffset(i)
  }

  /** Number of intervals with length in [lo, hi]. */
  function CountIn(counts: seq<nat>, lo: nat, hi: int): nat
    requires hi < |counts|
    decreases hi - lo
  {
    if hi < lo then 0 else CountIn(counts, lo, hi - 1) + counts[hi]
  }

  /** Total length of the intervals with length in [lo, hi]. */
  function WeightIn(counts: seq<nat>, lo: nat, hi: int): nat
    requires hi < |counts|
    decreases hi - lo
  {
    if hi < lo then 0 else WeightIn(counts, lo, hi - 1) + counts[hi] * hi
  }

  /** Mean length of the intervals in [lo, hi], 0 when there are none. */
  function MeanIn(counts: seq<nat>, lo: nat, hi: int): real
    requires hi < |counts|
  {
    var c := CountIn(counts, lo, hi);
    if c != 0 then WeightIn(counts, lo, hi) as real / c as real else 0.0
  }

  /** Range entry i of the histogram. */
  function RangeAt(counts: seq<nat>, i: nat): RangeEntry
    requires i < |counts|
  {
    var hi := RangeHi(|counts|, i);
    RangeEntry(i, hi, CountIn(counts, i, hi), MeanIn(counts, i, hi))
  }

  /** One range per histogram entry; range i starts at length i. */
  function IntervalRanges(counts: seq<nat>): (r: seq<RangeEntry>)
    ensures |r| == |counts|
    ensures forall i :: 0 <= i < |r| ==>
      r[i].lo == i && r[i].hi == RangeHi(|counts|, i) && i <= r[i].hi < |counts|
  {
    seq(|counts|, i requires 0 <= i < |counts| => RangeAt(counts, i))
  }

  lemma {:induction false} WeightLower(counts: seq<nat>, lo: nat, hi: int)
    requires hi < |counts|
    ensures lo * CountIn(counts, lo, hi) <= WeightIn(counts, lo, hi)
    decreases hi - lo
  {
    if lo <= hi {
      WeightLower(counts, lo, hi - 1);
      var c := CountIn(counts, lo, hi - 1);
      assert lo * (c + counts[hi]) == lo * c + lo * counts[hi];
      assert lo * counts[hi] <= hi * counts[hi] by {
        MulMonotone(lo, hi, counts[hi]);
      }
    }
  }

  lemma {:induction false} WeightUpper(counts: seq<nat>, lo: nat, hi: int, b: int)
    requires hi < |counts| && hi <= b
    ensures WeightIn(counts, lo, hi) <= b * CountIn(counts, lo, hi)
    decreases hi - lo
  {
    if lo <= hi {
      WeightUpper(counts, lo, hi - 1, b);
      var c := CountIn(counts, lo, hi - 1);
      assert b * (c + counts[hi]) == b * c + b * counts[hi];
      assert hi * counts[hi] <= b * counts[hi] by {
        MulMonotone(hi, b, counts[hi]);
      }
    }
  }

  lemma MulMonotone(a: int, b: int, c: nat)
    requires a <= b
    ensures a * c <= b * c
  {
  }

  lemma QuotientBetween(a: real, b: real, w: real, c: real)
    requires c > 0.0 && a * c <= w <= b * c
    ensures a <= w / c <= b
  {
  }

  lemma ProductAsReal(a: int, b: int)
    ensures (a * b) as real == a as real * b as real
  {
  }

  /** The mean of a non-empty length window lies inside the window. */
  lemma MeanInBounds(counts: seq<nat>, lo: nat, hi: int)
    requires hi < |counts| && CountIn(counts, lo, hi) > 0
    ensures lo as real <= MeanIn(counts, lo, hi) <= hi as real
  {
    var c := CountIn(counts, lo, hi);
    var w := WeightIn(counts, lo, hi);
    WeightLower(counts, lo, hi);
    WeightUpper(counts, lo, hi, hi);
    assert lo * c <= w <= hi * c;
    RealBounds(lo, hi, w, c);
    assert MeanIn(counts, lo, hi) == w as real / c as real;
  }

  lemma RealBounds(lo: int, hi: int, w: int, c: int)
    requires c > 0 && lo * c <= w <= hi * c
    ensures lo as real <= w as real / c as real <= hi as real
  {
    ProductAsReal(lo, c);
    ProductAsReal(hi, c);
    QuotientBetween(lo as real, hi as real, w as real, c as real);
  }

  /** A non-empty range's mean length lies inside its bounds. */
  lemma MeanWithinBounds(counts: seq<nat>, i: nat)
    requires i < |counts|
    requires RangeAt(counts, i).count > 0
    ensures RangeAt(counts, i).lo as real <= RangeAt(counts, i).mean <= RangeAt(counts, i).hi as real
  {
    MeanInBounds(counts, i, RangeHi(|counts|, i));
  }

  /** A window holds at least the intervals of its first length. */
  lemma {:induction false} CountInAtLeastFirst(counts: seq<nat>, lo: nat, hi: int)
    requires lo <= hi < |counts|
    ensures CountIn(counts, lo, hi) >= counts[lo]
    decreases hi - lo
  {
    if lo < hi {
      CountInAtLeastFirst(counts, lo, hi - 1);
    }
  }

  /** Splitting length 0 off a window that starts at 0. */
  lemma {:induction false} WindowFromZero(counts: seq<nat>, hi: int)
    requires 0 <= hi < |counts|
    ensures CountIn(counts, 0, hi) == counts[0] + CountIn(counts, 1, hi)
    ensures WeightIn(counts, 0, hi) == WeightIn(counts, 1, hi)
  {
    if hi > 0 {
      WindowFromZero(counts, hi - 1);
    }
  }

  /** With no zero-length intervals, a non-empty window's mean is at least 1. */
  lemma MeanAtLeastOne(counts: seq<nat>, lo: nat, hi: int)
    requires hi < |counts| && CountIn(counts, lo, hi) > 0
    requires counts[0] == 0
    ensures MeanIn(counts, lo, hi) >= 1.0
  {
    if lo >= 1 {
      MeanInBounds(counts, lo, hi);
    } else {
      WindowFromZero(counts, hi);
      MeanInBounds(counts, 1, hi);
    }
  }

  /** Number of elements of s with a value in [lo, hi]. */
  function OccIn(s: seq<nat>, lo: int, hi: int): nat
    decreases hi - lo
  {
    if hi < lo then 0 else OccIn(s, lo, hi - 1) + Occurrences(s, hi)
  }

  /** The histogram window counts exactly the intervals whose length is in the window. */
  lemma {:induction false} CountInIsOccIn(s: seq<nat>, lo: nat, hi: int)
    requires |s| > 0 && hi < |IntervalCounts(s)|
    ensures CountIn(IntervalCounts(s), lo, hi) == OccIn(s, lo, hi)
    decreases hi - lo
  {
    if lo <= hi {
      CountInIsOccIn(s, lo, hi - 1);
    }
  }

  lemma {:induction false} OccInSnoc(s: seq<nat>, x: nat, lo: int, hi: int)
    ensures OccIn(s + [x], lo, hi) == OccIn(s, lo, hi) + (if lo <= x <= hi then 1 else 0)
    decreases hi - lo
  {
    if lo <= hi {
      OccInSnoc(s, x, lo, hi - 1);
      OccurrencesSnoc(s, x, hi);
    }
  }

  /** getIntervalRanges */
  method GetIntervalRanges(counts: seq<nat>) returns (ranges: seq<RangeEntry>)
    ensures ranges == IntervalRanges(counts)
  {
    var n := |counts|;
    var r := new RangeEntry[n](_ => ZeroRangeEntry());
    for i := 0 to n
      invariant forall k :: 0 <= k < i ==> r[k].lo == k && r[k].hi == RangeHi(n, k)
    {
      var offset := RangeOffset(i);
      var start := i;
      var end := if n - 1 < start + offset then n - 1 else start + offset;
      r[i] := r[i].(lo := start, hi := end);
    }
    for i := 0 to n
      invariant forall k :: 0 <= k < i ==> r[k] == RangeAt(counts, k)
      invariant forall k :: i <= k < n ==> r[k].lo == k && r[k].hi == RangeHi(n, k)
    {
      var first, last := r[i].lo, r[i].hi;
      var sum: real := 0.0;
      var count: nat := 0;
      for interval := first to last + 1
        invariant count == CountIn(counts, first, interval - 1)
        invariant sum == WeightIn(counts, first, interval - 1) as real
      {
        count := count + counts[interval];
        sum := sum + (counts[interval] * interval) as real;
      }
      var mean: real := 0.0;
      if count != 0 {
        mean := sum / count as real;
      }
      r[i] := r[i].(mean := mean, count := count);
    }
    ranges := r[..];
  }

  /**
   * Index of the entry mostCommonIntervalRange picks: a largest count, and
   * among the largest counts the last one.
   */
  function MostCommonIndex(entries: seq<RangeEntry>): (k: nat)
    requires |entries| > 0
    ensures LastMaximal(entries, k)
  {
    if |entries| == 1 then 0
    else
      var p := MostCommonIndex(entries[..|entries| - 1]);
      if entries[|entries| - 1].count >= entries[p].count then |entries| - 1 else p
  }

  predicate LastMaximal(entries: seq<RangeEntry>, k: int)
  {
    && 0 <= k < |entries|
    && (forall j :: 0 <= j < |entries| ==> entries[j].count <= entries[k].count)
    && (forall j :: k < j < |entries| ==> entries[j].count < entries[k].count)
  }

  /** The most common range; the zero entry when there are no ranges at all. */
  function MostCommon(entries: seq<RangeEntry>): (r: RangeEntry)
    ensures |entries| == 0 ==> r == ZeroRangeEntry()
    ensures |entries| > 0 ==> r in entries
  {
    if |entries| == 0 then ZeroRangeEntry() else entries[MostCommonIndex(entries)]
  }

  /** The last maximal entry is unique, so it determines the choice. */
  lemma MostCommonCharacterized(entries: seq<RangeEntry>, k: int)
    requires LastMaximal(entries, k)
    ensures MostCommon(entries) == entries[k]
  {
    var m := MostCommonIndex(entries);
    assert m == k;
  }

  /** With all counts zero the last entry, not the zero entry, is returned. */
  lemma MostCommonAllZero(entries: seq<RangeEntry>)
    requires |entries| > 0
    requires forall j :: 0 <= j < |entries| ==> entries[j].count == 0
    ensures MostCommon(entries) == entries[|entries| - 1]
  {
    MostCommonCharacterized(entries, |entries| - 1);
  }

  /** mostCommonIntervalRange */
  method MostCommonIntervalRange(entries: seq<RangeEntry>) returns (result: RangeEntry)
    ensures result == MostCommon(entries)
  {
    var maxCount := 0;
    result := ZeroRangeEntry();
    for k := 0 to |entries|
      invariant k == 0 ==> result == ZeroRangeEntry()
      invariant k > 0 ==> result == entries[MostCommonIndex(entries[..k])]
      invariant maxCount == result.count
    {
      assert entries[..k + 1][..k] == entries[..k];
      if entries[k].count >= maxCount {
        maxCount := entries[k].count;
        result := entries[k];
      }
    }
    assert entries[..|entries|] == entries;
  }

  /**
   * Whether an entry collides with the sample: their bounds overlap, or the
   * sample's rounded mean is at least 4 and the entry's midpoint is within
   * the gridline-to-pixel ratio window [m/2+1, 2m-1].
   */
  predicate Collides(e: RangeEntry, sample: RangeEntry)
  {
    var m := Round(sample.mean);
    var directOverlap := e.lo <= sample.hi && sample.lo <= e.hi;
    var midpoint := Quot(e.hi - e.lo, 2) + e.lo;
    var violatesRatio := m >= 4 && Quot(m, 2) + 1 <= midpoint <= m * 2 - 1;
    directOverlap || violatesRatio
  }

  /** The ranges with count and mean cleared wherever the sample collides. */
  function CollisionsZeroed(entries: seq<RangeEntry>, sample: RangeEntry): (r: seq<RangeEntry>)
    ensures |r| == |entries|
    ensures forall i :: 0 <= i < |r| ==> r[i].lo == entries[i].lo && r[i].hi == entries[i].hi
  {
    seq(|entries|, i requires 0 <= i < |entries| =>
      if Collides(entries[i], sample) then entries[i].(count := 0, mean := 0.0) else entries[i])
  }

  /** rangesWithCollisionsZeroed: works on a fresh copy; the input is a value. */
  method RangesWithCollisionsZeroed(entries: seq<RangeEntry>, sample: RangeEntry) returns (r: seq<RangeEntry>)
    ensures r == CollisionsZeroed(entries, sample)
  {
    var newEntries := new RangeEntry[|entries|](i requires 0 <= i < |entries| => entries[i]);
    var sampleMin, sampleMax := sample.lo, sample.hi;
    var sampleMidpoint := Round(sample.mean);
    var sampleBig := sampleMidpoint >= 4;
    var ratioMin, ratioMax := Quot(sampleMidpoint, 2) + 1, sampleMidpoint * 2 - 1;
    for i := 0 to |entries|
      invariant forall k :: 0 <= k < i ==> newEntries[k] == CollisionsZeroed(entries, sample)[k]
      invariant forall k :: i <= k < |entries| ==> newEntries[k] == entries[k]
    {
      var entry := newEntries[i];
      var directOverlap := entry.lo <= sampleMax && sampleMin <= entry.hi;
      var entryMidpoint := Quot(entry.hi - entry.lo, 2) + entry.lo;
      var violatesRatio := sampleBig && ratioMin <= entryMidpoint && entryMidpoint <= ratioMax;
      if directOverlap || violatesRatio {
        newEntries[i] := newEntries[i].(count := 0, mean := 0.0);
      }
    }
    r := newEntries[..];
  }

  /** Zeroing never raises a count. */
  lemma ZeroedCountsBelow(entries: seq<RangeEntry>, sample: RangeEntry)
    ensures forall i :: 0 <= i < |entries| ==>
      CollisionsZeroed(entries, sample)[i].count <= entries[i].count
  {
  }

  /** A non-empty range is always zeroed by itself. */
  lemma SampleZeroesItself(entries: seq<RangeEntry>, k: int)
    requires 0 <= k < |entries| && entries[k].lo <= entries[k].hi
    ensures CollisionsZeroed(entries, entries[k])[k].count == 0
  {
  }

  /**
   * The second candidate never collides with the first unless nothing is left:
   * its count is 0 or its range is clear of the first candidate.
   */
  lemma SecondCandidateSeparated(entries: seq<RangeEntry>, first: RangeEntry)
    ensures var second := MostCommon(CollisionsZeroed(entries, first));
      second.count == 0 || !Collides(second, first)
  {
    var z := CollisionsZeroed(entries, first);
    if |z| > 0 {
      var k := MostCommonIndex(z);
      if Collides(entries[k], first) {
        assert z[k].count == 0;
      } else {
        assert z[k] == entries[k];
      }
    }
  }

  /** The second candidate is never more common than the first. */
  lemma SecondCandidateNotMoreCommon(entries: seq<RangeEntry>, first: RangeEntry)
    requires first == MostCommon(entries)
    ensures MostCommon(CollisionsZeroed(entries, first)).count <= first.count
  {
    var z := CollisionsZeroed(entries, first);
    if |z| > 0 {
      var k := MostCommonIndex(z);
      var m := MostCommonIndex(entries);
      assert z[k].count <= entries[k].count <= entries[m].count;
    }
  }

  /** Ranges over a five-entry histogram: [0,1], [1,2], [2,3], [3,4] (cut at the end), [4,4]. */
  lemma RangesExample()
    ensures var r := IntervalRanges([0, 3, 1, 0, 2]);
      && r[0].lo == 0 && r[0].hi == 1
      && r[1].lo == 1 && r[1].hi == 2 && r[1].count == 4
      && r[3].lo == 3 && r[3].hi == 4 && r[3].count == 2 && r[3].mean == 4.0
  {
  }
}
