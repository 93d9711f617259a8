/**
 * Selection of the edge positions most likely to be real gridlines: the
 * positions whose edge count reaches a threshold derived from the sorted
 * non-zero counts (contrast/frequent.go).
 */
module Frequent {
  import opened Wrappers
  import opened GoNum
  import opened Seqs
  import opened Sorting
  import opened Stats

  /**
   * The two heuristics: the share of the most common positions clipped away
   * before the sample count is taken, and the share of that count a
   * position needs. Go's float32 values are modelled as exact reals.
   */
  datatype MostFrequentParams = MostFrequentParams(clipTop: real, cutoffMultiplier: real)

  /** The documented constraints: 0 <= ClipTop < 1 and 0 <= CutoffMultiplier < 1. */
  predicate Documented(p: MostFrequentParams)
  {
    0.0 <= p.clipTop < 1.0 && 0.0 <= p.cutoffMultiplier < 1.0
  }

  /** GetBaseMostFrequentParams: clip the top 20 %, then require 30 % of the sample count. */
  function GetBaseMostFrequentParams(): (p: MostFrequentParams)
    ensures Documented(p)
    ensures p.clipTop == 0.2 && p.cutoffMultiplier == 0.3
  {
    MostFrequentParams(0.2, 0.3)
  }

  /** The key of the comparator `new_counts[i] > new_counts[j]`: larger counts first. */
  function Descending(v: nat): int
  {
    -(v as int)
  }

  lemma DescendingInjective()
    ensures Injective(Descending)
  {
  }

  /**
   * populateNonzero: the non-zero counts, in their original order, written
   * to the front of the buffer, which must have room for them.
   */
  method PopulateNonzero(edgeCounts: seq<nat>, positiveCounts: array<nat>)
    requires |NonZero(edgeCounts)| <= positiveCounts.Length
    modifies positiveCounts
    ensures positiveCounts[..|NonZero(edgeCounts)|] == NonZero(edgeCounts)
    ensures forall k | |NonZero(edgeCounts)| <= k < positiveCounts.Length :: positiveCounts[k] == old(positiveCounts[k])
  {
    var newId := 0;
    NonZeroPrefix(edgeCounts, 0);
    for i := 0 to |edgeCounts|
      invariant newId == |NonZero(edgeCounts[..i])| <= |NonZero(edgeCounts)|
      invariant positiveCounts[..newId] == NonZero(edgeCounts[..i])
      invariant forall k | newId <= k < positiveCounts.Length :: positiveCounts[k] == old(positiveCounts[k])
    {
      assert edgeCounts[..i + 1][..i] == edgeCounts[..i];
      NonZeroPrefix(edgeCounts, i + 1);
      var count := edgeCounts[i];
      if count != 0 {
        positiveCounts[newId] := count;
        newId := newId + 1;
      }
    }
    assert edgeCounts[..|edgeCounts|] == edgeCounts;
  }

  /** The non-zero counts of a prefix never outnumber those of the whole. */
  lemma {:induction false} NonZeroPrefix(s: seq<nat>, n: nat)
    requires n <= |s|
    ensures |NonZero(s[..n])| <= |NonZero(s)|
    decreases |s| - n
  {
    if n < |s| {
      NonZeroPrefix(s, n + 1);
      assert s[..n + 1][..n] == s[..n];
    } else {
      assert s[..n] == s;
    }
  }

  /** The non-zero counts sorted so that larger counts come first. */
  function Counter(edgeCounts: seq<nat>): seq<nat>
  {
    SortedBy(NonZero(edgeCounts), Descending)
  }

  /** The sorted non-zero counts never increase, and they are exactly the non-zero counts. */
  lemma CounterProperties(edgeCounts: seq<nat>)
    ensures multiset(Counter(edgeCounts)) == multiset(NonZero(edgeCounts))
    ensures forall p, q | 0 <= p < q < |Counter(edgeCounts)| :: Counter(edgeCounts)[p] >= Counter(edgeCounts)[q]
    ensures forall v :: v in Counter(edgeCounts) <==> v in edgeCounts && v != 0
  {
    SortedBySorts(NonZero(edgeCounts), Descending);
    NonZeroMembers(edgeCounts);
    forall v
      ensures v in Counter(edgeCounts) <==> v in NonZero(edgeCounts)
    {
      assert v in multiset(Counter(edgeCounts)) <==> v in multiset(NonZero(edgeCounts));
    }
  }

  /**
   * edgeCountsSortedNonzero: a buffer of exactly the non-zero counts, sorted
   * in place so that it never increases.
   */
  method EdgeCountsSortedNonzero(edgeCounts: seq<nat>) returns (r: seq<nat>)
    ensures r == Counter(edgeCounts)
    ensures multiset(r) == multiset(NonZero(edgeCounts))
    ensures forall p, q | 0 <= p < q < |r| :: r[p] >= r[q]
  {
    var positiveCount := CountNonZeroU(edgeCounts);
    var newCounts := new nat[positiveCount];
    PopulateNonzero(edgeCounts, newCounts);
    assert newCounts[..] == NonZero(edgeCounts);
    SortByKey(newCounts, Descending);
    DescendingInjective();
    r := newCounts[..];
    CounterProperties(edgeCounts);
  }

  /** The index of the sample count: ClipTop * k truncated, but at most the last index. */
  function SampleIndex(k: nat, clipTop: real): int
  {
    var clipAmount := Trunc(clipTop * k as real);
    if clipAmount < k - 1 then clipAmount else k - 1
  }

  /** Under the documented ClipTop the sample index of k > 0 counts lies in 0 .. k - 1. */
  lemma SampleIndexBounds(k: nat, clipTop: real)
    requires 0.0 <= clipTop < 1.0 && k > 0
    ensures 0 <= SampleIndex(k, clipTop) < k
  {
    assert 0.0 <= clipTop * k as real;
  }

  /** uint(float32(sample) * CutoffMultiplier): truncation of a non-negative product. */
  function ThresholdQuantity(sample: nat, cutoffMultiplier: real): (t: nat)
    requires 0.0 <= cutoffMultiplier
  {
    Trunc(sample as real * cutoffMultiplier)
  }

  /** A positive count times a multiplier below 1 truncates to less than the count. */
  lemma ProductBelow(sample: nat, cutoffMultiplier: real)
    requires sample > 0 && 0.0 <= cutoffMultiplier < 1.0
    ensures ThresholdQuantity(sample, cutoffMultiplier) < sample
  {
    assert sample as real * cutoffMultiplier < sample as real;
  }

  /** The positions whose count reaches the threshold, in increasing order. */
  function Selection(counts: seq<nat>, threshold: int): seq<int>
  {
    if |counts| == 0 then []
    else
      var n := |counts| - 1;
      Selection(counts[..n], threshold) + (if counts[n] >= threshold then [n] else [])
  }

  /** A position is selected exactly when its count reaches the threshold. */
  lemma {:induction false} SelectionMembers(counts: seq<nat>, threshold: int, i: int)
    ensures i in Selection(counts, threshold) <==> 0 <= i < |counts| && counts[i] >= threshold
    decreases |counts|
  {
    if |counts| > 0 {
      var n := |counts| - 1;
      SelectionMembers(counts[..n], threshold, i);
      if 0 <= i < n {
        assert counts[..n][i] == counts[i];
      }
    }
  }

  /** The selected positions lie in range and strictly increase. */
  lemma {:induction false} SelectionIncreasing(counts: seq<nat>, threshold: int)
    ensures forall k | 0 <= k < |Selection(counts, threshold)| :: 0 <= Selection(counts, threshold)[k] < |counts|
    ensures forall k, l | 0 <= k < l < |Selection(counts, threshold)| ::
      Selection(counts, threshold)[k] < Selection(counts, threshold)[l]
    decreases |counts|
  {
    if |counts| > 0 {
      SelectionIncreasing(counts[..|counts| - 1], threshold);
    }
  }

  /** The scan of SelectMostFrequent: the positions whose count reaches the threshold. */
  method SelectAtLeast(edgeCounts: seq<nat>, threshold: int) returns (result: seq<int>)
    ensures result == Selection(edgeCounts, threshold)
  {
    result := [];
    for i := 0 to |edgeCounts|
      invariant result == Selection(edgeCounts[..i], threshold)
    {
      assert edgeCounts[..i + 1][..i] == edgeCounts[..i];
      var count := edgeCounts[i];
      if count >= threshold {
        result := result + [i];
      }
    }
    assert edgeCounts[..|edgeCounts|] == edgeCounts;
  }

  /**
   * SelectMostFrequent: no counts select nothing. Otherwise the threshold
   * is CutoffMultiplier times the count at the sample index of the sorted
   * non-zero counts, and an index below 0 (all counts zero) panics.
   */
  method SelectMostFrequent(edgeCounts: seq<nat>, params: MostFrequentParams) returns (r: Result<seq<int>>)
    requires 0.0 <= params.cutoffMultiplier
    ensures |edgeCounts| == 0 ==> r == Ok([])
    ensures |edgeCounts| > 0 && SampleIndex(|Counter(edgeCounts)|, params.clipTop) < 0 ==>
      r == Panic("index out of range [" + FormatInt(SampleIndex(|Counter(edgeCounts)|, params.clipTop)) + "]")
    ensures |edgeCounts| > 0 && SampleIndex(|Counter(edgeCounts)|, params.clipTop) >= 0 ==>
      r == Ok(Selection(edgeCounts,
        ThresholdQuantity(Counter(edgeCounts)[SampleIndex(|Counter(edgeCounts)|, params.clipTop)], params.cutoffMultiplier)))
  {
    if |edgeCounts| == 0 {
      return Ok([]);
    }
    var counter := EdgeCountsSortedNonzero(edgeCounts);
    var sampleValId := SampleIndex(|counter|, params.clipTop);
    if sampleValId < 0 {
      return Panic("index out of range [" + FormatInt(sampleValId) + "]");
    }
    var thresholdQuantity := ThresholdQuantity(counter[sampleValId], params.cutoffMultiplier);
    var result := SelectAtLeast(edgeCounts, thresholdQuantity);
    return Ok(result);
  }

  lemma {:induction false} NonZeroOfZeros(s: seq<nat>)
    requires forall i | 0 <= i < |s| :: s[i] == 0
    ensures NonZero(s) == []
  {
    if |s| > 0 {
      NonZeroOfZeros(s[..|s| - 1]);
    }
  }

  /** A non-empty list of zero counts leaves no sorted count to sample, so the index is -1 and the call panics. */
  lemma AllZeroPanics(edgeCounts: seq<nat>, params: MostFrequentParams)
    requires |edgeCounts| > 0 && forall i | 0 <= i < |edgeCounts| :: edgeCounts[i] == 0
    ensures |Counter(edgeCounts)| == 0
    ensures SampleIndex(|Counter(edgeCounts)|, params.clipTop) == -1
  {
    NonZeroOfZeros(edgeCounts);
  }

  /** Under the documented constraints a single non-zero count is enough for a sample index in range. */
  lemma SampleInRange(edgeCounts: seq<nat>, params: MostFrequentParams)
    requires Documented(params) && exists i | 0 <= i < |edgeCounts| :: edgeCounts[i] != 0
    ensures 0 <= SampleIndex(|Counter(edgeCounts)|, params.clipTop) < |Counter(edgeCounts)|
  {
    CounterProperties(edgeCounts);
    var i :| 0 <= i < |edgeCounts| && edgeCounts[i] != 0;
    assert edgeCounts[i] in Counter(edgeCounts);
    SampleIndexBounds(|Counter(edgeCounts)|, params.clipTop);
  }

  /**
   * With CutoffMultiplier < 1 the threshold is below the sampled count,
   * which is at most the largest count, so every position holding the
   * largest count is selected.
   */
  lemma MaxSelected(edgeCounts: seq<nat>, params: MostFrequentParams, j: int)
    requires Documented(params)
    requires 0 <= SampleIndex(|Counter(edgeCounts)|, params.clipTop) < |Counter(edgeCounts)|
    requires 0 <= j < |edgeCounts| && forall i | 0 <= i < |edgeCounts| :: edgeCounts[i] <= edgeCounts[j]
    ensures var sample := Counter(edgeCounts)[SampleIndex(|Counter(edgeCounts)|, params.clipTop)];
      ThresholdQuantity(sample, params.cutoffMultiplier) < sample <= edgeCounts[j]
    ensures j in Selection(edgeCounts,
      ThresholdQuantity(Counter(edgeCounts)[SampleIndex(|Counter(edgeCounts)|, params.clipTop)], params.cutoffMultiplier))
  {
    var sample := Counter(edgeCounts)[SampleIndex(|Counter(edgeCounts)|, params.clipTop)];
    CounterProperties(edgeCounts);
    assert sample in Counter(edgeCounts);
    assert sample in edgeCounts && sample != 0;
    ProductBelow(sample, params.cutoffMultiplier);
    SelectionMembers(edgeCounts, ThresholdQuantity(sample, params.cutoffMultiplier), j);
  }
}
