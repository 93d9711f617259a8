/**
 * The decision layer of the gridline guesser (gridlines/guess.go): the run
 * scores of each arrangement of candidates and the choice of pixel and
 * gridline size ranges from them.
 */
module GuessParameters {
  import opened Seqs
  import opened Intervals
  import opened GuessRanges
  import opened GuessRuns

  function BoundsOf(e: RangeEntry): Bounds
  {
    Bounds(e.lo, e.hi)
  }

  /** alternatingCandidatesRunlengthScore */
  function AlternatingScore(l: IntervalList, c0: RangeEntry, c1: RangeEntry): (r: int)
    requires WellFormed(l) && l.totalCount >= 3
    ensures 0 <= r <= l.totalCount - 3
  {
    var lookup := AlternatingLookup(Interior(l), BoundsOf(c0), BoundsOf(c1));
    RunScoreBounds(lookup);
    RunLengthsNonNegative(lookup);
    RunScore(RunLengths(lookup))
  }

  /** alternatingCandidatesRunlengthScore_1_2: [1,1] pairs squashed, then alternation with [1,2]. */
  function AlternatingScore12(l: IntervalList, c: RangeEntry): (r: int)
    requires WellFormed(l) && l.totalCount >= 3
    ensures 0 <= r <= l.totalCount - 3
  {
    var lookup := AlternatingLookup(Squash(Interior(l), BoundsOf(c)), BoundsOf(c), Bounds(1, 2));
    RunScoreBounds(lookup);
    RunLengthsNonNegative(lookup);
    RunScore(RunLengths(lookup))
  }

  /** alternatingCandidatesRunlengthScore_0_1: pairs of candidates, or a candidate next to a 1. */
  function AlternatingScore01(l: IntervalList, c: RangeEntry): (r: int)
    requires WellFormed(l) && l.totalCount >= 3
    ensures 0 <= r <= l.totalCount - 3
  {
    var lookup := WithOneLookup(Interior(l), BoundsOf(c));
    RunScoreBounds(lookup);
    RunLengthsNonNegative(lookup);
    RunScore(RunLengths(lookup))
  }

  /** singleCandidateRunlengthScore: the total length of the runs longer than minRun. */
  function SingleScore(l: IntervalList, c: RangeEntry, minRun: int): (r: int)
    requires WellFormed(l) && l.totalCount >= 3
    requires minRun >= 0
    ensures 0 <= r <= l.totalCount - 2
  {
    var lookup := BelongsLookup(Interior(l), BoundsOf(c));
    RunLengthsSum(lookup);
    RunLengthsNonNegative(lookup);
    SumAboveMonotone(RunLengths(lookup), 0, minRun);
    SumAbove(RunLengths(lookup), minRun)
  }

  lemma RunLengthsNonNegative(lookup: seq<bool>)
    ensures forall i :: 0 <= i < |RunLengths(lookup)| ==> RunLengths(lookup)[i] >= 0
    ensures SumAbove(RunLengths(lookup), 0) == CountTrue(lookup)
  {
    RunLengthsSum(lookup);
    SumAboveMonotone(RunLengths(lookup), 0, 0);
  }

  /** alternatingCandidatesRunlengthScore, built from the loop methods. */
  method AlternatingCandidatesRunlengthScore(l: IntervalList, c0: RangeEntry, c1: RangeEntry) returns (score: int)
    requires WellFormed(l) && l.totalCount >= 3
    ensures score == AlternatingScore(l, c0, c1)
  {
    var interior := l.intervals[1..l.totalCount - 1];
    var runlengths := AlternatingCandidatesRunlengths(interior, BoundsOf(c0), BoundsOf(c1));
    score := SumLargerThan(runlengths, 1);
    var scoreWithOnes := SumLargerThan(runlengths, 0);
    score := score + (scoreWithOnes - score) / 2;
  }

  /** alternatingCandidatesRunlengthScore_1_2, built from the loop methods. */
  method AlternatingCandidatesRunlengthScore12(l: IntervalList, c: RangeEntry) returns (score: int)
    requires WellFormed(l) && l.totalCount >= 3
    ensures score == AlternatingScore12(l, c)
  {
    var interior := l.intervals[1..l.totalCount - 1];
    var squashed := SquashSurroundedDoubleOnesIntervals(interior, BoundsOf(c));
    var runlengths := AlternatingCandidatesRunlengths(squashed, BoundsOf(c), Bounds(1, 2));
    score := SumLargerThan(runlengths, 1);
    var scoreWithOnes := SumLargerThan(runlengths, 0);
    score := score + (scoreWithOnes - score) / 2;
  }

  /** alternatingCandidatesRunlengthScore_0_1, built from the loop methods. */
  method AlternatingCandidatesRunlengthScore01(l: IntervalList, c: RangeEntry) returns (score: int)
    requires WellFormed(l) && l.totalCount >= 3
    ensures score == AlternatingScore01(l, c)
  {
    var interior := l.intervals[1..l.totalCount - 1];
    var runlengths := SingleCandidateWithOneRunlengths(interior, BoundsOf(c));
    score := SumLargerThan(runlengths, 1);
    var scoreWithOnes := SumLargerThan(runlengths, 0);
    score := score + (scoreWithOnes - score) / 2;
  }

  /** singleCandidateRunlengthScore, built from the loop methods. */
  method SingleCandidateRunlengthScore(l: IntervalList, c: RangeEntry, minRun: int) returns (score: int)
    requires WellFormed(l) && l.totalCount >= 3
    requires minRun >= 0
    ensures score == SingleScore(l, c, minRun)
  {
    var interior := l.intervals[1..l.totalCount - 1];
    var runlengths := SingleCandidateRunlengths(interior, BoundsOf(c));
    score := SumLargerThan(runlengths, minRun);
  }

  /** Go's built-in `max` of three integers. */
  function Max3(a: int, b: int, c: int): (m: int)
    ensures m >= a && m >= b && m >= c
    ensures m == a || m == b || m == c
  {
    if a >= b && a >= c then a else if b >= c then b else c
  }

  /** Go's built-in `max` of three floats, none of them NaN. */
  function Max3Real(a: real, b: real, c: real): (m: real)
    ensures m >= a && m >= b && m >= c
    ensures m == a || m == b || m == c
  {
    if a >= b && a >= c then a else if b >= c then b else c
  }

  /** Of the two candidates, the one with the smaller mean; the first on a tie. */
  function Smaller(c0: RangeEntry, c1: RangeEntry): RangeEntry
  {
    if c0.mean > c1.mean then c1 else c0
  }

  /** Of the two candidates, the one with the larger mean; the second on a tie. */
  function Bigger(c0: RangeEntry, c1: RangeEntry): RangeEntry
  {
    if c0.mean > c1.mean then c0 else c1
  }

  lemma SmallerBigger(c0: RangeEntry, c1: RangeEntry)
    ensures {Smaller(c0, c1), Bigger(c0, c1)} == {c0, c1}
    ensures Smaller(c0, c1).mean <= Bigger(c0, c1).mean
  {
  }

  /** The [1,2] entry: bounds [1,2] with the smaller candidate's count and mean. */
  function Entry12(c0: RangeEntry, c1: RangeEntry): RangeEntry
  {
    RangeEntry(1, 2, Smaller(c0, c1).count, Smaller(c0, c1).mean)
  }

  /** The [1,1] entry; the source gives it the number of length-2 intervals. */
  function Entry11(counts: seq<nat>): RangeEntry
  {
    RangeEntry(1, 1, if |counts| > 2 then counts[2] else 0, 1.0)
  }

  /** The [2,2] entry; the source gives it the number of length-1 intervals. */
  function Entry22(counts: seq<nat>): RangeEntry
  {
    RangeEntry(2, 2, if |counts| > 1 then counts[1] else 0, 2.0)
  }

  /** The ConsiderOnlyOneAndTwo block: widths 1 and 2 alone or alternating. */
  function OnlyOneAndTwo(l: IntervalList, counts: seq<nat>): (RangeEntry, RangeEntry)
    requires WellFormed(l) && l.totalCount >= 3
  {
    var e11 := Entry11(counts);
    var e22 := Entry22(counts);
    var score1 := SingleScore(l, e11, 0);
    var score2 := SingleScore(l, e22, 0);
    var alternating := AlternatingScore(l, e11, e22);
    var highest := Max3(score1, score2, alternating);
    if highest == alternating then (e22, e11)
    else if highest == score2 then (e22, ZeroRangeEntry())
    else (e11, ZeroRangeEntry())
  }

  /** guessParametersWithOne */
  function ParamsWithOne(l: IntervalList, counts: seq<nat>, c0: RangeEntry, c1: RangeEntry): (RangeEntry, RangeEntry)
    requires WellFormed(l) && l.totalCount >= 3
  {
    if c1.count <= 1 then OnlyOneAndTwo(l, counts)
    else
      var bigger := Bigger(c0, c1);
      var bigBias := 1.0 + 0.1 * bigger.mean;
      var score12 := AlternatingScore12(l, bigger) as real * bigBias;
      var score01 := AlternatingScore01(l, bigger) as real * bigBias;
      var scoreOnly12 := SingleScore(l, Entry12(c0, c1), 1) as real;
      var highest := Max3Real(score01, score12, scoreOnly12);
      if highest == scoreOnly12 then OnlyOneAndTwo(l, counts)
      else if highest == score12 then (bigger, Entry12(c0, c1))
      else (bigger, Entry11(counts))
  }

  /**
   * `float64(a) / float64(b) >= 0.3` for counts a > 0 and b. A zero divisor
   * gives +Inf in the source, which passes.
   */
  predicate CountRatioAtLeast(a: nat, b: nat)
  {
    b == 0 || a as real / b as real >= 0.3
  }

  /** The double-width test: enough second candidates, and the bigger mean at most twice the smaller plus one. */
  predicate DoubleWidth(c0: RangeEntry, c1: RangeEntry)
  {
    CountRatioAtLeast(c1.count, c0.count) && Smaller(c0, c1).mean * 2.0 + 1.0 >= Bigger(c0, c1).mean
  }

  /** guessParametersNoOne; the histogram argument of the source is unused there and left out. */
  function ParamsNoOne(l: IntervalList, c0: RangeEntry, c1: RangeEntry): (RangeEntry, RangeEntry)
    requires WellFormed(l) && l.totalCount >= 3
  {
    if c1.count == 0 then (c0, ZeroRangeEntry())
    else
      var smaller := Smaller(c0, c1);
      var bigger := Bigger(c0, c1);
      if DoubleWidth(c0, c1) then
        if !Aligned(Interior(l), BoundsOf(bigger), bigger.mean) then (smaller, ZeroRangeEntry())
        else
          var biggerScore := SingleScore(l, bigger, 1);
          var smallerScore := SingleScore(l, smaller, 1);
          if biggerScore > smallerScore then (bigger, ZeroRangeEntry())
          else if smallerScore > biggerScore then (smaller, ZeroRangeEntry())
          else (c0, ZeroRangeEntry())
      else
        var score1 := SingleScore(l, c0, 0);
        var score2 := SingleScore(l, c1, 0);
        var alternating := AlternatingScore(l, c0, c1);
        var highest := Max3(score1, score2, alternating);
        if highest == alternating then (bigger, smaller)
        else if highest == score1 then (c0, ZeroRangeEntry())
        else (c1, ZeroRangeEntry())
  }

  /** The two candidates GuessGridlineParameters compares. */
  function Candidates(l: IntervalList): (RangeEntry, RangeEntry)
    requires WellFormed(l) && l.totalCount >= 3
  {
    var ranges := IntervalRanges(IntervalCounts(Interior(l)));
    var first := MostCommon(ranges);
    (first, MostCommon(CollisionsZeroed(ranges, first)))
  }

  /** GuessGridlineParameters: the pixel range and the gridline range (or the zero entry). */
  function GuessGridlineParameters(l: IntervalList): (guess: (RangeEntry, RangeEntry))
    requires WellFormed(l)
    ensures l.totalCount < 3 ==> guess == (ZeroRangeEntry(), ZeroRangeEntry())
  {
    if l.totalCount < 3 then (ZeroRangeEntry(), ZeroRangeEntry())
    else
      var counts := IntervalCounts(Interior(l));
      var (c0, c1) := Candidates(l);
      if c0.lo == 1 || c1.lo == 1 then ParamsWithOne(l, counts, c0, c1)
      else ParamsNoOne(l, c0, c1)
  }

  lemma {:induction false} InRangeCount(s: seq<nat>, b: Bounds)
    ensures CountTrue(BelongsLookup(s, b)) == OccIn(s, b.lo, b.hi)
    decreases |s|
  {
    if |s| == 0 {
      OccInEmpty(b.lo, b.hi);
    } else {
      var p := s[..|s| - 1];
      var x := s[|s| - 1];
      assert s == p + [x];
      assert BelongsLookup(s, b)[..|s| - 1] == BelongsLookup(p, b);
      InRangeCount(p, b);
      OccInSnoc(p, x, b.lo, b.hi);
    }
  }

  lemma {:induction false} OccInEmpty(lo: int, hi: int)
    ensures OccIn([], lo, hi) == 0
    decreases hi - lo
  {
    if lo <= hi {
      OccInEmpty(lo, hi - 1);
    }
  }

  /** With minimum run 0 the single score is the number of interior intervals inside the bounds. */
  lemma SingleScoreCounts(l: IntervalList, c: RangeEntry)
    requires WellFormed(l) && l.totalCount >= 3
    ensures SingleScore(l, c, 0) == OccIn(Interior(l), c.lo, c.hi)
  {
    RunLengthsNonNegative(BelongsLookup(Interior(l), BoundsOf(c)));
    InRangeCount(Interior(l), BoundsOf(c));
  }

  /** For a histogram range, that number is the range's own count. */
  lemma RangeScoreIsCount(l: IntervalList, k: int)
    requires WellFormed(l) && l.totalCount >= 3
    requires 0 <= k < |IntervalCounts(Interior(l))|
    ensures var e := IntervalRanges(IntervalCounts(Interior(l)))[k];
      SingleScore(l, e, 0) == e.count
  {
    var counts := IntervalCounts(Interior(l));
    var e := IntervalRanges(counts)[k];
    SingleScoreCounts(l, e);
    CountInIsOccIn(Interior(l), k, e.hi);
  }

  /** The first candidate holds at least one interval, so it is never the zero entry. */
  lemma FirstCandidateNonEmpty(l: IntervalList)
    requires WellFormed(l) && l.totalCount >= 3
    ensures Candidates(l).0.count >= 1
  {
    var s := Interior(l);
    var counts := IntervalCounts(s);
    var ranges := IntervalRanges(counts);
    var v := s[0];
    OccurrencesOfMember(s, 0);
    CountInAtLeastFirst(counts, v, ranges[v].hi);
    var m := MostCommonIndex(ranges);
    assert ranges[v].count <= ranges[m].count;
  }

  /** The second candidate is never more common than the first. */
  lemma CandidatesOrdered(l: IntervalList)
    requires WellFormed(l) && l.totalCount >= 3
    ensures Candidates(l).1.count <= Candidates(l).0.count
  {
    var ranges := IntervalRanges(IntervalCounts(Interior(l)));
    SecondCandidateNotMoreCommon(ranges, MostCommon(ranges));
  }

  /**
   * In the base case of guessParametersNoOne the second candidate alone never
   * outscores the first, so the source's final `default` branch, marked there
   * as never executing, is indeed never taken.
   */
  lemma NoOneDefaultUnreachable(l: IntervalList)
    requires WellFormed(l) && l.totalCount >= 3
    ensures var (c0, c1) := Candidates(l);
      SingleScore(l, c1, 0) <= SingleScore(l, c0, 0)
    ensures var (c0, c1) := Candidates(l);
      c1.count != 0 && !DoubleWidth(c0, c1) ==>
        ParamsNoOne(l, c0, c1) == (Bigger(c0, c1), Smaller(c0, c1)) ||
        ParamsNoOne(l, c0, c1) == (c0, ZeroRangeEntry())
  {
    var counts := IntervalCounts(Interior(l));
    var ranges := IntervalRanges(counts);
    var (c0, c1) := Candidates(l);
    var z := CollisionsZeroed(ranges, c0);
    var m := MostCommonIndex(ranges);
    var k := MostCommonIndex(z);
    RangeScoreIsCount(l, m);
    RangeScoreIsCount(l, k);
    assert BoundsOf(c1) == BoundsOf(ranges[k]);
    assert SingleScore(l, c1, 0) == SingleScore(l, ranges[k], 0);
    assert ranges[k].count <= ranges[m].count;
  }

  /** The pixel guess of guessParametersWithOne is a fixed [1,1] or [2,2] entry, or a candidate holding intervals. */
  lemma WithOnePixelHoldsIntervals(l: IntervalList, counts: seq<nat>, c0: RangeEntry, c1: RangeEntry)
    requires WellFormed(l) && l.totalCount >= 3
    requires c0.count >= 1
    ensures var pixel := ParamsWithOne(l, counts, c0, c1).0;
      pixel.lo >= 1 || pixel.count >= 1
  {
  }

  /** The pixel guess of guessParametersNoOne is a candidate holding intervals. */
  lemma NoOnePixelHoldsIntervals(l: IntervalList, c0: RangeEntry, c1: RangeEntry)
    requires WellFormed(l) && l.totalCount >= 3
    requires c0.count >= 1
    ensures ParamsNoOne(l, c0, c1).0.count >= 1
  {
  }

  /** With at least three intervals a pixel size range is always guessed. */
  lemma PixelGuessNotZero(l: IntervalList)
    requires WellFormed(l) && l.totalCount >= 3
    ensures GuessGridlineParameters(l).0 != ZeroRangeEntry()
  {
    FirstCandidateNonEmpty(l);
    var (c0, c1) := Candidates(l);
    WithOnePixelHoldsIntervals(l, IntervalCounts(Interior(l)), c0, c1);
    NoOnePixelHoldsIntervals(l, c0, c1);
  }

  /** A gridline guess from guessParametersWithOne is never wider on average than its pixel guess. */
  lemma WithOneGridNarrower(l: IntervalList, counts: seq<nat>, c0: RangeEntry, c1: RangeEntry)
    requires WellFormed(l) && l.totalCount >= 3
    requires c0.mean >= 1.0
    ensures var (pixel, grid) := ParamsWithOne(l, counts, c0, c1);
      grid == ZeroRangeEntry() || grid.mean <= pixel.mean
  {
  }

  /** A gridline guess from guessParametersNoOne is the smaller candidate, next to the bigger one. */
  lemma NoOneGridNarrower(l: IntervalList, c0: RangeEntry, c1: RangeEntry)
    requires WellFormed(l) && l.totalCount >= 3
    ensures var (pixel, grid) := ParamsNoOne(l, c0, c1);
      grid == ZeroRangeEntry() || (grid == Smaller(c0, c1) && pixel == Bigger(c0, c1))
  {
  }

  /**
   * When no interior interval has length 0, the gridline guess is the zero
   * entry or has a mean no larger than the pixel guess.
   */
  lemma GridNarrowerThanPixel(l: IntervalList)
    requires WellFormed(l) && l.totalCount >= 3
    requires forall k :: 0 <= k < |Interior(l)| ==> Interior(l)[k] >= 1
    ensures var (pixel, grid) := GuessGridlineParameters(l);
      grid == ZeroRangeEntry() || grid.mean <= pixel.mean
  {
    var s := Interior(l);
    var counts := IntervalCounts(s);
    var ranges := IntervalRanges(counts);
    var (c0, c1) := Candidates(l);
    FirstCandidateNonEmpty(l);
    var m := MostCommonIndex(ranges);
    OccurrencesAbsent(s, 0);
    MeanAtLeastOne(counts, m, ranges[m].hi);
    WithOneGridNarrower(l, counts, c0, c1);
    NoOneGridNarrower(l, c0, c1);
    SmallerBigger(c0, c1);
  }

  /** ConsiderOnlyOneAndTwo picks the best of its three scores; ties go to alternation, then to [2,2]. */
  lemma OnlyOneAndTwoChoice(l: IntervalList, counts: seq<nat>)
    requires WellFormed(l) && l.totalCount >= 3
    ensures var e11, e22 := Entry11(counts), Entry22(counts);
      var score1, score2 := SingleScore(l, e11, 0), SingleScore(l, e22, 0);
      var alternating := AlternatingScore(l, e11, e22);
      && (alternating >= score1 && alternating >= score2 ==> OnlyOneAndTwo(l, counts) == (e22, e11))
      && (score2 > alternating && score2 >= score1 ==> OnlyOneAndTwo(l, counts) == (e22, ZeroRangeEntry()))
      && (score1 > alternating && score1 > score2 ==> OnlyOneAndTwo(l, counts) == (e11, ZeroRangeEntry()))
  {
  }

  /** guessParametersWithOne with a second candidate of at most one interval: only 1 and 2 are considered. */
  lemma WithOneSparseSecond(l: IntervalList, counts: seq<nat>, c0: RangeEntry, c1: RangeEntry)
    requires WellFormed(l) && l.totalCount >= 3
    requires c1.count <= 1
    ensures ParamsWithOne(l, counts, c0, c1) == OnlyOneAndTwo(l, counts)
  {
  }

  /** The three biased scores guessParametersWithOne compares. */
  function WithOneScores(l: IntervalList, c0: RangeEntry, c1: RangeEntry): (real, real, real)
    requires WellFormed(l) && l.totalCount >= 3
  {
    var bigger := Bigger(c0, c1);
    var bias := 1.0 + 0.1 * bigger.mean;
    (AlternatingScore12(l, bigger) as real * bias,
     AlternatingScore01(l, bigger) as real * bias,
     SingleScore(l, Entry12(c0, c1), 1) as real)
  }

  /**
   * guessParametersWithOne otherwise: a best score for [1,2] alone leads to
   * ConsiderOnlyOneAndTwo; else the bigger candidate is the pixel and the
   * better biased score picks the gridline, [1,2] winning ties.
   */
  lemma WithOneChoice(l: IntervalList, counts: seq<nat>, c0: RangeEntry, c1: RangeEntry)
    requires WellFormed(l) && l.totalCount >= 3
    requires c1.count > 1
    ensures var (score12, score01, only12) := WithOneScores(l, c0, c1);
      && (only12 >= score12 && only12 >= score01 ==> ParamsWithOne(l, counts, c0, c1) == OnlyOneAndTwo(l, counts))
      && (score12 > only12 && score12 >= score01 ==> ParamsWithOne(l, counts, c0, c1) == (Bigger(c0, c1), Entry12(c0, c1)))
      && (score01 > only12 && score01 > score12 ==> ParamsWithOne(l, counts, c0, c1) == (Bigger(c0, c1), Entry11(counts)))
  {
    var (score12, score01, only12) := WithOneScores(l, c0, c1);
    assert ParamsWithOne(l, counts, c0, c1) ==
      var highest := Max3Real(score01, score12, only12);
      if highest == only12 then OnlyOneAndTwo(l, counts)
      else if highest == score12 then (Bigger(c0, c1), Entry12(c0, c1))
      else (Bigger(c0, c1), Entry11(counts));
  }

  /**
   * guessParametersNoOne outside the double-width case: alternation wins ties
   * and pairs the bigger candidate (pixel) with the smaller (gridline); then
   * the first candidate alone, then the second.
   */
  lemma NoOneBaseChoice(l: IntervalList, c0: RangeEntry, c1: RangeEntry)
    requires WellFormed(l) && l.totalCount >= 3
    requires c1.count != 0 && !DoubleWidth(c0, c1)
    ensures var score1, score2 := SingleScore(l, c0, 0), SingleScore(l, c1, 0);
      var alternating := AlternatingScore(l, c0, c1);
      && (alternating >= score1 && alternating >= score2 ==> ParamsNoOne(l, c0, c1) == (Bigger(c0, c1), Smaller(c0, c1)))
      && (score1 > alternating && score1 >= score2 ==> ParamsNoOne(l, c0, c1) == (c0, ZeroRangeEntry()))
      && (score2 > alternating && score2 > score1 ==> ParamsNoOne(l, c0, c1) == (c1, ZeroRangeEntry()))
  {
  }

  /**
   * guessParametersNoOne in the double-width case: a misaligned bigger
   * candidate gives the smaller as pixel; otherwise the higher single score
   * (runs of two or more) wins and a tie goes to the first candidate.
   */
  lemma NoOneDoubleWidthChoice(l: IntervalList, c0: RangeEntry, c1: RangeEntry)
    requires WellFormed(l) && l.totalCount >= 3
    requires c1.count != 0 && DoubleWidth(c0, c1)
    ensures var bigger, smaller := Bigger(c0, c1), Smaller(c0, c1);
      var aligned := Aligned(Interior(l), BoundsOf(bigger), bigger.mean);
      var bs, ss := SingleScore(l, bigger, 1), SingleScore(l, smaller, 1);
      && (!aligned ==> ParamsNoOne(l, c0, c1) == (smaller, ZeroRangeEntry()))
      && (aligned && bs > ss ==> ParamsNoOne(l, c0, c1) == (bigger, ZeroRangeEntry()))
      && (aligned && ss > bs ==> ParamsNoOne(l, c0, c1) == (smaller, ZeroRangeEntry()))
      && (aligned && ss == bs ==> ParamsNoOne(l, c0, c1) == (c0, ZeroRangeEntry()))
  {
  }
}
