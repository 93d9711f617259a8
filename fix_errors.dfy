/**
 * The gap filler of the gridline engine (gridlines/errors.go,
 * GridlinesFixErrors and separateUnknownItems). Every Unknown entry of a
 * labelled segment list is replaced by a solved alternating run, and the
 * labels are rebuilt.
 */
module FixErrors {
  import opened Wrappers
  import opened GoNum
  import opened Seqs
  import opened Intervals
  import opened Sections
  import opened Reassemble
  import opened ItemAverages

  /** separateUnknownItems */
  method SeparateUnknownItems(c: CombinedList) returns (left: nat, right: nat, middle: seq<nat>)
    requires Parallel(c) && |c.intervals| >= 1
    ensures left == c.intervals[0] && right == c.intervals[|c.intervals| - 1]
    ensures middle == UnknownLengths(c, 1, |c.intervals| - 1)
  {
    var length := |c.intervals|;
    left, right := c.intervals[0], c.intervals[length - 1];
    middle := [];
    var i := 1;
    while i < length - 1
      invariant 1 <= i && (i <= length - 1 || i == 1)
      invariant middle == UnknownLengths(c, 1, i)
    {
      if c.types[i] == Unknown {
        middle := middle + [c.intervals[i]];
      }
      i := i + 1;
    }
  }

  /** Every middle Unknown length solved with the same means. */
  function MiddleSections(middle: seq<nat>, m: Means): (r: seq<seq<nat>>)
    requires UsableMeans(m.pixel, m.grid)
    ensures |r| == |middle|
  {
    seq(|middle|, i requires 0 <= i < |middle| => MiddleSection(middle[i], m.pixel, m.grid))
  }

  /** The interior Unknown lengths, in order. */
  function Middle(c: CombinedList): seq<nat>
    requires Parallel(c) && |c.intervals| >= 1
  {
    UnknownLengths(c, 1, |c.intervals| - 1)
  }

  /** The averages from the correct entries alone. */
  function FirstMeans(c: CombinedList, pixelGuess: RangeEntry, gridGuess: RangeEntry): Means
    requires Parallel(c)
  {
    Averages(c, pixelGuess, gridGuess, [])
  }

  /**
   * Both rounds of averages are usable by the solvers. The solution of an
   * Unknown run divides by the sum of the means; a zero sum is left out.
   */
  predicate FixableMeans(c: CombinedList, pixelGuess: RangeEntry, gridGuess: RangeEntry)
    requires Parallel(c)
  {
    |c.intervals| == 0 ||
    var first := FirstMeans(c, pixelGuess, gridGuess);
    UsableMeans(first.pixel, first.grid) &&
    var second := Averages(c, pixelGuess, gridGuess, MiddleSections(Middle(c), first));
    UsableMeans(second.pixel, second.grid)
  }

  /** The averages refined with the solved middle sections, used for the edges. */
  function SecondMeans(c: CombinedList, pixelGuess: RangeEntry, gridGuess: RangeEntry): (m: Means)
    requires Parallel(c) && |c.intervals| >= 1 && FixableMeans(c, pixelGuess, gridGuess)
    ensures UsableMeans(m.pixel, m.grid)
  {
    Averages(c, pixelGuess, gridGuess, MiddleSections(Middle(c), FirstMeans(c, pixelGuess, gridGuess)))
  }

  /** The solved sections: the left edge, the middle Unknowns in order, the right edge. */
  function FixedSections(c: CombinedList, pixelGuess: RangeEntry, gridGuess: RangeEntry): (r: Result<seq<seq<nat>>>)
    requires Parallel(c) && |c.intervals| >= 1 && FixableMeans(c, pixelGuess, gridGuess)
    ensures r.Ok? ==> |r.value| == |Middle(c)| + 2
  {
    var middleFixed := MiddleSections(Middle(c), FirstMeans(c, pixelGuess, gridGuess));
    var m := SecondMeans(c, pixelGuess, gridGuess);
    var left := EdgeSection(c.intervals[0], m.pixel, m.grid, true);
    var right := EdgeSection(c.intervals[|c.intervals| - 1], m.pixel, m.grid, false);
    if left.Panic? then Panic(left.reason)
    else if right.Panic? then Panic(right.reason)
    else Ok([left.value] + middleFixed + [right.value])
  }

  /** GridlinesFixErrors, as a value. */
  function Fixed(c: CombinedList, pixelGuess: RangeEntry, gridGuess: RangeEntry): Result<CombinedList>
    requires Parallel(c) && FixableMeans(c, pixelGuess, gridGuess)
  {
    if |c.intervals| == 0 then Panic("index out of range")
    else
      match FixedSections(c, pixelGuess, gridGuess)
      case Panic(m) => Panic(m)
      case Ok(fixed) => Reassembled(c, fixed)
  }

  /** The loop of GridlinesFixErrors over the middle Unknown lengths: each one solved with the same means. */
  method SolveMiddleUnknowns(middle: seq<nat>, meanPixel: real, meanGrid: real) returns (middleFixed: seq<seq<nat>>)
    requires UsableMeans(meanPixel, meanGrid)
    ensures middleFixed == MiddleSections(middle, Means(meanPixel, meanGrid))
  {
    middleFixed := [];
    for i := 0 to |middle|
      invariant middleFixed == MiddleSections(middle, Means(meanPixel, meanGrid))[..i]
    {
      var section := GuessMiddleUnknownSection(middle[i], meanPixel, meanGrid);
      middleFixed := middleFixed + [section];
    }
    assert middleFixed == MiddleSections(middle, Means(meanPixel, meanGrid))[..|middle|];
  }

  /** GridlinesFixErrors */
  method GridlinesFixErrors(c: CombinedList, pixelGuess: RangeEntry, gridGuess: RangeEntry)
    returns (r: Result<CombinedList>)
    requires Parallel(c) && FixableMeans(c, pixelGuess, gridGuess)
    ensures r == Fixed(c, pixelGuess, gridGuess)
  {
    if |c.intervals| == 0 {
      return Panic("index out of range");
    }
    var leftEdgeUnknown, rightEdgeUnknown, middleUnknowns := SeparateUnknownItems(c);
    assert middleUnknowns == Middle(c);
    var meanPixel, meanGrid := CalculateItemAverages(c, pixelGuess, gridGuess, []);
    ghost var first := Means(meanPixel, meanGrid);
    assert first == FirstMeans(c, pixelGuess, gridGuess);
    assert UsableMeans(meanPixel, meanGrid);
    var middleFixed := SolveMiddleUnknowns(middleUnknowns, meanPixel, meanGrid);
    meanPixel, meanGrid := CalculateItemAverages(c, pixelGuess, gridGuess, middleFixed);
    assert Means(meanPixel, meanGrid) == SecondMeans(c, pixelGuess, gridGuess);
    var leftEdgeFixed := GuessEdgeUnknownSection(leftEdgeUnknown, meanPixel, meanGrid, true);
    var rightEdgeFixed := GuessEdgeUnknownSection(rightEdgeUnknown, meanPixel, meanGrid, false);
    if leftEdgeFixed.Panic? {
      return Panic(leftEdgeFixed.reason);
    }
    if rightEdgeFixed.Panic? {
      return Panic(rightEdgeFixed.reason);
    }
    var fixedSections := [leftEdgeFixed.value] + middleFixed + [rightEdgeFixed.value];
    r := ReAssembleCombinedList(c, fixedSections);
  }

  // ---------------------------------------------------------------------
  // Properties

  /**
   * When both edges are Unknown, the Unknown lengths of the whole list are the
   * left edge, the middle Unknowns and the right edge.
   */
  lemma UnknownsAroundMiddle(c: CombinedList)
    requires Parallel(c) && |c.intervals| >= 2
    requires c.types[0] == Unknown && c.types[|c.intervals| - 1] == Unknown
    ensures UnknownLengths(c, 0, |c.intervals|) == [c.intervals[0]] + Middle(c) + [c.intervals[|c.intervals| - 1]]
  {
    UnknownsFromZero(c, |c.intervals| - 1);
  }

  lemma {:induction false} UnknownsFromZero(c: CombinedList, n: nat)
    requires Parallel(c) && 1 <= n <= |c.intervals|
    requires c.types[0] == Unknown
    ensures UnknownLengths(c, 0, n) == [c.intervals[0]] + UnknownLengths(c, 1, n)
  {
    if n > 1 {
      UnknownsFromZero(c, n - 1);
    }
  }

  /**
   * With both edges Unknown and the solved sections found, the result holds
   * no Unknown label, its labels alternate, it is the original list with every
   * Unknown entry replaced by its section, and it has one element per copied
   * entry and per element of a section.
   */
  lemma FixedShape(c: CombinedList, pixelGuess: RangeEntry, gridGuess: RangeEntry)
    requires Parallel(c) && FixableMeans(c, pixelGuess, gridGuess)
    requires |c.intervals| >= 2
    requires c.types[0] == Unknown && c.types[|c.intervals| - 1] == Unknown
    requires FixedSections(c, pixelGuess, gridGuess).Ok?
    ensures Fixed(c, pixelGuess, gridGuess).Ok?
    ensures var fixed := FixedSections(c, pixelGuess, gridGuess).value;
      var r := Fixed(c, pixelGuess, gridGuess).value;
      && UnknownCount(c, |c.intervals|) == |fixed|
      && Parallel(r)
      && r.intervals == Spliced(c, fixed, |c.intervals|)
      && |r.intervals| == |c.intervals| - |fixed| + ElementCount(fixed)
      && (forall i :: 0 <= i < |r.types| ==> r.types[i] != Unknown)
      && (forall i :: 0 <= i < |r.types| - 1 ==> r.types[i] != r.types[i + 1])
  {
    UnknownsAroundMiddle(c);
    ReassembledShape(c, FixedSections(c, pixelGuess, gridGuess).value);
  }

  /** The solver inputs never wrap: every solved run adds up to the length it replaces. */
  predicate SolutionsFit(c: CombinedList, pixelGuess: RangeEntry, gridGuess: RangeEntry)
    requires Parallel(c) && |c.intervals| >= 1 && FixableMeans(c, pixelGuess, gridGuess)
  {
    var first := FirstMeans(c, pixelGuess, gridGuess);
    var second := SecondMeans(c, pixelGuess, gridGuess);
    var middle := Middle(c);
    && (forall i :: 0 <= i < |middle| ==> middle[i] < TwoTo64 && GridsFit(middle[i], first.pixel, first.grid))
    && EdgeFits(c.intervals[0], second.pixel, second.grid)
    && EdgeFits(c.intervals[|c.intervals| - 1], second.pixel, second.grid)
  }

  /** Every middle section solved without wrapping adds up to its Unknown length. */
  lemma MiddleSectionsSums(middle: seq<nat>, m: Means)
    requires UsableMeans(m.pixel, m.grid)
    requires forall i :: 0 <= i < |middle| ==> middle[i] < TwoTo64 && GridsFit(middle[i], m.pixel, m.grid)
    ensures forall i | 0 <= i < |middle| :: Sum(MiddleSections(middle, m)[i]) == middle[i]
  {
    forall i | 0 <= i < |middle|
      ensures Sum(MiddleSections(middle, m)[i]) == middle[i]
    {
      MiddleSectionSum(middle[i], m.pixel, m.grid);
    }
  }

  /** Sums taken piece by piece over a left piece, the middle pieces and a right piece. */
  lemma SumsByPiece(left: seq<nat>, pieces: seq<seq<nat>>, right: seq<nat>, l: nat, lengths: seq<nat>, r: nat)
    requires Sum(left) == l && Sum(right) == r && |pieces| == |lengths|
    requires forall i | 0 <= i < |pieces| :: Sum(pieces[i]) == lengths[i]
    ensures forall k | 0 <= k < |pieces| + 2 :: Sum(([left] + pieces + [right])[k]) == ([l] + lengths + [r])[k]
  {
    forall k | 0 <= k < |pieces| + 2
      ensures Sum(([left] + pieces + [right])[k]) == ([l] + lengths + [r])[k]
    {
      if 0 < k < |pieces| + 1 {
        assert ([left] + pieces + [right])[k] == pieces[k - 1];
        assert ([l] + lengths + [r])[k] == lengths[k - 1];
      }
    }
  }

  /** When no solved run wraps, each solved section adds up to the Unknown length it replaces. */
  lemma FixedSectionSums(c: CombinedList, pixelGuess: RangeEntry, gridGuess: RangeEntry)
    requires Parallel(c) && FixableMeans(c, pixelGuess, gridGuess)
    requires |c.intervals| >= 2
    requires c.types[0] == Unknown && c.types[|c.intervals| - 1] == Unknown
    requires SolutionsFit(c, pixelGuess, gridGuess)
    ensures FixedSections(c, pixelGuess, gridGuess).Ok?
    ensures var fixed := FixedSections(c, pixelGuess, gridGuess).value;
      var lengths := UnknownLengths(c, 0, |c.intervals|);
      |fixed| == |lengths| && forall k | 0 <= k < |fixed| :: Sum(fixed[k]) == lengths[k]
  {
    var n := |c.intervals|;
    var first := FirstMeans(c, pixelGuess, gridGuess);
    var second := SecondMeans(c, pixelGuess, gridGuess);
    var middle := Middle(c);
    EdgeSectionSum(c.intervals[0], second.pixel, second.grid, true);
    EdgeSectionSum(c.intervals[n - 1], second.pixel, second.grid, false);
    MiddleSectionsSums(middle, first);
    SumsByPiece(EdgeSection(c.intervals[0], second.pixel, second.grid, true).value, MiddleSections(middle, first),
      EdgeSection(c.intervals[n - 1], second.pixel, second.grid, false).value, c.intervals[0], middle, c.intervals[n - 1]);
    UnknownsAroundMiddle(c);
  }

  /**
   * When no solved run wraps, the gaps are filled without a panic and the
   * reassembled intervals add up to the same axis length as the original.
   */
  lemma FixedKeepsLength(c: CombinedList, pixelGuess: RangeEntry, gridGuess: RangeEntry)
    requires Parallel(c) && FixableMeans(c, pixelGuess, gridGuess)
    requires |c.intervals| >= 2
    requires c.types[0] == Unknown && c.types[|c.intervals| - 1] == Unknown
    requires SolutionsFit(c, pixelGuess, gridGuess)
    ensures Fixed(c, pixelGuess, gridGuess).Ok?
    ensures Sum(Fixed(c, pixelGuess, gridGuess).value.intervals) == Sum(c.intervals)
  {
    var n := |c.intervals|;
    FixedSectionSums(c, pixelGuess, gridGuess);
    var fixed := FixedSections(c, pixelGuess, gridGuess).value;
    FixedShape(c, pixelGuess, gridGuess);
    SplicedSum(c, fixed, n);
    assert c.intervals[..n] == c.intervals;
  }

  /**
   * The left edge is reversed so that its gridline faces the interior: the last
   * element of the left section is labelled Grid, and when the section has two
   * or more elements it is the solved gridline size.
   */
  lemma FixedLeftEdgeEndsOnGrid(c: CombinedList, pixelGuess: RangeEntry, gridGuess: RangeEntry)
    requires Parallel(c) && FixableMeans(c, pixelGuess, gridGuess)
    requires |c.intervals| >= 2
    requires c.types[0] == Unknown && c.types[|c.intervals| - 1] == Unknown
    requires FixedSections(c, pixelGuess, gridGuess).Ok?
    requires |FixedSections(c, pixelGuess, gridGuess).value[0]| >= 1
    ensures Fixed(c, pixelGuess, gridGuess).Ok?
    ensures var left := FixedSections(c, pixelGuess, gridGuess).value[0];
      var r := Fixed(c, pixelGuess, gridGuess).value;
      && |left| <= |r.intervals|
      && r.types[|left| - 1] == Grid
      && r.intervals[..|left|] == left
      && (|left| >= 2 ==> left[|left| - 1] == GridBase(SecondMeans(c, pixelGuess, gridGuess).grid))
  {
    var fixed := FixedSections(c, pixelGuess, gridGuess).value;
    var left := fixed[0];
    var second := SecondMeans(c, pixelGuess, gridGuess);
    FixedShape(c, pixelGuess, gridGuess);
    SplicedPieces(c, fixed, 0);
    var w := Spliced(c, fixed, |c.intervals|);
    assert w[0..|left|] == left;
    FirstSectionEndsOnGrid(|w|, |left|);
    EdgeSectionFacesInterior(c.intervals[0], second.pixel, second.grid, true);
  }
}
