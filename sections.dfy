/**
 * Synthesising the grid/pixel run that replaces one Unknown segment: the
 * middle solver (a run that starts and ends with a gridline), trimming from
 * the right to a target length, interleaving and the edge solver built on
 * top of them.
 */
module Sections {
  import opened Wrappers
  import opened GoNum
  import opened Seqs
  import opened Distribute

  // ---------------------------------------------------------------------
  // trimSequenceFromRight

  /**
   * The run cut down from the right so that it adds up to `target`: the
   * shortest prefix reaching the target, with its last element reduced by
   * the excess. Running past the end is the source's index panic.
   */
  function Trimmed(s: seq<nat>, target: nat): Result<seq<nat>>
    decreases |s|
  {
    if |s| == 0 then Panic("index out of range")
    else if target <= s[0] then Ok([target])
    else Prepend([s[0]], Trimmed(s[1..], target - s[0]))
  }

  /** A result with `p` put in front of its value; a panic stays a panic. */
  function Prepend(p: seq<nat>, r: Result<seq<nat>>): Result<seq<nat>>
  {
    match r
    case Ok(v) => Ok(p + v)
    case Panic(m) => Panic(m)
  }

  lemma PrependTwice(a: seq<nat>, b: seq<nat>, r: Result<seq<nat>>)
    ensures Prepend(a, Prepend(b, r)) == Prepend(a + b, r)
  {
    if r.Ok? {
      assert a + (b + r.value) == (a + b) + r.value;
    }
  }

  lemma PrependNothing(r: Result<seq<nat>>)
    ensures Prepend([], r) == r
  {
    if r.Ok? {
      assert [] + r.value == r.value;
    }
  }

  lemma SumPrefixSnoc(s: seq<int>, i: nat)
    requires i < |s|
    ensures Sum(s[..i + 1]) == Sum(s[..i]) + s[i]
  {
    assert s[..i + 1][..i] == s[..i];
  }

  /** One more element of the prefix is kept whole while the target is not yet reached. */
  lemma TrimmedStep(s: seq<nat>, target: nat, i: nat)
    requires i < |s| && Sum(s[..i + 1]) < target
    ensures Sum(s[..i]) < target
    ensures Trimmed(s[i..], target - Sum(s[..i])) == Prepend([s[i]], Trimmed(s[i + 1..], target - Sum(s[..i + 1])))
  {
    SumPrefixSnoc(s, i);
    assert s[i..][1..] == s[i + 1..];
    assert s[..i + 1] == s[..i] + [s[i]];
  }

  /** trimSequenceFromRight, returning the re-sliced sequence the source writes back through its `*[]uint` argument. */
  method TrimSequenceFromRight(intervalSequence: seq<nat>, targetItemLength: nat) returns (r: Result<seq<nat>>)
    ensures r == Trimmed(intervalSequence, targetItemLength)
  {
    var s := intervalSequence;
    if |s| == 0 {
      return Panic("index out of range");
    }
    var currentIndex := 0;
    var accumulatedLength := s[0];
    assert s[..1] == [s[0]] && s[..0] == [] && s[0..] == s;
    SumSingleton(s[0]);
    PrependNothing(Trimmed(s, targetItemLength));
    while accumulatedLength < targetItemLength
      invariant 0 <= currentIndex < |s|
      invariant accumulatedLength == Sum(s[..currentIndex + 1])
      invariant currentIndex == 0 || Sum(s[..currentIndex]) < targetItemLength
      invariant Trimmed(s, targetItemLength) ==
        Prepend(s[..currentIndex], Trimmed(s[currentIndex..], targetItemLength - Sum(s[..currentIndex])))
      decreases |s| - currentIndex
    {
      TrimmedStep(s, targetItemLength, currentIndex);
      PrependTwice(s[..currentIndex], [s[currentIndex]],
        Trimmed(s[currentIndex + 1..], targetItemLength - Sum(s[..currentIndex + 1])));
      assert s[..currentIndex] + [s[currentIndex]] == s[..currentIndex + 1];
      if currentIndex + 1 >= |s| {
        assert s[currentIndex + 1..] == [];
        return Panic("index out of range");
      }
      currentIndex := currentIndex + 1;
      SumPrefixSnoc(s, currentIndex);
      accumulatedLength := accumulatedLength + s[currentIndex];
    }
    var kept := s[..currentIndex + 1];
    var difference := accumulatedLength - targetItemLength;
    SumPrefixSnoc(s, currentIndex);
    r := Ok(kept[currentIndex := kept[currentIndex] - difference]);
    assert kept[currentIndex := kept[currentIndex] - difference] ==
      s[..currentIndex] + [targetItemLength - Sum(s[..currentIndex])];
  }

  /** The trim panics exactly when the run is empty or shorter than the target. */
  lemma {:induction false} TrimmedPanics(s: seq<nat>, target: nat)
    ensures Trimmed(s, target).Panic? <==> |s| == 0 || target > Sum(s)
    decreases |s|
  {
    if |s| > 0 {
      assert s == [s[0]] + s[1..];
      SumCons(s[0], s[1..]);
      if target > s[0] {
        TrimmedPanics(s[1..], target - s[0]);
      } else {
        SumNonNegative(s[1..]);
      }
    }
  }

  /**
   * A successful trim adds up to the target, keeps every element but the last
   * unchanged, shortens the last one only, and ends in a non-zero element
   * unless the target is 0, which leaves [0].
   */
  lemma {:induction false} TrimmedShape(s: seq<nat>, target: nat)
    requires Trimmed(s, target).Ok?
    ensures var r := Trimmed(s, target).value;
      && 1 <= |r| <= |s|
      && Sum(r) == target
      && r[..|r| - 1] == s[..|r| - 1]
      && r[|r| - 1] <= s[|r| - 1]
      && (target > 0 ==> r[|r| - 1] > 0)
      && (target == 0 ==> r == [0])
    decreases |s|
  {
    var r := Trimmed(s, target).value;
    if target <= s[0] {
      SumSingleton(target);
    } else {
      TrimmedShape(s[1..], target - s[0]);
      var rest := Trimmed(s[1..], target - s[0]).value;
      assert r == [s[0]] + rest;
      SumCons(s[0], rest);
      assert r[..|r| - 1] == [s[0]] + rest[..|rest| - 1];
      assert s[..|r| - 1] == [s[0]] + s[1..][..|rest| - 1];
    }
  }

  /** The kept prefix is the shortest one that reaches the target. */
  lemma {:induction false} TrimmedShortest(s: seq<nat>, target: nat)
    requires Trimmed(s, target).Ok?
    ensures |Trimmed(s, target).value| <= |s|
    ensures var n := |Trimmed(s, target).value|;
      (n >= 2 ==> Sum(s[..n - 1]) < target) && target <= Sum(s[..n])
    decreases |s|
  {
    TrimmedShape(s, target);
    var n := |Trimmed(s, target).value|;
    if target <= s[0] {
      assert s[..1] == [s[0]];
      SumSingleton(s[0]);
    } else {
      TrimmedShortest(s[1..], target - s[0]);
      var m := n - 1;
      assert s[..n] == [s[0]] + s[1..][..m];
      SumCons(s[0], s[1..][..m]);
      if m >= 2 {
        assert s[..n - 1] == [s[0]] + s[1..][..m - 1];
        SumCons(s[0], s[1..][..m - 1]);
      } else {
        assert s[..n - 1] == [s[0]];
        SumSingleton(s[0]);
      }
    }
  }

  /** The example from the source's documentation. */
  lemma TrimmedExample()
    ensures Trimmed([0, 6, 1, 6, 0, 5, 1], 11) == Ok([0, 6, 1, 4])
  {
    assert Trimmed([6, 0, 5, 1], 4) == Ok([4]);
    assert [1, 6, 0, 5, 1][1..] == [6, 0, 5, 1];
    assert [1] + [4] == [1, 4];
    assert Trimmed([1, 6, 0, 5, 1], 5) == Ok([1, 4]);
    assert [6, 1, 6, 0, 5, 1][1..] == [1, 6, 0, 5, 1];
    assert [6] + [1, 4] == [6, 1, 4];
    assert Trimmed([6, 1, 6, 0, 5, 1], 11) == Ok([6, 1, 4]);
    assert [0, 6, 1, 6, 0, 5, 1][1..] == [6, 1, 6, 0, 5, 1];
    assert [0] + [6, 1, 4] == [0, 6, 1, 4];
  }

  // ---------------------------------------------------------------------
  // slicesInterleave and makeGridBaseSections

  /**
   * `left` and `right` taken in turns, starting with `left`; defined by
   * handing the turn to the other sequence after every element.
   */
  function Interleaved(left: seq<nat>, right: seq<nat>): (r: seq<nat>)
    requires |left| == |right| + 1 || |left| == |right|
    ensures |r| == |left| + |right|
    decreases |left| + |right|
  {
    if |left| == 0 then [] else [left[0]] + Interleaved(right, left[1..])
  }

  /** Even positions come from `left`, odd ones from `right`, in order. */
  lemma {:induction false} InterleavedAt(left: seq<nat>, right: seq<nat>, i: nat)
    requires |left| == |right| + 1 || |left| == |right|
    requires i < |left| + |right|
    ensures Interleaved(left, right)[i] == if i % 2 == 0 then left[i / 2] else right[i / 2]
    decreases |left| + |right|
  {
    if i > 0 {
      InterleavedAt(right, left[1..], i - 1);
    }
  }

  /** Interleaving keeps the total. */
  lemma {:induction false} InterleavedSum(left: seq<nat>, right: seq<nat>)
    requires |left| == |right| + 1 || |left| == |right|
    ensures Sum(Interleaved(left, right)) == Sum(left) + Sum(right)
    decreases |left| + |right|
  {
    if |left| > 0 {
      InterleavedSum(right, left[1..]);
      SumCons(left[0], Interleaved(right, left[1..]));
      assert left == [left[0]] + left[1..];
      SumCons(left[0], left[1..]);
    }
  }

  /** slicesInterleave; the source assumes len(left) = len(right) + 1 and indexes out of range otherwise. */
  method SlicesInterleave(left: seq<nat>, right: seq<nat>) returns (r: seq<nat>)
    requires |left| == |right| + 1 || |left| == |right|
    ensures r == Interleaved(left, right)
  {
    var interleaved := new nat[|left| + |right|];
    for i := 0 to |left| + |right|
      invariant forall j :: 0 <= j < i ==> interleaved[j] == if j % 2 == 0 then left[j / 2] else right[j / 2]
    {
      var sliceIndex := i / 2;
      var whichSlice := i % 2;
      if whichSlice == 0 {
        interleaved[i] := left[sliceIndex];
      } else {
        interleaved[i] := right[sliceIndex];
      }
    }
    r := interleaved[..];
    forall j | 0 <= j < |r|
      ensures r[j] == Interleaved(left, right)[j]
    {
      InterleavedAt(left, right, j);
    }
  }

  /** n copies of `v`. */
  function Repeat(n: nat, v: nat): (r: seq<nat>)
    ensures |r| == n
  {
    seq(n, _ => v)
  }

  lemma {:induction false} RepeatSum(n: nat, v: nat)
    ensures Sum(Repeat(n, v)) == n * v
  {
    if n > 0 {
      assert Repeat(n, v)[..n - 1] == Repeat(n - 1, v);
      RepeatSum(n - 1, v);
    }
  }

  /** makeGridBaseSections: `gridCount` gridlines of the base size. */
  method MakeGridBaseSections(gridCount: nat, gridBase: nat) returns (r: seq<nat>)
    ensures |r| == gridCount
    ensures forall i :: 0 <= i < gridCount ==> r[i] == gridBase
  {
    var gridSections := new nat[gridCount];
    for i := 0 to gridCount
      invariant forall j :: 0 <= j < i ==> gridSections[j] == gridBase
    {
      gridSections[i] := gridBase;
    }
    r := gridSections[..];
  }

  // ---------------------------------------------------------------------
  // guessMiddleUnknownSection

  /** What the averages handed to the solvers satisfy: non-negative, not both zero. */
  predicate UsableMeans(meanPixel: real, meanGrid: real)
  {
    meanPixel >= 0.0 && meanGrid >= 0.0 && meanPixel + meanGrid > 0.0
  }

  /** The expected number of pixels between the two bounding gridlines, rounded. */
  function PixelCount(length: nat, meanPixel: real, meanGrid: real): int
    requires UsableMeans(meanPixel, meanGrid)
  {
    Round((length as real - meanGrid) / (meanGrid + meanPixel))
  }

  /** The rounded mean gridline width. */
  function GridBase(meanGrid: real): nat
    requires meanGrid >= 0.0
  {
    Round(meanGrid)
  }

  /** guessMiddleUnknownSection, as a value: gridlines of base size with the rest spread over the pixels. */
  function MiddleSection(length: nat, meanPixel: real, meanGrid: real): (r: seq<nat>)
    requires UsableMeans(meanPixel, meanGrid)
    ensures |r| >= 1
  {
    var pixels := PixelCount(length, meanPixel, meanGrid);
    if pixels <= 0 then [length]
    else
      var base := GridBase(meanGrid);
      Interleaved(Repeat(pixels + 1, base), PixelSizes(length, meanPixel, meanGrid))
  }

  /** The gridlines of the solved run fit into the length, so the `uint` subtraction does not wrap. */
  predicate GridsFit(length: nat, meanPixel: real, meanGrid: real)
    requires UsableMeans(meanPixel, meanGrid)
  {
    var pixels := PixelCount(length, meanPixel, meanGrid);
    pixels <= 0 || (pixels + 1) * GridBase(meanGrid) <= length
  }

  /** guessMiddleUnknownSection */
  method GuessMiddleUnknownSection(unknownLength: nat, meanPixel: real, meanGrid: real) returns (r: seq<nat>)
    requires UsableMeans(meanPixel, meanGrid)
    ensures r == MiddleSection(unknownLength, meanPixel, meanGrid)
  {
    var n := (unknownLength as real - meanGrid) / (meanGrid + meanPixel);
    var guessedPixelCount := Round(n);
    var guessedGridCount := guessedPixelCount + 1;
    if guessedPixelCount <= 0 {
      return [unknownLength];
    }
    var gridBaseSize: nat := Round(meanGrid);
    var gridSections := MakeGridBaseSections(guessedGridCount, gridBaseSize);
    assert gridSections == Repeat(guessedGridCount, gridBaseSize);
    var remainingLength := ToUint(unknownLength - ToUint(guessedGridCount * gridBaseSize));
    var pixelSections := DistributeEvenly(guessedPixelCount, remainingLength);
    r := SlicesInterleave(gridSections, pixelSections);
  }

  /** A run with no room for a pixel is the whole unknown length. */
  lemma MiddleSectionNoPixel(length: nat, meanPixel: real, meanGrid: real)
    requires UsableMeans(meanPixel, meanGrid)
    requires PixelCount(length, meanPixel, meanGrid) <= 0
    ensures MiddleSection(length, meanPixel, meanGrid) == [length]
  {
  }

  /**
   * Otherwise the run has 2n+1 elements for n pixels: gridlines of base size
   * at the even positions and the distributed pixel sizes at the odd ones.
   */
  lemma MiddleSectionShape(length: nat, meanPixel: real, meanGrid: real)
    requires UsableMeans(meanPixel, meanGrid)
    requires PixelCount(length, meanPixel, meanGrid) > 0
    ensures var r := MiddleSection(length, meanPixel, meanGrid);
      var pixels := PixelCount(length, meanPixel, meanGrid);
      && |r| == 2 * pixels + 1
      && (forall k :: 0 <= k <= pixels ==> r[2 * k] == GridBase(meanGrid))
      && (forall k :: 0 <= k < pixels ==> r[2 * k + 1] == PixelSizes(length, meanPixel, meanGrid)[k])
  {
    MiddleSectionSplit(length, meanPixel, meanGrid);
    InterleavedGrid(PixelCount(length, meanPixel, meanGrid), GridBase(meanGrid), PixelSizes(length, meanPixel, meanGrid));
  }

  /** Gridlines of one base size interleaved with the pixel sizes. */
  lemma InterleavedGrid(pixels: nat, base: nat, spread: seq<nat>)
    requires |spread| == pixels
    ensures var r := Interleaved(Repeat(pixels + 1, base), spread);
      && |r| == 2 * pixels + 1
      && (forall k :: 0 <= k <= pixels ==> r[2 * k] == base)
      && (forall k :: 0 <= k < pixels ==> r[2 * k + 1] == spread[k])
  {
    var grids := Repeat(pixels + 1, base);
    var r := Interleaved(grids, spread);
    forall k | 0 <= k <= pixels
      ensures r[2 * k] == base
    {
      InterleavedAt(grids, spread, 2 * k);
    }
    forall k | 0 <= k < pixels
      ensures r[2 * k + 1] == spread[k]
    {
      InterleavedAt(grids, spread, 2 * k + 1);
    }
  }

  lemma MiddleSectionSplit(length: nat, meanPixel: real, meanGrid: real)
    requires UsableMeans(meanPixel, meanGrid)
    requires PixelCount(length, meanPixel, meanGrid) > 0
    ensures MiddleSection(length, meanPixel, meanGrid) ==
      Interleaved(Repeat(PixelCount(length, meanPixel, meanGrid) + 1, GridBase(meanGrid)), PixelSizes(length, meanPixel, meanGrid))
  {
  }

  /** The pixel sizes of a solved run: what the gridlines leave, spread evenly. */
  function PixelSizes(length: nat, meanPixel: real, meanGrid: real): (r: seq<nat>)
    requires UsableMeans(meanPixel, meanGrid)
    requires PixelCount(length, meanPixel, meanGrid) > 0
    ensures |r| == PixelCount(length, meanPixel, meanGrid)
  {
    var pixels := PixelCount(length, meanPixel, meanGrid);
    Distribution(pixels, ToUint(length - ToUint((pixels + 1) * GridBase(meanGrid))))
  }

  /** The pixel sizes differ by at most one: each is ⌊rest/n⌋ or one more. */
  lemma PixelSizesBalanced(length: nat, meanPixel: real, meanGrid: real, k: nat)
    requires UsableMeans(meanPixel, meanGrid)
    requires 0 <= k < PixelCount(length, meanPixel, meanGrid)
    ensures var pixels := PixelCount(length, meanPixel, meanGrid);
      var rest := ToUint(length - ToUint((pixels + 1) * GridBase(meanGrid)));
      PixelSizes(length, meanPixel, meanGrid)[k] in {rest / pixels, rest / pixels + 1}
  {
    var pixels := PixelCount(length, meanPixel, meanGrid);
    DistributionBalanced(pixels, ToUint(length - ToUint((pixels + 1) * GridBase(meanGrid))));
  }

  /** When the gridlines fit, the solved run adds up to the unknown length. */
  lemma MiddleSectionSum(length: nat, meanPixel: real, meanGrid: real)
    requires UsableMeans(meanPixel, meanGrid)
    requires GridsFit(length, meanPixel, meanGrid)
    requires length < TwoTo64
    ensures Sum(MiddleSection(length, meanPixel, meanGrid)) == length
  {
    var pixels := PixelCount(length, meanPixel, meanGrid);
    if pixels <= 0 {
      MiddleSectionNoPixel(length, meanPixel, meanGrid);
      SumSingleton(length);
    } else {
      MiddleSectionSplit(length, meanPixel, meanGrid);
      SolvedSum(length, pixels, GridBase(meanGrid));
    }
  }

  /** The interleaving of pixels + 1 gridlines of `base` with the spread remainder adds up to the length. */
  lemma SolvedSum(length: nat, pixels: nat, base: nat)
    requires 0 < pixels && (pixels + 1) * base <= length < TwoTo64
    ensures Sum(Interleaved(Repeat(pixels + 1, base), Distribution(pixels, ToUint(length - ToUint((pixels + 1) * base))))) == length
  {
    var grids := (pixels + 1) * base;
    var remaining := ToUint(length - ToUint(grids));
    assert remaining == length - grids;
    InterleavedSum(Repeat(pixels + 1, base), Distribution(pixels, remaining));
    RepeatSum(pixels + 1, base);
    DistributionBalanced(pixels, remaining);
  }

  // ---------------------------------------------------------------------
  // guessEdgeUnknownSection

  /** How many whole pixel-plus-gridline periods the edge length holds. */
  function EdgePeriods(length: nat, meanPixel: real, meanGrid: real): nat
    requires UsableMeans(meanPixel, meanGrid)
  {
    Trunc(length as real / (meanGrid + meanPixel))
  }

  /**
   * The length of the dummy run the edge solver solves as a middle section:
   * ten more periods than the edge holds plus one gridline, rounded.
   */
  function DummyLength(length: nat, meanPixel: real, meanGrid: real): nat
    requires UsableMeans(meanPixel, meanGrid)
  {
    var periods := EdgePeriods(length, meanPixel, meanGrid) + 10;
    ProductNonNegative(meanGrid + meanPixel, periods as real);
    Trunc((meanGrid + meanPixel) * (periods as real) + meanGrid + 0.5)
  }

  lemma ProductNonNegative(a: real, b: real)
    requires 0.0 <= a && 0.0 <= b
    ensures 0.0 <= a * b
  {
  }

  /**
   * guessEdgeUnknownSection, as a value: the dummy run trimmed to the edge
   * length, reversed for the left edge so that its gridline faces the interior.
   */
  function EdgeSection(length: nat, meanPixel: real, meanGrid: real, isLeftEdge: bool): Result<seq<nat>>
    requires UsableMeans(meanPixel, meanGrid)
  {
    TrimmedEdge(MiddleSection(DummyLength(length, meanPixel, meanGrid), meanPixel, meanGrid), length, isLeftEdge)
  }

  /** A solved run trimmed to the edge length, reversed for the left edge. */
  function TrimmedEdge(solved: seq<nat>, length: nat, isLeftEdge: bool): Result<seq<nat>>
  {
    match Trimmed(solved, length)
    case Ok(t) => Ok(if isLeftEdge then Reversed(t) else t)
    case Panic(m) => Panic(m)
  }

  /** Trimming a long enough run gives an edge run of the edge length whose outermost element is non-zero. */
  lemma TrimmedEdgeSum(solved: seq<nat>, length: nat, isLeftEdge: bool)
    requires |solved| >= 1 && Sum(solved) >= length
    ensures TrimmedEdge(solved, length, isLeftEdge).Ok?
    ensures var r := TrimmedEdge(solved, length, isLeftEdge).value;
      && |r| >= 1
      && Sum(r) == length
      && (length > 0 ==> (if isLeftEdge then r[0] else r[|r| - 1]) > 0)
  {
    TrimmedPanics(solved, length);
    TrimmedShape(solved, length);
    var t := Trimmed(solved, length).value;
    if isLeftEdge {
      var wide: seq<int> := t;
      ReversedSum(wide);
      assert Reversed(t) == Reversed(wide);
    }
  }

  /** guessEdgeUnknownSection */
  method GuessEdgeUnknownSection(unknownLength: nat, meanPixel: real, meanGrid: real, isLeftEdge: bool)
    returns (r: Result<seq<nat>>)
    requires UsableMeans(meanPixel, meanGrid)
    ensures r == EdgeSection(unknownLength, meanPixel, meanGrid, isLeftEdge)
  {
    var dummySequenceLength := DummyLength(unknownLength, meanPixel, meanGrid);
    var dummySequenceSolved := GuessMiddleUnknownSection(dummySequenceLength, meanPixel, meanGrid);
    var trimmed := TrimSequenceFromRight(dummySequenceSolved, unknownLength);
    if trimmed.Panic? {
      return Panic(trimmed.reason);
    }
    if isLeftEdge {
      r := Ok(Reversed(trimmed.value));
    } else {
      r := Ok(trimmed.value);
    }
  }

  lemma BelowProduct(a: real, b: real, c: real)
    requires b > 0.0 && a / b < c
    ensures a < b * c
  {
    assert a == b * (a / b);
  }

  /** The dummy run is never shorter than the edge it stands for. */
  lemma DummyCovers(length: nat, meanPixel: real, meanGrid: real)
    requires UsableMeans(meanPixel, meanGrid)
    ensures DummyLength(length, meanPixel, meanGrid) >= length
  {
    var total := meanGrid + meanPixel;
    var n := EdgePeriods(length, meanPixel, meanGrid);
    BelowProduct(length as real, total, (n + 1) as real);
    assert total * ((n + 10) as real) == total * ((n + 1) as real) + total * 9.0;
  }

  /** The solved dummy run adds up to the dummy length whenever its gridlines fit. */
  predicate EdgeFits(length: nat, meanPixel: real, meanGrid: real)
    requires UsableMeans(meanPixel, meanGrid)
  {
    var dummy := DummyLength(length, meanPixel, meanGrid);
    dummy < TwoTo64 && GridsFit(dummy, meanPixel, meanGrid)
  }

  /**
   * When the dummy solve does not wrap, the edge run exists, adds up to the
   * edge length, and keeps the solved run (read from the interior side) up
   * to its outermost element, which is the only one shortened.
   */
  lemma EdgeSectionSum(length: nat, meanPixel: real, meanGrid: real, isLeftEdge: bool)
    requires UsableMeans(meanPixel, meanGrid)
    requires EdgeFits(length, meanPixel, meanGrid)
    ensures EdgeSection(length, meanPixel, meanGrid, isLeftEdge).Ok?
    ensures var r := EdgeSection(length, meanPixel, meanGrid, isLeftEdge).value;
      && |r| >= 1
      && Sum(r) == length
      && (length > 0 ==> (if isLeftEdge then r[0] else r[|r| - 1]) > 0)
  {
    var dummy := DummyLength(length, meanPixel, meanGrid);
    var solved := MiddleSection(dummy, meanPixel, meanGrid);
    DummyCovers(length, meanPixel, meanGrid);
    MiddleSectionSum(dummy, meanPixel, meanGrid);
    TrimmedEdgeSum(solved, length, isLeftEdge);
  }

  /**
   * The element facing the interior (the first one for a right edge, the last
   * one for a left edge) is the solved run's first gridline whenever the edge
   * run has more than one element.
   */
  lemma EdgeSectionFacesInterior(length: nat, meanPixel: real, meanGrid: real, isLeftEdge: bool)
    requires UsableMeans(meanPixel, meanGrid)
    requires EdgeSection(length, meanPixel, meanGrid, isLeftEdge).Ok?
    ensures var r := EdgeSection(length, meanPixel, meanGrid, isLeftEdge).value;
      |r| >= 2 ==> (if isLeftEdge then r[|r| - 1] else r[0]) == GridBase(meanGrid)
  {
    var dummy := DummyLength(length, meanPixel, meanGrid);
    var solved := MiddleSection(dummy, meanPixel, meanGrid);
    TrimmedShape(solved, length);
    var t := Trimmed(solved, length).value;
    if |t| >= 2 {
      if PixelCount(dummy, meanPixel, meanGrid) <= 0 {
        MiddleSectionNoPixel(dummy, meanPixel, meanGrid);
      } else {
        MiddleSectionShape(dummy, meanPixel, meanGrid);
        assert t[0] == t[..|t| - 1][0] == solved[..|t| - 1][0] == solved[0];
      }
    }
  }
}
