/**
 * The mean pixel and gridline sizes of a labelled segment list
 * (gridlines/errors.go, calculateItemAverages). Only the interior entries
 * labelled Grid or Pixel count, together with the elements of solved sections,
 * whose even positions are gridlines and odd positions pixels.
 */
module ItemAverages {
  import opened Seqs
  import opened Intervals

  /** The mean pixel and mean gridline size. */
  datatype Means = Means(pixel: real, grid: real)

  /** The total length of the entries labelled t with index in [1, n). */
  function LabelSum(c: CombinedList, t: Label, n: nat): nat
    requires Parallel(c) && (n <= 1 || n <= |c.intervals|)
  {
    if n <= 1 then 0 else LabelSum(c, t, n - 1) + (if c.types[n - 1] == t then c.intervals[n - 1] else 0)
  }

  /** The number of entries labelled t with index in [1, n). */
  function LabelCount(c: CombinedList, t: Label, n: nat): nat
    requires Parallel(c) && (n <= 1 || n <= |c.intervals|)
  {
    if n <= 1 then 0 else LabelCount(c, t, n - 1) + (if c.types[n - 1] == t then 1 else 0)
  }

  /** The end of the interior: the last entry is left out, and so is the first. */
  function InteriorEnd(c: CombinedList): nat
  {
    if |c.intervals| >= 2 then |c.intervals| - 1 else 1
  }

  /** The total of the elements of s before n whose index has the given parity. */
  function ParitySum(s: seq<nat>, parity: nat, n: nat): nat
    requires n <= |s|
  {
    if n == 0 then 0 else ParitySum(s, parity, n - 1) + (if (n - 1) % 2 == parity then s[n - 1] else 0)
  }

  /** The number of indexes before n with the given parity. */
  function ParityCount(s: seq<nat>, parity: nat, n: nat): nat
    requires n <= |s|
  {
    if n == 0 then 0 else ParityCount(s, parity, n - 1) + (if (n - 1) % 2 == parity then 1 else 0)
  }

  /** ParitySum over the first k sections. */
  function SectionsSum(fixed: seq<seq<nat>>, parity: nat, k: nat): nat
    requires k <= |fixed|
  {
    if k == 0 then 0 else SectionsSum(fixed, parity, k - 1) + ParitySum(fixed[k - 1], parity, |fixed[k - 1]|)
  }

  /** ParityCount over the first k sections. */
  function SectionsCount(fixed: seq<seq<nat>>, parity: nat, k: nat): nat
    requires k <= |fixed|
  {
    if k == 0 then 0 else SectionsCount(fixed, parity, k - 1) + ParityCount(fixed[k - 1], parity, |fixed[k - 1]|)
  }

  /** A mean, or the midpoint of the guess's bounds when nothing was counted. */
  function Average(sum: nat, count: nat, guess: RangeEntry): real
  {
    if count == 0 then (guess.lo + guess.hi) as real / 2.0 else sum as real / count as real
  }

  /** calculateItemAverages, as a value. */
  function Averages(c: CombinedList, pixelGuess: RangeEntry, gridGuess: RangeEntry, fixed: seq<seq<nat>>): Means
    requires Parallel(c)
  {
    var e := InteriorEnd(c);
    Means(
      Average(LabelSum(c, Pixel, e) + SectionsSum(fixed, 1, |fixed|),
              LabelCount(c, Pixel, e) + SectionsCount(fixed, 1, |fixed|), pixelGuess),
      Average(LabelSum(c, Grid, e) + SectionsSum(fixed, 0, |fixed|),
              LabelCount(c, Grid, e) + SectionsCount(fixed, 0, |fixed|), gridGuess))
  }

  /** The first loop of calculateItemAverages: totals and counts of the interior Grid and Pixel entries. */
  method CountInterior(c: CombinedList) returns (sumPixel: real, sumGrid: real, countPixel: real, countGrid: real)
    requires Parallel(c)
    ensures sumGrid == LabelSum(c, Grid, InteriorEnd(c)) as real && countGrid == LabelCount(c, Grid, InteriorEnd(c)) as real
    ensures sumPixel == LabelSum(c, Pixel, InteriorEnd(c)) as real && countPixel == LabelCount(c, Pixel, InteriorEnd(c)) as real
  {
    sumPixel, sumGrid := 0.0, 0.0;
    countPixel, countGrid := 0.0, 0.0;
    var length := |c.intervals|;
    var i := 1;
    while i < length - 1
      invariant 1 <= i && (i <= length - 1 || i == 1)
      invariant sumGrid == LabelSum(c, Grid, i) as real && countGrid == LabelCount(c, Grid, i) as real
      invariant sumPixel == LabelSum(c, Pixel, i) as real && countPixel == LabelCount(c, Pixel, i) as real
    {
      if c.types[i] == Grid {
        sumGrid := sumGrid + c.intervals[i] as real;
        countGrid := countGrid + 1.0;
      }
      if c.types[i] == Pixel {
        sumPixel := sumPixel + c.intervals[i] as real;
        countPixel := countPixel + 1.0;
      }
      i := i + 1;
    }
    assert i == InteriorEnd(c);
  }

  /** The inner loop over one solved section: even positions add to the gridline totals, odd ones to the pixel totals. */
  method AddSection(section: seq<nat>, sumPixel0: real, sumGrid0: real, countPixel0: real, countGrid0: real)
    returns (sumPixel: real, sumGrid: real, countPixel: real, countGrid: real)
    ensures sumGrid == sumGrid0 + ParitySum(section, 0, |section|) as real
    ensures countGrid == countGrid0 + ParityCount(section, 0, |section|) as real
    ensures sumPixel == sumPixel0 + ParitySum(section, 1, |section|) as real
    ensures countPixel == countPixel0 + ParityCount(section, 1, |section|) as real
  {
    sumPixel, sumGrid, countPixel, countGrid := sumPixel0, sumGrid0, countPixel0, countGrid0;
    for j := 0 to |section|
      invariant sumGrid == sumGrid0 + ParitySum(section, 0, j) as real
      invariant countGrid == countGrid0 + ParityCount(section, 0, j) as real
      invariant sumPixel == sumPixel0 + ParitySum(section, 1, j) as real
      invariant countPixel == countPixel0 + ParityCount(section, 1, j) as real
    {
      if j % 2 == 0 {
        sumGrid := sumGrid + section[j] as real;
        countGrid := countGrid + 1.0;
      } else {
        sumPixel := sumPixel + section[j] as real;
        countPixel := countPixel + 1.0;
      }
    }
  }

  /** calculateItemAverages */
  method CalculateItemAverages(c: CombinedList, pixelGuess: RangeEntry, gridGuess: RangeEntry, fixed: seq<seq<nat>>)
    returns (meanPixel: real, meanGrid: real)
    requires Parallel(c)
    ensures Means(meanPixel, meanGrid) == Averages(c, pixelGuess, gridGuess, fixed)
  {
    var sumPixel, sumGrid, countPixel, countGrid := CountInterior(c);
    var e := InteriorEnd(c);
    for k := 0 to |fixed|
      invariant sumGrid == (LabelSum(c, Grid, e) + SectionsSum(fixed, 0, k)) as real
      invariant countGrid == (LabelCount(c, Grid, e) + SectionsCount(fixed, 0, k)) as real
      invariant sumPixel == (LabelSum(c, Pixel, e) + SectionsSum(fixed, 1, k)) as real
      invariant countPixel == (LabelCount(c, Pixel, e) + SectionsCount(fixed, 1, k)) as real
    {
      sumPixel, sumGrid, countPixel, countGrid := AddSection(fixed[k], sumPixel, sumGrid, countPixel, countGrid);
    }
    if countGrid == 0.0 {
      meanGrid := (gridGuess.lo + gridGuess.hi) as real / 2.0;
    } else {
      meanGrid := sumGrid / countGrid;
    }
    if countPixel == 0.0 {
      meanPixel := (pixelGuess.lo + pixelGuess.hi) as real / 2.0;
    } else {
      meanPixel := sumPixel / countPixel;
    }
  }

  // ---------------------------------------------------------------------
  // Properties

  /** Two lists that agree on their interior have the same label totals. */
  lemma {:induction false} LabelTotalsAgree(c: CombinedList, d: CombinedList, t: Label, n: nat)
    requires Parallel(c) && Parallel(d) && n <= InteriorEnd(c)
    requires |c.intervals| == |d.intervals|
    requires forall i :: 1 <= i < n ==> c.intervals[i] == d.intervals[i] && c.types[i] == d.types[i]
    ensures LabelSum(c, t, n) == LabelSum(d, t, n) && LabelCount(c, t, n) == LabelCount(d, t, n)
  {
    if n > 1 {
      LabelTotalsAgree(c, d, t, n - 1);
    }
  }

  /** The edge entries play no part: lists that agree on their interior have the same averages. */
  lemma AveragesIgnoreEdges(c: CombinedList, d: CombinedList, pixelGuess: RangeEntry, gridGuess: RangeEntry, fixed: seq<seq<nat>>)
    requires Parallel(c) && Parallel(d)
    requires |c.intervals| == |d.intervals|
    requires forall i :: 1 <= i < |c.intervals| - 1 ==> c.intervals[i] == d.intervals[i] && c.types[i] == d.types[i]
    ensures Averages(c, pixelGuess, gridGuess, fixed) == Averages(d, pixelGuess, gridGuess, fixed)
  {
    LabelTotalsAgree(c, d, Grid, InteriorEnd(c));
    LabelTotalsAgree(c, d, Pixel, InteriorEnd(c));
  }

  /** With bounds that are not negative, both averages are not negative. */
  lemma AveragesNonNegative(c: CombinedList, pixelGuess: RangeEntry, gridGuess: RangeEntry, fixed: seq<seq<nat>>)
    requires Parallel(c)
    requires pixelGuess.lo >= 0 && pixelGuess.hi >= 0 && gridGuess.lo >= 0 && gridGuess.hi >= 0
    ensures Averages(c, pixelGuess, gridGuess, fixed).pixel >= 0.0
    ensures Averages(c, pixelGuess, gridGuess, fixed).grid >= 0.0
  {
  }

  /**
   * A solved section counts as starting with a gridline: its even positions
   * are gridlines and its odd positions pixels, and every element is counted
   * exactly once.
   */
  lemma {:induction false} SectionParity(s: seq<nat>, n: nat)
    requires n <= |s|
    ensures ParityCount(s, 0, n) == (n + 1) / 2
    ensures ParityCount(s, 1, n) == n / 2
    ensures ParitySum(s, 0, n) + ParitySum(s, 1, n) == Sum(s[..n])
  {
    if n > 0 {
      SectionParity(s, n - 1);
      assert s[..n][..n - 1] == s[..n - 1];
    }
  }

  /**
   * The averages of a list whose interior is one Pixel of 3 between Grids of 1
   * and 2: no fixed section, so no category falls back to its guess.
   */
  lemma AveragesExample(pixelGuess: RangeEntry, gridGuess: RangeEntry)
    ensures Averages(CombinedList([7, 1, 3, 2, 9], [Unknown, Grid, Pixel, Grid, Unknown]), pixelGuess, gridGuess, [])
         == Means(3.0, 1.5)
  {
    var c := CombinedList([7, 1, 3, 2, 9], [Unknown, Grid, Pixel, Grid, Unknown]);
    assert LabelSum(c, Grid, 4) == 3 && LabelCount(c, Grid, 4) == 2;
    assert LabelSum(c, Pixel, 4) == 3 && LabelCount(c, Pixel, 4) == 1;
  }

  /** With a fixed section [1, 4, 1] added, the gridline mean takes in its two gridlines and the pixel mean its pixel. */
  lemma AveragesWithSectionExample(pixelGuess: RangeEntry, gridGuess: RangeEntry)
    ensures Averages(CombinedList([7, 1, 3, 2, 9], [Unknown, Grid, Pixel, Grid, Unknown]), pixelGuess, gridGuess, [[1, 4, 1]])
         == Means(3.5, 1.25)
  {
    var c := CombinedList([7, 1, 3, 2, 9], [Unknown, Grid, Pixel, Grid, Unknown]);
    assert LabelSum(c, Grid, 4) == 3 && LabelCount(c, Grid, 4) == 2;
    assert LabelSum(c, Pixel, 4) == 3 && LabelCount(c, Pixel, 4) == 1;
    var s: seq<nat> := [1, 4, 1];
    assert ParitySum(s, 0, 3) == 2 && ParityCount(s, 0, 3) == 2;
    assert ParitySum(s, 1, 3) == 4 && ParityCount(s, 1, 3) == 1;
  }

  /** An interior with no Grid entry and no section falls back to the midpoint of the gridline guess. */
  lemma AveragesFallback(c: CombinedList, pixelGuess: RangeEntry, gridGuess: RangeEntry)
    requires Parallel(c)
    requires forall i :: 1 <= i < |c.intervals| - 1 ==> c.types[i] != Grid
    ensures Averages(c, pixelGuess, gridGuess, []).grid == (gridGuess.lo + gridGuess.hi) as real / 2.0
  {
    NoLabelCount(c, Grid, InteriorEnd(c));
  }

  lemma {:induction false} NoLabelCount(c: CombinedList, t: Label, n: nat)
    requires Parallel(c) && n <= InteriorEnd(c)
    requires forall i :: 1 <= i < n ==> c.types[i] != t
    ensures LabelCount(c, t, n) == 0
  {
    if n > 1 {
      NoLabelCount(c, t, n - 1);
    }
  }
}
