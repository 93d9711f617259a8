# pixelart_restoration core, modelled in Dafny

This project models the decision logic and the buffer utilities of
pixelart_restoration. That program restores pixel art that was upscaled
by an unknown factor, often with gridlines drawn between the pixels. Each
image axis is turned into a list of segment lengths between detected
edges. Each segment is labelled Pixel, Grid or Unknown.

The model covers:

- **Segment lists.** `Intervals` models src/types. The segment list is
  built from sorted edge positions, and a labelled list is kept as two
  parallel sequences.
- **Parameter guessing.** `GuessRanges`, `GuessRuns` and
  `GuessParameters` model src/gridlines/guess.go:
  - the interior length histogram;
  - the sliding range entries;
  - the most common range and collision zeroing;
  - the run-length scores;
  - the squash of surrounded `[1,1]` pairs;
  - the final pixel/gridline decision.
- **Gap filling.** `Distribute`, `Sections`, `ItemAverages`, `Reassemble`
  and `FixErrors` model src/gridlines/errors.go:
  - the Bresenham-driven even distribution;
  - interleaving, and trimming from the right;
  - the middle and edge section solvers;
  - the category averages;
  - reassembly of the fixed list and its labels.
- **Buffer primitives.** `Slices` and `Stats` model src/common, and
  `Sorting` gives the sorted-permutation specification of the library
  sorts.
- **Edge statistics.** `Frequent`, `EdgeCounts`, `Threshold` and
  `Cleanup` model src/contrast: the edge counts, their selection,
  binarisation and speck removal.
- **Image index maps.** `Raster`, `Arrangements`, `Alterations`, `Blocks`
  and `Advanced` model src/images. `Raster` is the `image.RGBA` /
  `image.Gray` layout: a byte buffer, stride, rectangle and `PixOffset`.
  The other modules cover channel split, normalise, transpose, upscale,
  row and column fill, and the gridded upscale.
- **Kuwahara helpers.** `Kuwahara` models src/images/kuwahara/channels.go
  and sepfilter2D.go:
  - the channel split;
  - `reflectIndex101Full` with Go's truncating `%`;
  - the three-band index arithmetic of the separable filters, whose sums
    are taken over reals.
- **Visualisations.** `Cutout`, `Gridlines` and `SideBySide` model
  src/visualizations:
  - the offsets of labelled segments;
  - gridline positions on a 6 times upscaled image;
  - the stacked or side-by-side combination of two grey images.
- **Shared definitions.** `GoNum` holds Go's integer and float conversions
  (`uint` wrap-around, truncating `/` and `%`, `math.Round`, `int(x)`,
  decimal formatting for panic messages). `Wrappers` holds `Result`, with
  `Panic` standing for a Go panic, and `Status`. `Seqs` holds sums,
  counts and reversal.

Code that fills a buffer step by step is modelled as Dafny methods with
loops over arrays. Each such method is proved against a specification
function, and the properties are lemmas about that function. Code that
only composes values is modelled as functions. Go floats are modelled as
exact reals, and Go's rounding and truncation rules are written out
explicitly.

Where the code and its own documentation disagree, the model follows the
code:

- `IntervalList.TotalCount` is the number of intervals
  (src/types/list.go:30), not the pixel sum its comment describes.
- In `guessParametersWithOne`, `entry_1_1` carries the count of length-2
  intervals and `entry_2_2` the count of length-1 intervals
  (src/gridlines/guess.go:73-90). The model keeps this as written.
- `CombinedList` is read with an `IntervalTypes` field that its
  declaration lacks. It is modelled as two parallel sequences of equal
  length.

## Model

| member | source | states |
|---|---|---|
| Intervals.ZeroRangeEntry | src/types/range.go:23-25 | the sentinel entry has bounds [0,0], count 0 and mean 0 |
| Intervals.Code | src/types/combined.go:29-33 | each label is stored as a `uint8` code no greater than 2 (Pixel 0, Grid 1, Unknown 2) |
| Intervals.EdgeGaps | src/types/list.go:25-38 | the interval list built from n edges has n + 1 entries |
| Intervals.IntervalListFromSortedEdgeIndexes | src/types/list.go:25-41 | the loop produces exactly EdgeGaps of the edges, and TotalCount is the number of intervals, len(edges) + 1 |
| Intervals.GapsExact | src/types/list.go:32-38 | for sorted edges inside [0, dim_length], no `uint` conversion wraps: interval i is the exact distance between boundaries i - 1 and i |
| Intervals.GapsPrefixSum | src/types/list.go:32-38 | the first k intervals add up to the position of boundary k - 1 |
| Intervals.GapsSumToLength | src/types/list.go:11-14 | for sorted edges inside the axis the intervals add up to dim_length |
| Intervals.GapsEnds | src/types/list.go:34-38 | interval 0 is `uint(edges[0])`, the last is `uint(dim_length - last edge)`, and no edges give `[dim_length]` |
| Intervals.GapsInterior | src/types/list.go:33-36 | every inner interval is `uint(edges[i] - edges[i-1])` |
| Intervals.GapsExample | src/types/list.go:11-14 | 16 pixels cut at 4, 7 and 12 give [4, 3, 5, 4] |
| Stats.CountNonZeroU | src/common/stats.go:9-19 | the counting loop returns the number of non-zero values |
| Stats.NonZeroCount | src/common/stats.go:9-19 | the non-zero count plus the number of zeros is the length, so the count is at most the length |
| Stats.NonZeroMembers | src/common/stats.go:9-19 | a value is among the counted ones exactly when it occurs and is non-zero |
| Stats.Median | src/common/stats.go:31-38 | `(bigger - smaller) / 2 + smaller` lies between the two middle elements and equals their floored average, so it cannot overflow |
| Stats.MedianOfSliceU8 | src/common/stats.go:25-39 | the slice is sorted in place into an ascending permutation of itself; an empty slice panics with an index error, otherwise the result is Median of the sorted slice |
| Stats.MedianOfOddLength | src/common/stats.go:31-36 | for an odd length the median is the middle element |
| Stats.MedianOfSameValues | src/common/stats.go:25-38 | the median depends only on the multiset of values, not on their order |
| Slices.MemCopy | src/common/slices.go:7-12 | `to[i] = from[i]` for every i < len(from) and the rest of `to` is unchanged; a longer `from` panics once `to` is full |
| Slices.MemSet | src/common/slices.go:15-19 | every element becomes val |
| Slices.MemRepeat | src/common/slices.go:24-29 | `target[i] = sequence[i mod len(sequence)]`; an empty sequence with a non-empty target panics (division by zero) and writes nothing |
| Slices.MemSwap | src/common/slices.go:34-38 | left[i] and right[i] are exchanged for every i < len(left); a shorter right panics after the common prefix is swapped |
| Slices.MemReverse | src/common/slices.go:42-49 | the slice becomes the reversal of its old contents |
| Seqs.ReversedTwice | src/common/slices.go:42-49 | reversing twice gives the original back |
| Slices.BatchReversed | src/common/slices.go:53-73 | reversing the batch order keeps the length |
| Slices.BatchReversedConcat | src/common/slices.go:61-70 | reversing the batches of s ++ t, with s a whole number of batches, puts the reversed t before the reversed s |
| Slices.BatchOfOneReverses | src/common/slices.go:53-73 | batch size 1 is plain reversal, as MemReverse computes |
| Slices.WholeBatchKeeps | src/common/slices.go:53-73 | batch size len(slice) leaves the slice unchanged |
| Slices.BatchReversedTwice | src/common/slices.go:53-73 | reversing the batches twice is the identity |
| Slices.BatchReversedAt | src/common/slices.go:63-70 | element j of the batch at offset f comes from element j of the mirrored batch at len - f - b |
| Slices.MirroredPair | src/common/slices.go:64-69 | the two windows swapped in one iteration hold each other's target contents |
| Slices.MiddleKept | src/common/slices.go:62-63 | with an odd batch count the middle batch, which the loop never touches, is already in place |
| Slices.SwapWindows | src/common/slices.go:66-69 | MemSwap on two disjoint windows of one slice exchanges exactly those windows |
| Slices.MemReverseExtended | src/common/slices.go:53-73 | batch size 0 panics (division by zero), a length not divisible by the batch size and a batch size outside (0, len] panic with the source's messages and change nothing; it completes exactly when 0 < batch_size <= len and batch_size divides len, and then the slice holds its batches in reverse order |
| Slices.SwapMirroredBatches | src/common/slices.go:61-70 | the loop over the first half of the batches leaves the slice as BatchReversed of its old contents |
| Sorting.SortedBySorts | src/common/stats.go:26-29 | the reference insertion sort yields a sorted permutation of its input |
| Sorting.SortedUnique | src/common/stats.go:26-29 | with a one-to-one key, two sorted permutations of the same values are equal |
| Sorting.SortByKey | src/common/stats.go:26-29 | `sort.Slice` leaves the slice sorted by the key and a permutation of itself, and with a one-to-one key equal to the reference sort |
| GuessRanges.Interior | src/gridlines/guess.go:230 | the slice `Intervals[1:TotalCount-1]` has TotalCount - 2 entries, entry k being interval k + 1 |
| GuessRanges.IntervalCounts | src/gridlines/guess.go:225-239 | the lookup has max + 1 entries and entry v is the number of interior intervals of length v |
| GuessRanges.GetIntervalCounts | src/gridlines/guess.go:229-239 | the result is IntervalCounts of the interior intervals and its entries sum to TotalCount - 2 |
| GuessRanges.CountLengths | src/gridlines/guess.go:232-237 | the counting loop yields the histogram of the values, whose entries sum to the number of values |
| GuessRanges.HistogramStep | src/gridlines/guess.go:235 | counting one more value adds 1 to its entry and changes no other |
| GuessRanges.RangeOffset | src/gridlines/guess.go:289-301 | the offset is 1, 2, 3, 4 or 5 |
| GuessRanges.RangeOffsetMonotone | src/gridlines/guess.go:289-301 | ranges never narrow as their left bound grows |
| GuessRanges.IntervalRanges | src/gridlines/guess.go:254-285 | entry i has bounds [i, min(len - 1, i + offset(i))] and one entry per histogram entry |
| GuessRanges.MeanInBounds | src/gridlines/guess.go:266-281 | the length-weighted mean of a non-empty window lies inside it |
| GuessRanges.MeanWithinBounds | src/gridlines/guess.go:266-281 | a range entry with Count > 0 has its Mean within its Bounds |
| GuessRanges.CountInAtLeastFirst | src/gridlines/guess.go:266-273 | a window counts at least the intervals of its first length |
| GuessRanges.MeanAtLeastOne | src/gridlines/guess.go:266-281 | with no zero-length intervals, a non-empty window's mean is at least 1 |
| GuessRanges.CountInIsOccIn | src/gridlines/guess.go:266-273 | a range's Count is the number of interior intervals whose length is within its bounds |
| GuessRanges.GetIntervalRanges | src/gridlines/guess.go:254-285 | the accumulating loops yield IntervalRanges of the counts, Count the histogram sum over the bounds and Mean the weighted mean or 0 |
| GuessRanges.MostCommonIndex | src/gridlines/guess.go:308-318 | the scan returns the last position whose Count is at least every Count |
| GuessRanges.MostCommon | src/gridlines/guess.go:308-318 | an empty slice gives the zero entry; otherwise the result is one of the entries |
| GuessRanges.MostCommonCharacterized | src/gridlines/guess.go:308-318 | the result is the entry at the last maximal position, so ties go to the last |
| GuessRanges.MostCommonAllZero | src/gridlines/guess.go:308-318 | when every Count is 0 the last entry is returned, bounds and all |
| GuessRanges.MostCommonIntervalRange | src/gridlines/guess.go:308-318 | the loop returns MostCommon of the entries |
| GuessRanges.CollisionsZeroed | src/gridlines/guess.go:330-359 | a same-length copy with every entry's bounds unchanged |
| GuessRanges.RangesWithCollisionsZeroed | src/gridlines/guess.go:330-359 | the loop over a copy yields CollisionsZeroed, an entry being zeroed exactly when it overlaps the sample or, for round(sample.Mean) >= 4, its midpoint lies in [m/2 + 1, 2m - 1]; the input is not modified |
| GuessRanges.Collides | src/gridlines/guess.go:335-351 | definition: the overlap test of an entry with the sample; characterised by CollisionsZeroed, SampleZeroesItself and SecondCandidateSeparated |
| GuessRanges.ZeroedCountsBelow | src/gridlines/guess.go:330-359 | zeroing never raises a Count |
| GuessRanges.SampleZeroesItself | src/gridlines/guess.go:344-353 | the sample's own entry is always zeroed |
| GuessRanges.SecondCandidateSeparated | src/gridlines/guess.go:28-31 | the second candidate is empty or does not collide with the first |
| GuessRanges.SecondCandidateNotMoreCommon | src/gridlines/guess.go:28-31 | the second candidate's Count is at most the first's |
| GuessRanges.RangesExample | src/gridlines/guess.go:254-301 | the histogram [0, 3, 1, 0, 2] gives ranges [0,1], [1,2] with count 4 and [3,4] with count 2 and mean 4 |
| GuessParameters.AlternatingScore | src/gridlines/guess.go:364-377 | the alternating score S(>1) + (S(>0) - S(>1)) div 2 over the interior's run lengths lies in [0, TotalCount - 3] |
| GuessParameters.AlternatingScore12 | src/gridlines/guess.go:383-396 | the [1,2]-gridline score, taken over the squashed interior, lies in [0, TotalCount - 3] |
| GuessParameters.AlternatingScore01 | src/gridlines/guess.go:404-414 | the "with ones" score lies in [0, TotalCount - 3] |
| GuessParameters.SingleScore | src/gridlines/guess.go:420-428 | the single-candidate score S(>min) lies in [0, TotalCount - 2] |
| GuessParameters.RunLengthsNonNegative | src/gridlines/guess.go:600-608 | run lengths are non-negative and S(>0) of them is the number of trues |
| GuessParameters.AlternatingCandidatesRunlengthScore | src/gridlines/guess.go:364-377 | the method computes AlternatingScore |
| GuessParameters.AlternatingCandidatesRunlengthScore12 | src/gridlines/guess.go:383-396 | the method computes AlternatingScore12 |
| GuessParameters.AlternatingCandidatesRunlengthScore01 | src/gridlines/guess.go:404-414 | the method computes AlternatingScore01 |
| GuessParameters.SingleCandidateRunlengthScore | src/gridlines/guess.go:420-428 | the method computes SingleScore |
| GuessParameters.Max3 | src/gridlines/guess.go:210 | Go's built-in `max` of three ints: at least each argument and equal to one of them |
| GuessParameters.Max3Real | src/gridlines/guess.go:118 | Go's built-in `max` of three floats: at least each argument and equal to one of them |
| GuessParameters.SmallerBigger | src/gridlines/guess.go:62-67 | the smaller/bigger split is the two candidates, the smaller having the smaller Mean (ties keep candidate 0 as smaller) |
| GuessParameters.GuessGridlineParameters | src/gridlines/guess.go:20-23 | fewer than three intervals give two zero entries |
| GuessParameters.ParamsNoOne | src/gridlines/guess.go:160-222 | definition of guessParametersNoOne; characterised by NoOneBaseChoice, NoOneDoubleWidthChoice, NoOnePixelHoldsIntervals, NoOneGridNarrower and NoOneDefaultUnreachable |
| GuessParameters.ParamsWithOne | src/gridlines/guess.go:58-158 | definition of guessParametersWithOne; characterised by WithOneChoice, WithOneSparseSecond, WithOnePixelHoldsIntervals and WithOneGridNarrower |
| GuessParameters.OnlyOneAndTwo | src/gridlines/guess.go:133-156 | definition: the 1-vs-2 comparison of widths 1 and 2 alone or alternating; characterised by OnlyOneAndTwoChoice |
| GuessParameters.Entry22 | src/gridlines/guess.go:73-90 | definition: the [2,2] entry, carrying the count of length-1 intervals as the code writes it; used by OnlyOneAndTwoChoice |
| GuessParameters.Entry11 | src/gridlines/guess.go:73-90 | definition: the [1,1] entry, carrying the count of length-2 intervals as the code writes it; used by OnlyOneAndTwoChoice and WithOneChoice |
| GuessParameters.Candidates | src/gridlines/guess.go:25-31 | definition: the most common range and the most common one left after collision zeroing; characterised by FirstCandidateNonEmpty, CandidatesOrdered and SecondCandidateSeparated |
| GuessParameters.InRangeCount | src/gridlines/guess.go:556-563 | the number of trues of the lookup is the number of values within the bounds |
| GuessParameters.SingleScoreCounts | src/gridlines/guess.go:420-428 | with min run length 0 the score is the number of interior intervals within the candidate's bounds |
| GuessParameters.RangeScoreIsCount | src/gridlines/guess.go:254-285 | for a range entry, the min-0 single score equals the entry's Count |
| GuessParameters.FirstCandidateNonEmpty | src/gridlines/guess.go:25-28 | the first candidate holds at least one interval |
| GuessParameters.CandidatesOrdered | src/gridlines/guess.go:28-31 | the second candidate's Count is at most the first's |
| GuessParameters.NoOneDefaultUnreachable | src/gridlines/guess.go:203-220 | for the real candidates the second's min-0 score never exceeds the first's, so the base case returns (bigger, smaller) or (candidates[0], zero) and its `default` branch is never taken |
| GuessParameters.WithOnePixelHoldsIntervals | src/gridlines/guess.go:58-158 | the pixel guess of the "with one" path starts at 1 or more, or holds intervals |
| GuessParameters.NoOnePixelHoldsIntervals | src/gridlines/guess.go:160-222 | the pixel guess of the "no one" path holds at least one interval |
| GuessParameters.PixelGuessNotZero | src/gridlines/guess.go:20-55 | with three or more intervals the pixel guess is never the zero entry |
| GuessParameters.WithOneGridNarrower | src/gridlines/guess.go:58-158 | on the "with one" path the grid guess is zero or no wider on average than the pixel guess |
| GuessParameters.NoOneGridNarrower | src/gridlines/guess.go:160-222 | on the "no one" path the grid guess is zero, or the pair is (bigger, smaller) |
| GuessParameters.GridNarrowerThanPixel | src/gridlines/guess.go:20-55 | with no zero-length interior interval, the grid guess is zero or has a Mean at most the pixel guess's |
| GuessParameters.OnlyOneAndTwoChoice | src/gridlines/guess.go:133-156 | in the 1-vs-2 comparison ties go to alternating, giving (entry_2_2, entry_1_1), then to [2,2] alone, then [1,1] alone |
| GuessParameters.WithOneSparseSecond | src/gridlines/guess.go:98-102 | a second candidate of Count at most 1 goes straight to the 1-vs-2 comparison |
| GuessParameters.WithOneChoice | src/gridlines/guess.go:105-130 | with big_bias weighting, ties go to the 1-vs-2 comparison, then to (bigger, entry_1_2), then (bigger, entry_1_1) |
| GuessParameters.NoOneBaseChoice | src/gridlines/guess.go:203-220 | in the base case ties go to alternating, returned as (bigger, smaller), then candidates[0], then candidates[1] |
| GuessParameters.NoOneDoubleWidthChoice | src/gridlines/guess.go:176-201 | in the double-width case a misaligned bigger candidate gives the smaller one; otherwise the higher min-1 score wins and equal scores give candidates[0] |
| GuessRuns.BelongsLookup | src/gridlines/guess.go:556-563 | one flag per interval, true exactly when it lies within the inclusive bounds |
| GuessRuns.CandidateBelongsLookup | src/gridlines/guess.go:556-563 | the loop computes BelongsLookup |
| GuessRuns.AlternatingLookup | src/gridlines/guess.go:447-467 | one flag per adjacent pair of intervals |
| GuessRuns.WithOneLookup | src/gridlines/guess.go:496-515 | one flag per adjacent pair of intervals |
| GuessRuns.TrailingTrue | src/gridlines/guess.go:571-587 | the run counter is the number of trues just before position n, bounded by a false or the start |
| GuessRuns.RunsSum | src/gridlines/guess.go:568-595 | every run length of a prefix is at least 1 and they sum to its number of trues |
| GuessRuns.TrailingCount | src/gridlines/guess.go:571-587 | the trues of a prefix are those before its trailing run plus that run |
| GuessRuns.RunLengthsSum | src/gridlines/guess.go:568-595 | every maximal run length is at least 1 and they sum to the number of trues |
| GuessRuns.RunLengthsAllTrue | src/gridlines/guess.go:568-595 | an all-true slice is one run of its whole length |
| GuessRuns.RunsStep | src/gridlines/guess.go:573-587 | a false adds nothing, a true after a false opens a run of 1, a true after a true lengthens the last run |
| GuessRuns.ConsecutiveTrueRunlengths | src/gridlines/guess.go:568-595 | the loop with `previous_belongs` and `runlength_count` yields RunLengths, the maximal true runs in order |
| GuessRuns.RunLengths | src/gridlines/guess.go:568-595 | definition: the lengths of the maximal true runs, left to right; characterised by RunLengthsSum, RunLengthsAllTrue and RunsStep |
| GuessRuns.AlternatingCandidatesRunlengths | src/gridlines/guess.go:447-472 | the result is the run lengths of the alternating-pair lookup |
| GuessRuns.SingleCandidateWithOneRunlengths | src/gridlines/guess.go:496-520 | the result is the run lengths of the candidate-or-one pair lookup |
| GuessRuns.SingleCandidateRunlengths | src/gridlines/guess.go:541-548 | the result is the run lengths of the belongs lookup |
| GuessRuns.SumAboveMonotone | src/gridlines/guess.go:600-608 | a higher cutoff never gives a larger sum, and a cutoff below every element sums everything |
| GuessRuns.SumLargerThan | src/gridlines/guess.go:600-608 | the loop sums exactly the elements above the cutoff |
| GuessRuns.SliceSumU | src/gridlines/guess.go:610-616 | the loop yields the sum of the slice |
| GuessRuns.RunScoreBounds | src/gridlines/guess.go:371-376 | the half-weighted score lies between S(>1) and the number of trues |
| GuessRuns.RunScore | src/gridlines/guess.go:371-376 | definition: S(>1) plus half the runs of length 1; characterised by RunScoreBounds |
| GuessRuns.TrueIndexesTo | src/gridlines/guess.go:621-630 | the indexes listed are strictly increasing positions of `true` entries |
| GuessRuns.TrueIndexesComplete | src/gridlines/guess.go:621-630 | every true position is listed |
| GuessRuns.IndexesOfTrue | src/gridlines/guess.go:621-630 | the append loop yields TrueIndexes |
| GuessRuns.TrueIndexes | src/gridlines/guess.go:621-630 | definition: the positions holding true, in order; characterised by TrueIndexesTo and TrueIndexesComplete |
| GuessRuns.IsDoubleSizedIntervalAligned | src/gridlines/guess.go:641-662 | the loop returns Aligned: no gap between consecutive in-bounds intervals has a fractional gap/mean in [0.2, 0.8] |
| GuessRuns.Aligned | src/gridlines/guess.go:641-662 | definition: no gap between consecutive in-bounds intervals has a fractional gap/mean in [0.2, 0.8]; characterised by AlignedExample and MisalignedExample |
| GuessRuns.IndexesExampleA | src/gridlines/guess.go:621-630 | [true, false, true, true] gives [0, 2, 3] |
| GuessRuns.IndexesExampleB | src/gridlines/guess.go:621-630 | [true, false, false, false, false, true] gives [0, 5] |
| GuessRuns.FalseRunSkipped | src/gridlines/guess.go:623-627 | a run of false entries adds no index |
| GuessRuns.MisalignedExample | src/gridlines/guess.go:635-636 | [8, 4, 8, 8] with candidate 8 is not aligned |
| GuessRuns.AlignedExample | src/gridlines/guess.go:638-639 | [8, 4, 4, 3, 4, 8] with candidate 8 is aligned |
| GuessRuns.SquashFrom | src/gridlines/guess.go:688-710 | the output from window position i on is no longer than the input from there, and non-empty when that input is; its exact length is SquashFromLength |
| GuessRuns.Squash | src/gridlines/guess.go:677-713 | squashing never lengthens the list and keeps a non-empty list non-empty; its exact length is SquashLength |
| GuessRuns.SquashFromSum | src/gridlines/guess.go:688-710 | replacing [1,1] by 2 keeps the sum of the scanned part |
| GuessRuns.SquashKeepsSum | src/gridlines/guess.go:677-713 | squashing preserves the sum |
| GuessRuns.SquashFromLength | src/gridlines/guess.go:688-710 | the output from position i on is exactly one shorter per squash (Hits) than the input from there |
| GuessRuns.SquashFromNoHit | src/gridlines/guess.go:688-710 | with no squash from position i on, the rest of the list is copied unchanged |
| GuessRuns.HitsZeroIff | src/gridlines/guess.go:688-710 | no squash happens from position i on exactly when no window from there is two 1s between in-bounds intervals |
| GuessRuns.SquashLength | src/gridlines/guess.go:677-713 | a list of 4 or more comes back exactly one shorter per squash; a shorter list, or one with no squash window, comes back unchanged |
| GuessRuns.Hits | src/gridlines/guess.go:688-710 | definition: the number of squashes, counted with the skip the loop makes after each; characterised by SquashFromLength and HitsZeroIff |
| GuessRuns.SquashHit | src/gridlines/guess.go:689-696 | definition: the squash window test, two 1s with an in-bounds interval on each side; characterised by HitsZeroIff |
| GuessRuns.SquashExample | src/gridlines/guess.go:670-674 | the documented example [1,3,6,1,1,7,1,6,1,1,7,1,1,1,6] with bounds [6,8] gives [1,3,6,2,7,1,6,2,7,1,1,1,6] |
| GuessRuns.SquashSurroundedDoubleOnesIntervals | src/gridlines/guess.go:677-713 | the loop with its manual `i += 1` skip yields Squash; lists shorter than 4 are copied |
| GuessRuns.SingleRunsExample | src/gridlines/guess.go:530-538 | the documented single-candidate example gives [1, 4, 1] |
| GuessRuns.AlternatingRunsExample | src/gridlines/guess.go:435-443 | the documented alternating example gives [2, 2, 1] |
| GuessRuns.WithOneRunsExample | src/gridlines/guess.go:482-490 | the documented candidate-or-one example gives [1, 5, 1] |
| Distribute.Line | src/gridlines/errors.go:283-326 | a line over the major axis of length d has d + 1 y-values |
| Distribute.RiseStep | src/gridlines/errors.go:303-313 | the closed form of the minor coordinate rises by 1 exactly when the decision value p is positive |
| Distribute.Rise | src/gridlines/errors.go:295-313 | definition: the closed form (2ek + d - 1) div 2d of the minor coordinate after k steps; characterised by RiseStep, RiseEnds, RiseSmallSteps and RiseWithinTwo |
| Distribute.RiseEnds | src/gridlines/errors.go:283-326 | the line starts at y1, ends at y2 and never overshoots it |
| Distribute.RiseSmallSteps | src/gridlines/errors.go:303-313 | the minor coordinate steps by 0 or 1 |
| Distribute.RiseWithinTwo | src/gridlines/errors.go:303-313 | with a slope of at least 1/2 the minor coordinate rises within every two steps |
| Distribute.DecisionStep | src/gridlines/errors.go:304-313 | p grows by 2(dy - dx) after a rise and by 2dy otherwise |
| Distribute.MinorStep | src/gridlines/errors.go:304-309 | the update of y1, toward y2, keeps it on the closed-form line |
| Distribute.BresenhamLine | src/gridlines/errors.go:283-326 | the loop, the swap for `gradient > 1` included, produces BresenhamPoints: dx + 1 minor-axis values from y1 to y2 |
| Distribute.BresenhamPoints | src/gridlines/errors.go:283-326 | definition: the minor-axis values of the line, swapped back when the gradient exceeds 1; characterised by BresenhamLine and BucketLineIsRises |
| Distribute.RisesVisits | src/gridlines/errors.go:303-324 | every minor value up to the current one occurs once or twice, nothing beyond it occurs |
| Distribute.RisesBalanced | src/gridlines/errors.go:267-270 | with 0 <= dy <= dx <= 2dy, each minor value 0..dy is visited once or twice, so every bucket receives at least one increment |
| Distribute.BucketLineIsRises | src/gridlines/errors.go:267 | the line distributeEvenly draws is the closed-form rise sequence |
| Distribute.BucketLineShape | src/gridlines/errors.go:267-269 | every index the line yields is a valid bucket |
| Distribute.Distribution | src/gridlines/errors.go:250-278 | one entry per bucket |
| Distribute.Buckets | src/gridlines/errors.go:261-270 | one count per bucket |
| Distribute.BucketVisit | src/gridlines/errors.go:268-269 | `result[i] += 1` (mod 2^64) changes bucket i and no other |
| Distribute.BucketsStart | src/gridlines/errors.go:262-264 | every bucket starts at `base - 1`, wrapped as a `uint` |
| Distribute.Bucket | src/gridlines/errors.go:262-270 | definition: one bucket after the walk, `base - 1` plus one per visit in `uint` arithmetic; characterised by BucketNoWrap and BucketExact |
| Distribute.DistributeEvenly | src/gridlines/errors.go:250-278 | the method computes Distribution, the initial `base - 1` wrap and the Bresenham increments included |
| Distribute.AddVisits | src/gridlines/errors.go:267-270 | the increment loop leaves each bucket at `base - 1` plus its number of visits, in `uint` arithmetic |
| Distribute.BucketNoWrap | src/gridlines/errors.go:262-270 | a bucket visited once or twice ends at base - 1 + visits, with no wrap |
| Distribute.BucketExact | src/gridlines/errors.go:257-270 | each bucket is base - 1 plus its one or two visits |
| Distribute.SumOfBuckets | src/gridlines/errors.go:261-270 | the buckets sum to n(base - 1) plus the number of increments |
| Distribute.DistributionSum | src/gridlines/errors.go:250-278 | for two or more buckets the entries sum to the number of items |
| Distribute.DistributionBalanced | src/gridlines/errors.go:239-278 | one entry per bucket; for at least one bucket they sum to the items and each is floor(items/buckets) or one more |
| Distribute.DistributionSmall | src/gridlines/errors.go:251-255 | 0 buckets give [] and 1 bucket gives [items] |
| Distribute.DistributionExample | src/gridlines/errors.go:244-248 | 33 items over 10 buckets give [3, 4, 3, 3, 4, 3, 3, 4, 3, 3] |
| Sections.TrimmedStep | src/gridlines/errors.go:364-367 | one step of the accumulating loop: trimming from element i is element i then trimming the rest to the remaining target |
| Sections.TrimSequenceFromRight | src/gridlines/errors.go:360-375 | the loop followed by the reslice and the last-element decrement yields Trimmed |
| Sections.Trimmed | src/gridlines/errors.go:360-375 | definition: the shortest prefix reaching the target with its last element cut back, or a panic; characterised by TrimmedPanics, TrimmedShape and TrimmedShortest |
| Sections.TrimmedPanics | src/gridlines/errors.go:351-366 | it panics exactly when the sequence is empty or the target exceeds its sum |
| Sections.TrimmedShape | src/gridlines/errors.go:344-357 | the result sums to the target, keeps every element but the last, shortens the last, ends with a positive element when target > 0, and is [0] for target 0 |
| Sections.TrimmedShortest | src/gridlines/errors.go:361-367 | the kept prefix is the shortest one reaching the target |
| Sections.TrimmedExample | src/gridlines/errors.go:353-357 | [0,6,1,6,0,5,1] trimmed to 11 gives [0,6,1,4] |
| Sections.Interleaved | src/gridlines/errors.go:225-237 | the result holds every element of both slices |
| Sections.InterleavedAt | src/gridlines/errors.go:230-234 | r[2k] = left[k] and r[2k+1] = right[k] |
| Sections.InterleavedSum | src/gridlines/errors.go:225-237 | interleaving keeps the total |
| Sections.SlicesInterleave | src/gridlines/errors.go:225-237 | the loop computes Interleaved |
| Sections.RepeatSum | src/gridlines/errors.go:213-219 | n copies of v sum to n * v |
| Sections.MakeGridBaseSections | src/gridlines/errors.go:213-219 | grid_count entries, each grid_base |
| Sections.MiddleSection | src/gridlines/errors.go:143-167 | a middle section always has at least one element |
| Sections.GridBase | src/gridlines/errors.go:156 | definition: the rounded mean gridline width; used by MiddleSectionShape and EdgeSectionFacesInterior |
| Sections.PixelCount | src/gridlines/errors.go:146-148 | definition: the rounded expected number of pixels between two gridlines; used by MiddleSectionShape and MiddleSectionSum |
| Sections.GuessMiddleUnknownSection | src/gridlines/errors.go:143-167 | the method yields MiddleSection |
| Sections.MiddleSectionNoPixel | src/gridlines/errors.go:151-153 | round((L - g)/(g + p)) <= 0 gives [L] |
| Sections.MiddleSectionShape | src/gridlines/errors.go:148-165 | otherwise 2n + 1 elements, the even ones round(g) and the odd ones the pixel sizes |
| Sections.InterleavedGrid | src/gridlines/errors.go:157-164 | interleaving n + 1 grid bases with n pixel sizes puts the bases at even positions |
| Sections.MiddleSectionSplit | src/gridlines/errors.go:156-164 | the section is the grid bases interleaved with the distributed pixel sizes |
| Sections.PixelSizes | src/gridlines/errors.go:160-161 | one pixel size per guessed pixel |
| Sections.PixelSizesBalanced | src/gridlines/errors.go:160-161 | each pixel size is floor(rest/n) or one more |
| Sections.MiddleSectionSum | src/gridlines/errors.go:143-167 | when (n + 1) round(g) <= L the section sums to L |
| Sections.SolvedSum | src/gridlines/errors.go:156-164 | grid bases plus the evenly distributed remainder add up to the length |
| Sections.TrimmedEdgeSum | src/gridlines/errors.go:199-206 | trimming a long enough solved run and reversing it for the left edge sums to the edge length, with a positive outer element |
| Sections.GuessEdgeUnknownSection | src/gridlines/errors.go:186-207 | the method yields EdgeSection |
| Sections.EdgeSection | src/gridlines/errors.go:186-207 | definition of guessEdgeUnknownSection; characterised by EdgeSectionSum and EdgeSectionFacesInterior |
| Sections.TrimmedEdge | src/gridlines/errors.go:197-204 | definition: the solved dummy run trimmed to the edge length and reversed for a left edge; characterised by TrimmedEdgeSum |
| Sections.DummyLength | src/gridlines/errors.go:188-193 | definition: the truncated dummy length `(g + p)(n + 10) + g + 0.5`; characterised by DummyCovers |
| Sections.DummyCovers | src/gridlines/errors.go:188-193 | the dummy length `(g + p)(n + 10) + g + 0.5`, truncated, is at least the edge length |
| Sections.EdgeSectionSum | src/gridlines/errors.go:186-207 | when the dummy run is long enough the edge section is defined, sums to the edge length and its outer element is positive |
| Sections.EdgeSectionFacesInterior | src/gridlines/errors.go:176-181 | the element facing the interior, the last for the left edge and the first for the right, is the grid base |
| Reassemble.UnknownLengths | src/gridlines/errors.go:58-62 | the lengths of the Unknown intervals of a range, in order, at most one per position |
| Reassemble.UnknownCountGrows | src/gridlines/errors.go:430-437 | the number of sections consumed never decreases along the list |
| Reassemble.Filled | src/gridlines/errors.go:420-447 | a successful fill has exactly result_length entries |
| Reassemble.Alternating | src/gridlines/errors.go:454-467 | n labels |
| Reassemble.ReAssembleGetTotalLength | src/gridlines/errors.go:401-411 | the loop computes original count - number of sections + total section length |
| Reassemble.TotalLength | src/gridlines/errors.go:401-411 | definition: one entry per section replaced by its elements; characterised by ReAssembleGetTotalLength and TotalLengthExact |
| Reassemble.ReAssembleCreateIntervals | src/gridlines/errors.go:420-447 | the two-cursor loop yields Filled: a negative length, a missing section or a write past the end panic; otherwise the spliced list followed by zeros |
| Reassemble.Spliced | src/gridlines/errors.go:420-447 | definition: the copies of labelled entries and the i-th section for the i-th Unknown; characterised by SplicedPrefix, SplicedLength, SplicedPieces, SplicedNoUnknown and SplicedSum |
| Reassemble.WriteSection | src/gridlines/errors.go:433-436 | the inner loop writes the section from the cursor on and fails exactly when it does not fit |
| Reassemble.ReAssembleCreateTypes | src/gridlines/errors.go:454-467 | the labels alternate from Grid or Pixel as starts_with_grid says |
| Reassemble.ReAssembleCombinedList | src/gridlines/errors.go:386-394 | the method yields Reassembled |
| Reassemble.Reassembled | src/gridlines/errors.go:386-394 | definition of reAssembleCombinedList; characterised by ReassembledShape, ReassembledFails and ReassembledExample |
| Reassemble.MissingSectionPanics | src/gridlines/errors.go:433 | more Unknown entries than sections make the fill panic |
| Reassemble.OverflowPanics | src/gridlines/errors.go:434-440 | a spliced prefix longer than result_length makes the fill panic |
| Reassemble.AlternatingAt | src/gridlines/errors.go:463-465 | label i is the first label at even i and the other one at odd i |
| Reassemble.SplicedPrefix | src/gridlines/errors.go:430-444 | the output written after m entries of the original list is a prefix of that written after n >= m |
| Reassemble.SplicedLength | src/gridlines/errors.go:401-411 | after n entries the output holds n - #Unknown + the consumed sections' elements |
| Reassemble.TotalLengthExact | src/gridlines/errors.go:386-388 | with one section per Unknown, the computed length is exactly the splice's, so the fill succeeds with no trailing zeros |
| Reassemble.SplicedPieces | src/gridlines/errors.go:430-444 | a non-Unknown entry is copied to its output position; the i-th Unknown is replaced by section i |
| Reassemble.SplicedNoUnknown | src/gridlines/errors.go:430-444 | a list without Unknown entries is copied unchanged |
| Reassemble.SplicedSum | src/gridlines/errors.go:430-444 | when every section sums to the Unknown length it replaces, the splice keeps the total length |
| Reassemble.AlternatingShape | src/gridlines/errors.go:454-467 | no label is Unknown, the first is the start label, neighbours differ |
| Reassemble.FirstSectionEndsOnGrid | src/gridlines/errors.go:390 | an odd first section starts on Grid, so its last element is labelled Grid either way |
| Reassemble.ReassembledShape | src/gridlines/errors.go:377-394 | with one section per Unknown: parallel lists, Unknowns replaced in order, length original - #sections + sum of section lengths, strictly alternating labels with none Unknown, starting with Grid iff the first section is odd |
| Reassemble.ReassembledFails | src/gridlines/errors.go:390-433 | too few sections, or none at all, panic |
| Reassemble.ReassembledExample | src/gridlines/errors.go:386-467 | [5,4,1,4,5] with Unknown edges and sections [4,1], [1,4] gives [4,1,4,1,4,1,4] labelled Pixel, Grid, ... |
| ItemAverages.CountInterior | src/gridlines/errors.go:86-98 | the first loop sums and counts the interior Grid and Pixel intervals |
| ItemAverages.AddSection | src/gridlines/errors.go:101-112 | one fixed section adds its even positions to the grid totals and its odd positions to the pixel totals |
| ItemAverages.CalculateItemAverages | src/gridlines/errors.go:77-132 | the method computes Averages |
| ItemAverages.Averages | src/gridlines/errors.go:77-132 | definition of calculateItemAverages; characterised by AveragesIgnoreEdges, AveragesNonNegative and AveragesFallback |
| ItemAverages.AveragesIgnoreEdges | src/gridlines/errors.go:85-87 | the first and last entries never influence the averages |
| ItemAverages.AveragesNonNegative | src/gridlines/errors.go:114-131 | with non-negative guess bounds both averages are non-negative |
| ItemAverages.SectionParity | src/gridlines/errors.go:101-112 | a section of n elements gives ceil(n/2) grid and floor(n/2) pixel items, together its whole sum |
| ItemAverages.AveragesExample | src/gridlines/errors.go:77-132 | [7,1,3,2,9] labelled Unknown, Grid, Pixel, Grid, Unknown gives pixel 3 and grid 1.5 |
| ItemAverages.AveragesWithSectionExample | src/gridlines/errors.go:100-112 | adding the section [1,4,1] gives pixel 3.5 and grid 1.25 |
| ItemAverages.AveragesFallback | src/gridlines/errors.go:116-118 | with no interior Grid entry the grid average is the midpoint of the grid guess's bounds |
| FixErrors.SeparateUnknownItems | src/gridlines/errors.go:52-66 | the first and last lengths, whatever their labels, and the interior Unknown lengths in order |
| FixErrors.MiddleSections | src/gridlines/errors.go:26-29 | one solved section per middle Unknown |
| FixErrors.SecondMeans | src/gridlines/errors.go:32 | the recomputed averages are usable by the solvers |
| FixErrors.FixedSections | src/gridlines/errors.go:24-37 | the sections are the left edge, the middle ones and the right edge |
| FixErrors.SolveMiddleUnknowns | src/gridlines/errors.go:26-29 | the loop computes MiddleSections |
| FixErrors.GridlinesFixErrors | src/gridlines/errors.go:16-43 | the method computes Fixed from the two rounds of averages, the solved sections and reassembly |
| FixErrors.Fixed | src/gridlines/errors.go:16-43 | definition of GridlinesFixErrors; characterised by FixedShape, FixedSectionSums, FixedKeepsLength and FixedLeftEdgeEndsOnGrid |
| FixErrors.UnknownsAroundMiddle | src/gridlines/errors.go:52-66 | with Unknown edges, the Unknown lengths are the left edge, the middle ones and the right edge |
| FixErrors.FixedShape | src/gridlines/errors.go:16-43 | with Unknown edges and solvable sections, the result is the list with every Unknown replaced by its section, labels strictly alternating with none Unknown |
| FixErrors.MiddleSectionsSums | src/gridlines/errors.go:26-29 | each solved middle section sums to the Unknown length it replaces |
| FixErrors.FixedSectionSums | src/gridlines/errors.go:24-37 | when the solutions fit, every section sums to its Unknown length |
| FixErrors.FixedKeepsLength | src/gridlines/errors.go:16-43 | when the solutions fit, the fixed list has the same total length as the input |
| FixErrors.FixedLeftEdgeEndsOnGrid | src/gridlines/errors.go:34-39 | the left edge's section comes first, and its element facing the interior is the grid base, labelled Grid |
| Raster.OffsetInRange | src/images/arrangements.go:39-45 | the index PixOffset gives for a pixel of the rectangle, plus a channel, lies inside that pixel's row and inside the buffer |
| Raster.PixelWindow | src/images/arrangements.go:156-161 | the depth-byte window starting at a pixel's offset lies inside the buffer |
| Raster.RowInRange | src/images/arrangements.go:98-103 | the row window starting at PixOffset(Min.X, y + Min.Y) lies inside the buffer |
| Raster.FlatInjective | src/images/arrangements.go:40 | y * width + x names at most one pixel |
| Raster.NormalValid | src/images/arrangements.go:88-89 | an image with origin (0,0) and stride width * depth is consistent, and pixel (x,y) starts at (y * width + x) * depth |
| Raster.ValidCell | src/images/arrangements.go:156-161 | the windows of two different pixels never overlap |
| Raster.NormalDetermined | src/images/arrangements.go:88-89 | two normalised images showing the same pixels have identical buffers |
| Raster.CopyFrom | src/images/alterations.go:137-138 | copy writes the source at the offset and leaves the rest of the buffer alone |
| Raster.Copy | src/images/arrangements.go:100-103 | copy between two non-overlapping windows writes the source window and leaves the rest alone |
| Raster.CopyPixel | src/images/arrangements.go:158-161 | one destination pixel takes the source pixel's channels; every other pixel and every byte outside the rectangle is unchanged |
| Raster.SetPixel | src/images/alterations.go:137-138 | one pixel takes the colour; every other pixel and every byte outside the rectangle is unchanged |
| Raster.RowWindow | src/images/arrangements.go:98-103 | a row's window holds only that row's pixels |
| Raster.CopyRow | src/images/alterations.go:62-70 | row `to` takes row `from`'s pixels; every other row is unchanged |
| Raster.NewImage | src/images/alterations.go:39 | image.NewRGBA gives a normalised, zero-filled image of the requested size |
| Arrangements.NormalizedCopy | src/images/arrangements.go:91-141 | the row-copy loop gives a fresh normalised image showing the same pixels |
| Arrangements.ImageGetNormalized | src/images/arrangements.go:91-112 | a fresh normalised RGBA image showing the same pixels |
| Arrangements.GrayscaleGetNormalized | src/images/arrangements.go:118-141 | a fresh normalised Gray image showing the same pixels |
| Arrangements.TransposeTarget | src/images/arrangements.go:157 | (x * height + y) * depth is the offset of pixel (y,x) in the transposed image |
| Arrangements.PlacePixel | src/images/arrangements.go:156-161 | pixel (x,y) of the input lands at (y,x); every other pixel of the result is unchanged |
| Arrangements.TransposedCopy | src/images/arrangements.go:148-196 | the loop gives a fresh normalised image whose (y,x) is the input's (x,y) |
| Arrangements.ImageGetTransposed | src/images/arrangements.go:148-170 | a fresh normalised RGBA transpose |
| Arrangements.GrayscaleGetTransposed | src/images/arrangements.go:177-196 | a fresh normalised Gray transpose |
| Arrangements.TransposeTwice | src/images/arrangements.go:148-196 | transposing twice shows the original pixels, byte for byte the normalised copy |
| Arrangements.WriteChannels | src/images/arrangements.go:42-45 | channel c of pixel (x,y) goes to image c; other pixels are unchanged |
| Arrangements.ImageGetSplitChannels | src/images/arrangements.go:21-50 | four fresh, distinct Gray images of the input's size; image c holds channel c of every pixel |
| Alterations.UpscaleOffsets | src/images/alterations.go:49-62 | the byte offsets the loop computes are those of pixel (f*x, f*y) and of row f*y in the upscaled image |
| Alterations.UpscaleRow | src/images/alterations.go:43-58 | the first row of block row y receives every source pixel f times; no other row changes |
| Alterations.UpscaleStep | src/images/alterations.go:41-71 | one outer iteration fills block row y completely and leaves the later rows blank |
| Alterations.UpscaleInto | src/images/alterations.go:39-72 | on a zeroed image of f times the size, every output pixel (X,Y) is the source's (X/f, Y/f) |
| Alterations.ImageUpscaledByFactor | src/images/alterations.go:28-74 | a negative factor and a factor above 100 panic with their messages; otherwise a fresh image of f times the size, each pixel an f by f block |
| Alterations.UpscaleOfSamePixels | src/images/alterations.go:36 | upscaling the normalised copy is upscaling the original |
| Alterations.CheckIndexesPasses | src/images/alterations.go:124-131 | the validation passes exactly when every index lies in 0 .. last |
| Alterations.CheckIndexes | src/images/alterations.go:124-131 | definition: the first index below 0 or above the last, with its panic message; characterised by CheckIndexesPasses |
| Alterations.ValidateIndexes | src/images/alterations.go:124-131 | the loop reports the first offending index's panic, as CheckIndexes does |
| Alterations.FillRow | src/images/alterations.go:135-139 | every pixel of row y takes the colour; other rows are unchanged |
| Alterations.FillCol | src/images/alterations.go:165-169 | every pixel of column x takes the colour; other columns are unchanged |
| Alterations.DrawGridlineRowsOnImage | src/images/alterations.go:120-141 | an out-of-range row panics and changes nothing; otherwise exactly the listed rows take the colour |
| Alterations.DrawGridlineColsOnImage | src/images/alterations.go:150-171 | an out-of-range column panics and changes nothing; otherwise exactly the listed columns take the colour |
| Advanced.AdvancedUpscaleGetResultDimensions | src/images/advanced.go:105-114 | a rectangle at the origin of g + (p+g)*n per side, large enough for every block |
| Advanced.ResultDimensionsNoGrid | src/images/advanced.go:105-114 | with no grid the result is p times the source size |
| Advanced.ValidateArgumentsPasses | src/images/advanced.go:76-97 | validation passes exactly when both images exist, p > 0 and the destination has the expected size |
| Advanced.AdvancedUpscaleValidateArguments | src/images/advanced.go:76-97 | definition of advancedUpscaleValidateArguments; characterised by ValidateArgumentsPasses |
| Advanced.FillColor | src/images/advanced.go:18 | every pixel of the destination takes the grid colour |
| Advanced.AsWrittenIndexShift | src/images/advanced.go:20-30 | the index as written is the true offset shifted by Min.Y * stride + Min.X * 4, equal to it exactly when that shift is 0 |
| Advanced.AsWrittenIndex | src/images/advanced.go:20-37 | definition: the index the code computes for pixel (x, y), used for the source at line 30 and the destination at line 37; characterised by AsWrittenIndexShift and SubImageReadsOutside |
| Advanced.SubImageReadsOutside | src/images/advanced.go:20-32 | a sub-image with origin (1,0) over a 4-byte buffer makes the index as written fall past its end |
| Advanced.AdvancedRow | src/images/advanced.go:28-46 | the first row of block row y holds each source pixel p times between the grid lines; other rows are unchanged |
| Advanced.AdvancedStep | src/images/advanced.go:27-64 | one outer iteration fills block row y completely and leaves the later rows in the grid colour |
| Advanced.AdvancedUpscale | src/images/advanced.go:16-65 | panics exactly as the validation does and then changes nothing; otherwise every destination pixel is the grid colour on grid lines and the source pixel of its block inside a block; this is the corrected indexing of the finding below, which agrees with the code as written only for buffers whose rectangle starts at the origin |
| Advanced.AdvancedUpscaleGetNewImage | src/images/advanced.go:124-129 | pixel size 0 panics; otherwise a fresh normalised image gridded from the source, with the corrected indexing of AdvancedUpscale, which for a source at the origin is the code as written |
| Blocks.CellOf | src/images/advanced.go:35-36 | a coordinate inside cell b of the block layout belongs to block b, and lies in its pixel part exactly when it is before the grid line that follows |
| Blocks.CellBounds | src/images/advanced.go:35-36 | every coordinate past the first grid line lies inside the cell of its block index |
| Blocks.BlockBelow | src/images/advanced.go:105-114 | a coordinate inside the destination belongs to one of the n source blocks |
| Blocks.NoGridBlock | src/images/alterations.go:49-51 | with no grid, block index is X / p and every coordinate is a pixel coordinate |
| Blocks.BlockFits | src/images/advanced.go:105-114 | block b < n and its trailing grid line fit inside the destination side |
| Blocks.LastBlock | src/images/advanced.go:109-110 | the start of block n is the destination side g + (p+g)*n |
| Blocks.NoGridPixel | src/images/alterations.go:44-57 | with no grid, destination (X,Y) shows source (X/p, Y/p) |
| Blocks.NoGridIsUpscale | src/images/advanced.go:16-65 | with no grid, the gridded upscale is exactly the plain upscale by p |
| Blocks.BlockPixel | src/images/advanced.go:39-63 | every pixel (j,i) of block (sx,sy) shows source pixel (sx,sy) |
| Blocks.GridPixel | src/images/advanced.go:18 | every pixel outside the blocks shows the grid colour |
| Blocks.AllRowsDone | src/images/advanced.go:27-64 | once every block row is done, the destination is the gridded upscale |
| Blocks.RepeatPixel | src/images/advanced.go:40-45 | count consecutive pixels of one row take the source pixel; nothing else changes |
| Blocks.RepeatRow | src/images/advanced.go:58-63 | the count - 1 rows after Y0 take row Y0's pixels; nothing else changes |
| Kuwahara.WriteRGB | src/images/kuwahara/channels.go:49-51 | the R, G and B of pixel (x,y) go to position y*width+x of their channel; other positions are unchanged |
| Kuwahara.GetSplitChannels | src/images/kuwahara/channels.go:35-56 | three fresh, distinct channels of width*height entries; channel c at y*width+x is channel c of pixel (x,y), alpha dropped |
| Kuwahara.RemNegated | src/images/kuwahara/sepfilter2D.go:107 | Go's truncating % is odd in its first operand |
| Kuwahara.ReflectInRange | src/images/kuwahara/sepfilter2D.go:106-118 | any index reflects into 0 .. max_index |
| Kuwahara.Reflect101Full | src/images/kuwahara/sepfilter2D.go:106-118 | definition of reflectIndex101Full with Go's truncating `%`; characterised by ReflectInRange, ReflectKeepsInside, ReflectSymmetric and ReflectPeriodic |
| Kuwahara.ReflectKeepsInside | src/images/kuwahara/sepfilter2D.go:106-118 | an index already inside is returned unchanged |
| Kuwahara.ReflectSymmetric | src/images/kuwahara/sepfilter2D.go:106-118 | reflection is symmetric about 0 |
| Kuwahara.ReflectPeriodic | src/images/kuwahara/sepfilter2D.go:106-118 | reflection has period 2 * max_index |
| Kuwahara.LeftEdgeAgrees | src/images/kuwahara/sepfilter2D.go:216-229 | the absolute-value reflection of the first loop agrees with reflectIndex101Full for every index it can see |
| Kuwahara.RightEdgeAgrees | src/images/kuwahara/sepfilter2D.go:246-264 | the mirror about the last index in the third loop agrees with reflectIndex101Full for every index it can see |
| Kuwahara.HorizontalStep | src/images/kuwahara/sepfilter2D.go:219-225 | each tap reads a column inside the row and adds its weighted value to the sum |
| Kuwahara.VerticalStep | src/images/kuwahara/sepfilter2D.go:146-151 | each tap reads a row inside the column and adds its weighted value to the sum |
| Kuwahara.HorizontalTaps | src/images/kuwahara/sepfilter2D.go:218-226 | the tap loop computes the reflected horizontal correlation sum |
| Kuwahara.HorizontalSum | src/images/kuwahara/sepfilter2D.go:218-226 | definition: the horizontal correlation sum with 101 reflection; characterised by HorizontalStep and HorizontalTaps |
| Kuwahara.VerticalTaps | src/images/kuwahara/sepfilter2D.go:145-152 | the tap loop computes the reflected vertical correlation sum |
| Kuwahara.VerticalSum | src/images/kuwahara/sepfilter2D.go:145-152 | definition: the vertical correlation sum with 101 reflection; characterised by VerticalStep and VerticalTaps |
| Kuwahara.FilterPixel | src/images/kuwahara/sepfilter2D.go:145-153 | the output at y*x_shape+x is the pixel's filtered value; nothing else changes |
| Kuwahara.FilterRow | src/images/kuwahara/sepfilter2D.go:144-154 | one row of a loop: the outputs of row y in the loop's columns are filtered values; every other cell and every entry from ys * xs on is unchanged |
| Kuwahara.FilterBlock | src/images/kuwahara/sepfilter2D.go:143-155 | one of the three loops fills its band of rows or columns with filtered values; every other cell of the ys * xs grid and every entry from ys * xs on is unchanged |
| Kuwahara.FastTapsAgree | src/images/kuwahara/sepfilter2D.go:206-213 | in each of the three bands, its cheap reflection agrees with reflectIndex101Full on every tap it takes |
| Kuwahara.TapIndex | src/images/kuwahara/sepfilter2D.go:197-265 | definition: the index each loop reads for a tap (mirror at 0, as is, mirror at n - 1, or full reflection); characterised by LeftEdgeAgrees, RightEdgeAgrees and FastTapsAgree |
| Kuwahara.FilterHorizontal1D | src/images/kuwahara/sepfilter2D.go:197-265 | with the kernel no longer than a row, every output is the horizontal correlation with 101 reflection, and the buffer from ys * xs on is unchanged |
| Kuwahara.FilterVertical1D | src/images/kuwahara/sepfilter2D.go:125-190 | with the kernel no longer than a column, every output is the vertical correlation with 101 reflection, and the buffer from ys * xs on is unchanged |
| Kuwahara.FilterEdgeCaseHorizontal1D | src/images/kuwahara/sepfilter2D.go:81-103 | for any kernel length, every output is the horizontal correlation with 101 reflection, and the buffer from ys * xs on is unchanged |
| Kuwahara.FilterEdgeCaseVertical1D | src/images/kuwahara/sepfilter2D.go:52-75 | for any kernel length, every output is the vertical correlation with 101 reflection, and the buffer from ys * xs on is unchanged |
| Cleanup.CleanedChanges | src/contrast/cleanup.go:25-28 | a pixel changes exactly when it is a 255 between a zero above and a zero below, and then it becomes 0 |
| Cleanup.Cleaned | src/contrast/cleanup.go:13-34 | definition: the value of a pixel once specks are cleared; characterised by CleanedChanges, NoSpecksInEdgeRow and NoSpecksInLowImage |
| Cleanup.Speck | src/contrast/cleanup.go:25-28 | definition: a 255 pixel off the edge rows with 0 directly above and below it; characterised by CleanedChanges and InPlaceAgrees |
| Cleanup.NoSpecksInEdgeRow | src/contrast/cleanup.go:19 | the first and last rows hold no changed pixels |
| Cleanup.NoSpecksInLowImage | src/contrast/cleanup.go:19 | an image under three rows changes nowhere |
| Cleanup.InPlaceAgrees | src/contrast/cleanup.go:21-26 | reading the row above from the buffer already being cleaned gives the same decision as reading the original |
| Cleanup.CleanPixel | src/contrast/cleanup.go:21-28 | one inner iteration extends the cleaned prefix by one pixel and counts it when it changed |
| Cleanup.CleanRow | src/contrast/cleanup.go:20-30 | one row is cleaned and the count grows by that row's changed pixels |
| Cleanup.CleanupEdgeArtifacts | src/contrast/cleanup.go:13-34 | a fresh normalised copy with every isolated vertical speck removed, and the number removed |
| Cleanup.EdgeRowsKept | src/contrast/cleanup.go:19 | the first and last rows are copied unchanged; an image under three rows is returned as is with count 0 |
| EdgeCounts.ColumnCountBound | src/contrast/counts.go:16-22 | a column count is at most the height |
| EdgeCounts.ColumnCount | src/contrast/counts.go:10-26 | definition: the number of rows whose pixel in a column is non-zero; characterised by ColumnCountBound and ColumnCountExtremes |
| EdgeCounts.ColumnCountExtremes | src/contrast/counts.go:16-22 | an all-zero column counts 0 and an all-non-zero one counts the height |
| EdgeCounts.CountRow | src/contrast/counts.go:17-22 | one row adds 1 to every edge position holding a non-zero pixel |
| EdgeCounts.EdgesToEdgeCounts | src/contrast/counts.go:10-26 | width - 1 counts, count x being the number of rows non-zero in column x, each at most the height |
| Threshold.Binarized | src/contrast/treshold.go:25-29 | a pixel becomes 255 exactly when it reaches the height, 0 otherwise |
| Threshold.BinarizeBytes | src/contrast/treshold.go:24-30 | the first item_count bytes are binarised and the rest are unchanged |
| Threshold.ThresholdWithMinHeight | src/contrast/treshold.go:19-32 | a fresh normalised image whose every pixel is the input's pixel binarised |
| Threshold.ThresholdZeroAllWhite | src/contrast/treshold.go:25 | with height 0 every pixel becomes 255 |
| Threshold.RethresholdKeeps | src/contrast/treshold.go:19-32 | thresholding a binarised image again at any height from 1 keeps it as it is |
| Frequent.GetBaseMostFrequentParams | src/contrast/frequent.go:28-33 | ClipTop 0.2 and CutoffMultiplier 0.3, inside their documented ranges |
| Frequent.PopulateNonzero | src/contrast/frequent.go:81-89 | the non-zero counts, in order, fill the front of the buffer; the rest is unchanged |
| Frequent.CounterProperties | src/contrast/frequent.go:67-79 | the counter is a permutation of the non-zero counts, in descending order, holding exactly the non-zero values |
| Frequent.EdgeCountsSortedNonzero | src/contrast/frequent.go:67-79 | the method yields the counter: a descending permutation of the non-zero counts |
| Frequent.Counter | src/contrast/frequent.go:67-79 | definition: the non-zero counts sorted larger first; characterised by CounterProperties |
| Frequent.SampleIndexBounds | src/contrast/frequent.go:46-48 | with a non-empty counter and ClipTop in [0,1) the sampled index is inside the counter |
| Frequent.SampleIndex | src/contrast/frequent.go:46-48 | definition: ClipTop times the counter length, truncated and capped at the last index; characterised by SampleIndexBounds and SampleInRange |
| Frequent.ProductBelow | src/contrast/frequent.go:51 | with CutoffMultiplier in [0,1) the threshold is below a positive sample |
| Frequent.ThresholdQuantity | src/contrast/frequent.go:51 | definition: the truncated product of the sample and CutoffMultiplier; characterised by ProductBelow |
| Frequent.SelectionMembers | src/contrast/frequent.go:56-60 | an index is selected exactly when its count reaches the threshold |
| Frequent.SelectionIncreasing | src/contrast/frequent.go:56-60 | the selected indexes are in range and strictly increasing |
| Frequent.SelectAtLeast | src/contrast/frequent.go:53-60 | the loop yields the selection |
| Frequent.Selection | src/contrast/frequent.go:53-60 | definition: the positions whose count reaches the threshold, in order; characterised by SelectionMembers, SelectionIncreasing and MaxSelected |
| Frequent.SelectMostFrequent | src/contrast/frequent.go:39-63 | empty counts give no index; an all-zero list panics on index -1; otherwise every index whose count reaches the sampled count times the multiplier |
| Frequent.AllZeroPanics | src/contrast/frequent.go:44-48 | with only zero counts the counter is empty and the sampled index is -1 |
| Frequent.SampleInRange | src/contrast/frequent.go:46-48 | with one non-zero count and documented parameters the sampled index is inside the counter |
| Frequent.MaxSelected | src/contrast/frequent.go:46-60 | with documented parameters every position holding the largest count is selected |
| Cutout.Run | src/visualizations/cutout.go:40-46 | the consecutive indexes start .. start + len - 1 |
| Cutout.EmitBounds | src/visualizations/cutout.go:114-124 | one interval's emitted indexes lie in its span and ascend |
| Cutout.EmitMember | src/visualizations/cutout.go:40-46 | without zeros, an index is emitted exactly when the interval has the label and the index is in its span |
| Cutout.LabelIndexesBounds | src/visualizations/cutout.go:101-129 | all indexes lie within the total length and ascend, strictly without zeros |
| Cutout.LabelIndexesInside | src/visualizations/cutout.go:31-51 | an index is reported exactly when it lies inside an interval of the label |
| Cutout.LabelIndexesLength | src/visualizations/cutout.go:31-51 | the count of indexes is the total length of the labelled intervals |
| Cutout.WithZerosLength | src/visualizations/cutout.go:114-116 | the WithZeros variant adds one index per empty labelled interval |
| Cutout.WithZerosMembers | src/visualizations/cutout.go:101-161 | the WithZeros variant reports the same indexes plus the start of each empty labelled interval |
| Cutout.EmitInterval | src/visualizations/cutout.go:114-124 | the inner loop appends one interval's indexes and advances the cursor by its size |
| Cutout.GetIndexesOfUnknowns | src/visualizations/cutout.go:31-51 | the positions covered by Unknown intervals |
| Cutout.GetIndexesOfGrid | src/visualizations/cutout.go:53-75 | the positions covered by Grid intervals |
| Cutout.GetIndexesOfUnknownsWithZeros | src/visualizations/cutout.go:101-129 | the Unknown positions, plus the position of each empty Unknown interval |
| Cutout.GetIndexesOfGridWithZeros | src/visualizations/cutout.go:131-161 | the Grid positions, plus the position of each empty Grid interval |
| Gridlines.IndexesConvertToScaled | src/visualizations/gridlines.go:59-65 | one entry per index, index * f - 1 |
| Gridlines.IndexesAllScaled | src/visualizations/gridlines.go:67-73 | entry i - 1 is i * f - 1 for i in 1 .. dimension |
| Gridlines.AllScaled | src/visualizations/gridlines.go:67-73 | definition: (i + 1) * f - 1 for the first dimension pixels; characterised by IndexesAllScaled, AllScaledIncreasing and AllScaledBounds |
| Gridlines.ScaledIndexes | src/visualizations/gridlines.go:59-65 | definition: index * f - 1 for each index; characterised by IndexesConvertToScaled and ZeroIndexRejected |
| Gridlines.AllScaledIncreasing | src/visualizations/gridlines.go:67-73 | the gridlines strictly increase |
| Gridlines.AllScaledBounds | src/visualizations/gridlines.go:67-73 | every gridline lies in f - 1 .. dimension * f - 1 |
| Gridlines.AllScaledDrawable | src/visualizations/gridlines.go:24-35 | at factor 6 every gridline lies on the upscaled image, so drawing them does not panic |
| Gridlines.ScaledIndexesDrawable | src/visualizations/gridlines.go:38-44 | indexes in 1 .. dimension map onto the upscaled image, so drawing them does not panic |
| Gridlines.ZeroIndexRejected | src/visualizations/gridlines.go:59-65 | an index 0 maps to -1, which the drawing rejects with a panic |
| SideBySide.CombineVertically | src/visualizations/sidebyside.go:36-54 | a fresh image twice as tall whose buffer is the first image's followed by the second's |
| SideBySide.StackedPixel | src/visualizations/sidebyside.go:43-46 | in the stacked image, the top half shows the first image and the bottom half the second |
| SideBySide.StackedBuffers | src/visualizations/sidebyside.go:36-54 | concatenated buffers show the first image above the second |
| SideBySide.CopyHalfRow | src/visualizations/sidebyside.go:65-72 | one half of row y takes that row of an input; every other pixel is unchanged |
| SideBySide.CombineRow | src/visualizations/sidebyside.go:64-73 | row y shows the first image's row on the left and the second's on the right |
| SideBySide.CombineHorizontally | src/visualizations/sidebyside.go:56-82 | a fresh image twice as wide with the first image on the left and the second on the right |
| SideBySide.CombinedSamePixels | src/visualizations/sidebyside.go:22-23 | combining the normalised copies shows the same as combining the originals |
| SideBySide.SideBySideGrayscale | src/visualizations/sidebyside.go:17-33 | different sizes panic; an image wider than twice its height is stacked, any other placed side by side |
| GoNum.Quot | src/images/kuwahara/sepfilter2D.go:107 | Go's integer division truncates toward zero |
| GoNum.Rem | src/images/kuwahara/sepfilter2D.go:107 | Go's % leaves a remainder with the sign of the dividend |
| GoNum.Trunc | src/contrast/frequent.go:46-51 | a float-to-int conversion truncates toward zero |
| GoNum.FormatIntRoundTrip | src/contrast/frequent.go:51 | the decimal text of an int in a panic message parses back to the int |
| Kuwahara.SepFilter2D | src/images/kuwahara/sepfilter2D.go:31-45 | the rows are filtered into the temporary buffer and its columns into the destination, each with 101 reflection, whichever variant the kernel length selects; both buffers are unchanged from ys * xs on |
| Reassemble.SplicedExample | src/gridlines/errors.go:420-447 | [5,4,1,4,5] with Unknown edges and sections [4,1], [1,4] splices to [4,1,4,1,4,1,4] |
| GoNum.ToUint | src/gridlines/errors.go:262-268 | a `uint` result wraps modulo 2^64: a value in range is kept and a negative one gains 2^64 |
| GoNum.Round | src/gridlines/guess.go:337 | math.Round gives the nearest integer, halves away from zero |
| GoNum.Floor | src/gridlines/guess.go:655 | math.Floor gives the greatest integer not above the value |
| GoNum.FormatInt | src/images/alterations.go:126 | the decimal text of an int is non-empty and starts with '-' exactly for a negative int |

## Left out

- Float semantics: Go `float32`/`float64` values (means, averages, `big_bias`, alignment fractions, Kuwahara sums, ClipTop and CutoffMultiplier) are exact reals; IEEE-754 rounding, NaN and infinities are not modelled.
- FixErrors.GridlinesFixErrors: requires FixableMeans (both rounds of averages non-negative with a positive sum), because a zero sum makes the Go code divide by zero and convert NaN or an infinity to an integer, whose result is platform-dependent.
- Sections.GuessMiddleUnknownSection and Sections.GuessEdgeUnknownSection: require UsableMeans for the same reason.
- Intervals.IntervalListFromSortedEdgeIndexes: the `uint` wrap-around on unsorted edges is written out, and the no-wrap properties are stated for sorted edges inside the axis.
- Sections.TrimSequenceFromRight: the running `uint` sum is taken without wrap-around; sums at or above 2^64 are not modelled.
- Go `int` overflow at 2^63 is not modelled; Dafny integers are unbounded.
- Sorting.SortByKey: `sort.Slice` is modelled by an in-place insertion sort with the library's contract (sorted by the comparator, a permutation of the input); the library's own algorithm and the order it gives equal keys are not modelled, which matters nowhere here because both comparators order by an injective key.
- Frequent.PopulateNonzero: requires a buffer at least as long as the non-zero counts, as its only caller allocates.
- EdgeCounts.EdgesToEdgeCounts: requires width >= 1; width 0 makes `make([]uint, -1)` panic, which is not modelled.
- Cutout: the index methods require the two parallel sequences to have equal length, as every caller builds them.
- Raster.Copy: source and destination windows must not overlap; Go's `copy` on overlapping slices (memmove) is not modelled, and no caller of the core passes overlapping windows.
- Slice capacity, `append` growth and slice aliasing beyond the image buffers are not modelled; slices are sequences or arrays.
- Advanced.FillColor: `RGBAFillColor` is not part of this model; it is modelled as a fill of every pixel with the grid colour.
- Advanced.AdvancedUpscaleGetNewImage: a nil source image (a nil dereference in Go) is not modelled; images are always present.
- Advanced.AdvancedUpscale: source and destination buffers must differ; their overlap is not checked by the source and not modelled.
- `SubImage` and the thin wrappers `ImageWithDrawnGridlinesSimple`, `ImageWithDrawnGridlinesAdvanced`, `ImageWithDrawnCutoutSimple` and `ImageWithDrawnCutoutSimpleWithZeros` only chain modelled operations with a library call; the calls they make are modelled, the wrappers are not.
- `ImageGetGrayscaled`, `MeanOfSliceU8`, `getGreyscaledChannel`, src/images/greyscale.go, src/images/calculations.go, src/contrast/distances.go, src/contrast/peak.go and src/contrast/peaks.go compute floating-point values and are left out.
- The Kuwahara filter itself (src/images/kuwahara/kuwahara.go, gaussian.go, other.go) and src/images/kuwahara.go are left out: floating-point weighting only, and the latter does not compile.
- `ImageFlipVertical`/`ImageFlipHorizontal` are panicking stubs, the commented-out `ImageUpscaledByFactor2` and src/common/make2d.go are dead code, and the duplicate declarations in src/types/intervals.go, src/types/definition.go and src/images/manipulations.go are not modelled.
- The unused result of `sliceCountMin` (src/gridlines/errors.go:273-275) is not modelled, as it has no effect.
- File I/O (src/images/files.go), the driver src/main.go, the Python prototype and the debug prints (src/gridlines/guess.go:52, src/gridlines/errors.go:40) are left out.
- The segment classifier that inserts zeros and labels segments is not part of this model.
- Go's runtime panic texts for slice bounds are shortened to `index out of range`, without the index and length Go appends. Stats.MedianOfSliceU8 gives the full text for its empty slice, and Frequent.SelectMostFrequent gives `index out of range [-1]`, which is all Go prints for a negative index.
- FixErrors.FixedShape: stated only for lists whose first and last entries are Unknown, as every caller passes; with a labelled edge the Go code still solves `intervals[0]` and `intervals[last]` as edge sections, and the model computes that (Fixed) but proves no shape for it.
- FixErrors.FixedKeepsLength: stated only for Unknown first and last entries, for the same reason.
- FixErrors.FixedSectionSums: stated only for Unknown first and last entries, for the same reason.
- FixErrors.FixedLeftEdgeEndsOnGrid: stated only for Unknown first and last entries, for the same reason.

## Findings

| source | as written | input that shows it | evidently intended | confidence | as-written member | corrected member |
|---|---|---|---|---|---|---|
| src/images/advanced.go:20-51 | the bases `-src.PixOffset(0, 0)` and `-dst.PixOffset(0, 0)` are added to offsets that are already relative to the rectangle's corner, so a source sub-image is read, and a destination sub-image written, `Min.Y * Stride + Min.X * 4` bytes past the pixel, or the slice expression panics | `SubImage` (1,0)-(2,1) of a 2x1 RGBA image: buffer of 4 bytes, stride 8; pixel (0,0) is read at index 4, past the end | no base: pixel (x,y) at `y * Stride + x * 4` | not executed | Advanced.SubImageReadsOutside | Advanced.AdvancedUpscale |
