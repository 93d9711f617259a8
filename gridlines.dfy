/**
 * Index helpers of the gridline visualisation: gridline positions of the
 * original image mapped onto an image upscaled by a whole factor, where a
 * gridline after original pixel i is drawn on the last row (or column) of
 * that pixel's block.
 */
module Gridlines {
  import opened Wrappers
  import opened Raster
  import opened Alterations

  /** The upscaling factor the advanced visualisation uses. */
  const ScalingFactor := 6

  /** Position of each index on the upscaled image: the last pixel of the block before it. */
  function ScaledIndexes(indexes: seq<int>, f: int): seq<int>
  {
    seq(|indexes|, i requires 0 <= i < |indexes| => indexes[i] * f - 1)
  }

  /** The gridline after each of the first `dimension` pixels, on the upscaled image. */
  function AllScaled(dimension: nat, f: int): seq<int>
  {
    seq(dimension, i requires 0 <= i < dimension => (i + 1) * f - 1)
  }

  /** indexesConvertToScaled: result[i] = indexes[i] * f - 1, one entry per index. */
  method IndexesConvertToScaled(indexes: seq<int>, f: int) returns (r: seq<int>)
    ensures |r| == |indexes|
    ensures forall i | 0 <= i < |indexes| :: r[i] == indexes[i] * f - 1
    ensures r == ScaledIndexes(indexes, f)
  {
    var result := new int[|indexes|];
    for i := 0 to |indexes|
      invariant forall k | 0 <= k < i :: result[k] == indexes[k] * f - 1
    {
      result[i] := indexes[i] * f - 1;
    }
    r := result[..];
  }

  /** indexesAllScaled: result[i - 1] = i * f - 1 for i in 1 .. dimension. */
  method IndexesAllScaled(dimension: nat, f: int) returns (r: seq<int>)
    ensures |r| == dimension
    ensures forall i | 0 <= i < dimension :: r[i] == (i + 1) * f - 1
    ensures r == AllScaled(dimension, f)
  {
    var result := new int[dimension];
    for i := 1 to dimension + 1
      invariant forall k | 0 <= k < i - 1 :: result[k] == (k + 1) * f - 1
    {
      result[i - 1] := i * f - 1;
    }
    r := result[..];
  }

  /** Later blocks end later. */
  lemma MulGap(i: int, j: int, f: int)
    requires 0 <= i < j && f >= 1
    ensures (i + 1) * f - 1 < (j + 1) * f - 1
  {
    assert (j + 1) * f == (i + 1) * f + (j - i) * f;
  }

  /** For a positive factor the gridlines of AllScaled strictly increase. */
  lemma AllScaledIncreasing(dimension: nat, f: int)
    requires f >= 1
    ensures forall i, j | 0 <= i < j < dimension :: AllScaled(dimension, f)[i] < AllScaled(dimension, f)[j]
  {
    forall i, j | 0 <= i < j < dimension
      ensures AllScaled(dimension, f)[i] < AllScaled(dimension, f)[j]
    {
      MulGap(i, j, f);
    }
  }

  /** For a positive factor every gridline of AllScaled lies in [f - 1, dimension * f - 1]. */
  lemma AllScaledBounds(dimension: nat, f: int)
    requires f >= 1
    ensures forall i | 0 <= i < dimension :: f - 1 <= AllScaled(dimension, f)[i] <= dimension * f - 1
  {
    forall i | 0 <= i < dimension
      ensures f - 1 <= AllScaled(dimension, f)[i] <= dimension * f - 1
    {
      MulMono(1, i + 1, f);
      MulMono(i + 1, dimension, f);
    }
  }

  /**
   * On an image upscaled six times, drawing the gridline of every original
   * row (or column) passes the index check: the values lie in
   * [5, 6 * dimension - 1], the last row of that image.
   */
  lemma AllScaledDrawable(dimension: nat, name: string)
    ensures forall i | 0 <= i < dimension ::
      5 <= AllScaled(dimension, ScalingFactor)[i] <= 6 * dimension - 1
    ensures CheckIndexes(AllScaled(dimension, ScalingFactor), dimension * ScalingFactor - 1, name) == Completed
  {
    AllScaledBounds(dimension, ScalingFactor);
    CheckIndexesPasses(AllScaled(dimension, ScalingFactor), dimension * ScalingFactor - 1, name);
  }

  /** Indexes in 1 .. dimension map onto rows f - 1 .. dimension * f - 1 of the upscaled image, so they pass the check. */
  lemma ScaledIndexesDrawable(indexes: seq<int>, dimension: nat, f: int, name: string)
    requires f >= 1
    requires forall i | 0 <= i < |indexes| :: 1 <= indexes[i] <= dimension
    ensures CheckIndexes(ScaledIndexes(indexes, f), dimension * f - 1, name) == Completed
  {
    var r := ScaledIndexes(indexes, f);
    forall i | 0 <= i < |r|
      ensures 0 <= r[i] <= dimension * f - 1
    {
      MulMono(1, indexes[i], f);
      MulMono(indexes[i], dimension, f);
    }
    CheckIndexesPasses(r, dimension * f - 1, name);
  }

  /** Index 0 maps to -1, so a list holding it fails the check whatever the image size. */
  lemma ZeroIndexRejected(indexes: seq<int>, f: int, last: int, name: string, k: int)
    requires 0 <= k < |indexes| && indexes[k] == 0
    ensures ScaledIndexes(indexes, f)[k] == -1
    ensures CheckIndexes(ScaledIndexes(indexes, f), last, name).Panicked?
  {
    CheckIndexesPasses(ScaledIndexes(indexes, f), last, name);
  }
}
