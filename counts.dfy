/** Per-column edge counts of a binarised edge image (contrast/counts.go). */
module EdgeCounts {
  import opened GoNum
  import opened Raster

  /** The number of the first h rows whose pixel in column x is non-zero. */
  ghost function ColumnCount(img: Image, x: int, h: nat): nat
    reads img.pix
    requires Valid(img) && 0 <= x < img.width && h <= img.height && img.depth == GrayDepth
  {
    if h == 0 then 0
    else ColumnCount(img, x, h - 1) + (if At(img, x, h - 1, 0) != 0 then 1 else 0)
  }

  /** A column count never exceeds the number of rows counted. */
  lemma {:induction false} ColumnCountBound(img: Image, x: int, h: nat)
    requires Valid(img) && 0 <= x < img.width && h <= img.height && img.depth == GrayDepth
    ensures ColumnCount(img, x, h) <= h
  {
    if h > 0 {
      ColumnCountBound(img, x, h - 1);
    }
  }

  /** A column whose first h pixels are all zero counts 0; one whose pixels are all non-zero counts h. */
  lemma {:induction false} ColumnCountExtremes(img: Image, x: int, h: nat)
    requires Valid(img) && 0 <= x < img.width && h <= img.height && img.depth == GrayDepth
    ensures (forall y | 0 <= y < h :: At(img, x, y, 0) == 0) ==> ColumnCount(img, x, h) == 0
    ensures (forall y | 0 <= y < h :: At(img, x, y, 0) != 0) ==> ColumnCount(img, x, h) == h
  {
    if h > 0 {
      ColumnCountExtremes(img, x, h - 1);
    }
  }

  /** One pass of the inner loop: row y adds 1 to the count of each of its edge positions holding a non-zero pixel. */
  method CountRow(img: Image, counts: array<nat>, y: int)
    requires Valid(img) && img.depth == GrayDepth && 0 <= y < img.height
    requires counts.Length == img.width - 1
    modifies counts
    ensures forall x | 0 <= x < counts.Length ::
      counts[x] == old(counts[x]) + (if At(img, x, y, 0) != 0 then 1 else 0)
  {
    var edgePositionsCount := img.width - 1;
    for x := 0 to edgePositionsCount
      invariant forall k | 0 <= k < x :: counts[k] == old(counts[k]) + (if At(img, k, y, 0) != 0 then 1 else 0)
      invariant forall k | x <= k < counts.Length :: counts[k] == old(counts[k])
    {
      OffsetInRange(img, x, y, 0);
      var flatId := PixOffset(img, x + img.minX, y + img.minY);
      if img.pix[flatId] != 0 {
        counts[x] := counts[x] + 1;
      }
    }
  }

  /**
   * EdgesToEdgeCounts: width - 1 counts, where count x is the number of
   * rows whose pixel in column x is non-zero; the last column is not
   * counted, and the image is only read.
   */
  method EdgesToEdgeCounts(edgesBinary: Image) returns (r: seq<nat>)
    requires Valid(edgesBinary) && edgesBinary.depth == GrayDepth && edgesBinary.width >= 1
    ensures |r| == edgesBinary.width - 1
    ensures forall x | 0 <= x < |r| :: r[x] == ColumnCount(edgesBinary, x, edgesBinary.height)
    ensures forall x | 0 <= x < |r| :: r[x] <= edgesBinary.height
  {
    var height, width := edgesBinary.height, edgesBinary.width;
    var edgePositionsCount := width - 1;
    var edgeCounts := new nat[edgePositionsCount](_ => 0);
    for y := 0 to height
      invariant forall x | 0 <= x < edgeCounts.Length :: edgeCounts[x] == ColumnCount(edgesBinary, x, y)
    {
      CountRow(edgesBinary, edgeCounts, y);
    }
    r := edgeCounts[..];
    forall x | 0 <= x < |r|
      ensures r[x] <= edgesBinary.height
    {
      ColumnCountBound(edgesBinary, x, height);
    }
  }
}
