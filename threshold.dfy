/** Binarisation of a grayscale image at a minimum peak height (contrast/treshold.go). */
module Threshold {
  import opened GoNum
  import opened Raster
  import opened Arrangements

  /** One pixel after thresholding: 255 at or above the height, 0 below. */
  function Binarized(v: Byte, minPeakHeight: Byte): (r: Byte)
    ensures r == 255 || r == 0
    ensures r == 255 <==> v >= minPeakHeight
  {
    if v >= minPeakHeight then 255 else 0
  }

  /** r shows img binarised at the given height. */
  ghost predicate BinarizedOf(r: Image, img: Image, minPeakHeight: Byte)
    reads r.pix, img.pix
    requires Valid(r) && Valid(img)
  {
    r.width == img.width && r.height == img.height && r.depth == img.depth &&
    forall x, y, c | InImage(r, x, y, c) :: At(r, x, y, c) == Binarized(At(img, x, y, c), minPeakHeight)
  }

  /** The byte loop: each of the first n bytes is replaced by its binarised value. */
  method BinarizeBytes(a: array<Byte>, n: int, minPeakHeight: Byte)
    requires 0 <= n <= a.Length
    modifies a
    ensures forall k | 0 <= k < n :: a[k] == Binarized(old(a[k]), minPeakHeight)
    ensures forall k | n <= k < a.Length :: a[k] == old(a[k])
  {
    for i := 0 to n
      invariant forall k | 0 <= k < i :: a[k] == Binarized(old(a[k]), minPeakHeight)
      invariant forall k | i <= k < a.Length :: a[k] == old(a[k])
    {
      if a[i] >= minPeakHeight {
        a[i] := 255;
      } else {
        a[i] := 0;
      }
    }
  }

  /**
   * ThresholdWithMinHeight: a new image of the same shape in which every
   * pixel at or above the height is 255 and every other pixel 0; the input
   * is only read.
   */
  method ThresholdWithMinHeight(distances: Image, minPeakHeight: Byte) returns (r: Image)
    requires Valid(distances) && distances.depth == GrayDepth
    ensures Normal(r) && Valid(r) && fresh(r.pix)
    ensures BinarizedOf(r, distances, minPeakHeight)
  {
    r := GrayscaleGetNormalized(distances);
    var itemCount := r.width * r.height;
    NormalValid(r);
    ghost var before := r.pix[..];
    BinarizeBytes(r.pix, itemCount, minPeakHeight);
    forall x, y, c | InImage(r, x, y, c)
      ensures At(r, x, y, c) == Binarized(At(distances, x, y, c), minPeakHeight)
    {
      OffsetInRange(r, x, y, c);
      assert Offset(r, x, y) + c == y * r.width + x;
      assert before[y * r.width + x] == At(distances, x, y, c);
    }
  }

  /** Height 0 lets every pixel through: the output is all 255. */
  lemma ThresholdZeroAllWhite(r: Image, img: Image)
    requires Valid(r) && Valid(img) && BinarizedOf(r, img, 0)
    ensures forall x, y, c | InImage(r, x, y, c) :: At(r, x, y, c) == 255
  {
  }

  /** Thresholding an output again at any height from 1 to 255 returns the same pixels. */
  lemma RethresholdKeeps(r: Image, img: Image, t: Byte, r2: Image, u: Byte)
    requires Valid(r) && Valid(img) && Valid(r2) && 1 <= u
    requires BinarizedOf(r, img, t) && BinarizedOf(r2, r, u)
    ensures SamePixels(r2, r)
  {
  }
}
