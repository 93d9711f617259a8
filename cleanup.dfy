/**
 * Removal of vertical specks from a binarised edge image: a white pixel
 * with black directly above and below is cleared (contrast/cleanup.go).
 */
module Cleanup {
  import opened GoNum
  import opened Raster
  import opened Arrangements

  /** Pixel (x, y) is an interior white pixel with black directly above and below it. */
  ghost predicate Speck(img: Image, x: int, y: int)
    reads img.pix
    requires Valid(img) && img.depth == GrayDepth && InImage(img, x, y, 0)
  {
    1 <= y < img.height - 1 &&
    At(img, x, y - 1, 0) == 0 && At(img, x, y + 1, 0) == 0 && At(img, x, y, 0) == 255
  }

  /** The value of pixel (x, y) once the specks of img are cleared. */
  ghost function Cleaned(img: Image, x: int, y: int): Byte
    reads img.pix
    requires Valid(img) && img.depth == GrayDepth && InImage(img, x, y, 0)
  {
    if Speck(img, x, y) then 0 else At(img, x, y, 0)
  }

  /** The number of specks among the first n pixels of row y. */
  ghost function SpecksInRow(img: Image, y: int, n: nat): nat
    reads img.pix
    requires Valid(img) && img.depth == GrayDepth && 0 <= y < img.height && n <= img.width
  {
    if n == 0 then 0 else SpecksInRow(img, y, n - 1) + (if Speck(img, n - 1, y) then 1 else 0)
  }

  /** The number of specks in the rows above row y. */
  ghost function SpecksAbove(img: Image, y: nat): nat
    reads img.pix
    requires Valid(img) && img.depth == GrayDepth && y <= img.height
  {
    if y == 0 then 0 else SpecksAbove(img, y - 1) + SpecksInRow(img, y - 1, img.width)
  }

  /** r shows img with its specks cleared. */
  ghost predicate CleanedOf(r: Image, img: Image)
    reads r.pix, img.pix
    requires Valid(r) && Valid(img) && r.depth == GrayDepth && img.depth == GrayDepth
  {
    r.width == img.width && r.height == img.height &&
    forall x, y | InImage(r, x, y, 0) :: At(r, x, y, 0) == Cleaned(img, x, y)
  }

  /** A pixel changes exactly when it is a speck, and a speck turns from 255 to 0. */
  lemma CleanedChanges(img: Image, x: int, y: int)
    requires Valid(img) && img.depth == GrayDepth && InImage(img, x, y, 0)
    ensures Cleaned(img, x, y) != At(img, x, y, 0) <==> Speck(img, x, y)
    ensures Speck(img, x, y) ==> At(img, x, y, 0) == 255 && Cleaned(img, x, y) == 0
  {
  }

  /** The first and the last row hold no specks. */
  lemma {:induction false} NoSpecksInEdgeRow(img: Image, y: int, n: nat)
    requires Valid(img) && img.depth == GrayDepth && 0 <= y < img.height && n <= img.width
    requires y == 0 || y == img.height - 1
    ensures SpecksInRow(img, y, n) == 0
  {
    if n > 0 {
      NoSpecksInEdgeRow(img, y, n - 1);
    }
  }

  /** Images lower than three rows hold no specks at all. */
  lemma {:induction false} NoSpecksInLowImage(img: Image, y: nat)
    requires Valid(img) && img.depth == GrayDepth && img.height < 3 && y <= img.height
    ensures SpecksAbove(img, y) == 0
  {
    if y > 0 {
      NoSpecksInLowImage(img, y - 1);
      NoSpecksInEdgeRow(img, y - 1, img.width);
    }
  }

  /**
   * The in-place scan decides as if it read the original: the pixel above
   * may already be cleared, but only when the current pixel is 0, and then
   * neither test fires.
   */
  lemma InPlaceAgrees(img: Image, x: int, y: int)
    requires Valid(img) && img.depth == GrayDepth && InImage(img, x, y, 0) && 1 <= y < img.height - 1
    ensures (Cleaned(img, x, y - 1) == 0 && At(img, x, y + 1, 0) == 0 && At(img, x, y, 0) == 255) <==> Speck(img, x, y)
  {
  }

  /** The scan has cleared rows above y and the first x pixels of row y; the rest is as in img. */
  ghost predicate CleanedBefore(r: Image, img: Image, x: int, y: int)
    reads r.pix, img.pix
    requires Valid(r) && Valid(img) && r.depth == GrayDepth && img.depth == GrayDepth
  {
    r.width == img.width && r.height == img.height &&
    forall xx, yy | InImage(r, xx, yy, 0) ::
      At(r, xx, yy, 0) == if yy < y || (yy == y && xx < x) then Cleaned(img, xx, yy) else At(img, xx, yy, 0)
  }

  /** One step of the scan: pixel (x, y) is cleared when its above, below and own values say so. */
  method CleanPixel(result: Image, img: Image, x: int, y: int, count: int) returns (count': int)
    requires Normal(result) && Valid(result) && Valid(img) && result.depth == GrayDepth && img.depth == GrayDepth
    requires result.pix != img.pix
    requires 1 <= y < result.height - 1 && 0 <= x < result.width
    requires CleanedBefore(result, img, x, y)
    modifies result.pix
    ensures Valid(result) && CleanedBefore(result, img, x + 1, y)
    ensures count' == count + (if Speck(img, x, y) then 1 else 0)
  {
    var width := result.width;
    NormalValid(result);
    assert width * result.depth == width;
    var aboveId := (y - 1) * width + x;
    var currId := y * width + x;
    var belowId := (y + 1) * width + x;
    OffsetInRange(result, x, y - 1, 0);
    OffsetInRange(result, x, y, 0);
    OffsetInRange(result, x, y + 1, 0);
    assert result.pix[aboveId] == Cleaned(img, x, y - 1);
    assert result.pix[belowId] == At(img, x, y + 1, 0);
    assert result.pix[currId] == At(img, x, y, 0);
    InPlaceAgrees(img, x, y);
    count' := count;
    if result.pix[aboveId] == 0 && result.pix[belowId] == 0 && result.pix[currId] == 255 {
      SetPixel(result, currId, x, y, [0]);
      count' := count' + 1;
    }
  }

  /** One row of the scan: every pixel of row y is cleared as needed, and its specks are counted. */
  method CleanRow(result: Image, img: Image, y: int, count: int) returns (count': int)
    requires Normal(result) && Valid(result) && Valid(img) && result.depth == GrayDepth && img.depth == GrayDepth
    requires result.pix != img.pix
    requires 1 <= y < result.height - 1
    requires CleanedBefore(result, img, 0, y)
    modifies result.pix
    ensures Valid(result) && CleanedBefore(result, img, 0, y + 1)
    ensures count' == count + SpecksInRow(img, y, img.width)
  {
    count' := count;
    for x := 0 to result.width
      invariant CleanedBefore(result, img, x, y)
      invariant count' == count + SpecksInRow(img, y, x)
    {
      count' := CleanPixel(result, img, x, y, count');
    }
  }

  /**
   * CleanupEdgeArtifacts: a normalised copy in which every speck of the
   * input is cleared, with the number of cleared pixels; the input is only
   * read.
   */
  method CleanupEdgeArtifacts(edgesBinary: Image) returns (result: Image, countChanged: int)
    requires Valid(edgesBinary) && edgesBinary.depth == GrayDepth
    ensures Normal(result) && Valid(result) && fresh(result.pix) && result.depth == GrayDepth
    ensures CleanedOf(result, edgesBinary)
    ensures countChanged == SpecksAbove(edgesBinary, edgesBinary.height)
  {
    result := GrayscaleGetNormalized(edgesBinary);
    var width, height := result.width, result.height;
    countChanged := 0;
    if height < 3 {
      NoSpecksInLowImage(edgesBinary, height);
      return;
    }
    NoSpecksInEdgeRow(edgesBinary, 0, width);
    assert SpecksAbove(edgesBinary, 1) == 0;
    for y := 1 to height - 1
      invariant CleanedBefore(result, edgesBinary, 0, y)
      invariant countChanged == SpecksAbove(edgesBinary, y)
    {
      countChanged := CleanRow(result, edgesBinary, y, countChanged);
    }
    NoSpecksInEdgeRow(edgesBinary, height - 1, width);
  }

  /** The first and last rows come through unchanged, and so does every row of an image lower than three rows. */
  lemma EdgeRowsKept(r: Image, img: Image)
    requires Valid(r) && Valid(img) && r.depth == GrayDepth && img.depth == GrayDepth && CleanedOf(r, img)
    ensures forall x, y | InImage(r, x, y, 0) && (y == 0 || y == r.height - 1) :: At(r, x, y, 0) == At(img, x, y, 0)
    ensures img.height < 3 ==> SamePixels(r, img) && SpecksAbove(img, img.height) == 0
  {
    if img.height < 3 {
      NoSpecksInLowImage(img, img.height);
    }
  }
}
