/**
 * Two grayscale images of the same size combined into one: one above the
 * other when they are wide, side by side otherwise.
 */
module SideBySide {
  import opened Wrappers
  import opened GoNum
  import opened Raster
  import opened Arrangements

  /** r shows a on top of b: a's rows first, then b's. */
  ghost predicate AboveOf(r: Image, a: Image, b: Image)
    reads r.pix, a.pix, b.pix
    requires Valid(r) && Valid(a) && Valid(b)
  {
    r.width == a.width && r.height == 2 * a.height && r.depth == a.depth &&
    b.width == a.width && b.height == a.height && b.depth == a.depth &&
    forall x, y, c | InImage(r, x, y, c) ::
      At(r, x, y, c) == if y < a.height then At(a, x, y, c) else At(b, x, y - a.height, c)
  }

  /** r shows a left of b: each row of r is a's row followed by b's. */
  ghost predicate BesideOf(r: Image, a: Image, b: Image)
    reads r.pix, a.pix, b.pix
    requires Valid(r) && Valid(a) && Valid(b)
  {
    r.width == 2 * a.width && r.height == a.height && r.depth == a.depth &&
    b.width == a.width && b.height == a.height && b.depth == a.depth &&
    forall x, y, c | InImage(r, x, y, c) ::
      At(r, x, y, c) == if x < a.width then At(a, x, y, c) else At(b, x - a.width, y, c)
  }

  /** combineVertically: a new w × 2h image whose buffer is img1's buffer followed by img2's. */
  method CombineVertically(img1: Image, img2: Image) returns (r: Image)
    requires Normal(img1) && Normal(img2) && img1.depth == GrayDepth && img2.depth == GrayDepth
    requires img2.width == img1.width && img2.height == img1.height
    ensures Normal(r) && Valid(r) && fresh(r.pix)
    ensures r.width == img1.width && r.height == 2 * img1.height && r.depth == GrayDepth
    ensures r.pix[..] == img1.pix[..] + img2.pix[..]
  {
    var height, width := img1.height * 2, img1.width;
    var newStride := width;
    var newData := new Byte[width * height](_ => 0);
    var subimagePixelCount := img1.height * img1.width;
    Copy(newData, 0, img1.pix, 0, img1.pix.Length);
    Copy(newData, subimagePixelCount, img2.pix, 0, img2.pix.Length);
    r := Image(newData, newStride, 0, 0, width, height, GrayDepth);
    NormalValid(r);
    assert r.pix[..] == img1.pix[..] + img2.pix[..];
  }

  /** One pixel of a stacked buffer: rows above h come from a, the rest from b. */
  lemma StackedPixel(r: Image, a: Image, b: Image, x: int, y: int)
    requires Valid(r) && Valid(a) && Valid(b) && a.depth == GrayDepth
    requires r.width == a.width && r.height == 2 * a.height && r.depth == a.depth
    requires b.width == a.width && b.height == a.height && b.depth == a.depth
    requires r.stride == r.width && a.stride == a.width && b.stride == b.width
    requires a.pix.Length == a.height * a.width
    requires r.pix[..] == a.pix[..] + b.pix[..]
    requires 0 <= x < r.width && 0 <= y < r.height
    ensures At(r, x, y, 0) == if y < a.height then At(a, x, y, 0) else At(b, x, y - a.height, 0)
  {
    var w, h := a.width, a.height;
    GrayAt(r, x, y);
    assert r.pix[y * w + x] == (a.pix[..] + b.pix[..])[y * w + x];
    if y < h {
      StackedTop(x, y, w, h);
      GrayAt(a, x, y);
    } else {
      StackedBottom(x, y, w, h);
      GrayAt(b, x, y - h);
    }
  }

  /** A pixel of a gray image whose stride is its width sits at y * width + x. */
  lemma GrayAt(img: Image, x: int, y: int)
    requires Valid(img) && img.depth == GrayDepth && img.stride == img.width
    requires 0 <= x < img.width && 0 <= y < img.height
    ensures 0 <= y * img.width + x < img.pix.Length
    ensures At(img, x, y, 0) == img.pix[y * img.width + x]
  {
    assert x * img.depth == x;
    OffsetInRange(img, x, y, 0);
  }

  /** A pixel of the top half lies within the first buffer. */
  lemma StackedTop(x: int, y: int, w: int, h: int)
    requires 0 <= x < w && 0 <= y < h
    ensures y * w + x < h * w
  {
    MulMono(y + 1, h, w);
    assert (y + 1) * w == y * w + w;
  }

  /** A pixel of the bottom half lies h rows into the second buffer. */
  lemma StackedBottom(x: int, y: int, w: int, h: int)
    requires h <= y
    ensures y * w + x - h * w == (y - h) * w + x
  {
    assert y * w == (y - h) * w + h * w;
  }

  /** The buffer of a normalised w × 2h image made of two w × h buffers shows the first above the second. */
  lemma StackedBuffers(r: Image, a: Image, b: Image)
    requires Normal(r) && Normal(a) && Normal(b) && a.depth == GrayDepth
    requires r.width == a.width && r.height == 2 * a.height && r.depth == a.depth
    requires b.width == a.width && b.height == a.height && b.depth == a.depth
    requires r.pix[..] == a.pix[..] + b.pix[..]
    ensures Valid(r) && Valid(a) && Valid(b) && AboveOf(r, a, b)
  {
    NormalValid(r);
    NormalValid(a);
    NormalValid(b);
    forall x, y, c | InImage(r, x, y, c)
      ensures At(r, x, y, c) == if y < a.height then At(a, x, y, c) else At(b, x, y - a.height, c)
    {
      StackedPixel(r, a, b, x, y);
    }
  }

  /** Bytes copied from row y of img to row y of r, from column left on, show img's pixels there. */
  lemma HalfRowShown(r: Image, img: Image, y: int, left: int, at: int, from: int)
    requires Valid(r) && Valid(img) && img.depth == GrayDepth && r.depth == GrayDepth
    requires 0 <= y < img.height && y < r.height && 0 <= left && left + img.width <= r.width
    requires at == Offset(r, left, y) && from == Offset(img, 0, y)
    requires 0 <= at && at + img.width <= r.pix.Length && 0 <= from && from + img.width <= img.pix.Length
    requires forall k | at <= k < at + img.width :: r.pix[k] == img.pix[k - at + from]
    ensures forall x | 0 <= x < img.width :: At(r, left + x, y, 0) == At(img, x, y, 0)
  {
    forall x | 0 <= x < img.width
      ensures At(r, left + x, y, 0) == At(img, x, y, 0)
    {
      assert (left + x) * r.depth == left + x && left * r.depth == left && x * img.depth == x;
    }
  }

  /** Bytes outside the window of w pixels at (left, y) keep their value, and so do the pixels outside it. */
  lemma HalfRowKept(r: Image, before: seq<Byte>, y: int, left: int, w: int, at: int)
    requires Valid(r) && r.depth == GrayDepth && |before| == r.pix.Length
    requires 0 <= y < r.height && 0 <= left && 0 <= w && left + w <= r.width
    requires at == Offset(r, left, y)
    requires forall k | 0 <= k < r.pix.Length && !(at <= k < at + w) :: r.pix[k] == before[k]
    ensures forall x, yy, c | InImage(r, x, yy, c) && (yy != y || !(left <= x < left + w)) ::
      0 <= Offset(r, x, yy) + c < |before| && At(r, x, yy, c) == before[Offset(r, x, yy) + c]
  {
    RowWindow(r, y);
    forall x, yy, c | InImage(r, x, yy, c) && (yy != y || !(left <= x < left + w))
      ensures 0 <= Offset(r, x, yy) + c < |before| && At(r, x, yy, c) == before[Offset(r, x, yy) + c]
    {
      OffsetInRange(r, x, yy, c);
      assert x * r.depth == x && left * r.depth == left && r.width * r.depth == r.width;
    }
  }

  /** Row y of img is copied into row y of r, starting at column left; all other pixels of r keep their value. */
  method CopyHalfRow(r: Image, img: Image, y: int, left: int)
    requires Normal(r) && Normal(img) && img.depth == GrayDepth && r.depth == GrayDepth
    requires r.pix != img.pix
    requires r.width == 2 * img.width && r.height == img.height
    requires 0 <= y < r.height && 0 <= left <= img.width
    modifies r.pix
    ensures Valid(r) && Valid(img)
    ensures forall x | 0 <= x < img.width :: At(r, left + x, y, 0) == At(img, x, y, 0)
    ensures forall x, yy, c | InImage(r, x, yy, c) && (yy != y || !(left <= x < left + img.width)) ::
      At(r, x, yy, c) == old(At(r, x, yy, c))
  {
    NormalValid(r);
    NormalValid(img);
    var newStride, oldStride := r.width, img.width;
    RowInRange(r, y);
    RowInRange(img, y);
    assert r.width * r.depth == r.width && img.width * img.depth == img.width && left * r.depth == left;
    ghost var before := r.pix[..];
    Copy(r.pix, y * newStride + left, img.pix, y * oldStride, oldStride);
    HalfRowShown(r, img, y, left, y * newStride + left, y * oldStride);
    HalfRowKept(r, before, y, left, img.width, y * newStride + left);
  }

  /** One step of combineHorizontally: row y of r becomes row y of img1 followed by row y of img2. */
  method CombineRow(r: Image, img1: Image, img2: Image, y: int)
    requires Normal(r) && Normal(img1) && Normal(img2) && img1.depth == GrayDepth
    requires r.pix != img1.pix && r.pix != img2.pix
    requires r.width == 2 * img1.width && r.height == img1.height && r.depth == GrayDepth
    requires img2.width == img1.width && img2.height == img1.height && img2.depth == GrayDepth
    requires 0 <= y < r.height
    modifies r.pix
    ensures Valid(r) && Valid(img1) && Valid(img2)
    ensures forall x, c | InImage(r, x, y, c) ::
      At(r, x, y, c) == if x < img1.width then At(img1, x, y, c) else At(img2, x - img1.width, y, c)
    ensures forall x, yy, c | InImage(r, x, yy, c) && yy != y :: At(r, x, yy, c) == old(At(r, x, yy, c))
  {
    CopyHalfRow(r, img1, y, 0);
    CopyHalfRow(r, img2, y, img1.width);
    forall x, c | InImage(r, x, y, c)
      ensures At(r, x, y, c) == if x < img1.width then At(img1, x, y, c) else At(img2, x - img1.width, y, c)
    {
      if x >= img1.width {
        assert At(r, img1.width + (x - img1.width), y, 0) == At(img2, x - img1.width, y, 0);
      }
    }
  }

  /** combineHorizontally: a new 2w × h image whose row y is row y of img1 followed by row y of img2. */
  method CombineHorizontally(img1: Image, img2: Image) returns (r: Image)
    requires Normal(img1) && Normal(img2) && img1.depth == GrayDepth && img2.depth == GrayDepth
    requires img2.width == img1.width && img2.height == img1.height
    ensures Normal(r) && Valid(r) && fresh(r.pix) && Valid(img1) && Valid(img2)
    ensures BesideOf(r, img1, img2)
  {
    var height, width := img1.height, img1.width * 2;
    var newStride := width;
    var newData := new Byte[width * height](_ => 0);
    r := Image(newData, newStride, 0, 0, width, height, GrayDepth);
    assert width * height == height * (width * 1);
    NormalValid(r);
    NormalValid(img1);
    NormalValid(img2);
    for y := 0 to height
      invariant forall x, yy, c | InImage(r, x, yy, c) && yy < y ::
        At(r, x, yy, c) == if x < img1.width then At(img1, x, yy, c) else At(img2, x - img1.width, yy, c)
    {
      CombineRow(r, img1, img2, y);
    }
  }

  /** What is shown above or beside carries over to images that show the same pixels. */
  lemma CombinedSamePixels(r: Image, a: Image, b: Image, a2: Image, b2: Image)
    requires Valid(r) && Valid(a) && Valid(b) && Valid(a2) && Valid(b2)
    requires SamePixels(a, a2) && SamePixels(b, b2)
    ensures AboveOf(r, a, b) ==> AboveOf(r, a2, b2)
    ensures BesideOf(r, a, b) ==> BesideOf(r, a2, b2)
  {
  }

  /**
   * SideBySideGrayscale: images of different sizes panic; otherwise the
   * result stacks them when width > 2 * height and puts them side by side
   * otherwise.
   */
  method SideBySideGrayscale(img1: Image, img2: Image) returns (r: Result<Image>)
    requires Valid(img1) && Valid(img2) && img1.depth == GrayDepth && img2.depth == GrayDepth
    ensures (img1.width != img2.width || img1.height != img2.height) ==> r == Panic("Different sized grayscale images provided")
    ensures img1.width == img2.width && img1.height == img2.height ==>
      r.Ok? && Normal(r.value) && Valid(r.value) && fresh(r.value.pix)
    ensures img1.width == img2.width && img1.height == img2.height && img1.width > img1.height * 2 ==>
      AboveOf(r.value, img1, img2)
    ensures img1.width == img2.width && img1.height == img2.height && img1.width <= img1.height * 2 ==>
      BesideOf(r.value, img1, img2)
  {
    if img1.width != img2.width || img1.height != img2.height {
      return Panic("Different sized grayscale images provided");
    }
    var n1 := GrayscaleGetNormalized(img1);
    var n2 := GrayscaleGetNormalized(img2);
    var height, width := n1.height, n1.width;
    var combined;
    if width > height * 2 {
      combined := CombineVertically(n1, n2);
      StackedBuffers(combined, n1, n2);
    } else {
      combined := CombineHorizontally(n1, n2);
    }
    CombinedSamePixels(combined, n1, n2, img1, img2);
    return Ok(combined);
  }
}
