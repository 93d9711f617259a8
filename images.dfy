/**
 * The pixel buffers of Go's image.Gray and image.RGBA: a byte slice shared
 * by reference, the stride between rows and the rectangle the pixels cover.
 */
module Raster {
  import opened GoNum

  /**
   * An image.Gray (depth 1) or an image.RGBA (depth 4). The rectangle is
   * kept as its minimum corner and its size; pixel (x, y), counted from
   * that corner, starts at byte y * stride + x * depth of the buffer.
   */
  datatype Image = Image(pix: array<Byte>, stride: int, minX: int, minY: int, width: nat, height: nat, depth: nat)

  /** Bytes per pixel of image.Gray and of image.RGBA. */
  const GrayDepth: nat := 1
  const RGBADepth: nat := 4

  /** A well-formed image: rows do not overlap and every pixel lies inside the buffer. */
  predicate Valid(img: Image)
  {
    img.depth > 0 && img.stride >= img.width * img.depth &&
    (img.height == 0 || (img.height - 1) * img.stride + img.width * img.depth <= img.pix.Length)
  }

  /** Go's PixOffset(x, y), in absolute coordinates. */
  function PixOffset(img: Image, x: int, y: int): int
  {
    (y - img.minY) * img.stride + (x - img.minX) * img.depth
  }

  /** Where pixel (x, y) starts, with x and y counted from the rectangle's corner. */
  function Offset(img: Image, x: int, y: int): int
  {
    y * img.stride + x * img.depth
  }

  /** Byte c of pixel (x, y) exists in the image. */
  predicate InImage(img: Image, x: int, y: int, c: int)
  {
    0 <= x < img.width && 0 <= y < img.height && 0 <= c < img.depth
  }

  /** A normalised image: origin (0, 0), rows packed without gaps, and a buffer of exactly its pixels. */
  predicate Normal(img: Image)
  {
    img.depth > 0 && img.minX == 0 && img.minY == 0 &&
    img.stride == img.width * img.depth && img.pix.Length == img.height * img.stride
  }

  lemma MulMono(a: int, b: int, s: int)
    requires 0 <= a <= b && s >= 0
    ensures a * s <= b * s
  {
  }

  /** A product with a positive factor that is smaller came from the smaller number. */
  lemma MulLess(a: int, b: int, s: int)
    requires 0 <= a && 0 <= b && s > 0 && a * s < b * s
    ensures a < b
  {
    assert (b - a) * s == b * s - a * s;
  }

  /** Byte c of pixel x lies inside a row of w pixels of depth d. */
  lemma InRow(x: int, c: int, w: int, d: int)
    requires 0 <= x < w && 0 <= c < d
    ensures 0 <= x * d + c < w * d
  {
    assert x * d + d == (x + 1) * d;
    MulMono(x + 1, w, d);
  }

  /** Every byte of every pixel lies in its own row of the buffer. */
  lemma OffsetInRange(img: Image, x: int, y: int, c: int)
    requires Valid(img) && InImage(img, x, y, c)
    ensures Offset(img, x, y) == PixOffset(img, x + img.minX, y + img.minY)
    ensures y * img.stride <= Offset(img, x, y) + c < y * img.stride + img.width * img.depth
    ensures 0 <= Offset(img, x, y) + c < img.pix.Length
  {
    InRow(x, c, img.width, img.depth);
    MulMono(y, img.height - 1, img.stride);
  }

  /** Row-major position of cell (x, y) on a grid of h rows of w cells. */
  function Flat(y: int, x: int, h: int, w: int): (k: int)
    requires 0 <= y < h && 0 <= x < w
    ensures 0 <= k < h * w
  {
    MulMono(y + 1, h, w);
    y * w + x
  }

  /** Row-major numbering is one-to-one on a grid of w columns. */
  lemma FlatInjective(h: int, w: int)
    ensures forall y1, x1, y2, x2 | 0 <= y1 < h && 0 <= x1 < w && 0 <= y2 < h && 0 <= x2 < w &&
      Flat(y1, x1, h, w) == Flat(y2, x2, h, w) :: y1 == y2 && x1 == x2
  {
    forall y1, x1, y2, x2 | 0 <= y1 < h && 0 <= x1 < w && 0 <= y2 < h && 0 <= x2 < w &&
      Flat(y1, x1, h, w) == Flat(y2, x2, h, w)
      ensures y1 == y2 && x1 == x2
    {
      SameSpot(x1, y1, x2, y2, w);
    }
  }

  /** The bytes of pixel (x, y) form a window of the buffer that starts at Go's PixOffset. */
  lemma PixelWindow(img: Image, x: int, y: int)
    requires Valid(img) && InImage(img, x, y, 0)
    ensures PixOffset(img, x + img.minX, y + img.minY) == Offset(img, x, y)
    ensures 0 <= Offset(img, x, y) && Offset(img, x, y) + img.depth <= img.pix.Length
  {
    InRow(x, img.depth - 1, img.width, img.depth);
    MulMono(y, img.height - 1, img.stride);
  }

  /** Every row of the rectangle lies inside the buffer, empty rows included. */
  lemma RowInRange(img: Image, y: int)
    requires Valid(img) && 0 <= y < img.height
    ensures 0 <= Offset(img, 0, y) && Offset(img, 0, y) + img.width * img.depth <= img.pix.Length
    ensures Offset(img, 0, y) == PixOffset(img, img.minX, y + img.minY)
  {
    MulMono(0, img.width, img.depth);
    MulMono(0, y, img.stride);
    MulMono(y, img.height - 1, img.stride);
  }

  /** A byte of an earlier row comes before every byte of a later row. */
  lemma RowBefore(img: Image, x: int, y: int, c: int, later: int)
    requires Valid(img) && InImage(img, x, y, c) && y < later
    ensures Offset(img, x, y) + c < later * img.stride
  {
    OffsetInRange(img, x, y, c);
    MulMono(y + 1, later, img.stride);
    assert (y + 1) * img.stride == y * img.stride + img.stride;
  }

  /** Byte c of pixel (x, y). */
  ghost function At(img: Image, x: int, y: int, c: int): Byte
    reads img.pix
    requires Valid(img) && InImage(img, x, y, c)
  {
    OffsetInRange(img, x, y, c);
    img.pix[Offset(img, x, y) + c]
  }

  /** Two images of the same size show the same pixels. */
  ghost predicate SamePixels(a: Image, b: Image)
    reads a.pix, b.pix
    requires Valid(a) && Valid(b)
  {
    a.width == b.width && a.height == b.height && a.depth == b.depth &&
    forall x, y, c | InImage(a, x, y, c) :: At(a, x, y, c) == At(b, x, y, c)
  }

  /** A normalised image is well formed, and its pixels are numbered row by row. */
  lemma NormalValid(img: Image)
    requires Normal(img)
    ensures Valid(img)
    ensures forall x, y | 0 <= x < img.width && 0 <= y < img.height ::
      Offset(img, x, y) == (y * img.width + x) * img.depth
  {
    if img.height > 0 {
      assert (img.height - 1) * img.stride + img.stride == img.height * img.stride;
    }
    forall x, y | 0 <= x < img.width && 0 <= y < img.height
      ensures Offset(img, x, y) == (y * img.width + x) * img.depth
    {
      assert y * (img.width * img.depth) == (y * img.width) * img.depth;
    }
  }

  /** u * d + c, for 0 <= c < d, lies in cell v of size d only when u == v. */
  lemma SameCell(u: int, v: int, c: int, d: int)
    requires 0 <= u && 0 <= v && 0 <= c < d
    requires v * d <= u * d + c < v * d + d
    ensures u == v
  {
    if u < v {
      MulMono(u + 1, v, d);
    } else if u > v {
      MulMono(v + 1, u, d);
    }
  }

  /** Row-major numbering y * w + x is one-to-one on a grid of width w. */
  lemma SameSpot(x: int, y: int, x2: int, y2: int, w: int)
    requires 0 <= x < w && 0 <= x2 < w && 0 <= y && 0 <= y2
    requires y * w + x == y2 * w + x2
    ensures x == x2 && y == y2
  {
    SameCell(y, y2, x, w);
  }

  /** In a normalised image, byte c of pixel (x, y) is inside pixel (x2, y2) only when they are the same. */
  lemma NormalCell(img: Image, x: int, y: int, c: int, x2: int, y2: int)
    requires Normal(img) && InImage(img, x, y, c) && InImage(img, x2, y2, 0)
    requires Offset(img, x2, y2) <= Offset(img, x, y) + c < Offset(img, x2, y2) + img.depth
    ensures x == x2 && y == y2
  {
    var w, d := img.width, img.depth;
    Distribute(y, w, x, d);
    Distribute(y2, w, x2, d);
    MulMono(0, y, w);
    MulMono(0, y2, w);
    SameCell(y * w + x, y2 * w + x2, c, d);
    SameSpot(x, y, x2, y2, w);
  }

  /** Euclidean division of a natural number. */
  lemma DivMod(k: int, d: int) returns (q: int, r: int)
    requires 0 <= k && 0 < d
    ensures 0 <= q && 0 <= r < d && k == q * d + r
  {
    q, r := k / d, k % d;
  }

  lemma Distribute(y: int, w: int, x: int, d: int)
    ensures (y * w + x) * d == y * (w * d) + x * d
  {
  }

  /** Every byte of a normalised buffer is byte c of some pixel (x, y). */
  lemma Decompose(k: int, w: int, h: int, d: int) returns (x: int, y: int, c: int)
    requires 0 < w && 0 < d && 0 <= k < h * (w * d)
    ensures 0 <= x < w && 0 <= y < h && 0 <= c < d
    ensures k == y * (w * d) + x * d + c
  {
    var u;
    u, c := DivMod(k, d);
    y, x := DivMod(u, w);
    Distribute(y, w, x, d);
    MulMono(0, x, d);
    MulMono(1, w, d);
    MulLess(y, h, w * d);
  }

  /**
   * A normalised image is determined by its pixels: two of them that show
   * the same pixels hold the same bytes.
   */
  lemma NormalDetermined(a: Image, b: Image)
    requires Normal(a) && Normal(b) && Valid(a) && Valid(b)
    requires SamePixels(a, b)
    ensures a.pix[..] == b.pix[..]
  {
    forall k | 0 <= k < a.pix.Length
      ensures a.pix[k] == b.pix[k]
    {
      var x, y, c := Decompose(k, a.width, a.height, a.depth);
      assert At(a, x, y, c) == At(b, x, y, c);
    }
  }

  /** In a well-formed image, byte c of pixel (x, y) lies in the bytes of pixel (x2, y2) only when they are the same. */
  lemma ValidCell(img: Image, x: int, y: int, c: int, x2: int, y2: int)
    requires Valid(img) && InImage(img, x, y, c) && InImage(img, x2, y2, 0)
    requires Offset(img, x2, y2) <= Offset(img, x, y) + c < Offset(img, x2, y2) + img.depth
    ensures x == x2 && y == y2
  {
    var d := img.depth;
    InRow(x, c, img.width, d);
    InRow(x2, d - 1, img.width, d);
    MulMono(0, x2, d);
    SameCell(y, y2, x * d + c, img.stride);
    SameCell(x, x2, c, d);
  }

  /** k == q * b + r with 0 <= r < b fixes the quotient and the remainder. */
  lemma DivUnique(k: int, b: int, q: int, r: int)
    requires 0 <= q && 0 <= r < b && k == q * b + r
    ensures k / b == q && k % b == r
  {
    MulMono(0, q, b);
    SameCell(q, k / b, r, b);
  }

  /** Byte k of the buffer belongs to a pixel of the rectangle; the others belong to whatever image the buffer is shared with. */
  predicate Covered(img: Image, k: int)
  {
    img.stride > 0 && 0 <= k && k / img.stride < img.height && k % img.stride < img.width * img.depth
  }

  /** Every byte of every pixel is covered. */
  lemma CoveredOffset(img: Image, x: int, y: int, c: int)
    requires Valid(img) && InImage(img, x, y, c)
    ensures Covered(img, Offset(img, x, y) + c)
  {
    InRow(x, c, img.width, img.depth);
    DivUnique(Offset(img, x, y) + c, img.stride, y, x * img.depth + c);
  }

  /**
   * After only the bytes of pixel (x, y) changed from before, every other
   * pixel still shows before, and so does every byte outside the rectangle.
   */
  lemma WrotePixel(img: Image, before: seq<Byte>, x: int, y: int)
    requires Valid(img) && InImage(img, x, y, 0) && |before| == img.pix.Length
    requires forall k | 0 <= k < img.pix.Length && !(Offset(img, x, y) <= k < Offset(img, x, y) + img.depth) ::
      img.pix[k] == before[k]
    ensures forall xx, yy, c | InImage(img, xx, yy, c) && (xx != x || yy != y) ::
      0 <= Offset(img, xx, yy) + c < |before| && At(img, xx, yy, c) == before[Offset(img, xx, yy) + c]
    ensures forall k | 0 <= k < |before| && !Covered(img, k) :: img.pix[k] == before[k]
  {
    forall xx, yy, c | InImage(img, xx, yy, c) && (xx != x || yy != y)
      ensures 0 <= Offset(img, xx, yy) + c < |before| && At(img, xx, yy, c) == before[Offset(img, xx, yy) + c]
    {
      OffsetInRange(img, xx, yy, c);
      if Offset(img, x, y) <= Offset(img, xx, yy) + c < Offset(img, x, y) + img.depth {
        ValidCell(img, xx, yy, c, x, y);
      }
    }
    forall k | 0 <= k < |before| && !Covered(img, k)
      ensures img.pix[k] == before[k]
    {
      if Offset(img, x, y) <= k < Offset(img, x, y) + img.depth {
        CoveredOffset(img, x, y, k - Offset(img, x, y));
      }
    }
  }

  /** Go's copy(dst[at:], src) where the whole of src fits. */
  method CopyFrom(dst: array<Byte>, at: int, src: seq<Byte>)
    requires 0 <= at && at + |src| <= dst.Length
    modifies dst
    ensures forall k | at <= k < at + |src| :: dst[k] == src[k - at]
    ensures forall k | 0 <= k < dst.Length && !(at <= k < at + |src|) :: dst[k] == old(dst[k])
  {
    for i := 0 to |src|
      invariant forall k | at <= k < at + i :: dst[k] == src[k - at]
      invariant forall k | 0 <= k < dst.Length && !(at <= k < at + i) :: dst[k] == old(dst[k])
    {
      dst[at + i] := src[i];
    }
  }

  /** Copy the bytes of pixel (x, y) of src, from byte from on, over those of pixel (dx, dy) of dst, from byte at on. */
  method CopyPixel(dst: Image, at: int, dx: int, dy: int, src: Image, from: int, x: int, y: int)
    requires Valid(dst) && Valid(src) && dst.pix != src.pix && dst.depth == src.depth
    requires InImage(dst, dx, dy, 0) && InImage(src, x, y, 0) && at == Offset(dst, dx, dy) && from == Offset(src, x, y)
    modifies dst.pix
    ensures forall c | 0 <= c < dst.depth :: At(dst, dx, dy, c) == At(src, x, y, c)
    ensures forall xx, yy, c | InImage(dst, xx, yy, c) && (xx != dx || yy != dy) ::
      At(dst, xx, yy, c) == old(At(dst, xx, yy, c))
    ensures forall k | 0 <= k < dst.pix.Length && !Covered(dst, k) :: dst.pix[k] == old(dst.pix[k])
  {
    PixelWindow(dst, dx, dy);
    PixelWindow(src, x, y);
    ghost var before := dst.pix[..];
    Copy(dst.pix, at, src.pix, from, dst.depth);
    WrotePixel(dst, before, dx, dy);
    forall c | 0 <= c < dst.depth
      ensures At(dst, dx, dy, c) == At(src, x, y, c)
    {
      OffsetInRange(dst, dx, dy, c);
      OffsetInRange(src, x, y, c);
    }
  }

  /** Go's copy(img.Pix[at:], color[:]): pixel (x, y), which starts at byte at, takes the colour. */
  method SetPixel(img: Image, at: int, x: int, y: int, color: seq<Byte>)
    requires Valid(img) && InImage(img, x, y, 0) && at == Offset(img, x, y) && |color| == img.depth
    modifies img.pix
    ensures forall c | 0 <= c < img.depth :: At(img, x, y, c) == color[c]
    ensures forall xx, yy, c | InImage(img, xx, yy, c) && (xx != x || yy != y) ::
      At(img, xx, yy, c) == old(At(img, xx, yy, c))
    ensures forall k | 0 <= k < img.pix.Length && !Covered(img, k) :: img.pix[k] == old(img.pix[k])
  {
    PixelWindow(img, x, y);
    ghost var before := img.pix[..];
    CopyFrom(img.pix, at, color);
    WrotePixel(img, before, x, y);
    forall c | 0 <= c < img.depth
      ensures At(img, x, y, c) == color[c]
    {
      OffsetInRange(img, x, y, c);
    }
  }

  /** The bytes of row y of the rectangle: width * depth of them from Offset(img, 0, y), all covered. */
  lemma RowCovered(img: Image, y: int)
    requires Valid(img) && 0 <= y < img.height
    ensures 0 <= Offset(img, 0, y) && Offset(img, 0, y) + img.width * img.depth <= img.pix.Length
    ensures forall k | Offset(img, 0, y) <= k < Offset(img, 0, y) + img.width * img.depth :: Covered(img, k)
  {
    RowInRange(img, y);
    forall k | Offset(img, 0, y) <= k < Offset(img, 0, y) + img.width * img.depth
      ensures Covered(img, k)
    {
      DivUnique(k, img.stride, y, k - Offset(img, 0, y));
    }
  }

  /** Two different rows start at least a stride apart, so their windows do not meet. */
  lemma RowsApart(img: Image, y: int, y2: int)
    requires Valid(img) && 0 <= y < img.height && 0 <= y2 < img.height && y != y2
    ensures Offset(img, 0, y2) + img.width * img.depth <= Offset(img, 0, y) ||
            Offset(img, 0, y) + img.width * img.depth <= Offset(img, 0, y2)
  {
    if y2 < y {
      MulMono(y2 + 1, y, img.stride);
    } else {
      MulMono(y + 1, y2, img.stride);
    }
  }

  /** The bytes of row y of the rectangle: width * depth of them from Offset(img, 0, y), all covered, and no other row's. */
  lemma RowWindow(img: Image, y: int)
    requires Valid(img) && 0 <= y < img.height
    ensures 0 <= Offset(img, 0, y) && Offset(img, 0, y) + img.width * img.depth <= img.pix.Length
    ensures forall k | Offset(img, 0, y) <= k < Offset(img, 0, y) + img.width * img.depth :: Covered(img, k)
    ensures forall x, y2, c | InImage(img, x, y2, c) && y2 != y ::
      !(Offset(img, 0, y) <= Offset(img, x, y2) + c < Offset(img, 0, y) + img.width * img.depth)
  {
    RowCovered(img, y);
    forall x, y2, c | InImage(img, x, y2, c) && y2 != y
      ensures !(Offset(img, 0, y) <= Offset(img, x, y2) + c < Offset(img, 0, y) + img.width * img.depth)
    {
      OffsetInRange(img, x, y2, c);
      RowsApart(img, y, y2);
    }
  }

  /**
   * After row to was overwritten by the bytes that row from held in before,
   * and nothing else changed, row to shows row from of before and every
   * other pixel and every byte outside the rectangle still shows before.
   */
  lemma WroteRow(img: Image, before: seq<Byte>, to: int, from: int)
    requires Valid(img) && 0 <= to < img.height && 0 <= from < img.height && |before| == img.pix.Length
    requires Offset(img, 0, from) + img.width * img.depth <= |before|
    requires forall k | Offset(img, 0, to) <= k < Offset(img, 0, to) + img.width * img.depth ::
      0 <= k < img.pix.Length && img.pix[k] == before[k - Offset(img, 0, to) + Offset(img, 0, from)]
    requires forall k | 0 <= k < img.pix.Length && !(Offset(img, 0, to) <= k < Offset(img, 0, to) + img.width * img.depth) ::
      img.pix[k] == before[k]
    ensures forall x, c | InImage(img, x, to, c) ::
      0 <= Offset(img, x, from) + c < |before| && At(img, x, to, c) == before[Offset(img, x, from) + c]
    ensures forall x, y, c | InImage(img, x, y, c) && y != to ::
      0 <= Offset(img, x, y) + c < |before| && At(img, x, y, c) == before[Offset(img, x, y) + c]
    ensures forall k | 0 <= k < |before| && !Covered(img, k) :: img.pix[k] == before[k]
  {
    RowWindow(img, to);
    forall x, c | InImage(img, x, to, c)
      ensures 0 <= Offset(img, x, from) + c < |before| && At(img, x, to, c) == before[Offset(img, x, from) + c]
    {
      OffsetInRange(img, x, to, c);
      OffsetInRange(img, x, from, c);
    }
    forall x, y, c | InImage(img, x, y, c) && y != to
      ensures 0 <= Offset(img, x, y) + c < |before| && At(img, x, y, c) == before[Offset(img, x, y) + c]
    {
      OffsetInRange(img, x, y, c);
    }
  }

  /** Go's copy of row from over row to of the same image; at and start are where the two rows begin. */
  method CopyRow(img: Image, at: int, to: int, start: int, from: int)
    requires Valid(img) && 0 <= to < img.height && 0 <= from < img.height && to != from
    requires at == Offset(img, 0, to) && start == Offset(img, 0, from)
    modifies img.pix
    ensures forall x, c | InImage(img, x, to, c) :: At(img, x, to, c) == old(At(img, x, from, c))
    ensures forall x, y, c | InImage(img, x, y, c) && y != to :: At(img, x, y, c) == old(At(img, x, y, c))
    ensures forall k | 0 <= k < img.pix.Length && !Covered(img, k) :: img.pix[k] == old(img.pix[k])
  {
    var n := img.width * img.depth;
    RowInRange(img, to);
    RowInRange(img, from);
    RowsApart(img, to, from);
    ghost var before := img.pix[..];
    Copy(img.pix, at, img.pix, start, n);
    WroteRow(img, before, to, from);
  }

  /** Go's image.NewRGBA and image.NewGray: a fresh normalised image of the given size, every byte zero. */
  method NewImage(width: nat, height: nat, depth: nat) returns (img: Image)
    requires depth > 0
    ensures Normal(img) && Valid(img) && fresh(img.pix)
    ensures img.width == width && img.height == height && img.depth == depth
    ensures forall k | 0 <= k < img.pix.Length :: img.pix[k] == 0
  {
    var pix := new Byte[height * (width * depth)](_ => 0);
    img := Image(pix, width * depth, 0, 0, width, height, depth);
    NormalValid(img);
  }

  /** Go's built-in copy(dst[at:at+n], src[from:from+n]) on two windows that do not overlap. */
  method Copy(dst: array<Byte>, at: int, src: array<Byte>, from: int, n: int)
    requires 0 <= n && 0 <= at && at + n <= dst.Length && 0 <= from && from + n <= src.Length
    requires dst != src || at + n <= from || from + n <= at
    modifies dst
    ensures forall k | at <= k < at + n :: dst[k] == old(src[k - at + from])
    ensures forall k | 0 <= k < dst.Length && !(at <= k < at + n) :: dst[k] == old(dst[k])
  {
    for i := 0 to n
      invariant forall k | at <= k < at + i :: dst[k] == old(src[k - at + from])
      invariant forall k | 0 <= k < dst.Length && !(at <= k < at + i) :: dst[k] == old(dst[k])
      invariant forall k | 0 <= k < src.Length && !(dst == src && at <= k < at + i) :: src[k] == old(src[k])
    {
      dst[at + i] := src[from + i];
    }
  }
}
