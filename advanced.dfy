/**
 * The gridded upscale: every source pixel becomes a p × p block, with
 * gridlines of width g in a grid colour before, between and after the
 * blocks, written into a destination image the caller provides.
 */
module Advanced {
  import opened Wrappers
  import opened GoNum
  import opened Raster
  import opened Blocks
  import opened Alterations

  /** Go's image.Rectangle: the corner Min and the corner Max just outside. */
  datatype Rect = Rect(minX: int, minY: int, maxX: int, maxY: int)

  function Dx(r: Rect): int { r.maxX - r.minX }
  function Dy(r: Rect): int { r.maxY - r.minY }

  /** The rectangle of an image. */
  function RectOf(img: Image): Rect
  {
    Rect(img.minX, img.minY, img.minX + img.width, img.minY + img.height)
  }

  /**
   * AdvancedUpscaleGetResultDimensions: the rectangle, at origin (0, 0), of
   * a destination that holds one cell per source pixel on each axis after
   * the leading gridline.
   */
  function AdvancedUpscaleGetResultDimensions(srcRect: Rect, p: nat, g: nat): (r: Rect)
    requires Dx(srcRect) >= 0 && Dy(srcRect) >= 0
    ensures r.minX == 0 && r.minY == 0
    ensures Dx(r) == BlockStart(Dx(srcRect), p, g) && Dy(r) == BlockStart(Dy(srcRect), p, g)
    ensures forall x | 0 <= x < Dx(srcRect) :: BlockStart(x, p, g) + p + g <= Dx(r)
    ensures forall y | 0 <= y < Dy(srcRect) :: BlockStart(y, p, g) + p + g <= Dy(r)
  {
    var srcHeight, srcWidth := Dy(srcRect), Dx(srcRect);
    var dstHeight := g + (p + g) * srcHeight;
    var dstWidth := g + (p + g) * srcWidth;
    forall x | 0 <= x < srcWidth
      ensures BlockStart(x, p, g) + p + g <= dstWidth
    {
      BlockFits(x, srcWidth, p, g);
    }
    forall y | 0 <= y < srcHeight
      ensures BlockStart(y, p, g) + p + g <= dstHeight
    {
      BlockFits(y, srcHeight, p, g);
    }
    Rect(0, 0, dstWidth, dstHeight)
  }

  /** Without gridlines the destination is the plain upscale's size. */
  lemma ResultDimensionsNoGrid(srcRect: Rect, p: nat)
    requires Dx(srcRect) >= 0 && Dy(srcRect) >= 0
    ensures AdvancedUpscaleGetResultDimensions(srcRect, p, 0) == Rect(0, 0, Dx(srcRect) * p, Dy(srcRect) * p)
  {
    ScaledNoGrid(Dx(srcRect), p);
    ScaledNoGrid(Dy(srcRect), p);
  }

  /** advancedUpscaleValidateArguments; a nil image is None. */
  function AdvancedUpscaleValidateArguments(src: Option<Image>, dst: Option<Image>, p: nat, g: nat): Status
  {
    if src.None? then Panicked("src parameter cannot be nil")
    else if dst.None? then Panicked("src parameter cannot be nil")
    else if p == 0 then Panicked("pixel_size parameter must be larger than 0")
    else
      var expected := AdvancedUpscaleGetResultDimensions(RectOf(src.value), p, g);
      var got := RectOf(dst.value);
      if Dx(got) == Dx(expected) && Dy(got) == Dy(expected) then Completed
      else Panicked("wrong dimensions of destination image\n" +
        "expected [width, height]: [" + FormatInt(Dx(expected)) + ", " + FormatInt(Dy(expected)) +
        "], got: [" + FormatInt(Dx(got)) + ", " + FormatInt(Dy(got)) + "]")
  }

  /** The validation passes exactly when both images exist, p > 0 and the destination has the upscaled size. */
  lemma ValidateArgumentsPasses(src: Option<Image>, dst: Option<Image>, p: nat, g: nat)
    ensures AdvancedUpscaleValidateArguments(src, dst, p, g) == Completed <==>
      src.Some? && dst.Some? && p > 0 &&
      dst.value.width == Scaled(src.value.width, p, g) && dst.value.height == Scaled(src.value.height, p, g)
  {
    if src.Some? && dst.Some? && p > 0 {
      LastBlock(src.value.width, p, g);
      LastBlock(src.value.height, p, g);
    }
  }

  /** RGBAFillColor: every pixel of the rectangle takes the colour. */
  method FillColor(img: Image, color: seq<Byte>)
    requires Valid(img) && img.depth == RGBADepth && |color| == RGBADepth
    modifies img.pix
    ensures RowsBlank(img, color, 0)
    ensures forall k | 0 <= k < img.pix.Length && !Covered(img, k) :: img.pix[k] == old(img.pix[k])
  {
    for y := 0 to img.height
      invariant forall X, Y, c | InImage(img, X, Y, c) && Y < y :: At(img, X, Y, c) == color[c]
      invariant forall k | 0 <= k < img.pix.Length && !Covered(img, k) :: img.pix[k] == old(img.pix[k])
    {
      FillRow(img, Offset(img, 0, y), y, color);
    }
  }

  /**
   * The byte where the source reads (and the destination writes) pixel
   * (x, y) of an RGBA image: the offset from the rectangle's corner plus
   * -img.PixOffset(0, 0), which is the corner's own offset from absolute
   * (0, 0). Both images use it, so reads of a source sub-image and writes
   * to a destination sub-image are shifted alike.
   */
  function AsWrittenIndex(img: Image, x: int, y: int): int
  {
    y * img.stride + x * 4 + -PixOffset(img, 0, 0)
  }

  /** The as-written index is shifted from the pixel's own offset by the rectangle's corner, and agrees only when that shift is 0. */
  lemma AsWrittenIndexShift(img: Image, x: int, y: int)
    requires img.depth == RGBADepth
    ensures AsWrittenIndex(img, x, y) == Offset(img, x, y) + img.minY * img.stride + img.minX * 4
    ensures AsWrittenIndex(img, x, y) == Offset(img, x, y) <==> img.minY * img.stride + img.minX * 4 == 0
  {
  }

  /**
   * SubImage((1, 0)-(2, 1)) of a 2 × 1 RGBA image: a buffer of the last 4
   * bytes, stride 8, one pixel. Its only pixel starts at byte 0, but the
   * as-written index is 4, the end of the buffer, so the source's 4-byte
   * slice there is out of range.
   */
  lemma SubImageReadsOutside(img: Image)
    requires img.pix.Length == 4 && img == Image(img.pix, 8, 1, 0, 1, 1, RGBADepth)
    ensures Valid(img) && InImage(img, 0, 0, 0) && Offset(img, 0, 0) == 0
    ensures AsWrittenIndex(img, 0, 0) == img.pix.Length
  {
  }

  /**
   * The pixel loop of source row srcY: row BlockStart(srcY) of dst gets
   * every pixel of the row, p times, at the start of its cell.
   */
  method AdvancedRow(src: Image, dst: Image, p: nat, g: nat, color: seq<Byte>, srcY: nat)
    requires Valid(src) && Valid(dst) && src.pix != dst.pix && src.depth == RGBADepth && p > 0
    requires Dims(dst, src, p, g, color) && srcY < src.height
    requires ColsDone(dst, src, p, g, color, BlockStart(srcY, p, g), BlockStart(0, p, g))
    requires ColsBlank(dst, color, BlockStart(srcY, p, g), BlockStart(0, p, g))
    modifies dst.pix
    ensures ColsDone(dst, src, p, g, color, BlockStart(srcY, p, g), dst.width)
    ensures forall X, Y, c | InImage(dst, X, Y, c) && Y != BlockStart(srcY, p, g) :: At(dst, X, Y, c) == old(At(dst, X, Y, c))
    ensures forall k | 0 <= k < dst.pix.Length && !Covered(dst, k) :: dst.pix[k] == old(dst.pix[k])
  {
    var srcWidth := src.width;
    BlockFits(srcY, src.height, p, g);
    for srcX := 0 to srcWidth
      invariant ColsDone(dst, src, p, g, color, BlockStart(srcY, p, g), BlockStart(srcX, p, g))
      invariant ColsBlank(dst, color, BlockStart(srcY, p, g), BlockStart(srcX, p, g))
      invariant forall X, Y, c | InImage(dst, X, Y, c) && Y != BlockStart(srcY, p, g) :: At(dst, X, Y, c) == old(At(dst, X, Y, c))
      invariant forall k | 0 <= k < dst.pix.Length && !Covered(dst, k) :: dst.pix[k] == old(dst.pix[k])
    {
      // The offsets are taken from the rectangle's corner; the source adds
      // -PixOffset(0, 0) to both (see AsWrittenIndex).
      var srcPixelBegin := srcY * src.stride + srcX * 4;
      var dstY := g + (g + p) * srcY;
      var dstX := g + (g + p) * srcX;
      var dstPixelBase := dstY * dst.stride + dstX * 4;
      BlockFits(srcX, srcWidth, p, g);
      RepeatPixel(dst, dstPixelBase, dstX, dstY, p, src, srcPixelBegin, srcX, srcY);
      CellDone(dst, src, p, g, color, srcX, srcY);
    }
    LastBlock(srcWidth, p, g);
  }

  /** One step of the row loop: source row srcY becomes the p rows of its block. */
  method AdvancedStep(src: Image, dst: Image, p: nat, g: nat, color: seq<Byte>, srcY: nat)
    requires Valid(src) && Valid(dst) && src.pix != dst.pix && src.depth == RGBADepth && p > 0
    requires Dims(dst, src, p, g, color) && srcY < src.height
    requires RowsDone(dst, src, p, g, color, BlockStart(srcY, p, g)) && RowsBlank(dst, color, BlockStart(srcY, p, g))
    modifies dst.pix
    ensures RowsDone(dst, src, p, g, color, BlockStart(srcY + 1, p, g)) && RowsBlank(dst, color, BlockStart(srcY + 1, p, g))
    ensures forall k | 0 <= k < dst.pix.Length && !Covered(dst, k) :: dst.pix[k] == old(dst.pix[k])
  {
    var dstRowLen := 4 * (src.width * (p + g) + g);
    assert dstRowLen == dst.width * dst.depth;
    RowStart(dst, src, p, g, color, srcY);
    BlockFits(srcY, src.height, p, g);
    AdvancedRow(src, dst, p, g, color, srcY);
    var dstRowY := g + (g + p) * srcY;
    var dstRowX := 0;
    var dstRowBegin := dstRowY * dst.stride + dstRowX * 4;
    label Built:
    RepeatRow(dst, dstRowBegin, dstRowY, p);
    assert ColsDone(dst, src, p, g, color, dstRowY, dst.width) by {
      forall X, c | InImage(dst, X, dstRowY, c)
        ensures At(dst, X, dstRowY, c) == Gridded(src, p, g, color, X, dstRowY, c)
      {
        assert At(dst, X, dstRowY, c) == old@Built(At(dst, X, dstRowY, c));
      }
    }
    CellRowsDone(dst, src, p, g, color, srcY);
  }

  /**
   * AdvancedUpscale: after the validation, dst is the gridded upscale of
   * src; a panic leaves dst as it was, and bytes of the buffer outside
   * dst's rectangle never change.
   */
  method AdvancedUpscale(src: Image, dst: Image, p: nat, g: nat, color: seq<Byte>) returns (status: Status)
    requires Valid(src) && Valid(dst) && src.pix != dst.pix
    requires src.depth == RGBADepth && dst.depth == RGBADepth && |color| == RGBADepth
    modifies dst.pix
    ensures status == AdvancedUpscaleValidateArguments(Some(src), Some(dst), p, g)
    ensures status.Panicked? ==> dst.pix[..] == old(dst.pix[..])
    ensures status == Completed ==> p > 0 && GriddedOf(dst, src, p, g, color)
    ensures forall k | 0 <= k < dst.pix.Length && !Covered(dst, k) :: dst.pix[k] == old(dst.pix[k])
  {
    status := AdvancedUpscaleValidateArguments(Some(src), Some(dst), p, g);
    if status.Panicked? {
      return;
    }
    ValidateArgumentsPasses(Some(src), Some(dst), p, g);
    FillColor(dst, color);
    GridStart(dst, src, p, g, color);
    for srcY := 0 to src.height
      invariant RowsDone(dst, src, p, g, color, BlockStart(srcY, p, g)) && RowsBlank(dst, color, BlockStart(srcY, p, g))
      invariant forall k | 0 <= k < dst.pix.Length && !Covered(dst, k) :: dst.pix[k] == old(dst.pix[k])
    {
      AdvancedStep(src, dst, p, g, color, srcY);
    }
    AllRowsDone(dst, src, p, g, color);
  }

  /**
   * AdvancedUpscaleGetNewImage: a new normalised image of the upscaled
   * size holding the gridded upscale of src; pixel size 0 panics.
   */
  method AdvancedUpscaleGetNewImage(src: Image, p: nat, g: nat, color: seq<Byte>) returns (r: Result<Image>)
    requires Valid(src) && src.depth == RGBADepth && |color| == RGBADepth
    ensures p == 0 ==> r == Panic("pixel_size parameter must be larger than 0")
    ensures p > 0 ==> r.Ok? && Normal(r.value) && Valid(r.value) && fresh(r.value.pix)
    ensures p > 0 ==> GriddedOf(r.value, src, p, g, color)
  {
    var dstRect := AdvancedUpscaleGetResultDimensions(RectOf(src), p, g);
    var dst := NewImage(Dx(dstRect), Dy(dstRect), RGBADepth);
    var status := AdvancedUpscale(src, dst, p, g, color);
    if status.Panicked? {
      return Panic(status.reason);
    }
    return Ok(dst);
  }
}
