/**
 * Whole-image alterations of RGBA images: the plain upscale by an integer
 * factor and the drawing of gridline rows and columns in a colour.
 */
module Alterations {
  import opened Wrappers
  import opened GoNum
  import opened Raster
  import opened Blocks
  import opened Arrangements

  /** The colour the buffer of a new image starts out with. */
  const Black: seq<Byte> := [0, 0, 0, 0]

  /** Go's offsets in the upscaled buffer, (f * f * y * w + f * x) * 4 and f * f * y * 4 * w, are those of pixels (f * x, f * y) and (0, f * y). */
  lemma UpscaleOffsets(f: nat, y: nat, w: nat, x: nat)
    ensures (f * f * y * w + f * x) * 4 == (f * y) * ((w * f) * 4) + (f * x) * 4
    ensures f * f * y * 4 * w == (f * y) * ((w * f) * 4) + 0 * 4
  {
    assert f * f * y * w == (f * y) * (w * f);
  }

  /** The pixel loop of one source row y: row f * y of up gets every pixel of the row, f times. */
  method UpscaleRow(up: Image, n: Image, f: nat, y: nat)
    requires Normal(up) && Normal(n) && Valid(up) && Valid(n) && up.pix != n.pix
    requires f > 0 && Dims(up, n, f, 0, Black) && n.depth == RGBADepth && y < n.height
    requires ColsDone(up, n, f, 0, Black, BlockStart(y, f, 0), BlockStart(0, f, 0))
    requires ColsBlank(up, Black, BlockStart(y, f, 0), BlockStart(0, f, 0))
    modifies up.pix
    ensures ColsDone(up, n, f, 0, Black, BlockStart(y, f, 0), up.width)
    ensures forall X, Y, c | InImage(up, X, Y, c) && Y != BlockStart(y, f, 0) :: At(up, X, Y, c) == old(At(up, X, Y, c))
  {
    var w := n.width;
    var Yb := BlockStart(y, f, 0);
    BlockFits(y, n.height, f, 0);
    NormalValid(n);
    for x := 0 to w
      invariant ColsDone(up, n, f, 0, Black, Yb, BlockStart(x, f, 0))
      invariant ColsBlank(up, Black, Yb, BlockStart(x, f, 0))
      invariant forall X, Y, c | InImage(up, X, Y, c) && Y != Yb :: At(up, X, Y, c) == old(At(up, X, Y, c))
    {
      var sourcePixelBegin := (y * w + x) * 4;
      var destY := f * f * y;
      var destX := f * x;
      var destPixelBeginBase := (destY * w + destX) * 4;
      UpscaleOffsets(f, y, w, x);
      BlockFits(x, w, f, 0);
      RepeatPixel(up, destPixelBeginBase, destX, Yb, f, n, sourcePixelBegin, x, y);
      CellDone(up, n, f, 0, Black, x, y);
    }
    LastBlock(w, f, 0);
  }

  /** One step of the row loop: source row y becomes the f rows of its cell. */
  method UpscaleStep(up: Image, n: Image, f: nat, y: nat)
    requires Normal(up) && Normal(n) && Valid(up) && Valid(n) && up.pix != n.pix
    requires f > 0 && Dims(up, n, f, 0, Black) && n.depth == RGBADepth && y < n.height
    requires RowsDone(up, n, f, 0, Black, BlockStart(y, f, 0)) && RowsBlank(up, Black, BlockStart(y, f, 0))
    modifies up.pix
    ensures RowsDone(up, n, f, 0, Black, BlockStart(y + 1, f, 0)) && RowsBlank(up, Black, BlockStart(y + 1, f, 0))
  {
    var w := n.width;
    var Yb := BlockStart(y, f, 0);
    RowStart(up, n, f, 0, Black, y);
    BlockFits(y, n.height, f, 0);
    UpscaleRow(up, n, f, y);
    var sourceBegin := f * f * y * 4 * w;
    UpscaleOffsets(f, y, w, 0);
    label Built:
    RepeatRow(up, sourceBegin, Yb, f);
    assert ColsDone(up, n, f, 0, Black, Yb, up.width) by {
      forall X, c | InImage(up, X, Yb, c)
        ensures At(up, X, Yb, c) == Gridded(n, f, 0, Black, X, Yb, c)
      {
        assert At(up, X, Yb, c) == old@Built(At(up, X, Yb, c));
      }
    }
    CellRowsDone(up, n, f, 0, Black, y);
  }

  /** The loops of ImageUpscaledByFactor, over a normalised source and a blank buffer of the upscaled size. */
  method UpscaleInto(upscaled: Image, n: Image, factor: nat)
    requires Normal(upscaled) && Normal(n) && Valid(upscaled) && Valid(n) && upscaled.pix != n.pix
    requires factor > 0 && n.depth == RGBADepth && upscaled.depth == RGBADepth
    requires upscaled.width == n.width * factor && upscaled.height == n.height * factor
    requires forall k | 0 <= k < upscaled.pix.Length :: upscaled.pix[k] == 0
    modifies upscaled.pix
    ensures UpscaleOf(upscaled, n, factor)
  {
    ScaledNoGrid(n.width, factor);
    ScaledNoGrid(n.height, factor);
    forall X, Y, c | InImage(upscaled, X, Y, c)
      ensures At(upscaled, X, Y, c) == Black[c]
    {
      OffsetInRange(upscaled, X, Y, c);
    }
    GridStart(upscaled, n, factor, 0, Black);
    for y := 0 to n.height
      invariant RowsDone(upscaled, n, factor, 0, Black, BlockStart(y, factor, 0))
      invariant RowsBlank(upscaled, Black, BlockStart(y, factor, 0))
    {
      UpscaleStep(upscaled, n, factor, y);
    }
    AllRowsDone(upscaled, n, factor, 0, Black);
    NoGridIsUpscale(upscaled, n, factor, Black);
  }

  /**
   * ImageUpscaledByFactor: a new normalised image whose pixel (X, Y) shows
   * pixel (X / factor, Y / factor) of img; factor 0 gives an empty image,
   * and a factor outside 0 .. 100 panics.
   */
  method ImageUpscaledByFactor(img: Image, factor: int) returns (r: Result<Image>)
    requires Valid(img) && img.depth == RGBADepth
    ensures factor < 0 ==> r == Panic("Upscale by negative factor attempted")
    ensures factor > 100 ==> r == Panic("Upscale by factor higher than 100 attempted.")
    ensures 0 <= factor <= 100 ==> r.Ok? && Normal(r.value) && Valid(r.value) && fresh(r.value.pix)
    ensures 0 <= factor <= 100 ==> r.value.width == img.width * factor && r.value.height == img.height * factor
    ensures 0 <= factor <= 100 ==> r.value.depth == RGBADepth
    ensures 0 < factor <= 100 ==> UpscaleOf(r.value, img, factor)
  {
    if factor < 0 {
      return Panic("Upscale by negative factor attempted");
    }
    if factor > 100 {
      return Panic("Upscale by factor higher than 100 attempted.");
    }
    var n := ImageGetNormalized(img);
    var height, width := n.height, n.width;
    var upscaled := NewImage(width * factor, height * factor, RGBADepth);
    // With factor 0 the buffer is empty and the loops of the source copy nothing.
    if factor > 0 {
      UpscaleInto(upscaled, n, factor);
      UpscaleOfSamePixels(upscaled, n, img, factor);
    }
    return Ok(upscaled);
  }

  /** An upscale of an image is an upscale of every image that shows the same pixels. */
  lemma UpscaleOfSamePixels(up: Image, n: Image, img: Image, f: nat)
    requires Valid(up) && Valid(n) && Valid(img) && f > 0
    requires UpscaleOf(up, n, f) && SamePixels(n, img)
    ensures UpscaleOf(up, img, f)
  {
    forall X, Y, c | InImage(up, X, Y, c)
      ensures 0 <= X / f < img.width && 0 <= Y / f < img.height
      ensures At(up, X, Y, c) == At(img, X / f, Y / f, c)
    {
      DivBelow(X, f, n.width);
      DivBelow(Y, f, n.height);
    }
  }

  /**
   * The index check of both gridline drawers, index by index in order:
   * the first index below 0 or above last (the height or width less one,
   * named by dimension) panics; otherwise the draw goes ahead.
   */
  function CheckIndexes(ids: seq<int>, last: int, dimension: string): Status
  {
    if |ids| == 0 then Completed
    else if ids[0] < 0 then Panicked("Provided y_index " + FormatInt(ids[0]) + " is less than 0")
    else if ids[0] > last then
      Panicked("Provided y_index " + FormatInt(ids[0]) + " is larger than image " + dimension + " - 1 (" + FormatInt(last) + ")")
    else CheckIndexes(ids[1..], last, dimension)
  }

  /** The check passes exactly when every index lies in 0 .. last. */
  lemma {:induction false} CheckIndexesPasses(ids: seq<int>, last: int, dimension: string)
    ensures CheckIndexes(ids, last, dimension) == Completed <==> forall i | 0 <= i < |ids| :: 0 <= ids[i] <= last
  {
    if |ids| > 0 {
      CheckIndexesPasses(ids[1..], last, dimension);
      assert forall i | 1 <= i < |ids| :: ids[i] == ids[1..][i - 1];
    }
  }

  /** The check of a list that starts with good indexes is the check of the rest. */
  lemma {:induction false} CheckIndexesSkip(ids: seq<int>, j: nat, last: int, dimension: string)
    requires j <= |ids| && forall i | 0 <= i < j :: 0 <= ids[i] <= last
    ensures CheckIndexes(ids, last, dimension) == CheckIndexes(ids[j..], last, dimension)
  {
    if j > 0 {
      CheckIndexesSkip(ids[1..], j - 1, last, dimension);
      assert ids[1..][j - 1..] == ids[j..];
    }
  }

  /** The validation loop of both gridline drawers. */
  method ValidateIndexes(ids: seq<int>, last: int, dimension: string) returns (status: Status)
    ensures status == CheckIndexes(ids, last, dimension)
  {
    for j := 0 to |ids|
      invariant forall i | 0 <= i < j :: 0 <= ids[i] <= last
    {
      CheckIndexesSkip(ids, j, last, dimension);
      if ids[j] < 0 {
        return Panicked("Provided y_index " + FormatInt(ids[j]) + " is less than 0");
      }
      if ids[j] > last {
        return Panicked("Provided y_index " + FormatInt(ids[j]) + " is larger than image " + dimension + " - 1 (" + FormatInt(last) + ")");
      }
    }
    CheckIndexesSkip(ids, |ids|, last, dimension);
    return Completed;
  }

  /** The fill loop of one row: every pixel of row y, whose bytes start at base, takes the colour. */
  method FillRow(img: Image, base: int, y: int, color: seq<Byte>)
    requires Valid(img) && img.depth == RGBADepth && |color| == RGBADepth
    requires 0 <= y < img.height && base == Offset(img, 0, y)
    modifies img.pix
    ensures forall x, c | InImage(img, x, y, c) :: At(img, x, y, c) == color[c]
    ensures forall x, yy, c | InImage(img, x, yy, c) && yy != y :: At(img, x, yy, c) == old(At(img, x, yy, c))
    ensures forall k | 0 <= k < img.pix.Length && !Covered(img, k) :: img.pix[k] == old(img.pix[k])
  {
    for i := 0 to img.width
      invariant forall x, c | InImage(img, x, y, c) && x < i :: At(img, x, y, c) == color[c]
      invariant forall x, yy, c | InImage(img, x, yy, c) && !(yy == y && x < i) :: At(img, x, yy, c) == old(At(img, x, yy, c))
      invariant forall k | 0 <= k < img.pix.Length && !Covered(img, k) :: img.pix[k] == old(img.pix[k])
    {
      SetPixel(img, base + i * 4, i, y, color);
    }
  }

  /** The fill loop of one column: every pixel of column x, whose first byte is at base, takes the colour. */
  method FillCol(img: Image, base: int, x: int, color: seq<Byte>)
    requires Valid(img) && img.depth == RGBADepth && |color| == RGBADepth
    requires 0 <= x < img.width && base == Offset(img, x, 0)
    modifies img.pix
    ensures forall y, c | InImage(img, x, y, c) :: At(img, x, y, c) == color[c]
    ensures forall xx, y, c | InImage(img, xx, y, c) && xx != x :: At(img, xx, y, c) == old(At(img, xx, y, c))
    ensures forall k | 0 <= k < img.pix.Length && !Covered(img, k) :: img.pix[k] == old(img.pix[k])
  {
    for i := 0 to img.height
      invariant forall y, c | InImage(img, x, y, c) && y < i :: At(img, x, y, c) == color[c]
      invariant forall xx, y, c | InImage(img, xx, y, c) && !(xx == x && y < i) :: At(img, xx, y, c) == old(At(img, xx, y, c))
      invariant forall k | 0 <= k < img.pix.Length && !Covered(img, k) :: img.pix[k] == old(img.pix[k])
    {
      SetPixel(img, base + i * img.stride, x, i, color);
    }
  }

  /**
   * DrawGridlineRowsOnImage: every row listed in ys takes the colour; an
   * index outside 0 .. height - 1 panics before anything is drawn.
   */
  method DrawGridlineRowsOnImage(img: Image, ys: seq<int>, color: seq<Byte>) returns (status: Status)
    requires Valid(img) && img.depth == RGBADepth && |color| == RGBADepth
    modifies img.pix
    ensures status == CheckIndexes(ys, img.height - 1, "height")
    ensures status.Panicked? ==> img.pix[..] == old(img.pix[..])
    ensures status == Completed ==> forall x, y, c | InImage(img, x, y, c) && y in ys :: At(img, x, y, c) == color[c]
    ensures forall x, y, c | InImage(img, x, y, c) && y !in ys :: At(img, x, y, c) == old(At(img, x, y, c))
    ensures forall k | 0 <= k < img.pix.Length && !Covered(img, k) :: img.pix[k] == old(img.pix[k])
  {
    var height: int, width: int := img.height, img.width;
    status := ValidateIndexes(ys, height - 1, "height");
    if status.Panicked? {
      return;
    }
    CheckIndexesPasses(ys, height - 1, "height");
    for j := 0 to |ys|
      invariant forall x, y, c | InImage(img, x, y, c) && y in ys[..j] :: At(img, x, y, c) == color[c]
      invariant forall x, y, c | InImage(img, x, y, c) && y !in ys[..j] :: At(img, x, y, c) == old(At(img, x, y, c))
      invariant forall k | 0 <= k < img.pix.Length && !Covered(img, k) :: img.pix[k] == old(img.pix[k])
    {
      var y := ys[j];
      var flatIdBase := PixOffset(img, 0 + img.minX, y + img.minY);
      FillRow(img, flatIdBase, y, color);
      assert ys[..j + 1] == ys[..j] + [y];
    }
    assert ys[..|ys|] == ys;
  }

  /**
   * DrawGridlineColsOnImage: every column listed in xs takes the colour; an
   * index outside 0 .. width - 1 panics before anything is drawn.
   */
  method DrawGridlineColsOnImage(img: Image, xs: seq<int>, color: seq<Byte>) returns (status: Status)
    requires Valid(img) && img.depth == RGBADepth && |color| == RGBADepth
    modifies img.pix
    ensures status == CheckIndexes(xs, img.width - 1, "width")
    ensures status.Panicked? ==> img.pix[..] == old(img.pix[..])
    ensures status == Completed ==> forall x, y, c | InImage(img, x, y, c) && x in xs :: At(img, x, y, c) == color[c]
    ensures forall x, y, c | InImage(img, x, y, c) && x !in xs :: At(img, x, y, c) == old(At(img, x, y, c))
    ensures forall k | 0 <= k < img.pix.Length && !Covered(img, k) :: img.pix[k] == old(img.pix[k])
  {
    var height: int, width: int := img.height, img.width;
    status := ValidateIndexes(xs, width - 1, "width");
    if status.Panicked? {
      return;
    }
    CheckIndexesPasses(xs, width - 1, "width");
    for j := 0 to |xs|
      invariant forall x, y, c | InImage(img, x, y, c) && x in xs[..j] :: At(img, x, y, c) == color[c]
      invariant forall x, y, c | InImage(img, x, y, c) && x !in xs[..j] :: At(img, x, y, c) == old(At(img, x, y, c))
      invariant forall k | 0 <= k < img.pix.Length && !Covered(img, k) :: img.pix[k] == old(img.pix[k])
    {
      var x := xs[j];
      var flatIdBase := PixOffset(img, x + img.minX, 0 + img.minY);
      FillCol(img, flatIdBase, x, color);
      assert xs[..j + 1] == xs[..j] + [x];
    }
    assert xs[..|xs|] == xs;
  }
}
