/**
 * The geometry shared by the two upscalers: every source pixel becomes a
 * square block of side p, and gridlines of width g run before the first
 * block, between blocks and after the last one, on both axes. The plain
 * upscale by a factor f is the case p == f, g == 0.
 */
module Blocks {
  import opened GoNum
  import opened Raster

  /**
   * The block that coordinate X (of the upscaled axis) falls in, counting
   * the gridline after a block as part of its cell; cells are p + g wide
   * and start after the leading gridline.
   */
  function BlockIndex(X: int, p: nat, g: nat): nat
    requires p > 0 && X >= g
    decreases X
  {
    if X - g < p + g then 0 else 1 + BlockIndex(X - (p + g), p, g)
  }

  /** How far X lies into its cell. */
  function CellPos(X: int, p: nat, g: nat): nat
    requires p > 0 && X >= g
    decreases X
  {
    if X - g < p + g then X - g else CellPos(X - (p + g), p, g)
  }

  /** Coordinate X falls inside a block rather than on a gridline. */
  predicate InBlock(X: int, p: nat, g: nat)
    requires p > 0
  {
    X >= g && CellPos(X, p, g) < p
  }

  /** Size of the upscaled axis for n source pixels. */
  function Scaled(n: nat, p: nat, g: nat): nat
  {
    g + (p + g) * n
  }

  /** First coordinate of block b. */
  function BlockStart(b: nat, p: nat, g: nat): nat
  {
    g + (p + g) * b
  }

  /**
   * X in the cell of block b (the block and the gridline after it): the
   * block index is b, and X is inside the block exactly when it is among
   * the first p coordinates of the cell.
   */
  lemma {:induction false} CellOf(X: int, p: nat, g: nat, b: nat)
    requires p > 0 && BlockStart(b, p, g) <= X < BlockStart(b, p, g) + p + g
    ensures BlockIndex(X, p, g) == b && CellPos(X, p, g) == X - BlockStart(b, p, g)
    ensures InBlock(X, p, g) <==> X < BlockStart(b, p, g) + p
  {
    if b > 0 {
      NextBlock(b - 1, p, g);
      CellOf(X - (p + g), p, g, b - 1);
    }
  }

  /** Every coordinate past the leading gridline lies in the cell its block index names. */
  lemma {:induction false} CellBounds(X: int, p: nat, g: nat)
    requires p > 0 && X >= g
    ensures BlockStart(BlockIndex(X, p, g), p, g) <= X < BlockStart(BlockIndex(X, p, g), p, g) + p + g
  {
    if X - g >= p + g {
      CellBounds(X - (p + g), p, g);
      NextBlock(BlockIndex(X - (p + g), p, g), p, g);
    }
  }

  /** Every coordinate after the leading gridline of an upscaled axis of n pixels falls in the cell of one of them. */
  lemma BlockBelow(X: int, p: nat, g: nat, n: nat)
    requires p > 0 && g <= X < Scaled(n, p, g)
    ensures BlockIndex(X, p, g) < n
  {
    CellBounds(X, p, g);
    assert BlockIndex(X, p, g) * (p + g) == (p + g) * BlockIndex(X, p, g);
    assert n * (p + g) == (p + g) * n;
    MulLess(BlockIndex(X, p, g), n, p + g);
  }

  /** Without gridlines the block index is Euclidean division by the block size, and every coordinate is in a block. */
  lemma NoGridBlock(X: int, p: nat)
    requires p > 0 && X >= 0
    ensures BlockIndex(X, p, 0) == X / p && InBlock(X, p, 0)
  {
    CellBounds(X, p, 0);
    CellOf(X, p, 0, BlockIndex(X, p, 0));
    DivUnique(X, p, BlockIndex(X, p, 0), CellPos(X, p, 0));
  }

  /** A coordinate of an axis scaled by f comes from a pixel of the original axis. */
  lemma DivBelow(X: int, f: nat, n: nat)
    requires f > 0 && 0 <= X < n * f
    ensures 0 <= X / f < n
  {
    var q, r := DivMod(X, f);
    DivUnique(X, f, q, r);
    MulLess(q, n, f);
  }

  /** Cell b ends before cell b + 1 starts. */
  lemma NextBlock(b: nat, p: nat, g: nat)
    ensures BlockStart(b + 1, p, g) == BlockStart(b, p, g) + p + g
  {
  }

  /** The cell of each of n pixels lies within the upscaled axis. */
  lemma BlockFits(b: nat, n: nat, p: nat, g: nat)
    requires b < n
    ensures BlockStart(b + 1, p, g) == BlockStart(b, p, g) + p + g <= Scaled(n, p, g)
  {
    MulMono(b + 1, n, p + g);
    assert (b + 1) * (p + g) == (p + g) * (b + 1);
    assert n * (p + g) == (p + g) * n;
  }

  /** Without gridlines an axis of n pixels is scaled to n * p. */
  lemma ScaledNoGrid(n: nat, p: nat)
    ensures Scaled(n, p, 0) == n * p
  {
  }

  /** The last cell of an axis of n pixels ends where the axis ends. */
  lemma LastBlock(n: nat, p: nat, g: nat)
    ensures BlockStart(n, p, g) == Scaled(n, p, g)
  {
  }

  /** An upscale of src by blocks of p with gridlines of g has this size. */
  predicate Dims(dst: Image, src: Image, p: nat, g: nat, color: seq<Byte>)
  {
    dst.width == Scaled(src.width, p, g) && dst.height == Scaled(src.height, p, g) &&
    dst.depth == src.depth && |color| == src.depth
  }

  /**
   * Byte c of pixel (X, Y) of the gridded upscale of src: byte c of the
   * source pixel whose block holds (X, Y), or byte c of the grid colour
   * when (X, Y) lies on a gridline.
   */
  ghost function Gridded(src: Image, p: nat, g: nat, color: seq<Byte>, X: int, Y: int, c: int): Byte
    reads src.pix
    requires Valid(src) && p > 0 && |color| == src.depth
    requires 0 <= X < Scaled(src.width, p, g) && 0 <= Y < Scaled(src.height, p, g) && 0 <= c < src.depth
  {
    if InBlock(X, p, g) && InBlock(Y, p, g) then
      BlockBelow(X, p, g, src.width);
      BlockBelow(Y, p, g, src.height);
      At(src, BlockIndex(X, p, g), BlockIndex(Y, p, g), c)
    else
      color[c]
  }

  /** Rows above rows of dst already hold the gridded upscale of src. */
  ghost predicate RowsDone(dst: Image, src: Image, p: nat, g: nat, color: seq<Byte>, rows: int)
    reads dst.pix, src.pix
    requires Valid(dst) && Valid(src) && p > 0 && Dims(dst, src, p, g, color)
  {
    forall X, Y, c | InImage(dst, X, Y, c) && Y < rows :: At(dst, X, Y, c) == Gridded(src, p, g, color, X, Y, c)
  }

  /** Rows from rows on show nothing but the colour. */
  ghost predicate RowsBlank(dst: Image, color: seq<Byte>, rows: int)
    reads dst.pix
    requires Valid(dst) && |color| == dst.depth
  {
    forall X, Y, c | InImage(dst, X, Y, c) && Y >= rows :: At(dst, X, Y, c) == color[c]
  }

  /** The pixels of row Y left of column cols already hold the gridded upscale of src. */
  ghost predicate ColsDone(dst: Image, src: Image, p: nat, g: nat, color: seq<Byte>, Y: int, cols: int)
    reads dst.pix, src.pix
    requires Valid(dst) && Valid(src) && p > 0 && Dims(dst, src, p, g, color)
  {
    forall X, c | InImage(dst, X, Y, c) && X < cols :: At(dst, X, Y, c) == Gridded(src, p, g, color, X, Y, c)
  }

  /** The pixels of row Y from column cols on show nothing but the colour. */
  ghost predicate ColsBlank(dst: Image, color: seq<Byte>, Y: int, cols: int)
    reads dst.pix
    requires Valid(dst) && |color| == dst.depth
  {
    forall X, c | InImage(dst, X, Y, c) && X >= cols :: At(dst, X, Y, c) == color[c]
  }

  /**
   * One step of the pixel loop of row Yb = BlockStart(y): once block x of
   * the row shows source pixel (x, y), the whole cell of block x is done,
   * since its gridline part still shows the colour.
   */
  lemma CellDone(dst: Image, src: Image, p: nat, g: nat, color: seq<Byte>, x: nat, y: nat)
    requires Valid(dst) && Valid(src) && p > 0 && Dims(dst, src, p, g, color)
    requires x < src.width && y < src.height
    requires ColsDone(dst, src, p, g, color, BlockStart(y, p, g), BlockStart(x, p, g))
    requires forall X, c | InImage(dst, X, BlockStart(y, p, g), c) && BlockStart(x, p, g) <= X < BlockStart(x, p, g) + p ::
      At(dst, X, BlockStart(y, p, g), c) == At(src, x, y, c)
    requires ColsBlank(dst, color, BlockStart(y, p, g), BlockStart(x, p, g) + p)
    ensures ColsDone(dst, src, p, g, color, BlockStart(y, p, g), BlockStart(x + 1, p, g))
    ensures ColsBlank(dst, color, BlockStart(y, p, g), BlockStart(x + 1, p, g))
  {
    var Yb := BlockStart(y, p, g);
    BlockFits(x, src.width, p, g);
    BlockFits(y, src.height, p, g);
    CellOf(Yb, p, g, y);
    forall X, c | InImage(dst, X, Yb, c) && X < BlockStart(x + 1, p, g)
      ensures At(dst, X, Yb, c) == Gridded(src, p, g, color, X, Yb, c)
    {
      if X >= BlockStart(x, p, g) {
        CellOf(X, p, g, x);
      }
    }
  }

  /** Before the pixel loop of row Yb = BlockStart(y): the leading gridline of a blank row is done. */
  lemma RowStart(dst: Image, src: Image, p: nat, g: nat, color: seq<Byte>, y: nat)
    requires Valid(dst) && Valid(src) && p > 0 && Dims(dst, src, p, g, color) && y < src.height
    requires RowsBlank(dst, color, BlockStart(y, p, g))
    ensures 0 <= BlockStart(y, p, g) < dst.height
    ensures ColsDone(dst, src, p, g, color, BlockStart(y, p, g), BlockStart(0, p, g))
    ensures ColsBlank(dst, color, BlockStart(y, p, g), BlockStart(0, p, g))
  {
    BlockFits(y, src.height, p, g);
  }

  /**
   * One step of the row loop: once rows Yb .. Yb + p - 1 of y's cell all
   * show the finished row Yb, the whole cell of y is done, since its
   * gridline rows still show the colour.
   */
  lemma CellRowsDone(dst: Image, src: Image, p: nat, g: nat, color: seq<Byte>, y: nat)
    requires Valid(dst) && Valid(src) && p > 0 && Dims(dst, src, p, g, color) && y < src.height
    requires RowsDone(dst, src, p, g, color, BlockStart(y, p, g))
    requires BlockStart(y, p, g) < dst.height
    requires ColsDone(dst, src, p, g, color, BlockStart(y, p, g), dst.width)
    requires forall X, Y, c | InImage(dst, X, Y, c) && BlockStart(y, p, g) <= Y < BlockStart(y, p, g) + p ::
      At(dst, X, Y, c) == At(dst, X, BlockStart(y, p, g), c)
    requires RowsBlank(dst, color, BlockStart(y, p, g) + p)
    ensures RowsDone(dst, src, p, g, color, BlockStart(y + 1, p, g))
    ensures RowsBlank(dst, color, BlockStart(y + 1, p, g))
  {
    var Yb := BlockStart(y, p, g);
    BlockFits(y, src.height, p, g);
    CellOf(Yb, p, g, y);
    forall X, Y, c | InImage(dst, X, Y, c) && Y < BlockStart(y + 1, p, g)
      ensures At(dst, X, Y, c) == Gridded(src, p, g, color, X, Y, c)
    {
      if Y >= Yb {
        CellOf(Y, p, g, y);
        if Y < Yb + p {
          assert At(dst, X, Yb, c) == Gridded(src, p, g, color, X, Yb, c);
        }
      }
    }
  }

  /** Once every row is done, dst is the gridded upscale of src. */
  ghost predicate GriddedOf(dst: Image, src: Image, p: nat, g: nat, color: seq<Byte>)
    reads dst.pix, src.pix
    requires Valid(dst) && Valid(src) && p > 0
  {
    Dims(dst, src, p, g, color) &&
    forall X, Y, c | InImage(dst, X, Y, c) :: At(dst, X, Y, c) == Gridded(src, p, g, color, X, Y, c)
  }

  /** dst is the plain upscale of src by f: pixel (X, Y) shows source pixel (X / f, Y / f). */
  ghost predicate UpscaleOf(dst: Image, src: Image, f: nat)
    reads dst.pix, src.pix
    requires Valid(dst) && Valid(src) && f > 0
  {
    dst.width == src.width * f && dst.height == src.height * f && dst.depth == src.depth &&
    forall X, Y, c | InImage(dst, X, Y, c) ::
      DivBelow(X, f, src.width);
      DivBelow(Y, f, src.height);
      At(dst, X, Y, c) == At(src, X / f, Y / f, c)
  }

  /** Without gridlines every pixel of the gridded upscale is in a block, the block X / p. */
  lemma NoGridPixel(src: Image, p: nat, color: seq<Byte>, X: int, Y: int, c: int)
    requires Valid(src) && p > 0 && |color| == src.depth
    requires 0 <= X < src.width * p && 0 <= Y < src.height * p && 0 <= c < src.depth
    ensures 0 <= X / p < src.width && 0 <= Y / p < src.height
    ensures Gridded(src, p, 0, color, X, Y, c) == At(src, X / p, Y / p, c)
  {
    ScaledNoGrid(src.width, p);
    ScaledNoGrid(src.height, p);
    NoGridBlock(X, p);
    NoGridBlock(Y, p);
    DivBelow(X, p, src.width);
    DivBelow(Y, p, src.height);
  }

  /**
   * Without gridlines the gridded upscale is the plain one, whatever the
   * grid colour.
   */
  lemma NoGridIsUpscale(dst: Image, src: Image, p: nat, color: seq<Byte>)
    requires Valid(dst) && Valid(src) && p > 0 && |color| == src.depth
    ensures GriddedOf(dst, src, p, 0, color) <==> UpscaleOf(dst, src, p)
  {
    ScaledNoGrid(src.width, p);
    ScaledNoGrid(src.height, p);
    if GriddedOf(dst, src, p, 0, color) {
      forall X, Y, c | InImage(dst, X, Y, c)
        ensures 0 <= X / p < src.width && 0 <= Y / p < src.height && At(dst, X, Y, c) == At(src, X / p, Y / p, c)
      {
        NoGridPixel(src, p, color, X, Y, c);
      }
    }
    if UpscaleOf(dst, src, p) {
      forall X, Y, c | InImage(dst, X, Y, c)
        ensures At(dst, X, Y, c) == Gridded(src, p, 0, color, X, Y, c)
      {
        NoGridPixel(src, p, color, X, Y, c);
      }
    }
  }

  /**
   * Pixel (BlockStart(sx) + j, BlockStart(sy) + i) of a gridded upscale,
   * for 0 <= i, j < p, shows source pixel (sx, sy).
   */
  lemma BlockPixel(dst: Image, src: Image, p: nat, g: nat, color: seq<Byte>, sx: nat, sy: nat, i: nat, j: nat, c: int)
    requires Valid(dst) && Valid(src) && p > 0 && GriddedOf(dst, src, p, g, color)
    requires InImage(src, sx, sy, c) && i < p && j < p
    ensures InImage(dst, BlockStart(sx, p, g) + j, BlockStart(sy, p, g) + i, c)
    ensures At(dst, BlockStart(sx, p, g) + j, BlockStart(sy, p, g) + i, c) == At(src, sx, sy, c)
  {
    var X, Y := BlockStart(sx, p, g) + j, BlockStart(sy, p, g) + i;
    BlockFits(sx, src.width, p, g);
    BlockFits(sy, src.height, p, g);
    CellOf(X, p, g, sx);
    CellOf(Y, p, g, sy);
    assert At(dst, X, Y, c) == Gridded(src, p, g, color, X, Y, c);
  }

  /** Every pixel of a gridded upscale that lies on a gridline shows the grid colour. */
  lemma GridPixel(dst: Image, src: Image, p: nat, g: nat, color: seq<Byte>, X: int, Y: int, c: int)
    requires Valid(dst) && Valid(src) && p > 0 && GriddedOf(dst, src, p, g, color)
    requires InImage(dst, X, Y, c) && !(InBlock(X, p, g) && InBlock(Y, p, g))
    ensures At(dst, X, Y, c) == color[c]
  {
  }

  /** The leading gridline rows of a blank image are done. */
  lemma GridStart(dst: Image, src: Image, p: nat, g: nat, color: seq<Byte>)
    requires Valid(dst) && Valid(src) && p > 0 && Dims(dst, src, p, g, color)
    requires RowsBlank(dst, color, 0)
    ensures RowsDone(dst, src, p, g, color, BlockStart(0, p, g)) && RowsBlank(dst, color, BlockStart(0, p, g))
  {
    forall X, Y, c | InImage(dst, X, Y, c) && Y < BlockStart(0, p, g)
      ensures At(dst, X, Y, c) == Gridded(src, p, g, color, X, Y, c)
    {
      assert !InBlock(Y, p, g);
    }
  }

  /** Once the rows of every cell are done, dst is the gridded upscale of src. */
  lemma AllRowsDone(dst: Image, src: Image, p: nat, g: nat, color: seq<Byte>)
    requires Valid(dst) && Valid(src) && p > 0 && Dims(dst, src, p, g, color)
    requires RowsDone(dst, src, p, g, color, BlockStart(src.height, p, g))
    ensures GriddedOf(dst, src, p, g, color)
  {
    LastBlock(src.height, p, g);
  }

  /**
   * The pixel loop of both upscalers: pixel (x, y) of src, whose bytes
   * start at from, copied to count pixels of row Y of dst from column X0
   * on, whose bytes start at base.
   */
  method RepeatPixel(dst: Image, base: int, X0: nat, Y: nat, count: nat, src: Image, from: int, x: nat, y: nat)
    requires Valid(dst) && Valid(src) && dst.pix != src.pix && dst.depth == RGBADepth && src.depth == RGBADepth
    requires X0 + count <= dst.width && Y < dst.height && InImage(src, x, y, 0)
    requires base == Offset(dst, X0, Y) && from == Offset(src, x, y)
    modifies dst.pix
    ensures forall X, c | InImage(dst, X, Y, c) && X0 <= X < X0 + count :: At(dst, X, Y, c) == At(src, x, y, c)
    ensures forall X, Y2, c | InImage(dst, X, Y2, c) && !(Y2 == Y && X0 <= X < X0 + count) ::
      At(dst, X, Y2, c) == old(At(dst, X, Y2, c))
    ensures forall k | 0 <= k < dst.pix.Length && !Covered(dst, k) :: dst.pix[k] == old(dst.pix[k])
  {
    for i := 0 to count
      invariant forall X, c | InImage(dst, X, Y, c) && X0 <= X < X0 + i :: At(dst, X, Y, c) == At(src, x, y, c)
      invariant forall X, Y2, c | InImage(dst, X, Y2, c) && !(Y2 == Y && X0 <= X < X0 + i) ::
        At(dst, X, Y2, c) == old(At(dst, X, Y2, c))
      invariant forall k | 0 <= k < dst.pix.Length && !Covered(dst, k) :: dst.pix[k] == old(dst.pix[k])
    {
      CopyPixel(dst, base + i * 4, X0 + i, Y, src, from, x, y);
    }
  }

  /**
   * The row loop of both upscalers: row Y0 of dst, whose bytes start at
   * begin, copied over the count - 1 rows below it.
   */
  method RepeatRow(dst: Image, begin: int, Y0: nat, count: nat)
    requires Valid(dst) && Y0 + count <= dst.height && begin == Offset(dst, 0, Y0)
    modifies dst.pix
    ensures forall X, Y, c | InImage(dst, X, Y, c) && Y0 <= Y < Y0 + count :: At(dst, X, Y, c) == old(At(dst, X, Y0, c))
    ensures forall X, Y, c | InImage(dst, X, Y, c) && !(Y0 < Y < Y0 + count) :: At(dst, X, Y, c) == old(At(dst, X, Y, c))
    ensures forall k | 0 <= k < dst.pix.Length && !Covered(dst, k) :: dst.pix[k] == old(dst.pix[k])
  {
    if count > 1 {
      for i := 1 to count
        invariant forall X, Y, c | InImage(dst, X, Y, c) && Y0 <= Y < Y0 + i :: At(dst, X, Y, c) == old(At(dst, X, Y0, c))
        invariant forall X, Y, c | InImage(dst, X, Y, c) && !(Y0 < Y < Y0 + i) :: At(dst, X, Y, c) == old(At(dst, X, Y, c))
        invariant forall k | 0 <= k < dst.pix.Length && !Covered(dst, k) :: dst.pix[k] == old(dst.pix[k])
      {
        assert (Y0 + i) * dst.stride == Y0 * dst.stride + i * dst.stride;
        CopyRow(dst, begin + i * dst.stride, Y0 + i, begin, Y0);
      }
    }
  }
}
