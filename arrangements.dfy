/**
 * Copies of an image with its pixels rearranged (images/arrangements.go):
 * split into channels, normalised and transposed. Every result is a new
 * buffer; the input is only read.
 */
module Arrangements {
  import opened GoNum
  import opened Raster

  /** A copy of img with origin (0, 0) and rows packed without gaps; the row loop of both normalisers. */
  method NormalizedCopy(img: Image) returns (r: Image)
    requires Valid(img)
    ensures Normal(r) && Valid(r) && fresh(r.pix)
    ensures SamePixels(r, img)
  {
    var h, w, d := img.height, img.width, img.depth;
    var rowLen := w * d;
    var data := new Byte[w * h * d];
    r := Image(data, rowLen, 0, 0, w, h, d);
    assert w * h * d == h * rowLen;
    NormalValid(r);
    for y := 0 to h
      invariant forall x, yy, c | InImage(r, x, yy, c) && yy < y :: At(r, x, yy, c) == At(img, x, yy, c)
    {
      var origin := PixOffset(img, img.minX, y + img.minY);
      var target := y * rowLen;
      RowInRange(img, y);
      RowInRange(r, y);
      label L:
      Copy(data, target, img.pix, origin, rowLen);
      forall x, yy, c | InImage(r, x, yy, c) && yy <= y
        ensures At(r, x, yy, c) == At(img, x, yy, c)
      {
        OffsetInRange(r, x, yy, c);
        OffsetInRange(img, x, yy, c);
        if yy < y {
          RowBefore(r, x, yy, c, y);
          assert At(r, x, yy, c) == old@L(At(r, x, yy, c));
        }
      }
    }
  }

  /** ImageGetNormalized */
  method ImageGetNormalized(img: Image) returns (r: Image)
    requires Valid(img) && img.depth == RGBADepth
    ensures Normal(r) && Valid(r) && fresh(r.pix)
    ensures SamePixels(r, img)
  {
    r := NormalizedCopy(img);
  }

  /** GrayscaleGetNormalized */
  method GrayscaleGetNormalized(img: Image) returns (r: Image)
    requires Valid(img) && img.depth == GrayDepth
    ensures Normal(r) && Valid(r) && fresh(r.pix)
    ensures SamePixels(r, img)
  {
    r := NormalizedCopy(img);
  }

  /** r shows img with rows and columns exchanged. */
  ghost predicate TransposeOf(r: Image, img: Image)
    reads r.pix, img.pix
    requires Valid(r) && Valid(img)
  {
    r.width == img.height && r.height == img.width && r.depth == img.depth &&
    forall x, y, c | InImage(img, x, y, c) :: At(r, y, x, c) == At(img, x, y, c)
  }

  /** The pixels of img before (x, y) in row-major order are already in place in r. */
  ghost predicate TransposedBefore(r: Image, img: Image, x: int, y: int)
    reads r.pix, img.pix
    requires Valid(r) && Valid(img)
  {
    r.width == img.height && r.height == img.width && r.depth == img.depth &&
    forall xx, yy, c | InImage(img, xx, yy, c) && (yy < y || (yy == y && xx < x)) ::
      At(r, yy, xx, c) == At(img, xx, yy, c)
  }

  /** Where the transposers put pixel (x, y): the start of pixel (y, x) of r. */
  lemma TransposeTarget(r: Image, x: int, y: int)
    requires Normal(r) && InImage(r, y, x, 0)
    ensures Offset(r, y, x) == (x * r.width + y) * r.depth
  {
    NormalValid(r);
  }

  /** Copy pixel (x, y) of img to pixel (y, x) of r, leaving every other pixel of r as it was. */
  method PlacePixel(r: Image, img: Image, x: int, y: int)
    requires Normal(r) && Valid(r) && Valid(img) && r.pix != img.pix
    requires InImage(img, x, y, 0) && r.width == img.height && r.height == img.width && r.depth == img.depth
    modifies r.pix
    ensures forall c | 0 <= c < r.depth :: At(r, y, x, c) == At(img, x, y, c)
    ensures forall xx, yy, c | InImage(r, yy, xx, c) && (xx != x || yy != y) ::
      At(r, yy, xx, c) == old(At(r, yy, xx, c))
  {
    var h, d := img.height, img.depth;
    var origin := PixOffset(img, x + img.minX, y + img.minY);
    var target := (x * h + y) * d;
    PixelWindow(img, x, y);
    TransposeTarget(r, x, y);
    CopyPixel(r, target, y, x, img, origin, x, y);
  }

  /** One step of the pixel loop: pixel (x, y) of img joins those already in place. */
  method TransposePixel(r: Image, img: Image, x: int, y: int)
    requires Normal(r) && Valid(r) && Valid(img) && r.pix != img.pix
    requires InImage(img, x, y, 0) && TransposedBefore(r, img, x, y)
    modifies r.pix
    ensures TransposedBefore(r, img, x + 1, y)
  {
    label L:
    PlacePixel(r, img, x, y);
    forall xx, yy, c | InImage(img, xx, yy, c) && (yy < y || (yy == y && xx < x + 1))
      ensures At(r, yy, xx, c) == At(img, xx, yy, c)
    {
      assert InImage(r, yy, xx, c);
      if xx != x || yy != y {
        assert At(r, yy, xx, c) == old@L(At(r, yy, xx, c));
      }
    }
  }

  /** A normalised transposed copy of img; the pixel loop of both transposers. */
  method TransposedCopy(img: Image) returns (r: Image)
    requires Valid(img)
    ensures Normal(r) && Valid(r) && fresh(r.pix)
    ensures TransposeOf(r, img)
  {
    var h, w, d := img.height, img.width, img.depth;
    var data := new Byte[w * h * d];
    r := Image(data, h * d, 0, 0, h, w, d);
    assert w * h * d == w * (h * d);
    NormalValid(r);
    for y := 0 to h
      invariant TransposedBefore(r, img, 0, y)
    {
      for x := 0 to w
        invariant TransposedBefore(r, img, x, y)
      {
        TransposePixel(r, img, x, y);
      }
    }
  }

  /** ImageGetTransposed */
  method ImageGetTransposed(img: Image) returns (r: Image)
    requires Valid(img) && img.depth == RGBADepth
    ensures Normal(r) && Valid(r) && fresh(r.pix)
    ensures TransposeOf(r, img)
  {
    r := TransposedCopy(img);
  }

  /** GrayscaleGetTransposed */
  method GrayscaleGetTransposed(img: Image) returns (r: Image)
    requires Valid(img) && img.depth == GrayDepth
    ensures Normal(r) && Valid(r) && fresh(r.pix)
    ensures TransposeOf(r, img)
  {
    r := TransposedCopy(img);
  }

  /** Transposing twice gives back the pixels of img, in the bytes of its normalised copy n. */
  lemma TransposeTwice(img: Image, t: Image, tt: Image, n: Image)
    requires Valid(img) && Valid(t) && Valid(tt) && Valid(n)
    requires TransposeOf(t, img) && TransposeOf(tt, t)
    requires Normal(tt) && Normal(n) && SamePixels(n, img)
    ensures SamePixels(tt, img)
    ensures tt.pix[..] == n.pix[..]
  {
    forall x, y, c | InImage(tt, x, y, c)
      ensures At(tt, x, y, c) == At(n, x, y, c)
    {
      assert At(tt, x, y, c) == At(t, y, x, c) == At(img, x, y, c);
    }
    NormalDetermined(tt, n);
  }

  /** Four channel images, one per byte of an RGBA pixel. */
  ghost predicate Channels(r: seq<Image>, img: Image)
  {
    |r| == img.depth &&
    forall i | 0 <= i < |r| ::
      Normal(r[i]) && Valid(r[i]) && r[i].depth == GrayDepth && r[i].width == img.width && r[i].height == img.height
  }

  /** The channels of the pixels before (x, y) in row-major order are in place. */
  ghost predicate SplitBefore(r: seq<Image>, img: Image, x: int, y: int)
    reads img.pix, set i | 0 <= i < |r| :: r[i].pix
    requires Valid(img) && Channels(r, img)
  {
    forall xx, yy, c | InImage(img, xx, yy, c) && (yy < y || (yy == y && xx < x)) ::
      At(r[c], xx, yy, 0) == At(img, xx, yy, c)
  }

  /** Write byte c of pixel (x, y) of img into pixel (x, y) of channel c, for each of the four channels, and nothing else. */
  method WriteChannels(r: seq<Image>, img: Image, x: int, y: int)
    requires Valid(img) && img.depth == RGBADepth && Channels(r, img)
    requires forall i | 0 <= i < 4 :: r[i].pix != img.pix
    requires forall i, j | 0 <= i < j < 4 :: r[i].pix != r[j].pix
    requires InImage(img, x, y, 0)
    modifies r[0].pix, r[1].pix, r[2].pix, r[3].pix
    ensures forall c | 0 <= c < 4 :: At(r[c], x, y, 0) == At(img, x, y, c)
    ensures forall c, xx, yy | 0 <= c < 4 && InImage(r[c], xx, yy, 0) && (xx != x || yy != y) ::
      At(r[c], xx, yy, 0) == old(At(r[c], xx, yy, 0))
  {
    var w := img.width;
    var flat := PixOffset(img, x + img.minX, y + img.minY);
    var id := y * w + x;
    PixelWindow(img, x, y);
    PixelWindow(r[0], x, y);
    assert id == Offset(r[0], x, y);
    ghost var before := [r[0].pix[..], r[1].pix[..], r[2].pix[..], r[3].pix[..]];
    r[0].pix[id] := img.pix[flat + 0];
    r[1].pix[id] := img.pix[flat + 1];
    r[2].pix[id] := img.pix[flat + 2];
    r[3].pix[id] := img.pix[flat + 3];
    WroteChannels(r, before, img, x, y, id, flat);
  }

  /**
   * After byte id of every channel, and nothing else of the earlier
   * contents before, took its byte of pixel (x, y), pixel (x, y) of channel
   * c shows byte c of it and every other pixel still shows before.
   */
  lemma WroteChannels(r: seq<Image>, before: seq<seq<Byte>>, img: Image, x: int, y: int, id: int, flat: int)
    requires Valid(img) && img.depth == RGBADepth && Channels(r, img) && |before| == 4
    requires forall i | 0 <= i < 4 :: |before[i]| == r[i].pix.Length
    requires InImage(img, x, y, 0) && id == Offset(r[0], x, y) && flat == Offset(img, x, y)
    requires 0 <= id < r[0].pix.Length && 0 <= flat && flat + 4 <= img.pix.Length
    requires forall c | 0 <= c < 4 :: r[c].pix[id] == img.pix[flat + c]
    requires forall c, k | 0 <= c < 4 && 0 <= k < r[c].pix.Length && k != id :: r[c].pix[k] == before[c][k]
    ensures forall c | 0 <= c < 4 :: At(r[c], x, y, 0) == At(img, x, y, c)
    ensures forall c, xx, yy | 0 <= c < 4 && InImage(r[c], xx, yy, 0) && (xx != x || yy != y) ::
      0 <= Offset(r[c], xx, yy) < |before[c]| && At(r[c], xx, yy, 0) == before[c][Offset(r[c], xx, yy)]
  {
    forall c | 0 <= c < 4
      ensures At(r[c], x, y, 0) == At(img, x, y, c)
    {
      OffsetInRange(r[c], x, y, 0);
      OffsetInRange(img, x, y, c);
    }
    forall c, xx, yy | 0 <= c < 4 && InImage(r[c], xx, yy, 0) && (xx != x || yy != y)
      ensures 0 <= Offset(r[c], xx, yy) < |before[c]| && At(r[c], xx, yy, 0) == before[c][Offset(r[c], xx, yy)]
    {
      OffsetInRange(r[c], xx, yy, 0);
      if Offset(r[c], xx, yy) == id {
        SameSpot(xx, yy, x, y, img.width);
      }
    }
  }

  /** One step of the pixel loop of ImageGetSplitChannels. */
  method SplitPixel(r: seq<Image>, img: Image, x: int, y: int)
    requires Valid(img) && img.depth == RGBADepth && Channels(r, img)
    requires forall i | 0 <= i < 4 :: r[i].pix != img.pix
    requires forall i, j | 0 <= i < j < 4 :: r[i].pix != r[j].pix
    requires InImage(img, x, y, 0) && SplitBefore(r, img, x, y)
    modifies r[0].pix, r[1].pix, r[2].pix, r[3].pix
    ensures SplitBefore(r, img, x + 1, y)
  {
    label L:
    WriteChannels(r, img, x, y);
    forall xx, yy, c | InImage(img, xx, yy, c) && (yy < y || (yy == y && xx <= x))
      ensures At(r[c], xx, yy, 0) == At(img, xx, yy, c)
    {
      assert InImage(r[c], xx, yy, 0);
      if xx != x || yy != y {
        assert At(r[c], xx, yy, 0) == old@L(At(r[c], xx, yy, 0));
      }
    }
  }

  /** ImageGetSplitChannels */
  method ImageGetSplitChannels(img: Image) returns (r: seq<Image>)
    requires Valid(img) && img.depth == RGBADepth
    ensures Channels(r, img)
    ensures forall i | 0 <= i < |r| :: fresh(r[i].pix)
    ensures forall i, j | 0 <= i < j < |r| :: r[i].pix != r[j].pix
    ensures forall x, y, c | InImage(img, x, y, c) :: At(r[c], x, y, 0) == At(img, x, y, c)
  {
    var h, w := img.height, img.width;
    var p0 := new Byte[h * w];
    var p1 := new Byte[h * w];
    var p2 := new Byte[h * w];
    var p3 := new Byte[h * w];
    r := [Image(p0, w, 0, 0, w, h, GrayDepth), Image(p1, w, 0, 0, w, h, GrayDepth),
          Image(p2, w, 0, 0, w, h, GrayDepth), Image(p3, w, 0, 0, w, h, GrayDepth)];
    forall i | 0 <= i < 4
      ensures Valid(r[i])
    {
      NormalValid(r[i]);
    }
    for y := 0 to h
      invariant SplitBefore(r, img, 0, y)
    {
      for x := 0 to w
        invariant SplitBefore(r, img, x, y)
      {
        SplitPixel(r, img, x, y);
      }
    }
  }
}
