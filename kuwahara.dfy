/**
 * The integer side of the Kuwahara filter (images/kuwahara): splitting an
 * RGBA image into flat channels, and the index arithmetic of the separable
 * filter: mirror reflection at the borders (the BORDER_REFLECT_101 rule of
 * OpenCV, where the edge pixel itself is not repeated), the three loop
 * ranges of the fast passes and the reads of every pass. Float32 samples
 * and weights are exact reals here.
 */
module Kuwahara {
  import opened GoNum
  import opened Raster

  // ---------------------------------------------------------------------
  // channels.go

  /** The first three channels of the pixels before (x, y) in row-major order are in place. */
  ghost predicate SplitBefore(channels: seq<array<Byte>>, img: Image, x: int, y: int)
    reads img.pix, set i | 0 <= i < |channels| :: channels[i]
    requires Valid(img) && |channels| == 3
    requires forall i | 0 <= i < 3 :: channels[i].Length == img.height * img.width
  {
    forall xx, yy, c | InImage(img, xx, yy, c) && c < 3 && (yy < y || (yy == y && xx < x)) ::
      channels[c][Flat(yy, xx, img.height, img.width)] == At(img, xx, yy, c)
  }

  /** Write the red, green and blue bytes of pixel (x, y) at y * width + x of their channels, and nothing else. */
  method WriteRGB(channels: seq<array<Byte>>, img: Image, x: int, y: int)
    requires Valid(img) && img.depth == RGBADepth && |channels| == 3
    requires forall i | 0 <= i < 3 :: channels[i].Length == img.height * img.width && channels[i] != img.pix
    requires channels[0] != channels[1] && channels[0] != channels[2] && channels[1] != channels[2]
    requires InImage(img, x, y, 0)
    modifies channels[0], channels[1], channels[2]
    ensures forall c | 0 <= c < 3 :: channels[c][Flat(y, x, img.height, img.width)] == At(img, x, y, c)
    ensures forall c, xx, yy | 0 <= c < 3 && 0 <= xx < img.width && 0 <= yy < img.height && (xx != x || yy != y) ::
      channels[c][Flat(yy, xx, img.height, img.width)] == old(channels[c][Flat(yy, xx, img.height, img.width)])
  {
    var h, w := img.height, img.width;
    var flat := PixOffset(img, x + img.minX, y + img.minY);
    var id := y * w + x;
    PixelWindow(img, x, y);
    assert id == Flat(y, x, h, w);
    ghost var before := [channels[0][..], channels[1][..], channels[2][..]];
    channels[0][id] := img.pix[flat + 0];
    channels[1][id] := img.pix[flat + 1];
    channels[2][id] := img.pix[flat + 2];
    WroteRGB(channels, before, img, x, y, id, flat);
  }

  /** After byte id of each channel, and nothing else, took its byte of pixel (x, y), WriteRGB's promise holds. */
  lemma WroteRGB(channels: seq<array<Byte>>, before: seq<seq<Byte>>, img: Image, x: int, y: int, id: int, flat: int)
    requires Valid(img) && img.depth == RGBADepth && |channels| == 3 && |before| == 3
    requires forall i | 0 <= i < 3 :: channels[i].Length == img.height * img.width == |before[i]|
    requires InImage(img, x, y, 0) && id == Flat(y, x, img.height, img.width) && flat == Offset(img, x, y)
    requires 0 <= flat && flat + 4 <= img.pix.Length
    requires forall c | 0 <= c < 3 :: channels[c][id] == img.pix[flat + c]
    requires forall c, k | 0 <= c < 3 && 0 <= k < channels[c].Length && k != id :: channels[c][k] == before[c][k]
    ensures forall c | 0 <= c < 3 :: channels[c][Flat(y, x, img.height, img.width)] == At(img, x, y, c)
    ensures forall c, xx, yy | 0 <= c < 3 && 0 <= xx < img.width && 0 <= yy < img.height && (xx != x || yy != y) ::
      channels[c][Flat(yy, xx, img.height, img.width)] == before[c][Flat(yy, xx, img.height, img.width)]
  {
    forall c | 0 <= c < 3
      ensures channels[c][Flat(y, x, img.height, img.width)] == At(img, x, y, c)
    {
      OffsetInRange(img, x, y, c);
    }
    FlatInjective(img.height, img.width);
  }

  /** One step of the pixel loop of getSplitChannels. */
  method SplitPixel(channels: seq<array<Byte>>, img: Image, x: int, y: int)
    requires Valid(img) && img.depth == RGBADepth && |channels| == 3
    requires forall i | 0 <= i < 3 :: channels[i].Length == img.height * img.width && channels[i] != img.pix
    requires channels[0] != channels[1] && channels[0] != channels[2] && channels[1] != channels[2]
    requires InImage(img, x, y, 0) && SplitBefore(channels, img, x, y)
    modifies channels[0], channels[1], channels[2]
    ensures SplitBefore(channels, img, x + 1, y)
  {
    var h, w := img.height, img.width;
    label L:
    WriteRGB(channels, img, x, y);
    forall xx, yy, c | InImage(img, xx, yy, c) && c < 3 && (yy < y || (yy == y && xx <= x))
      ensures channels[c][Flat(yy, xx, h, w)] == At(img, xx, yy, c)
    {
      if xx != x || yy != y {
        assert channels[c][Flat(yy, xx, h, w)] == old@L(channels[c][Flat(yy, xx, h, w)]);
      }
    }
  }

  /** getSplitChannels: three flat row-major buffers holding the red, green and blue bytes. */
  method GetSplitChannels(img: Image) returns (channels: seq<array<Byte>>)
    requires Valid(img) && img.depth == RGBADepth
    ensures |channels| == 3
    ensures forall i | 0 <= i < 3 :: fresh(channels[i]) && channels[i].Length == img.height * img.width
    ensures channels[0] != channels[1] && channels[0] != channels[2] && channels[1] != channels[2]
    ensures forall x, y, c | InImage(img, x, y, c) && c < 3 ::
      channels[c][Flat(y, x, img.height, img.width)] == At(img, x, y, c)
  {
    var size := img.height * img.width;
    var red := new Byte[size];
    var green := new Byte[size];
    var blue := new Byte[size];
    channels := [red, green, blue];
    for y := 0 to img.height
      invariant SplitBefore(channels, img, 0, y)
    {
      for x := 0 to img.width
        invariant SplitBefore(channels, img, x, y)
      {
        SplitPixel(channels, img, x, y);
      }
    }
  }

  // ---------------------------------------------------------------------
  // sepFilter2D.go: border reflection

  /** Go's built-in max on two ints. */
  function MaxInt(a: int, b: int): int
  {
    if a >= b then a else b
  }

  /** reflectIndex101Full, with Go's truncating remainder. */
  function Reflect101Full(index: int, maxIndex: int): int
  {
    var remainder := Rem(index, MaxInt(maxIndex * 2, 1));
    var folded := if remainder < 0 then -remainder else remainder;
    if folded > maxIndex then -folded + maxIndex * 2 else folded
  }

  /** Go's remainder changes sign with its dividend. */
  lemma RemNegated(a: int, b: int)
    requires b > 0
    ensures Rem(-a, b) == -Rem(a, b)
  {
  }

  /** Euclidean division of a natural number has one quotient and one remainder. */
  lemma ModUnique(a: int, b: int, q: int, r: int)
    requires a >= 0 && b > 0 && 0 <= r < b && a == q * b + r
    ensures a % b == r
  {
    var q', r' := a / b, a % b;
    assert a == q' * b + r';
    if q < 0 {
      MulMono(0, -q, b);
      assert false;
    }
    SameCell(q, q', r, b);
  }

  /** The reflection always lands on a valid index. */
  lemma ReflectInRange(index: int, maxIndex: int)
    requires maxIndex >= 0
    ensures 0 <= Reflect101Full(index, maxIndex) <= maxIndex
  {
  }

  /** Indexes already inside [0, maxIndex] are kept. */
  lemma ReflectKeepsInside(index: int, maxIndex: int)
    requires 0 <= index <= maxIndex
    ensures Reflect101Full(index, maxIndex) == index
  {
    ModUnique(index, MaxInt(maxIndex * 2, 1), 0, index);
  }

  /** The reflection is mirror-symmetric about index 0. */
  lemma ReflectSymmetric(index: int, maxIndex: int)
    ensures Reflect101Full(-index, maxIndex) == Reflect101Full(index, maxIndex)
  {
    RemNegated(index, MaxInt(maxIndex * 2, 1));
  }

  /** Shifting the dividend by b keeps Go's remainder, or lifts a negative one by b. */
  lemma RemShift(i: int, b: int)
    requires b > 0
    ensures Rem(i + b, b) == Rem(i, b) || (Rem(i, b) < 0 && Rem(i + b, b) == Rem(i, b) + b)
  {
    if i >= 0 {
      ModUnique(i + b, b, i / b + 1, i % b);
    } else if i + b < 0 {
      ModUnique(-i, b, (-i - b) / b + 1, (-i - b) % b);
    } else if i + b == 0 {
      ModUnique(b, b, 1, 0);
    } else {
      ModUnique(-i, b, 0, -i);
      ModUnique(i + b, b, 0, i + b);
    }
  }

  /** The reflection repeats every 2 * maxIndex positions. */
  lemma ReflectPeriodic(index: int, maxIndex: int)
    requires maxIndex >= 1
    ensures Reflect101Full(index + 2 * maxIndex, maxIndex) == Reflect101Full(index, maxIndex)
  {
    assert MaxInt(maxIndex * 2, 1) == 2 * maxIndex;
    RemShift(index, 2 * maxIndex);
  }

  // ---------------------------------------------------------------------
  // sepFilter2D.go: the passes

  /**
   * How a loop of a filter pass finds the index it reads for a tap at t on
   * an axis of n cells: the first loop mirrors at 0, the middle loop reads
   * t as it is, the last loop mirrors at n - 1, and the edge-case passes
   * reflect as often as needed.
   */
  datatype Tap = LeftEdge | Inside | RightEdge | Reflected

  function TapIndex(tap: Tap, t: int, n: int): int
  {
    match tap
    case LeftEdge => if t < 0 then -t else t
    case Inside => t
    case RightEdge => if t > n - 1 then (n - 1) - t + (n - 1) else t
    case Reflected => Reflect101Full(t, n - 1)
  }

  /** Mirroring at 0 agrees with the full reflection within one axis length of the border. */
  lemma LeftEdgeAgrees(t: int, n: int)
    requires -(n - 1) <= t <= n - 1
    ensures TapIndex(LeftEdge, t, n) == Reflect101Full(t, n - 1)
  {
    if t < 0 {
      ReflectSymmetric(t, n - 1);
      ReflectKeepsInside(-t, n - 1);
    } else {
      ReflectKeepsInside(t, n - 1);
    }
  }

  /** Mirroring at n - 1 agrees with the full reflection between 0 and 2 (n - 1). */
  lemma RightEdgeAgrees(t: int, n: int)
    requires 0 <= t <= 2 * (n - 1)
    ensures TapIndex(RightEdge, t, n) == Reflect101Full(t, n - 1)
  {
    if t <= n - 1 {
      ReflectKeepsInside(t, n - 1);
    } else if t < 2 * (n - 1) {
      ModUnique(t, 2 * (n - 1), 0, t);
    } else {
      ModUnique(t, 2 * (n - 1), 1, 0);
    }
  }

  /**
   * The j-th partial weighted sum of a horizontal pass at output (x, y):
   * the sum, in kernel order, of the weights before j times the samples
   * they fall on, reflected at the left and right borders.
   */
  function HorizontalSum(img: seq<real>, ys: int, xs: int, kernel: seq<real>, anchor: int, y: int, x: int, j: nat): real
    requires 0 <= y < ys && 0 <= x < xs && ys * xs <= |img| && j <= |kernel|
  {
    if j == 0 then 0.0
    else
      var r := Reflect101Full(x + (j - 1 - anchor), xs - 1);
      ReflectInRange(x + (j - 1 - anchor), xs - 1);
      HorizontalSum(img, ys, xs, kernel, anchor, y, x, j - 1) + img[Flat(y, r, ys, xs)] * kernel[j - 1]
  }

  /** The same for a vertical pass, reflected at the top and bottom borders. */
  function VerticalSum(img: seq<real>, ys: int, xs: int, kernel: seq<real>, anchor: int, y: int, x: int, j: nat): real
    requires 0 <= y < ys && 0 <= x < xs && ys * xs <= |img| && j <= |kernel|
  {
    if j == 0 then 0.0
    else
      var r := Reflect101Full(y + (j - 1 - anchor), ys - 1);
      ReflectInRange(y + (j - 1 - anchor), ys - 1);
      VerticalSum(img, ys, xs, kernel, anchor, y, x, j - 1) + img[Flat(r, x, ys, xs)] * kernel[j - 1]
  }

  /** One more tap of a horizontal sum: the weight at offset times the sample the tap rule picks. */
  lemma HorizontalStep(img: seq<real>, ys: int, xs: int, kernel: seq<real>, anchor: int, y: int, x: int, offset: int, tap: Tap)
    requires 0 <= y < ys && 0 <= x < xs && ys * xs <= |img| && -anchor <= offset < |kernel| - anchor
    requires TapsAgree(tap, x, xs, |kernel|, anchor)
    ensures 0 <= TapIndex(tap, x + offset, xs) < xs
    ensures HorizontalSum(img, ys, xs, kernel, anchor, y, x, anchor + offset + 1) ==
      HorizontalSum(img, ys, xs, kernel, anchor, y, x, anchor + offset) +
      img[Flat(y, TapIndex(tap, x + offset, xs), ys, xs)] * kernel[anchor + offset]
  {
    assert x + (anchor + offset + 1 - 1 - anchor) == x + offset;
    assert TapIndex(tap, x + offset, xs) == Reflect101Full(x + offset, xs - 1);
    ReflectInRange(x + offset, xs - 1);
  }

  /** One more tap of a vertical sum. */
  lemma VerticalStep(img: seq<real>, ys: int, xs: int, kernel: seq<real>, anchor: int, y: int, x: int, offset: int, tap: Tap)
    requires 0 <= y < ys && 0 <= x < xs && ys * xs <= |img| && -anchor <= offset < |kernel| - anchor
    requires TapsAgree(tap, y, ys, |kernel|, anchor)
    ensures 0 <= TapIndex(tap, y + offset, ys) < ys
    ensures VerticalSum(img, ys, xs, kernel, anchor, y, x, anchor + offset + 1) ==
      VerticalSum(img, ys, xs, kernel, anchor, y, x, anchor + offset) +
      img[Flat(TapIndex(tap, y + offset, ys), x, ys, xs)] * kernel[anchor + offset]
  {
    assert y + (anchor + offset + 1 - 1 - anchor) == y + offset;
    assert TapIndex(tap, y + offset, ys) == Reflect101Full(y + offset, ys - 1);
    ReflectInRange(y + offset, ys - 1);
  }

  /** A pass's direction. */
  datatype Axis = Horizontal | Vertical

  function Filtered(axis: Axis, img: seq<real>, ys: int, xs: int, kernel: seq<real>, anchor: int, y: int, x: int): real
    requires 0 <= y < ys && 0 <= x < xs && ys * xs <= |img|
  {
    match axis
    case Horizontal => HorizontalSum(img, ys, xs, kernel, anchor, y, x, |kernel|)
    case Vertical => VerticalSum(img, ys, xs, kernel, anchor, y, x, |kernel|)
  }

  /** Every output in rows [y0, y1) and columns [x0, x1) holds its filtered value. */
  ghost predicate Filled(axis: Axis, result: array<real>, img: seq<real>, ys: int, xs: int, kernel: seq<real>, anchor: int,
                         y0: int, y1: int, x0: int, x1: int)
    reads result
    requires ys * xs <= |img| && ys * xs <= result.Length
  {
    forall y, x | 0 <= y0 <= y < y1 <= ys && 0 <= x0 <= x < x1 <= xs ::
      result[Flat(y, x, ys, xs)] == Filtered(axis, img, ys, xs, kernel, anchor, y, x)
  }

  /** The position a tap reads on the filtered axis: either the tap's own rule or the full reflection. */
  predicate TapsAgree(tap: Tap, at: int, n: int, kernelLength: int, anchor: int)
  {
    forall t | at - anchor <= t < at + kernelLength - anchor :: TapIndex(tap, t, n) == Reflect101Full(t, n - 1)
  }

  /** The innermost loop of a horizontal pass: the weighted sum at output (x, y), read with the given tap rule. */
  method HorizontalTaps(img: array<real>, ys: int, xs: int, kernel: seq<real>, anchor: int, y: int, x: int, tap: Tap)
    returns (sum: real)
    requires ys * xs <= img.Length && 0 <= y < ys && 0 <= x < xs && TapsAgree(tap, x, xs, |kernel|, anchor)
    ensures sum == HorizontalSum(img[..], ys, xs, kernel, anchor, y, x, |kernel|)
  {
    sum := 0.0;
    for offset := -anchor to |kernel| - anchor
      invariant sum == HorizontalSum(img[..], ys, xs, kernel, anchor, y, x, offset + anchor)
    {
      var weight := kernel[anchor + offset];
      var imgX := TapIndex(tap, x + offset, xs);
      HorizontalStep(img[..], ys, xs, kernel, anchor, y, x, offset, tap);
      sum := sum + img[Flat(y, imgX, ys, xs)] * weight;
    }
  }

  /** The innermost loop of a vertical pass, reading down column x. */
  method VerticalTaps(img: array<real>, ys: int, xs: int, kernel: seq<real>, anchor: int, y: int, x: int, tap: Tap)
    returns (sum: real)
    requires ys * xs <= img.Length && 0 <= y < ys && 0 <= x < xs && TapsAgree(tap, y, ys, |kernel|, anchor)
    ensures sum == VerticalSum(img[..], ys, xs, kernel, anchor, y, x, |kernel|)
  {
    sum := 0.0;
    for offset := -anchor to |kernel| - anchor
      invariant sum == VerticalSum(img[..], ys, xs, kernel, anchor, y, x, offset + anchor)
    {
      var weight := kernel[anchor + offset];
      var imgY := TapIndex(tap, y + offset, ys);
      VerticalStep(img[..], ys, xs, kernel, anchor, y, x, offset, tap);
      sum := sum + img[Flat(imgY, x, ys, xs)] * weight;
    }
  }

  /** The inner loop of every pass, in the pass's direction. */
  method FilterPixel(axis: Axis, img: array<real>, result: array<real>, ys: int, xs: int, kernel: seq<real>, anchor: int,
                     y: int, x: int, tap: Tap)
    requires img != result && ys * xs <= img.Length && ys * xs <= result.Length
    requires 0 <= y < ys && 0 <= x < xs
    requires axis == Horizontal ==> TapsAgree(tap, x, xs, |kernel|, anchor)
    requires axis == Vertical ==> TapsAgree(tap, y, ys, |kernel|, anchor)
    modifies result
    ensures result[Flat(y, x, ys, xs)] == Filtered(axis, img[..], ys, xs, kernel, anchor, y, x)
    ensures forall k | 0 <= k < result.Length && k != Flat(y, x, ys, xs) :: result[k] == old(result[k])
  {
    var sum;
    if axis == Horizontal {
      sum := HorizontalTaps(img, ys, xs, kernel, anchor, y, x, tap);
    } else {
      sum := VerticalTaps(img, ys, xs, kernel, anchor, y, x, tap);
    }
    result[Flat(y, x, ys, xs)] := sum;
  }

  /** One row of a loop: every output in row y and columns [x0, x1), read with one tap rule. */
  method FilterRow(axis: Axis, img: array<real>, result: array<real>, ys: int, xs: int, kernel: seq<real>, anchor: int,
                   y: int, x0: int, x1: int, tap: Tap)
    requires img != result && ys * xs <= img.Length && ys * xs <= result.Length
    requires 0 <= y < ys && 0 <= x0 <= x1 <= xs
    requires axis == Horizontal ==> forall x | x0 <= x < x1 :: TapsAgree(tap, x, xs, |kernel|, anchor)
    requires axis == Vertical ==> TapsAgree(tap, y, ys, |kernel|, anchor)
    modifies result
    ensures Filled(axis, result, img[..], ys, xs, kernel, anchor, y, y + 1, x0, x1)
    ensures forall yy, xx | 0 <= yy < ys && 0 <= xx < xs && !(yy == y && x0 <= xx < x1) ::
      result[Flat(yy, xx, ys, xs)] == old(result[Flat(yy, xx, ys, xs)])
    ensures forall k | ys * xs <= k < result.Length :: result[k] == old(result[k])
  {
    FlatInjective(ys, xs);
    for x := x0 to x1
      invariant Filled(axis, result, img[..], ys, xs, kernel, anchor, y, y + 1, x0, x)
      invariant forall yy, xx | 0 <= yy < ys && 0 <= xx < xs && !(yy == y && x0 <= xx < x) ::
        result[Flat(yy, xx, ys, xs)] == old(result[Flat(yy, xx, ys, xs)])
      invariant forall k | ys * xs <= k < result.Length :: result[k] == old(result[k])
    {
      FilterPixel(axis, img, result, ys, xs, kernel, anchor, y, x, tap);
    }
  }

  /** One loop of a pass: every output in rows [y0, y1) and columns [x0, x1), read with one tap rule. */
  method FilterBlock(axis: Axis, img: array<real>, result: array<real>, ys: int, xs: int, kernel: seq<real>, anchor: int,
                     y0: int, y1: int, x0: int, x1: int, tap: Tap)
    requires img != result && ys * xs <= img.Length && ys * xs <= result.Length
    requires 0 <= y0 <= y1 <= ys && 0 <= x0 <= x1 <= xs
    requires axis == Horizontal ==> forall x | x0 <= x < x1 :: TapsAgree(tap, x, xs, |kernel|, anchor)
    requires axis == Vertical ==> forall y | y0 <= y < y1 :: TapsAgree(tap, y, ys, |kernel|, anchor)
    modifies result
    ensures Filled(axis, result, img[..], ys, xs, kernel, anchor, y0, y1, x0, x1)
    ensures forall y, x | 0 <= y < ys && 0 <= x < xs && !(y0 <= y < y1 && x0 <= x < x1) ::
      result[Flat(y, x, ys, xs)] == old(result[Flat(y, x, ys, xs)])
    ensures forall k | ys * xs <= k < result.Length :: result[k] == old(result[k])
  {
    for y := y0 to y1
      invariant Filled(axis, result, img[..], ys, xs, kernel, anchor, y0, y, x0, x1)
      invariant forall yy, xx | 0 <= yy < ys && 0 <= xx < xs && !(y0 <= yy < y && x0 <= xx < x1) ::
        result[Flat(yy, xx, ys, xs)] == old(result[Flat(yy, xx, ys, xs)])
      invariant forall k | ys * xs <= k < result.Length :: result[k] == old(result[k])
    {
      FilterRow(axis, img, result, ys, xs, kernel, anchor, y, x0, x1, tap);
    }
  }

  /** The tap rule of each loop of a fast pass agrees with the full reflection on that loop's range. */
  lemma FastTapsAgree(n: int, kernelLength: int, anchor: int)
    requires 0 <= anchor < kernelLength <= n
    ensures forall p | 0 <= p < anchor :: TapsAgree(LeftEdge, p, n, kernelLength, anchor)
    ensures forall p | anchor <= p < n - (kernelLength - 1 - anchor) :: TapsAgree(Inside, p, n, kernelLength, anchor)
    ensures forall p | n - (kernelLength - 1 - anchor) <= p < n :: TapsAgree(RightEdge, p, n, kernelLength, anchor)
  {
    forall p | 0 <= p < anchor
      ensures TapsAgree(LeftEdge, p, n, kernelLength, anchor)
    {
      forall t | p - anchor <= t < p + kernelLength - anchor
        ensures TapIndex(LeftEdge, t, n) == Reflect101Full(t, n - 1)
      {
        LeftEdgeAgrees(t, n);
      }
    }
    forall p | anchor <= p < n - (kernelLength - 1 - anchor)
      ensures TapsAgree(Inside, p, n, kernelLength, anchor)
    {
      forall t | p - anchor <= t < p + kernelLength - anchor
        ensures TapIndex(Inside, t, n) == Reflect101Full(t, n - 1)
      {
        ReflectKeepsInside(t, n - 1);
      }
    }
    forall p | n - (kernelLength - 1 - anchor) <= p < n
      ensures TapsAgree(RightEdge, p, n, kernelLength, anchor)
    {
      forall t | p - anchor <= t < p + kernelLength - anchor
        ensures TapIndex(RightEdge, t, n) == Reflect101Full(t, n - 1)
      {
        RightEdgeAgrees(t, n);
      }
    }
  }

  /** filterHorizontal1D: the fast horizontal pass, for a kernel no wider than a row. */
  method FilterHorizontal1D(img: array<real>, result: array<real>, ys: int, xs: int, kernel: seq<real>, anchor: int)
    requires img != result && 0 <= ys && 0 <= xs && ys * xs <= img.Length && ys * xs <= result.Length
    requires 0 <= anchor < |kernel| <= xs
    modifies result
    ensures Filled(Horizontal, result, img[..], ys, xs, kernel, anchor, 0, ys, 0, xs)
    ensures forall k | ys * xs <= k < result.Length :: result[k] == old(result[k])
  {
    var offsetL := anchor;
    var offsetR := |kernel| - 1 - anchor;
    FastTapsAgree(xs, |kernel|, anchor);
    FilterBlock(Horizontal, img, result, ys, xs, kernel, anchor, 0, ys, 0, offsetL, LeftEdge);
    FilterBlock(Horizontal, img, result, ys, xs, kernel, anchor, 0, ys, offsetL, xs - offsetR, Inside);
    FilterBlock(Horizontal, img, result, ys, xs, kernel, anchor, 0, ys, xs - offsetR, xs, RightEdge);
  }

  /** filterVertical1D: the fast vertical pass, for a kernel no taller than a column. */
  method FilterVertical1D(img: array<real>, result: array<real>, ys: int, xs: int, kernel: seq<real>, anchor: int)
    requires img != result && 0 <= ys && 0 <= xs && ys * xs <= img.Length && ys * xs <= result.Length
    requires 0 <= anchor < |kernel| <= ys
    modifies result
    ensures Filled(Vertical, result, img[..], ys, xs, kernel, anchor, 0, ys, 0, xs)
    ensures forall k | ys * xs <= k < result.Length :: result[k] == old(result[k])
  {
    var offsetL := anchor;
    var offsetR := |kernel| - 1 - anchor;
    FastTapsAgree(ys, |kernel|, anchor);
    FilterBlock(Vertical, img, result, ys, xs, kernel, anchor, 0, offsetL, 0, xs, LeftEdge);
    FilterBlock(Vertical, img, result, ys, xs, kernel, anchor, offsetL, ys - offsetR, 0, xs, Inside);
    FilterBlock(Vertical, img, result, ys, xs, kernel, anchor, ys - offsetR, ys, 0, xs, RightEdge);
  }

  /** filterEdgeCaseHorizontal1D: reflects every tap, however far outside the row it falls. */
  method FilterEdgeCaseHorizontal1D(img: array<real>, result: array<real>, ys: int, xs: int, kernel: seq<real>, anchor: int)
    requires img != result && 0 <= ys && 0 <= xs && ys * xs <= img.Length && ys * xs <= result.Length
    modifies result
    ensures Filled(Horizontal, result, img[..], ys, xs, kernel, anchor, 0, ys, 0, xs)
    ensures forall k | ys * xs <= k < result.Length :: result[k] == old(result[k])
  {
    FilterBlock(Horizontal, img, result, ys, xs, kernel, anchor, 0, ys, 0, xs, Reflected);
  }

  /** filterEdgeCaseVertical1D: reflects every tap, however far outside the column it falls. */
  method FilterEdgeCaseVertical1D(img: array<real>, result: array<real>, ys: int, xs: int, kernel: seq<real>, anchor: int)
    requires img != result && 0 <= ys && 0 <= xs && ys * xs <= img.Length && ys * xs <= result.Length
    modifies result
    ensures Filled(Vertical, result, img[..], ys, xs, kernel, anchor, 0, ys, 0, xs)
    ensures forall k | ys * xs <= k < result.Length :: result[k] == old(result[k])
  {
    FilterBlock(Vertical, img, result, ys, xs, kernel, anchor, 0, ys, 0, xs, Reflected);
  }

  /**
   * sepFilter2D: a horizontal pass into temp, then a vertical pass into
   * dest, each on its fast path when the kernel fits the axis. Whichever
   * path runs, the outputs are the reflected weighted sums.
   */
  method SepFilter2D(img: array<real>, dest: array<real>, temp: array<real>, ys: int, xs: int,
                     columnKernel: seq<real>, rowKernel: seq<real>, columnAnchor: int, rowAnchor: int)
    requires img != temp && dest != temp
    requires 0 <= ys && 0 <= xs && ys * xs <= img.Length && ys * xs <= temp.Length && ys * xs <= dest.Length
    requires 0 <= rowAnchor < |rowKernel| && 0 <= columnAnchor < |columnKernel|
    modifies dest, temp
    ensures Filled(Horizontal, temp, old(img[..]), ys, xs, rowKernel, rowAnchor, 0, ys, 0, xs)
    ensures Filled(Vertical, dest, temp[..], ys, xs, columnKernel, columnAnchor, 0, ys, 0, xs)
    ensures forall k | ys * xs <= k < temp.Length :: temp[k] == old(temp[k])
    ensures forall k | ys * xs <= k < dest.Length :: dest[k] == old(dest[k])
  {
    if |rowKernel| <= xs {
      FilterHorizontal1D(img, temp, ys, xs, rowKernel, rowAnchor);
    } else {
      FilterEdgeCaseHorizontal1D(img, temp, ys, xs, rowKernel, rowAnchor);
    }
    ghost var passed := temp[..];
    if |columnKernel| <= ys {
      FilterVertical1D(temp, dest, ys, xs, columnKernel, columnAnchor);
    } else {
      FilterEdgeCaseVertical1D(temp, dest, ys, xs, columnKernel, columnAnchor);
    }
    assert temp[..] == passed;
  }
}
