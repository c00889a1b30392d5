/**
 * The edge operators of src/edge_detection/canny.cc (and its older copy
 * src/algorithms/canny.cpp): the Roberts cross on 2 x 2 neighbourhoods and
 * the Prewitt and Sobel operators on 3 x 3 windows.  Every channel is
 * filtered on its own; the response is the gradient magnitude
 * `sqrt(gx * gx + gy * gy)`, truncated and clamped into a byte.  Pixels the
 * loops never reach keep the 0 the output buffer starts with.
 */
module EdgeDetection {
  import opened Math
  import opened Images

  // ---- the gradient magnitude ----

  /** `gx * gx + gy * gy`: the squared length of the gradient. */
  function Energy(gx: int, gy: int): (e: nat)
    ensures e == 0 <==> gx == 0 && gy == 0
  {
    SquareSign(gx);
    SquareSign(gy);
    gx * gx + gy * gy
  }

  /**
   * `static_cast<unsigned char>(std::min(255, std::max(0, gradient)))` with
   * `gradient = static_cast<int>(std::sqrt(gx * gx + gy * gy))`: the
   * truncated root is the integer square root.
   */
  function Magnitude(gx: int, gy: int): (m: byte)
    ensures m == 0 <==> gx == 0 && gy == 0
  {
    Min(255, Max(0, ISqrt(Energy(gx, gy))))
  }

  /** Below saturation the response is the floor of the gradient length; from 255 on it saturates. */
  lemma MagnitudeIsRoot(gx: int, gy: int)
    ensures var e, m := Energy(gx, gy), Magnitude(gx, gy);
      (e < 255 * 255 ==> m * m <= e < (m + 1) * (m + 1)) && (255 * 255 <= e ==> m == 255)
  {
    var e, r := Energy(gx, gy), ISqrt(Energy(gx, gy));
    if e < 255 * 255 && r >= 255 {
      SquareMonotone(255, r);
    }
    if 255 * 255 <= e && r < 255 {
      SquareMonotone(r + 1, 255);
    }
  }

  /** The response does not depend on the sign of either component, nor on their order. */
  lemma MagnitudeSymmetric(gx: int, gy: int)
    ensures Magnitude(-gx, -gy) == Magnitude(gx, gy)
    ensures Magnitude(gy, gx) == Magnitude(gx, gy)
  {
    assert (-gx) * (-gx) == gx * gx;
    assert (-gy) * (-gy) == gy * gy;
  }

  // ---- the kernels, row-major as in canny.cc ----

  const RobertsX: seq<int> := [1, 0, 0, -1]
  const RobertsY: seq<int> := [0, 1, -1, 0]
  const PrewittX: seq<int> := [1, 1, 1, 0, 0, 0, -1, -1, -1]
  const PrewittY: seq<int> := [1, 0, -1, 1, 0, -1, 1, 0, -1]
  const SobelX: seq<int> := [-1, 0, 1, -2, 0, 2, -1, 0, 1]
  const SobelY: seq<int> := [-1, -2, -1, 0, 0, 0, 1, 2, 1]

  // ---- Roberts cross ----

  /** Pixel (`i`, `j`) has a right and a lower neighbour: the pixels the Roberts loops visit. */
  predicate RobertsInterior(img: Image, i: nat, j: nat) {
    Covers(img) && i + 1 < img.height && j + 1 < img.width
  }

  /** `gx` of the Roberts cross: `kx[0]` on (`i`, `j`) and `kx[3]` on (`i` + 1, `j` + 1). */
  function RobertsGx(img: Image, i: nat, j: nat, c: nat): (gx: int)
    requires RobertsInterior(img, i, j) && c < 3
    ensures gx == Sample(img, i, j, c) as int - Sample(img, i + 1, j + 1, c) as int
  {
    RobertsX[0] * Sample(img, i, j, c) as int + RobertsX[3] * Sample(img, i + 1, j + 1, c) as int
  }

  /** `gy` of the Roberts cross: `ky[1]` on (`i`, `j` + 1) and `ky[2]` on (`i` + 1, `j`). */
  function RobertsGy(img: Image, i: nat, j: nat, c: nat): (gy: int)
    requires RobertsInterior(img, i, j) && c < 3
    ensures gy == Sample(img, i, j + 1, c) as int - Sample(img, i + 1, j, c) as int
  {
    RobertsY[1] * Sample(img, i, j + 1, c) as int + RobertsY[2] * Sample(img, i + 1, j, c) as int
  }

  /** Channel `c` of output pixel (`i`, `j`): the response inside, 0 on the last row and column. */
  function RobertsChannel(img: Image, i: nat, j: nat, c: nat): byte {
    if RobertsInterior(img, i, j) && c < 3 then Magnitude(RobertsGx(img, i, j, c), RobertsGy(img, i, j, c)) else 0
  }

  function RobertsPixel(img: Image): (nat, nat, nat) -> byte {
    (i, j, c) => RobertsChannel(img, i, j, c)
  }

  /** The image `robertsOperator` returns: same dimensions, unpadded layout. */
  function RobertsImage(img: Image): (out: Image)
    ensures out.width == img.width && out.height == img.height && WellFormed(out)
  {
    RasterSize(RobertsPixel(img), img.width, img.height);
    Image(img.width, img.height, Raster(RobertsPixel(img), img.width, img.height))
  }

  /** Offsets of the right, lower and diagonal neighbours relative to pixel (`i`, `j`). */
  lemma NeighbourOffsets(w: nat, i: nat, j: nat, c: nat)
    ensures Offset(w, i, j + 1, c) == Offset(w, i, j, c) + 3
    ensures Offset(w, i + 1, j, c) == Offset(w, i, j, c) + 3 * w
    ensures Offset(w, i + 1, j + 1, c) == Offset(w, i, j, c) + 3 * (w + 1)
  {
    assert (i + 1) * w == i * w + w;
  }

  /** `robertsOperator`, the body of the channel loop: `gx`, `gy` and the response for channel `c`. */
  method RobertsResponse(img: Image, i: nat, j: nat, c: nat) returns (v: byte)
    requires RobertsInterior(img, i, j) && c < 3
    ensures v == RobertsChannel(img, i, j, c)
  {
    var width: nat := img.width;
    var idx := 3 * (i * width + j);
    NeighbourOffsets(width, i, j, c);
    OffsetInRange(width, img.height, i + 1, j + 1, c);
    assert idx + c == Offset(width, i, j, c);
    assert img.pixels[idx + c] == Sample(img, i, j, c);
    assert img.pixels[idx + 3 + c] == Sample(img, i, j + 1, c);
    assert img.pixels[idx + 3 * width + c] == Sample(img, i + 1, j, c);
    assert img.pixels[idx + 3 * (width + 1) + c] == Sample(img, i + 1, j + 1, c);
    var gx := RobertsX[0] * img.pixels[idx + c] as int + RobertsX[3] * img.pixels[idx + 3 * (width + 1) + c] as int;
    var gy := RobertsY[1] * img.pixels[idx + 3 + c] as int + RobertsY[2] * img.pixels[idx + 3 * width + c] as int;
    assert gx == RobertsGx(img, i, j, c) && gy == RobertsGy(img, i, j, c);
    var gradient := ISqrt(Energy(gx, gy));
    v := Min(255, Max(0, gradient)) as byte;
  }

  /** `robertsOperator`, the statements for one pixel: the channel loop. */
  method StoreRoberts(outputPixels: array<byte>, img: Image, i: nat, j: nat)
    requires RobertsInterior(img, i, j)
    requires outputPixels.Length == 3 * (img.width * img.height)
    requires FilledTo(outputPixels[..], RobertsPixel(img), img.width, i, j)
    requires ZeroFrom(outputPixels[..], 3 * (RowStart(img.width, i) + j))
    modifies outputPixels
    ensures FilledTo(outputPixels[..], RobertsPixel(img), img.width, i, j + 1)
    ensures ZeroFrom(outputPixels[..], 3 * (RowStart(img.width, i) + (j + 1)))
  {
    var width: nat := img.width;
    PixelSlot(width, img.height, i, j);
    var p := i * width + j;
    var idx := 3 * p;
    ghost var s0 := outputPixels[..];
    ghost var g := RobertsPixel(img);
    for c := 0 to 3
      invariant outputPixels[..] == WithChannels(s0, p, g, i, j, c)
    {
      var v := RobertsResponse(img, i, j, c);
      outputPixels[idx + c] := v;
    }
    AllChannels(s0, p, g, i, j);
    FillNext(s0, g, width, i, j);
    FillNextZero(s0, p, g(i, j, 0), g(i, j, 1), g(i, j, 2));
  }

  /** The last pixel of a row is 0, so a row filled up to it is complete. */
  lemma RobertsRowEnd(s: seq<byte>, img: Image, i: nat, j: nat)
    requires Covers(img) && j + 1 == img.width && i < img.height && |s| == 3 * (img.width * img.height)
    requires FilledTo(s, RobertsPixel(img), img.width, i, j)
    requires ZeroFrom(s, 3 * (RowStart(img.width, i) + j))
    ensures FilledTo(s, RobertsPixel(img), img.width, i + 1, 0)
    ensures ZeroFrom(s, 3 * RowStart(img.width, i + 1))
  {
    RowFits(img.width, img.height, i);
    SkipRow(s, RobertsPixel(img), img.width, i, j);
  }

  /** The last row is 0, so a buffer filled up to it is the output. */
  lemma RobertsLastRow(s: seq<byte>, img: Image, i: nat)
    requires Covers(img) && i + 1 == img.height && |s| == 3 * (img.width * img.height)
    requires FilledTo(s, RobertsPixel(img), img.width, i, 0)
    requires ZeroFrom(s, 3 * RowStart(img.width, i))
    ensures s == RobertsImage(img).pixels
  {
    RowFits(img.width, img.height, i);
    SkipRow(s, RobertsPixel(img), img.width, i, 0);
    FilledAll(s, RobertsPixel(img), img.width, img.height);
  }

  /** `robertsOperator`, one pass of the outer loop: row `i`, whose last pixel stays 0. */
  method RobertsRow(outputPixels: array<byte>, img: Image, i: nat)
    requires Covers(img) && img.width >= 1 && i + 1 < img.height
    requires outputPixels.Length == 3 * (img.width * img.height)
    requires FilledTo(outputPixels[..], RobertsPixel(img), img.width, i, 0)
    requires ZeroFrom(outputPixels[..], 3 * RowStart(img.width, i))
    modifies outputPixels
    ensures FilledTo(outputPixels[..], RobertsPixel(img), img.width, i + 1, 0)
    ensures ZeroFrom(outputPixels[..], 3 * RowStart(img.width, i + 1))
  {
    var width: nat := img.width;
    var j := 0;
    while j < width - 1
      invariant j <= width - 1
      invariant FilledTo(outputPixels[..], RobertsPixel(img), img.width, i, j)
      invariant ZeroFrom(outputPixels[..], 3 * (RowStart(img.width, i) + j))
    {
      StoreRoberts(outputPixels, img, i, j);
      j := j + 1;
    }
    RobertsRowEnd(outputPixels[..], img, i, j);
  }

  /**
   * `robertsOperator`: every pixel with a right and a lower neighbour gets
   * the response of its 2 x 2 block; the last row and column stay 0.
   */
  method RobertsOperator(img: Image) returns (out: Image)
    requires Covers(img) && img.width >= 1 && img.height >= 1
    ensures out == RobertsImage(img)
  {
    var height: nat := img.height;
    var width: nat := img.width;
    var outputPixels := new byte[3 * (width * height)](_ => 0);
    var i := 0;
    while i < height - 1
      invariant i <= height - 1
      invariant FilledTo(outputPixels[..], RobertsPixel(img), img.width, i, 0)
      invariant ZeroFrom(outputPixels[..], 3 * RowStart(img.width, i))
    {
      RobertsRow(outputPixels, img, i);
      i := i + 1;
    }
    RobertsLastRow(outputPixels[..], img, i);
    out := Image(img.width, img.height, outputPixels[..]);
  }

  /** Channel `c` of pixel (`i`, `j`) of the Roberts output. */
  lemma RobertsImageAt(img: Image, i: nat, j: nat, c: nat)
    requires i < img.height && j < img.width && c < 3
    ensures Offset(img.width, i, j, c) < |RobertsImage(img).pixels|
    ensures RobertsImage(img).pixels[Offset(img.width, i, j, c)]
      == if RobertsInterior(img, i, j) then Magnitude(RobertsGx(img, i, j, c), RobertsGy(img, i, j, c)) else 0
  {
    RasterAt(RobertsPixel(img), img.width, img.height, i, j, c);
  }

  // ---- Prewitt and Sobel: 3 x 3 windows ----

  /** Pixel (`i`, `j`) has all eight neighbours: the pixels the Prewitt and Sobel loops visit. */
  predicate Inside(img: Image, i: nat, j: nat) {
    Covers(img) && 1 <= i && i + 1 < img.height && 1 <= j && j + 1 < img.width
  }

  /** The first `n` taps of window row `ki`: weight `kernel[ki * 3 + kj]` on pixel (`i + ki - 1`, `j + kj - 1`). */
  function RowTaps(img: Image, kernel: seq<int>, i: nat, j: nat, c: nat, ki: nat, n: nat): int
    requires Inside(img, i, j) && |kernel| == 9 && c < 3 && ki < 3 && n <= 3
  {
    if n == 0 then 0
    else RowTaps(img, kernel, i, j, c, ki, n - 1) + kernel[ki * 3 + (n - 1)] * Sample(img, i + ki - 1, j + (n - 1) - 1, c) as int
  }

  /** The first `m` rows of the window sum of `kernel` centred on (`i`, `j`), channel `c`. */
  function WindowSum(img: Image, kernel: seq<int>, i: nat, j: nat, c: nat, m: nat): int
    requires Inside(img, i, j) && |kernel| == 9 && c < 3 && m <= 3
  {
    if m == 0 then 0 else WindowSum(img, kernel, i, j, c, m - 1) + RowTaps(img, kernel, i, j, c, m - 1, 3)
  }

  /** Channel `c` of output pixel (`i`, `j`): the response inside, 0 on the border. */
  function GradientChannel(img: Image, kx: seq<int>, ky: seq<int>, i: nat, j: nat, c: nat): byte {
    if Inside(img, i, j) && |kx| == 9 && |ky| == 9 && c < 3 then
      Magnitude(WindowSum(img, kx, i, j, c, 3), WindowSum(img, ky, i, j, c, 3))
    else 0
  }

  function GradientPixel(img: Image, kx: seq<int>, ky: seq<int>): (nat, nat, nat) -> byte {
    (i, j, c) => GradientChannel(img, kx, ky, i, j, c)
  }

  /** The image `prewittOperator` or `sobelOperator` returns with kernels `kx`, `ky`. */
  function GradientImage(img: Image, kx: seq<int>, ky: seq<int>): (out: Image)
    ensures out.width == img.width && out.height == img.height && WellFormed(out)
  {
    RasterSize(GradientPixel(img, kx, ky), img.width, img.height);
    Image(img.width, img.height, Raster(GradientPixel(img, kx, ky), img.width, img.height))
  }

  /** The body of the `kj` loop: tap (`ki`, `kj`) added to both sums. */
  method WindowTap(img: Image, kx: seq<int>, ky: seq<int>, i: nat, j: nat, c: nat, ki: nat, kj: nat, gx: int, gy: int)
    returns (nextX: int, nextY: int)
    requires Inside(img, i, j) && |kx| == 9 && |ky| == 9 && c < 3 && ki < 3 && kj < 3
    requires gx == WindowSum(img, kx, i, j, c, ki) + RowTaps(img, kx, i, j, c, ki, kj)
    requires gy == WindowSum(img, ky, i, j, c, ki) + RowTaps(img, ky, i, j, c, ki, kj)
    ensures nextX == WindowSum(img, kx, i, j, c, ki) + RowTaps(img, kx, i, j, c, ki, kj + 1)
    ensures nextY == WindowSum(img, ky, i, j, c, ki) + RowTaps(img, ky, i, j, c, ki, kj + 1)
  {
    var width: nat := img.width;
    var weightX := kx[ki * 3 + kj];
    var weightY := ky[ki * 3 + kj];
    var nidx := 3 * ((i + ki - 1) * width + (j + kj - 1)) + c;
    OffsetInRange(width, img.height, i + ki - 1, j + kj - 1, c);
    assert nidx == Offset(width, i + ki - 1, j + kj - 1, c);
    assert img.pixels[nidx] == Sample(img, i + ki - 1, j + kj - 1, c);
    nextX := gx + weightX * img.pixels[nidx] as int;
    nextY := gy + weightY * img.pixels[nidx] as int;
  }

  /** The `ki` and `kj` loops: both window sums of channel `c` at (`i`, `j`). */
  method WindowResponse(img: Image, kx: seq<int>, ky: seq<int>, i: nat, j: nat, c: nat) returns (gx: int, gy: int)
    requires Inside(img, i, j) && |kx| == 9 && |ky| == 9 && c < 3
    ensures gx == WindowSum(img, kx, i, j, c, 3) && gy == WindowSum(img, ky, i, j, c, 3)
  {
    gx, gy := 0, 0;
    for ki := 0 to 3
      invariant gx == WindowSum(img, kx, i, j, c, ki) && gy == WindowSum(img, ky, i, j, c, ki)
    {
      for kj := 0 to 3
        invariant gx == WindowSum(img, kx, i, j, c, ki) + RowTaps(img, kx, i, j, c, ki, kj)
        invariant gy == WindowSum(img, ky, i, j, c, ki) + RowTaps(img, ky, i, j, c, ki, kj)
      {
        gx, gy := WindowTap(img, kx, ky, i, j, c, ki, kj, gx, gy);
      }
    }
  }

  /** The body of the channel loop: the response for channel `c` of pixel (`i`, `j`). */
  method GradientResponse(img: Image, kx: seq<int>, ky: seq<int>, i: nat, j: nat, c: nat) returns (v: byte)
    requires Inside(img, i, j) && |kx| == 9 && |ky| == 9 && c < 3
    ensures v == GradientChannel(img, kx, ky, i, j, c)
  {
    var gx, gy := WindowResponse(img, kx, ky, i, j, c);
    var gradient := ISqrt(Energy(gx, gy));
    v := Min(255, Max(0, gradient)) as byte;
  }

  /** The statements for one interior pixel: the channel loop. */
  method StoreGradient(outputPixels: array<byte>, img: Image, kx: seq<int>, ky: seq<int>, i: nat, j: nat)
    requires Inside(img, i, j) && |kx| == 9 && |ky| == 9
    requires outputPixels.Length == 3 * (img.width * img.height)
    requires FilledTo(outputPixels[..], GradientPixel(img, kx, ky), img.width, i, j)
    requires ZeroFrom(outputPixels[..], 3 * (RowStart(img.width, i) + j))
    modifies outputPixels
    ensures FilledTo(outputPixels[..], GradientPixel(img, kx, ky), img.width, i, j + 1)
    ensures ZeroFrom(outputPixels[..], 3 * (RowStart(img.width, i) + (j + 1)))
  {
    var width: nat := img.width;
    PixelSlot(width, img.height, i, j);
    var p := i * width + j;
    var idx := 3 * p;
    ghost var s0 := outputPixels[..];
    ghost var g := GradientPixel(img, kx, ky);
    for c := 0 to 3
      invariant outputPixels[..] == WithChannels(s0, p, g, i, j, c)
    {
      var v := GradientResponse(img, kx, ky, i, j, c);
      outputPixels[idx + c] := v;
    }
    AllChannels(s0, p, g, i, j);
    FillNext(s0, g, width, i, j);
    FillNextZero(s0, p, g(i, j, 0), g(i, j, 1), g(i, j, 2));
  }

  /** A row outside the loops' range (the first or the last) is all 0, so it is complete as it stands. */
  lemma GradientBorderRow(s: seq<byte>, img: Image, kx: seq<int>, ky: seq<int>, i: nat)
    requires i < img.height && (i == 0 || i + 1 == img.height) && |s| == 3 * (img.width * img.height)
    requires FilledTo(s, GradientPixel(img, kx, ky), img.width, i, 0)
    requires ZeroFrom(s, 3 * RowStart(img.width, i))
    ensures FilledTo(s, GradientPixel(img, kx, ky), img.width, i + 1, 0)
    ensures ZeroFrom(s, 3 * RowStart(img.width, i + 1))
  {
    RowFits(img.width, img.height, i);
    SkipRow(s, GradientPixel(img, kx, ky), img.width, i, 0);
  }

  /** The first pixel of a row is 0. */
  lemma GradientRowStart(s: seq<byte>, img: Image, kx: seq<int>, ky: seq<int>, i: nat)
    requires i < img.height && img.width >= 1 && |s| == 3 * (img.width * img.height)
    requires FilledTo(s, GradientPixel(img, kx, ky), img.width, i, 0)
    requires ZeroFrom(s, 3 * RowStart(img.width, i))
    ensures FilledTo(s, GradientPixel(img, kx, ky), img.width, i, 1)
    ensures ZeroFrom(s, 3 * (RowStart(img.width, i) + 1))
  {
    PixelSlot(img.width, img.height, i, 0);
    SkipNext(s, GradientPixel(img, kx, ky), img.width, i, 0);
  }

  /** The pixels from column `j` on are 0 (`j` is the last column, or past it), so the row is complete. */
  lemma GradientRowEnd(s: seq<byte>, img: Image, kx: seq<int>, ky: seq<int>, i: nat, j: nat)
    requires i < img.height && j <= img.width <= j + 1 && |s| == 3 * (img.width * img.height)
    requires FilledTo(s, GradientPixel(img, kx, ky), img.width, i, j)
    requires ZeroFrom(s, 3 * (RowStart(img.width, i) + j))
    ensures FilledTo(s, GradientPixel(img, kx, ky), img.width, i + 1, 0)
    ensures ZeroFrom(s, 3 * RowStart(img.width, i + 1))
  {
    RowFits(img.width, img.height, i);
    SkipRow(s, GradientPixel(img, kx, ky), img.width, i, j);
  }

  /** One pass of the outer loop: row `i`, whose first and last pixels stay 0. */
  method GradientRow(outputPixels: array<byte>, img: Image, kx: seq<int>, ky: seq<int>, i: nat)
    requires Covers(img) && img.width >= 1 && 1 <= i && i + 1 < img.height && |kx| == 9 && |ky| == 9
    requires outputPixels.Length == 3 * (img.width * img.height)
    requires FilledTo(outputPixels[..], GradientPixel(img, kx, ky), img.width, i, 0)
    requires ZeroFrom(outputPixels[..], 3 * RowStart(img.width, i))
    modifies outputPixels
    ensures FilledTo(outputPixels[..], GradientPixel(img, kx, ky), img.width, i + 1, 0)
    ensures ZeroFrom(outputPixels[..], 3 * RowStart(img.width, i + 1))
  {
    var width: nat := img.width;
    GradientRowStart(outputPixels[..], img, kx, ky, i);
    var j := 1;
    while j < width - 1
      invariant 1 <= j <= width
      invariant FilledTo(outputPixels[..], GradientPixel(img, kx, ky), img.width, i, j)
      invariant ZeroFrom(outputPixels[..], 3 * (RowStart(img.width, i) + j))
    {
      StoreGradient(outputPixels, img, kx, ky, i, j);
      j := j + 1;
    }
    GradientRowEnd(outputPixels[..], img, kx, ky, i, j);
  }

  /** A buffer holding all rows is the output. */
  lemma GradientDone(s: seq<byte>, img: Image, kx: seq<int>, ky: seq<int>, i: nat)
    requires i == img.height && |s| == 3 * (img.width * img.height)
    requires FilledTo(s, GradientPixel(img, kx, ky), img.width, i, 0)
    ensures s == GradientImage(img, kx, ky).pixels
  {
    FilledAll(s, GradientPixel(img, kx, ky), img.width, img.height);
  }

  /**
   * The shared body of `prewittOperator` and `sobelOperator`: every pixel
   * with all eight neighbours gets the response of its 3 x 3 window; the
   * border stays 0.
   */
  method ApplyGradient(img: Image, kx: seq<int>, ky: seq<int>) returns (out: Image)
    requires Covers(img) && img.width >= 1 && img.height >= 1 && |kx| == 9 && |ky| == 9
    ensures out == GradientImage(img, kx, ky)
  {
    var height: nat := img.height;
    var width: nat := img.width;
    var outputPixels := new byte[3 * (width * height)](_ => 0);
    GradientBorderRow(outputPixels[..], img, kx, ky, 0);
    var i := 1;
    while i < height - 1
      invariant 1 <= i <= height
      invariant FilledTo(outputPixels[..], GradientPixel(img, kx, ky), img.width, i, 0)
      invariant ZeroFrom(outputPixels[..], 3 * RowStart(img.width, i))
    {
      GradientRow(outputPixels, img, kx, ky, i);
      i := i + 1;
    }
    if i < height {
      GradientBorderRow(outputPixels[..], img, kx, ky, i);
      i := i + 1;
    }
    GradientDone(outputPixels[..], img, kx, ky, i);
    out := Image(img.width, img.height, outputPixels[..]);
  }

  /** `prewittOperator`. */
  method PrewittOperator(img: Image) returns (out: Image)
    requires Covers(img) && img.width >= 1 && img.height >= 1
    ensures out == GradientImage(img, PrewittX, PrewittY)
  {
    out := ApplyGradient(img, PrewittX, PrewittY);
  }

  /** `sobelOperator`. */
  method SobelOperator(img: Image) returns (out: Image)
    requires Covers(img) && img.width >= 1 && img.height >= 1
    ensures out == GradientImage(img, SobelX, SobelY)
  {
    out := ApplyGradient(img, SobelX, SobelY);
  }

  /** Channel `c` of pixel (`i`, `j`) of a Prewitt or Sobel output. */
  lemma GradientImageAt(img: Image, kx: seq<int>, ky: seq<int>, i: nat, j: nat, c: nat)
    requires |kx| == 9 && |ky| == 9 && i < img.height && j < img.width && c < 3
    ensures Offset(img.width, i, j, c) < |GradientImage(img, kx, ky).pixels|
    ensures GradientImage(img, kx, ky).pixels[Offset(img.width, i, j, c)]
      == if Inside(img, i, j) then Magnitude(WindowSum(img, kx, i, j, c, 3), WindowSum(img, ky, i, j, c, 3)) else 0
  {
    RasterAt(GradientPixel(img, kx, ky), img.width, img.height, i, j, c);
  }

  // ---- the windows written out ----

  /** Channel `c` of the neighbour (`i + di`, `j + dj`). */
  function Neighbour(img: Image, i: nat, j: nat, c: nat, di: int, dj: int): int
    requires Covers(img) && c < 3 && 0 <= i + di < img.height && 0 <= j + dj < img.width
  {
    Sample(img, i + di, j + dj, c) as int
  }

  /** The window sum as the nine weighted neighbours, the weight of (`di`, `dj`) at `3 * (di + 1) + (dj + 1)`. */
  function Window(img: Image, kernel: seq<int>, i: nat, j: nat, c: nat): int
    requires Inside(img, i, j) && |kernel| == 9 && c < 3
  {
    kernel[0] * Neighbour(img, i, j, c, -1, -1) + kernel[1] * Neighbour(img, i, j, c, -1, 0)
      + kernel[2] * Neighbour(img, i, j, c, -1, 1) + kernel[3] * Neighbour(img, i, j, c, 0, -1)
      + kernel[4] * Neighbour(img, i, j, c, 0, 0) + kernel[5] * Neighbour(img, i, j, c, 0, 1)
      + kernel[6] * Neighbour(img, i, j, c, 1, -1) + kernel[7] * Neighbour(img, i, j, c, 1, 0)
      + kernel[8] * Neighbour(img, i, j, c, 1, 1)
  }

  lemma RowTerms(img: Image, kernel: seq<int>, i: nat, j: nat, c: nat, ki: nat)
    requires Inside(img, i, j) && |kernel| == 9 && c < 3 && ki < 3
    ensures RowTaps(img, kernel, i, j, c, ki, 3)
      == kernel[ki * 3] * Neighbour(img, i, j, c, ki - 1, -1)
        + kernel[ki * 3 + 1] * Neighbour(img, i, j, c, ki - 1, 0)
        + kernel[ki * 3 + 2] * Neighbour(img, i, j, c, ki - 1, 1)
  {
    assert RowTaps(img, kernel, i, j, c, ki, 1) == kernel[ki * 3] * Neighbour(img, i, j, c, ki - 1, -1);
  }

  /** The nested `ki`, `kj` loops compute the nine-term weighted sum. */
  lemma WindowSumIsWindow(img: Image, kernel: seq<int>, i: nat, j: nat, c: nat)
    requires Inside(img, i, j) && |kernel| == 9 && c < 3
    ensures WindowSum(img, kernel, i, j, c, 3) == Window(img, kernel, i, j, c)
  {
    assert WindowSum(img, kernel, i, j, c, 1) == RowTaps(img, kernel, i, j, c, 0, 3);
    assert WindowSum(img, kernel, i, j, c, 2) == WindowSum(img, kernel, i, j, c, 1) + RowTaps(img, kernel, i, j, c, 1, 3);
    RowTerms(img, kernel, i, j, c, 0);
    RowTerms(img, kernel, i, j, c, 1);
    RowTerms(img, kernel, i, j, c, 2);
  }

  /**
   * Sobel: `gx` is the right column minus the left one and `gy` the bottom
   * row minus the top one, the middle neighbours weighted 2; each lies in
   * [-1020, 1020].
   */
  lemma SobelClosedForm(img: Image, i: nat, j: nat, c: nat)
    requires Inside(img, i, j) && c < 3
    ensures WindowSum(img, SobelX, i, j, c, 3)
      == (Neighbour(img, i, j, c, -1, 1) + 2 * Neighbour(img, i, j, c, 0, 1) + Neighbour(img, i, j, c, 1, 1))
        - (Neighbour(img, i, j, c, -1, -1) + 2 * Neighbour(img, i, j, c, 0, -1) + Neighbour(img, i, j, c, 1, -1))
    ensures WindowSum(img, SobelY, i, j, c, 3)
      == (Neighbour(img, i, j, c, 1, -1) + 2 * Neighbour(img, i, j, c, 1, 0) + Neighbour(img, i, j, c, 1, 1))
        - (Neighbour(img, i, j, c, -1, -1) + 2 * Neighbour(img, i, j, c, -1, 0) + Neighbour(img, i, j, c, -1, 1))
    ensures -1020 <= WindowSum(img, SobelX, i, j, c, 3) <= 1020
    ensures -1020 <= WindowSum(img, SobelY, i, j, c, 3) <= 1020
  {
    WindowSumIsWindow(img, SobelX, i, j, c);
    WindowSumIsWindow(img, SobelY, i, j, c);
  }

  /**
   * Prewitt: `gx` is the top row minus the bottom one and `gy` the left
   * column minus the right one, all weights 1; each lies in [-765, 765].
   */
  lemma PrewittClosedForm(img: Image, i: nat, j: nat, c: nat)
    requires Inside(img, i, j) && c < 3
    ensures WindowSum(img, PrewittX, i, j, c, 3)
      == (Neighbour(img, i, j, c, -1, -1) + Neighbour(img, i, j, c, -1, 0) + Neighbour(img, i, j, c, -1, 1))
        - (Neighbour(img, i, j, c, 1, -1) + Neighbour(img, i, j, c, 1, 0) + Neighbour(img, i, j, c, 1, 1))
    ensures WindowSum(img, PrewittY, i, j, c, 3)
      == (Neighbour(img, i, j, c, -1, -1) + Neighbour(img, i, j, c, 0, -1) + Neighbour(img, i, j, c, 1, -1))
        - (Neighbour(img, i, j, c, -1, 1) + Neighbour(img, i, j, c, 0, 1) + Neighbour(img, i, j, c, 1, 1))
    ensures -765 <= WindowSum(img, PrewittX, i, j, c, 3) <= 765
    ensures -765 <= WindowSum(img, PrewittY, i, j, c, 3) <= 765
  {
    WindowSumIsWindow(img, PrewittX, i, j, c);
    WindowSumIsWindow(img, PrewittY, i, j, c);
  }

  lemma SquareBound(d: int, b: int)
    requires 0 <= b && -b <= d <= b
    ensures d * d <= b * b
  {
    if d < 0 {
      SquareMonotone(-d, b);
    } else {
      SquareMonotone(d, b);
    }
  }

  /** The largest `gx * gx + gy * gy` of the Sobel operator, 2080800, fits a 32-bit `int`. */
  lemma SobelEnergyFits(img: Image, i: nat, j: nat, c: nat)
    requires Inside(img, i, j) && c < 3
    ensures Energy(WindowSum(img, SobelX, i, j, c, 3), WindowSum(img, SobelY, i, j, c, 3)) <= 2 * 1020 * 1020 < 0x8000_0000
  {
    SobelClosedForm(img, i, j, c);
    SquareBound(WindowSum(img, SobelX, i, j, c, 3), 1020);
    SquareBound(WindowSum(img, SobelY, i, j, c, 3), 1020);
  }

  // ---- images without edges ----

  /** The sum of the weights of a 3 x 3 kernel. */
  function Weight(kernel: seq<int>): int
    requires |kernel| == 9
  {
    kernel[0] + kernel[1] + kernel[2] + kernel[3] + kernel[4] + kernel[5] + kernel[6] + kernel[7] + kernel[8]
  }

  /** On a solid image the window sum is the colour times the kernel's weight. */
  lemma FlatWindow(img: Image, kernel: seq<int>, i: nat, j: nat, c: nat)
    requires IsFlat(img) && Inside(img, i, j) && |kernel| == 9 && c < 3
    ensures WindowSum(img, kernel, i, j, c, 3) == img.pixels[c] as int * Weight(kernel)
  {
    WindowSumIsWindow(img, kernel, i, j, c);
    FlatSample(img, i - 1, j - 1, c);
    FlatSample(img, i - 1, j, c);
    FlatSample(img, i - 1, j + 1, c);
    FlatSample(img, i, j - 1, c);
    FlatSample(img, i, j, c);
    FlatSample(img, i, j + 1, c);
    FlatSample(img, i + 1, j - 1, c);
    FlatSample(img, i + 1, j, c);
    FlatSample(img, i + 1, j + 1, c);
  }

  /** The buffer of a black `w` x `h` image. */
  function Black(w: nat, h: nat): (s: seq<byte>)
    ensures |s| == 3 * (w * h)
  {
    seq(3 * (w * h), _ => 0)
  }

  lemma RasterIsBlack(g: (nat, nat, nat) -> byte, img: Image)
    requires Covers(img)
    requires forall i: nat, j: nat, c: nat :: i < img.height && j < img.width && c < 3 ==> g(i, j, c) == 0
    ensures Raster(g, img.width, img.height) == Black(img.width, img.height)
  {
    var black := Image(img.width, img.height, Black(img.width, img.height));
    forall i: nat, j: nat, c: nat | i < img.height && j < img.width && c < 3
      ensures g(i, j, c) == Sample(black, i, j, c)
    {
      OffsetInRange(img.width, img.height, i, j, c);
    }
    RasterOfImage(g, black);
  }

  /** With kernels whose weights sum to 0, a solid image has no edges: the output is black. */
  lemma FlatGradient(img: Image, kx: seq<int>, ky: seq<int>)
    requires IsFlat(img) && |kx| == 9 && |ky| == 9 && Weight(kx) == 0 && Weight(ky) == 0
    ensures GradientImage(img, kx, ky).pixels == Black(img.width, img.height)
  {
    forall i: nat, j: nat, c: nat | i < img.height && j < img.width && c < 3
      ensures GradientPixel(img, kx, ky)(i, j, c) == 0
    {
      if Inside(img, i, j) {
        FlatWindow(img, kx, i, j, c);
        FlatWindow(img, ky, i, j, c);
      }
    }
    RasterIsBlack(GradientPixel(img, kx, ky), img);
  }

  /** A solid image has no edges under any of the three operators. */
  lemma FlatHasNoEdges(img: Image)
    requires IsFlat(img)
    ensures RobertsImage(img).pixels == Black(img.width, img.height)
    ensures GradientImage(img, PrewittX, PrewittY).pixels == Black(img.width, img.height)
    ensures GradientImage(img, SobelX, SobelY).pixels == Black(img.width, img.height)
  {
    forall i: nat, j: nat, c: nat | i < img.height && j < img.width && c < 3
      ensures RobertsPixel(img)(i, j, c) == 0
    {
      if RobertsInterior(img, i, j) {
        FlatSample(img, i, j, c);
        FlatSample(img, i, j + 1, c);
        FlatSample(img, i + 1, j, c);
        FlatSample(img, i + 1, j + 1, c);
      }
    }
    RasterIsBlack(RobertsPixel(img), img);
    FlatGradient(img, PrewittX, PrewittY);
    FlatGradient(img, SobelX, SobelY);
  }

  // ---- colour inversion ----

  /** `b` is the negative of `a`: every sample `v` of `a` is `255 - v` in `b`. */
  predicate Inverted(a: Image, b: Image) {
    Covers(a) && Covers(b) && a.width == b.width && a.height == b.height &&
    forall i: nat, j: nat, c: nat :: i < a.height && j < a.width && c < 3 ==>
      Sample(b, i, j, c) as int == 255 - Sample(a, i, j, c) as int
  }

  /** Inverting the image maps a window sum `s` to `255 * Weight(kernel) - s`. */
  lemma InvertedWindow(a: Image, b: Image, kernel: seq<int>, i: nat, j: nat, c: nat)
    requires Inverted(a, b) && Inside(a, i, j) && |kernel| == 9 && c < 3
    ensures Inside(b, i, j)
    ensures WindowSum(b, kernel, i, j, c, 3) == 255 * Weight(kernel) - WindowSum(a, kernel, i, j, c, 3)
  {
    WindowSumIsWindow(a, kernel, i, j, c);
    WindowSumIsWindow(b, kernel, i, j, c);
    NegatedTap(kernel[0], Neighbour(a, i, j, c, -1, -1), Neighbour(b, i, j, c, -1, -1));
    NegatedTap(kernel[1], Neighbour(a, i, j, c, -1, 0), Neighbour(b, i, j, c, -1, 0));
    NegatedTap(kernel[2], Neighbour(a, i, j, c, -1, 1), Neighbour(b, i, j, c, -1, 1));
    NegatedTap(kernel[3], Neighbour(a, i, j, c, 0, -1), Neighbour(b, i, j, c, 0, -1));
    NegatedTap(kernel[4], Neighbour(a, i, j, c, 0, 0), Neighbour(b, i, j, c, 0, 0));
    NegatedTap(kernel[5], Neighbour(a, i, j, c, 0, 1), Neighbour(b, i, j, c, 0, 1));
    NegatedTap(kernel[6], Neighbour(a, i, j, c, 1, -1), Neighbour(b, i, j, c, 1, -1));
    NegatedTap(kernel[7], Neighbour(a, i, j, c, 1, 0), Neighbour(b, i, j, c, 1, 0));
    NegatedTap(kernel[8], Neighbour(a, i, j, c, 1, 1), Neighbour(b, i, j, c, 1, 1));
  }

  lemma NegatedTap(weight: int, va: int, vb: int)
    requires vb == 255 - va
    ensures weight * vb == 255 * weight - weight * va
  {
  }

  /** With kernels whose weights sum to 0, the negative of an image has the same edges. */
  lemma GradientInversion(a: Image, b: Image, kx: seq<int>, ky: seq<int>)
    requires Inverted(a, b) && |kx| == 9 && |ky| == 9 && Weight(kx) == 0 && Weight(ky) == 0
    ensures GradientImage(b, kx, ky) == GradientImage(a, kx, ky)
  {
    forall i: nat, j: nat, c: nat | i < a.height && j < a.width && c < 3
      ensures GradientPixel(b, kx, ky)(i, j, c) == GradientPixel(a, kx, ky)(i, j, c)
    {
      if Inside(a, i, j) {
        InvertedWindow(a, b, kx, i, j, c);
        InvertedWindow(a, b, ky, i, j, c);
        MagnitudeSymmetric(WindowSum(a, kx, i, j, c, 3), WindowSum(a, ky, i, j, c, 3));
      }
    }
    RasterAgree(GradientPixel(b, kx, ky), GradientPixel(a, kx, ky), a.width, a.height);
  }

  /** The negative of an image has the same Roberts edges. */
  lemma RobertsInversion(a: Image, b: Image)
    requires Inverted(a, b)
    ensures RobertsImage(b) == RobertsImage(a)
  {
    forall i: nat, j: nat, c: nat | i < a.height && j < a.width && c < 3
      ensures RobertsPixel(b)(i, j, c) == RobertsPixel(a)(i, j, c)
    {
      if RobertsInterior(a, i, j) {
        assert Sample(b, i, j, c) as int == 255 - Sample(a, i, j, c) as int;
        assert Sample(b, i, j + 1, c) as int == 255 - Sample(a, i, j + 1, c) as int;
        assert Sample(b, i + 1, j, c) as int == 255 - Sample(a, i + 1, j, c) as int;
        assert Sample(b, i + 1, j + 1, c) as int == 255 - Sample(a, i + 1, j + 1, c) as int;
        MagnitudeSymmetric(RobertsGx(a, i, j, c), RobertsGy(a, i, j, c));
      }
    }
    RasterAgree(RobertsPixel(b), RobertsPixel(a), a.width, a.height);
  }

  /** Prewitt and Sobel see the same edges in an image and in its negative. */
  lemma InversionKeepsEdges(a: Image, b: Image)
    requires Inverted(a, b)
    ensures GradientImage(b, PrewittX, PrewittY) == GradientImage(a, PrewittX, PrewittY)
    ensures GradientImage(b, SobelX, SobelY) == GradientImage(a, SobelX, SobelY)
  {
    GradientInversion(a, b, PrewittX, PrewittY);
    GradientInversion(a, b, SobelX, SobelY);
  }
}
