/**
 * Gaussian smoothing of src/edge_detection/canny.cc (and its older copy
 * src/algorithms/canny.cpp): the 1-D kernel, the horizontal and vertical
 * convolution passes with clamp-to-edge sampling, and the fixed sequence of
 * passes.  Sums are exact reals; the `double` accumulation is not modelled.
 * The weight `exp(...)` of an offset `i` is a caller-supplied positive
 * function `gauss` applied to `i * i`, the only way the weight depends on
 * the offset.
 */
module Smoothing {
  import opened Math
  import opened Images

  /** `static_cast<unsigned char>(std::min(std::max(s, 0.0), 255.0))`: clamp into [0, 255], then truncate. */
  function ToByte(s: real): (r: byte)
    ensures s <= 0.0 ==> r == 0
    ensures 255.0 <= s ==> r == 255
    ensures 0.0 <= s < 256.0 ==> r as real <= s < r as real + 1.0
  {
    if s <= 0.0 then 0 else if 255.0 <= s then 255 else s.Floor
  }

  /** A byte turned into a sum and back is unchanged. */
  lemma ToByteOfByte(v: byte)
    ensures ToByte(v as real) == v
  {
  }

  /** `std::min(std::max(x, 0), n - 1)`: the clamp-to-edge sample index. */
  function ClampIndex(x: int, n: nat): (r: nat)
    requires n >= 1
    ensures r < n
    ensures 0 <= x < n ==> r == x
    ensures x < 0 ==> r == 0
    ensures n <= x ==> r == n - 1
  {
    Min(Max(x, 0), n - 1)
  }

  // ---- the kernel ----

  /** Every weight the kernel is built from is positive (`exp` never returns 0 here). */
  ghost predicate Positive(gauss: int -> real) {
    forall n :: gauss(n) > 0.0
  }

  /** Sum of a sequence, accumulated front to back. */
  function Sum(s: seq<real>): real {
    if |s| == 0 then 0.0 else Sum(s[..|s| - 1]) + s[|s| - 1]
  }

  /** The weights before normalisation: entry `t` is the weight of offset `t - size / 2`. */
  function RawKernel(size: nat, gauss: int -> real): (raw: seq<real>)
    ensures |raw| == size
  {
    seq(size, t requires 0 <= t < size => gauss((t - size / 2) * (t - size / 2)))
  }

  lemma {:induction false} SumPositive(s: seq<real>)
    requires |s| >= 1 && forall t :: 0 <= t < |s| ==> s[t] > 0.0
    ensures Sum(s) > 0.0
    decreases |s|
  {
    if |s| > 1 {
      SumPositive(s[..|s| - 1]);
    }
  }

  /** `getGaussianKernel`: every raw weight divided by their sum. */
  function KernelSpec(size: nat, gauss: int -> real): (kernel: seq<real>)
    requires size >= 1 && Positive(gauss)
  {
    var raw := RawKernel(size, gauss);
    SumPositive(raw);
    Scaled(raw, Sum(raw))
  }

  /** Every entry of `s` divided by `d`. */
  function Scaled(s: seq<real>, d: real): (r: seq<real>)
    requires d != 0.0
    ensures |r| == |s|
  {
    seq(|s|, t requires 0 <= t < |s| => s[t] / d)
  }

  /**
   * `getGaussianKernel`: the first loop stores the weight of every offset
   * `i` in `[-mid, mid]` at `i + mid` and sums them; the second divides
   * every entry by the sum.  An even `size` would store one entry past the
   * end, so `size` is odd.
   */
  method GaussianKernel(size: nat, gauss: int -> real) returns (kernel: seq<real>)
    requires size % 2 == 1 && Positive(gauss)
    ensures kernel == KernelSpec(size, gauss)
  {
    var entries := new real[size](_ => 0.0);
    var sum := StoreWeights(entries, gauss);
    SumPositive(RawKernel(size, gauss));
    DivideAll(entries, sum);
    kernel := entries[..];
  }

  /** The first loop of `getGaussianKernel`: the raw weights stored at `i + mid` for `i` in `[-mid, mid]`, and their sum. */
  method StoreWeights(entries: array<real>, gauss: int -> real) returns (sum: real)
    requires entries.Length % 2 == 1
    modifies entries
    ensures entries[..] == RawKernel(entries.Length, gauss)
    ensures sum == Sum(RawKernel(entries.Length, gauss))
  {
    ghost var raw := RawKernel(entries.Length, gauss);
    sum := 0.0;
    var mid := entries.Length / 2;
    var i := -mid;
    while i <= mid
      invariant -mid <= i <= mid + 1
      invariant forall t :: 0 <= t < i + mid ==> entries[t] == raw[t]
      invariant sum == Sum(raw[..i + mid])
    {
      var n := i + mid;
      RawWeight(entries.Length, gauss, i);
      SumNext(raw, n);
      entries[n] := gauss(i * i);
      sum := sum + entries[n];
      i := i + 1;
    }
    assert raw[..entries.Length] == raw;
  }

  /** The second loop of `getGaussianKernel`: every entry divided by `d`, in place. */
  method DivideAll(a: array<real>, d: real)
    requires d != 0.0
    modifies a
    ensures a[..] == Scaled(old(a[..]), d)
  {
    for t := 0 to a.Length
      invariant forall u :: 0 <= u < t ==> a[u] == old(a[u]) / d
      invariant forall u :: t <= u < a.Length ==> a[u] == old(a[u])
    {
      a[t] := a[t] / d;
    }
  }

  /** The weight of offset `i` sits at `i + size / 2`. */
  lemma RawWeight(size: nat, gauss: int -> real, i: int)
    requires -(size / 2) <= i && i + size / 2 < size
    ensures RawKernel(size, gauss)[i + size / 2] == gauss(i * i)
  {
    assert i + size / 2 - size / 2 == i;
  }

  lemma SumNext(s: seq<real>, n: nat)
    requires n < |s|
    ensures Sum(s[..n + 1]) == Sum(s[..n]) + s[n]
  {
    assert s[..n + 1][..n] == s[..n];
  }

  /** Entry `mid + i` equals entry `mid - i`: the weight depends on `i * i` only. */
  lemma KernelSymmetric(size: nat, gauss: int -> real, t: nat)
    requires size % 2 == 1 && Positive(gauss) && t < size
    ensures KernelSpec(size, gauss)[t] == KernelSpec(size, gauss)[size - 1 - t]
  {
    var mid := size / 2;
    assert (size - 1 - t - mid) * (size - 1 - t - mid) == (t - mid) * (t - mid);
  }

  lemma KernelPositive(size: nat, gauss: int -> real, t: nat)
    requires size >= 1 && Positive(gauss) && t < size
    ensures KernelSpec(size, gauss)[t] > 0.0
  {
    SumPositive(RawKernel(size, gauss));
  }

  /** Dividing every entry by `d` divides the sum by `d`. */
  lemma {:induction false} SumScaled(s: seq<real>, d: real)
    requires d != 0.0
    ensures Sum(Scaled(s, d)) == Sum(s) / d
    decreases |s|
  {
    if |s| > 0 {
      var front := s[..|s| - 1];
      SumScaled(front, d);
      assert Scaled(s, d)[..|s| - 1] == Scaled(front, d);
    }
  }

  /** The normalised weights sum to 1 (in exact arithmetic). */
  lemma KernelSumsToOne(size: nat, gauss: int -> real)
    requires size >= 1 && Positive(gauss)
    ensures Sum(KernelSpec(size, gauss)) == 1.0
  {
    var raw := RawKernel(size, gauss);
    SumPositive(raw);
    SumScaled(raw, Sum(raw));
  }

  /** When the weight does not grow with the squared offset, the centre entry is the largest. */
  lemma KernelPeak(size: nat, gauss: int -> real, t: nat)
    requires size >= 1 && Positive(gauss) && t < size
    requires forall a, b :: 0 <= a <= b ==> gauss(b) <= gauss(a)
    ensures KernelSpec(size, gauss)[t] <= KernelSpec(size, gauss)[size / 2]
  {
    var raw := RawKernel(size, gauss);
    SumPositive(raw);
    var m := size / 2;
    var d := t - m;
    SquareSign(d);
    assert raw[t] == gauss(d * d);
    assert m - m == 0;
    assert raw[m] == gauss((m - m) * (m - m));
    assert gauss(d * d) <= gauss(0);
    DivideMonotone(raw[t], raw[m], Sum(raw));
  }

  lemma DivideMonotone(a: real, b: real, d: real)
    requires a <= b && d > 0.0
    ensures a / d <= b / d
  {
  }

  // ---- the convolution passes ----

  /** A kernel the passes can use: `kernel.size() / 2` on each side of the centre stays inside it. */
  predicate OddKernel(kernel: seq<real>) {
    |kernel| % 2 == 1
  }

  /**
   * The first `n` terms of the horizontal sum for channel `c` of pixel
   * (`i`, `j`): tap `t` reads column `j + t - mid`, clamped to the row.
   */
  function HSum(img: Image, kernel: seq<real>, i: nat, j: nat, c: nat, n: nat): real
    requires Covers(img) && i < img.height && j < img.width && c < 3 && n <= |kernel|
  {
    if n == 0 then 0.0
    else
      var px := ClampIndex(j + (n - 1) - |kernel| / 2, img.width);
      HSum(img, kernel, i, j, c, n - 1) + Sample(img, i, px, c) as real * kernel[n - 1]
  }

  /** The vertical counterpart: tap `t` reads row `i + t - mid`, clamped to the column. */
  function VSum(img: Image, kernel: seq<real>, i: nat, j: nat, c: nat, n: nat): real
    requires Covers(img) && i < img.height && j < img.width && c < 3 && n <= |kernel|
  {
    if n == 0 then 0.0
    else
      var py := ClampIndex(i + (n - 1) - |kernel| / 2, img.height);
      VSum(img, kernel, i, j, c, n - 1) + Sample(img, py, j, c) as real * kernel[n - 1]
  }

  /** Channel `c` of output pixel (`i`, `j`) of the horizontal pass; 0 outside the image. */
  function HorizontalChannel(img: Image, kernel: seq<real>, i: nat, j: nat, c: nat): byte {
    if Covers(img) && i < img.height && j < img.width && c < 3 then
      ToByte(HSum(img, kernel, i, j, c, |kernel|))
    else 0
  }


  function VerticalChannel(img: Image, kernel: seq<real>, i: nat, j: nat, c: nat): byte {
    if Covers(img) && i < img.height && j < img.width && c < 3 then
      ToByte(VSum(img, kernel, i, j, c, |kernel|))
    else 0
  }


  function HorizontalPixel(img: Image, kernel: seq<real>): (nat, nat, nat) -> byte {
    (i: nat, j: nat, c: nat) => HorizontalChannel(img, kernel, i, j, c)
  }


  function VerticalPixel(img: Image, kernel: seq<real>): (nat, nat, nat) -> byte {
    (i: nat, j: nat, c: nat) => VerticalChannel(img, kernel, i, j, c)
  }


  /** The image `horizontalConvolution` returns: same dimensions, `3 * height * width` bytes. */
  function HorizontalImage(img: Image, kernel: seq<real>): (out: Image)
    requires Covers(img)
    ensures out.width == img.width && out.height == img.height && WellFormed(out)
  {
    RasterSize(HorizontalPixel(img, kernel), img.width, img.height);
    Image(img.width, img.height, Raster(HorizontalPixel(img, kernel), img.width, img.height))
  }

  function VerticalImage(img: Image, kernel: seq<real>): (out: Image)
    requires Covers(img)
    ensures out.width == img.width && out.height == img.height && WellFormed(out)
  {
    RasterSize(VerticalPixel(img, kernel), img.width, img.height);
    Image(img.width, img.height, Raster(VerticalPixel(img, kernel), img.width, img.height))
  }

  /** Tap `k` (counted from the centre) extends the horizontal sum of channel `c` by one weighted sample. */
  lemma HSumNext(img: Image, kernel: seq<real>, i: nat, j: nat, c: nat, k: int)
    requires Covers(img) && OddKernel(kernel) && i < img.height && j < img.width && c < 3
    requires -(|kernel| / 2) <= k <= |kernel| / 2
    ensures var n, px := k + |kernel| / 2, ClampIndex(j + k, img.width);
      HSum(img, kernel, i, j, c, n + 1) == HSum(img, kernel, i, j, c, n) + Sample(img, i, px, c) as real * kernel[n]
  {
  }

  /** Tap `k` (counted from the centre) extends the vertical sum of channel `c` by one weighted sample. */
  lemma VSumNext(img: Image, kernel: seq<real>, i: nat, j: nat, c: nat, k: int)
    requires Covers(img) && OddKernel(kernel) && i < img.height && j < img.width && c < 3
    requires -(|kernel| / 2) <= k <= |kernel| / 2
    ensures var n, py := k + |kernel| / 2, ClampIndex(i + k, img.height);
      VSum(img, kernel, i, j, c, n + 1) == VSum(img, kernel, i, j, c, n) + Sample(img, py, j, c) as real * kernel[n]
  {
  }

  /**
   * One step of the horizontal tap loop: the three running sums extended by
   * tap `k` (counted from the centre), read at the clamped column `px`.
   */
  method HorizontalTap(img: Image, kernel: seq<real>, i: nat, j: nat, k: int, sumB: real, sumG: real, sumR: real)
    returns (nextB: real, nextG: real, nextR: real)
    requires Covers(img) && OddKernel(kernel) && i < img.height && j < img.width
    requires -(|kernel| / 2) <= k <= |kernel| / 2
    requires sumB == HSum(img, kernel, i, j, 0, k + |kernel| / 2)
    requires sumG == HSum(img, kernel, i, j, 1, k + |kernel| / 2)
    requires sumR == HSum(img, kernel, i, j, 2, k + |kernel| / 2)
    ensures nextB == HSum(img, kernel, i, j, 0, k + 1 + |kernel| / 2)
    ensures nextG == HSum(img, kernel, i, j, 1, k + 1 + |kernel| / 2)
    ensures nextR == HSum(img, kernel, i, j, 2, k + 1 + |kernel| / 2)
  {
    var width: nat := img.width;
    var kernelMid := |kernel| / 2;
    var px := ClampIndex(j + k, width);
    HSumNext(img, kernel, i, j, 0, k);
    HSumNext(img, kernel, i, j, 1, k);
    HSumNext(img, kernel, i, j, 2, k);
    OffsetInRange(width, img.height, i, px, 2);
    var idx := 3 * (i * width + px);
    assert Sample(img, i, px, 0) == img.pixels[idx];
    assert Sample(img, i, px, 1) == img.pixels[idx + 1];
    assert Sample(img, i, px, 2) == img.pixels[idx + 2];
    nextB := sumB + img.pixels[idx] as real * kernel[k + kernelMid];
    nextG := sumG + img.pixels[idx + 1] as real * kernel[k + kernelMid];
    nextR := sumR + img.pixels[idx + 2] as real * kernel[k + kernelMid];
  }

  /** The three channel sums of pixel (`i`, `j`) over every tap of a horizontal pass. */
  method HorizontalSums(img: Image, kernel: seq<real>, i: nat, j: nat) returns (sumB: real, sumG: real, sumR: real)
    requires Covers(img) && OddKernel(kernel) && i < img.height && j < img.width
    ensures sumB == HSum(img, kernel, i, j, 0, |kernel|)
    ensures sumG == HSum(img, kernel, i, j, 1, |kernel|)
    ensures sumR == HSum(img, kernel, i, j, 2, |kernel|)
  {
    var kernelMid := |kernel| / 2;
    sumB, sumG, sumR := 0.0, 0.0, 0.0;
    for k := -kernelMid to kernelMid + 1
      invariant sumB == HSum(img, kernel, i, j, 0, k + kernelMid)
      invariant sumG == HSum(img, kernel, i, j, 1, k + kernelMid)
      invariant sumR == HSum(img, kernel, i, j, 2, k + kernelMid)
    {
      sumB, sumG, sumR := HorizontalTap(img, kernel, i, j, k, sumB, sumG, sumR);
    }
  }

  /**
   * The body of `horizontalConvolution`'s pixel loop: the channel sums of
   * pixel (`i`, `j`), clamped, stored at `3 * (i * width + j)`.
   */
  method StoreHorizontal(outputPixels: array<byte>, img: Image, kernel: seq<real>, i: nat, j: nat)
    requires Covers(img) && OddKernel(kernel) && i < img.height && j < img.width
    requires outputPixels.Length == 3 * (img.width * img.height)
    requires FilledTo(outputPixels[..], HorizontalPixel(img, kernel), img.width, i, j)
    modifies outputPixels
    ensures FilledTo(outputPixels[..], HorizontalPixel(img, kernel), img.width, i, j + 1)
    ensures outputPixels[3 * (RowStart(img.width, i) + j) + 3..] == old(outputPixels[3 * (RowStart(img.width, i) + j) + 3..])
  {
    var sumB, sumG, sumR := HorizontalSums(img, kernel, i, j);
    PixelSlot(img.width, img.height, i, j);
    var pixelIdx := i * img.width + j;
    FillNext(outputPixels[..], HorizontalPixel(img, kernel), img.width, i, j);
    StorePixel(outputPixels, pixelIdx, ToByte(sumB), ToByte(sumG), ToByte(sumR));
  }


  /**
   * `horizontalConvolution`: for every pixel, the three channel sums over
   * the kernel's taps, each clamped into a byte, stored at `3 * (i * width + j)`.
   */
  method HorizontalConvolution(img: Image, kernel: seq<real>) returns (out: Image)
    requires Covers(img) && OddKernel(kernel)
    ensures out == HorizontalImage(img, kernel)
  {
    var height: nat := img.height;
    var width: nat := img.width;
    var outputPixels := new byte[3 * (width * height)](_ => 0);
    for i := 0 to height
      invariant FilledTo(outputPixels[..], HorizontalPixel(img, kernel), width, i, 0)
    {
      for j := 0 to width
        invariant FilledTo(outputPixels[..], HorizontalPixel(img, kernel), width, i, j)
      {
        StoreHorizontal(outputPixels, img, kernel, i, j);
      }
      NextRow(outputPixels[..], HorizontalPixel(img, kernel), width, i);
    }
    FilledAll(outputPixels[..], HorizontalPixel(img, kernel), width, height);
    out := Image(img.width, img.height, outputPixels[..]);
  }

  /**
   * One step of the vertical tap loop: the three running sums extended by
   * tap `k` (counted from the centre), read at the clamped row `py`.
   */
  method VerticalTap(img: Image, kernel: seq<real>, i: nat, j: nat, k: int, sumB: real, sumG: real, sumR: real)
    returns (nextB: real, nextG: real, nextR: real)
    requires Covers(img) && OddKernel(kernel) && i < img.height && j < img.width
    requires -(|kernel| / 2) <= k <= |kernel| / 2
    requires sumB == VSum(img, kernel, i, j, 0, k + |kernel| / 2)
    requires sumG == VSum(img, kernel, i, j, 1, k + |kernel| / 2)
    requires sumR == VSum(img, kernel, i, j, 2, k + |kernel| / 2)
    ensures nextB == VSum(img, kernel, i, j, 0, k + 1 + |kernel| / 2)
    ensures nextG == VSum(img, kernel, i, j, 1, k + 1 + |kernel| / 2)
    ensures nextR == VSum(img, kernel, i, j, 2, k + 1 + |kernel| / 2)
  {
    var width: nat := img.width;
    var kernelMid := |kernel| / 2;
    var py := ClampIndex(i + k, img.height);
    VSumNext(img, kernel, i, j, 0, k);
    VSumNext(img, kernel, i, j, 1, k);
    VSumNext(img, kernel, i, j, 2, k);
    OffsetInRange(width, img.height, py, j, 2);
    var idx := 3 * (py * width + j);
    assert Sample(img, py, j, 0) == img.pixels[idx];
    assert Sample(img, py, j, 1) == img.pixels[idx + 1];
    assert Sample(img, py, j, 2) == img.pixels[idx + 2];
    nextB := sumB + img.pixels[idx] as real * kernel[k + kernelMid];
    nextG := sumG + img.pixels[idx + 1] as real * kernel[k + kernelMid];
    nextR := sumR + img.pixels[idx + 2] as real * kernel[k + kernelMid];
  }

  /** The three channel sums of pixel (`i`, `j`) over every tap of a vertical pass. */
  method VerticalSums(img: Image, kernel: seq<real>, i: nat, j: nat) returns (sumB: real, sumG: real, sumR: real)
    requires Covers(img) && OddKernel(kernel) && i < img.height && j < img.width
    ensures sumB == VSum(img, kernel, i, j, 0, |kernel|)
    ensures sumG == VSum(img, kernel, i, j, 1, |kernel|)
    ensures sumR == VSum(img, kernel, i, j, 2, |kernel|)
  {
    var kernelMid := |kernel| / 2;
    sumB, sumG, sumR := 0.0, 0.0, 0.0;
    for k := -kernelMid to kernelMid + 1
      invariant sumB == VSum(img, kernel, i, j, 0, k + kernelMid)
      invariant sumG == VSum(img, kernel, i, j, 1, k + kernelMid)
      invariant sumR == VSum(img, kernel, i, j, 2, k + kernelMid)
    {
      sumB, sumG, sumR := VerticalTap(img, kernel, i, j, k, sumB, sumG, sumR);
    }
  }

  /** The body of `verticalConvolution`'s pixel loop. */
  method StoreVertical(outputPixels: array<byte>, img: Image, kernel: seq<real>, i: nat, j: nat)
    requires Covers(img) && OddKernel(kernel) && i < img.height && j < img.width
    requires outputPixels.Length == 3 * (img.width * img.height)
    requires FilledTo(outputPixels[..], VerticalPixel(img, kernel), img.width, i, j)
    modifies outputPixels
    ensures FilledTo(outputPixels[..], VerticalPixel(img, kernel), img.width, i, j + 1)
    ensures outputPixels[3 * (RowStart(img.width, i) + j) + 3..] == old(outputPixels[3 * (RowStart(img.width, i) + j) + 3..])
  {
    var sumB, sumG, sumR := VerticalSums(img, kernel, i, j);
    PixelSlot(img.width, img.height, i, j);
    var pixelIdx := i * img.width + j;
    FillNext(outputPixels[..], VerticalPixel(img, kernel), img.width, i, j);
    StorePixel(outputPixels, pixelIdx, ToByte(sumB), ToByte(sumG), ToByte(sumR));
  }


  /** `verticalConvolution`: the column-wise counterpart of `HorizontalConvolution`. */
  method VerticalConvolution(img: Image, kernel: seq<real>) returns (out: Image)
    requires Covers(img) && OddKernel(kernel)
    ensures out == VerticalImage(img, kernel)
  {
    var height: nat := img.height;
    var width: nat := img.width;
    var outputPixels := new byte[3 * (width * height)](_ => 0);
    for i := 0 to height
      invariant FilledTo(outputPixels[..], VerticalPixel(img, kernel), width, i, 0)
    {
      for j := 0 to width
        invariant FilledTo(outputPixels[..], VerticalPixel(img, kernel), width, i, j)
      {
        StoreVertical(outputPixels, img, kernel, i, j);
      }
      NextRow(outputPixels[..], VerticalPixel(img, kernel), width, i);
    }
    FilledAll(outputPixels[..], VerticalPixel(img, kernel), width, height);
    out := Image(img.width, img.height, outputPixels[..]);
  }

  // ---- properties of the passes ----

  /** Channel `c` of output pixel (`i`, `j`) of the horizontal pass is its clamped channel sum. */
  lemma HorizontalImageAt(img: Image, kernel: seq<real>, i: nat, j: nat, c: nat)
    requires Covers(img) && i < img.height && j < img.width && c < 3
    ensures Offset(img.width, i, j, c) < |HorizontalImage(img, kernel).pixels|
    ensures HorizontalImage(img, kernel).pixels[Offset(img.width, i, j, c)]
      == ToByte(HSum(img, kernel, i, j, c, |kernel|))
  {
    RasterAt(HorizontalPixel(img, kernel), img.width, img.height, i, j, c);
  }


  lemma VerticalImageAt(img: Image, kernel: seq<real>, i: nat, j: nat, c: nat)
    requires Covers(img) && i < img.height && j < img.width && c < 3
    ensures Offset(img.width, i, j, c) < |VerticalImage(img, kernel).pixels|
    ensures VerticalImage(img, kernel).pixels[Offset(img.width, i, j, c)]
      == ToByte(VSum(img, kernel, i, j, c, |kernel|))
  {
    RasterAt(VerticalPixel(img, kernel), img.width, img.height, i, j, c);
  }


  /**
   * The horizontal sum of channel `c` at (`i`, `j`) reads channel `c` of row
   * `i` only: two images of the same width that agree there give the same sum.
   */
  lemma {:induction false} HSumRowLocal(a: Image, b: Image, kernel: seq<real>, i: nat, j: nat, c: nat, n: nat)
    requires Covers(a) && Covers(b) && a.width == b.width
    requires i < a.height && i < b.height && j < a.width && c < 3 && n <= |kernel|
    requires forall q :: 0 <= q < a.width ==> Sample(a, i, q, c) == Sample(b, i, q, c)
    ensures HSum(a, kernel, i, j, c, n) == HSum(b, kernel, i, j, c, n)
    decreases n
  {
    if n > 0 {
      HSumRowLocal(a, b, kernel, i, j, c, n - 1);
      var px := ClampIndex(j + (n - 1) - |kernel| / 2, a.width);
      assert Sample(a, i, px, c) == Sample(b, i, px, c);
    }
  }

  /** The vertical sum of channel `c` at (`i`, `j`) reads channel `c` of column `j` only. */
  lemma {:induction false} VSumColumnLocal(a: Image, b: Image, kernel: seq<real>, i: nat, j: nat, c: nat, n: nat)
    requires Covers(a) && Covers(b) && a.width == b.width && a.height == b.height
    requires i < a.height && j < a.width && c < 3 && n <= |kernel|
    requires forall q :: 0 <= q < a.height ==> Sample(a, q, j, c) == Sample(b, q, j, c)
    ensures VSum(a, kernel, i, j, c, n) == VSum(b, kernel, i, j, c, n)
    decreases n
  {
    if n > 0 {
      VSumColumnLocal(a, b, kernel, i, j, c, n - 1);
      var py := ClampIndex(i + (n - 1) - |kernel| / 2, a.height);
      assert Sample(a, py, j, c) == Sample(b, py, j, c);
    }
  }

  /** With the one-tap kernel `[1.0]` a pass reproduces each sample. */
  lemma HSumUnitKernel(img: Image, i: nat, j: nat, c: nat)
    requires Covers(img) && i < img.height && j < img.width && c < 3
    ensures ToByte(HSum(img, [1.0], i, j, c, 1)) == Sample(img, i, j, c)
  {
    ToByteOfByte(Sample(img, i, j, c));
  }

  lemma VSumUnitKernel(img: Image, i: nat, j: nat, c: nat)
    requires Covers(img) && i < img.height && j < img.width && c < 3
    ensures ToByte(VSum(img, [1.0], i, j, c, 1)) == Sample(img, i, j, c)
  {
    ToByteOfByte(Sample(img, i, j, c));
  }

  /** Both passes with the kernel `[1.0]` leave an image in the unpadded layout unchanged. */
  lemma UnitKernelIdentity(img: Image)
    requires WellFormed(img)
    ensures HorizontalImage(img, [1.0]) == img
    ensures VerticalImage(img, [1.0]) == img
  {
    forall i: nat, j: nat, c: nat | i < img.height && j < img.width && c < 3
      ensures HorizontalPixel(img, [1.0])(i, j, c) == Sample(img, i, j, c)
      ensures VerticalPixel(img, [1.0])(i, j, c) == Sample(img, i, j, c)
    {
      HSumUnitKernel(img, i, j, c);
      VSumUnitKernel(img, i, j, c);
    }
    RasterOfImage(HorizontalPixel(img, [1.0]), img);
    RasterOfImage(VerticalPixel(img, [1.0]), img);
  }


  /** Channel `c` of horizontal output pixel (`i`, `j`) depends only on channel `c` of input row `i`. */
  lemma HorizontalRowLocal(a: Image, b: Image, kernel: seq<real>, i: nat, j: nat, c: nat)
    requires Covers(a) && Covers(b) && a.width == b.width
    requires i < a.height && i < b.height && j < a.width && c < 3
    requires forall q :: 0 <= q < a.width ==> Sample(a, i, q, c) == Sample(b, i, q, c)
    ensures Offset(a.width, i, j, c) < |HorizontalImage(a, kernel).pixels|
    ensures Offset(a.width, i, j, c) < |HorizontalImage(b, kernel).pixels|
    ensures HorizontalImage(a, kernel).pixels[Offset(a.width, i, j, c)]
      == HorizontalImage(b, kernel).pixels[Offset(a.width, i, j, c)]
  {
    HorizontalImageAt(a, kernel, i, j, c);
    HorizontalImageAt(b, kernel, i, j, c);
    HSumRowLocal(a, b, kernel, i, j, c, |kernel|);
  }

  /** Channel `c` of vertical output pixel (`i`, `j`) depends only on channel `c` of input column `j`. */
  lemma VerticalColumnLocal(a: Image, b: Image, kernel: seq<real>, i: nat, j: nat, c: nat)
    requires Covers(a) && Covers(b) && a.width == b.width && a.height == b.height
    requires i < a.height && j < a.width && c < 3
    requires forall q :: 0 <= q < a.height ==> Sample(a, q, j, c) == Sample(b, q, j, c)
    ensures Offset(a.width, i, j, c) < |VerticalImage(a, kernel).pixels|
    ensures VerticalImage(a, kernel).pixels[Offset(a.width, i, j, c)]
      == VerticalImage(b, kernel).pixels[Offset(a.width, i, j, c)]
  {
    VerticalImageAt(a, kernel, i, j, c);
    VerticalImageAt(b, kernel, i, j, c);
    VSumColumnLocal(a, b, kernel, i, j, c, |kernel|);
  }

  // ---- gaussianSmooth ----

  /** `n` vertical passes with one kernel. */
  function VerticalPasses(img: Image, kernel: seq<real>, n: nat): (out: Image)
    requires Covers(img)
    ensures Covers(out) && out.width == img.width && out.height == img.height
    ensures n > 0 ==> WellFormed(out)
  {
    if n == 0 then img else VerticalImage(VerticalPasses(img, kernel, n - 1), kernel)
  }

  /** `n` horizontal passes with one kernel. */
  function HorizontalPasses(img: Image, kernel: seq<real>, n: nat): (out: Image)
    requires Covers(img)
    ensures Covers(out) && out.width == img.width && out.height == img.height
    ensures n > 0 ==> WellFormed(out)
  {
    if n == 0 then img else HorizontalImage(HorizontalPasses(img, kernel, n - 1), kernel)
  }

  /** Three vertical passes, then three horizontal passes, all with `kernel`. */
  function Smoothed(img: Image, kernel: seq<real>): Image
    requires Covers(img)
  {
    HorizontalPasses(VerticalPasses(img, kernel, 3), kernel, 3)
  }

  /**
   * `gaussianSmooth`: one kernel of `kernelSize` entries, three vertical
   * passes, then three horizontal passes.  The result keeps the dimensions
   * and has the unpadded layout.
   */
  method GaussianSmooth(img: Image, kernelSize: nat, gauss: int -> real) returns (out: Image)
    requires Covers(img) && kernelSize % 2 == 1 && Positive(gauss)
    ensures out == Smoothed(img, KernelSpec(kernelSize, gauss))
    ensures out.width == img.width && out.height == img.height && WellFormed(out)
  {
    var kernel := GaussianKernel(kernelSize, gauss);
    var tempImage := img;
    for i := 0 to 3
      invariant tempImage == VerticalPasses(img, kernel, i)
    {
      tempImage := VerticalConvolution(tempImage, kernel);
    }
    for i := 0 to 3
      invariant tempImage == HorizontalPasses(VerticalPasses(img, kernel, 3), kernel, i)
    {
      tempImage := HorizontalConvolution(tempImage, kernel);
    }
    out := tempImage;
  }

  /** A one-entry Gaussian kernel is `[1.0]`, whatever the weight function. */
  lemma SingleEntryKernel(gauss: int -> real)
    requires Positive(gauss)
    ensures KernelSpec(1, gauss) == [1.0]
  {
    var raw := RawKernel(1, gauss);
    assert raw == [gauss(0)];
    assert Sum(raw) == gauss(0) by {
      assert raw[..0] == [];
    }
    var kernel := KernelSpec(1, gauss);
    assert |kernel| == 1 && kernel[0] == gauss(0) / gauss(0);
    assert gauss(0) > 0.0;
    assert gauss(0) / gauss(0) == 1.0;
  }

  lemma {:induction false} UnitVerticalPasses(img: Image, n: nat)
    requires WellFormed(img)
    ensures VerticalPasses(img, [1.0], n) == img
  {
    if n > 0 {
      UnitVerticalPasses(img, n - 1);
      UnitKernelIdentity(img);
      assert VerticalPasses(img, [1.0], n) == VerticalImage(VerticalPasses(img, [1.0], n - 1), [1.0]);
    }
  }

  lemma {:induction false} UnitHorizontalPasses(img: Image, n: nat)
    requires WellFormed(img)
    ensures HorizontalPasses(img, [1.0], n) == img
  {
    if n > 0 {
      UnitHorizontalPasses(img, n - 1);
      UnitKernelIdentity(img);
      assert HorizontalPasses(img, [1.0], n) == HorizontalImage(HorizontalPasses(img, [1.0], n - 1), [1.0]);
    }
  }

  /** Smoothing with `kernelSize` 1 leaves an image in the unpadded layout unchanged. */
  lemma SmoothWithSizeOne(img: Image, gauss: int -> real)
    requires WellFormed(img) && Positive(gauss)
    ensures Smoothed(img, KernelSpec(1, gauss)) == img
  {
    SingleEntryKernel(gauss);
    UnitVerticalPasses(img, 3);
    UnitHorizontalPasses(img, 3);
  }
}
