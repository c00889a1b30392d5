/**
 * The `Image` value of include/util/image.h: unsigned 32-bit width and
 * height and a flat byte buffer holding 3 bytes per pixel in B, G, R order,
 * row-major from the first stored row.  The class's constructors are
 * member-initialisers only, so the value is a datatype: `Image(w, h, [])` is
 * the dimensions-only constructor, `Image(w, h, p)` the one taking a buffer,
 * and the copy constructor is value copy.  Nothing ties the buffer length to
 * the dimensions; `WellFormed` names the layout the filters produce.
 */
module Images {
  import opened Math

  const U32: int := 0x1_0000_0000

  type byte = x: int | 0 <= x < 256
  type u32 = x: int | 0 <= x < 0x1_0000_0000

  datatype Image = Image(width: u32, height: u32, pixels: seq<byte>)

  /** The unpadded layout: exactly 3 bytes per pixel. */
  predicate WellFormed(img: Image) {
    |img.pixels| == 3 * (img.width * img.height)
  }

  /** Every byte of the unpadded layout can be read (the padded decoder output qualifies too). */
  predicate Covers(img: Image) {
    3 * (img.width * img.height) <= |img.pixels|
  }

  /** Position of channel `c` of pixel (`i`, `j`) in an unpadded buffer of width `w`. */
  function Offset(w: nat, i: nat, j: nat, c: nat): nat {
    3 * (i * w + j) + c
  }

  /** Row of the pixel holding buffer position `k`. */
  function RowOf(w: nat, k: nat): nat {
    if w == 0 then 0 else k / 3 / w
  }

  /** Column of the pixel holding buffer position `k`. */
  function ColOf(w: nat, k: nat): nat {
    if w == 0 then 0 else k / 3 % w
  }

  lemma OffsetInRange(w: nat, h: nat, i: nat, j: nat, c: nat)
    requires i < h && j < w && c < 3
    ensures Offset(w, i, j, c) < 3 * (w * h)
  {
    MulStrict(i, h, w);
    assert i * w + j < h * w;
  }

  /** An offset names exactly one (row, column, channel). */
  lemma OffsetDecode(w: nat, i: nat, j: nat, c: nat)
    requires j < w && c < 3
    ensures RowOf(w, Offset(w, i, j, c)) == i
    ensures ColOf(w, Offset(w, i, j, c)) == j
    ensures Offset(w, i, j, c) % 3 == c
  {
    var p := i * w + j;
    assert Offset(w, i, j, c) / 3 == p;
    var q, r := p / w, p % w;
    assert p == q * w + r;
    if q < i {
      MulStrict(q, i, w);
      assert false;
    } else if i < q {
      MulStrict(i, q, w);
      assert false;
    }
  }

  /** Every position of an unpadded buffer is the offset of its decoded coordinates. */
  lemma OffsetEncode(w: nat, h: nat, k: nat)
    requires k < 3 * (w * h)
    ensures RowOf(w, k) < h && ColOf(w, k) < w
    ensures k == Offset(w, RowOf(w, k), ColOf(w, k), k % 3)
  {
    assert w != 0;
    var p := k / 3;
    assert p < w * h;
    assert p == (p / w) * w + p % w;
    if p / w >= h {
      MulMonotone(h, p / w, w);
      assert false;
    }
  }

  /** Index of the first pixel of row `i`: `i * w`, counted up one row at a time. */
  function RowStart(w: nat, i: nat): nat {
    if i == 0 then 0 else RowStart(w, i - 1) + w
  }

  lemma {:induction false} RowStartIsProduct(w: nat, i: nat)
    ensures RowStart(w, i) == i * w
  {
    if i > 0 {
      RowStartIsProduct(w, i - 1);
      assert i * w == (i - 1) * w + w;
    }
  }

  /** Channel `c` of pixel (`i`, `j`), read from the unpadded layout. */
  function Sample(img: Image, i: nat, j: nat, c: nat): byte
    requires Covers(img) && i < img.height && j < img.width && c < 3
  {
    OffsetInRange(img.width, img.height, i, j, c);
    img.pixels[Offset(img.width, i, j, c)]
  }

  /** Each channel holds one value over the whole image (a solid colour). */
  predicate IsFlat(img: Image) {
    Covers(img) && forall k :: 0 <= k < 3 * (img.width * img.height) ==> img.pixels[k] == img.pixels[k % 3]
  }

  lemma FlatSample(img: Image, i: nat, j: nat, c: nat)
    requires IsFlat(img) && i < img.height && j < img.width && c < 3
    ensures Sample(img, i, j, c) == img.pixels[c]
  {
    OffsetInRange(img.width, img.height, i, j, c);
    OffsetDecode(img.width, i, j, c);
  }

  /** The three channels of every pixel are equal. */
  predicate IsGray(img: Image) {
    |img.pixels| % 3 == 0 &&
    forall p :: 0 <= p < |img.pixels| / 3 ==>
      img.pixels[3 * p] == img.pixels[3 * p + 1] == img.pixels[3 * p + 2]
  }

  // ---- buffers filled pixel by pixel, in row-major order ----

  /** The bytes of pixels 0 .. `n` - 1 of row `i`, channel `c` of pixel (`i`, `q`) being `g(i, q, c)`. */
  function RowBytes(g: (nat, nat, nat) -> byte, i: nat, n: nat): (s: seq<byte>)
    ensures |s| == 3 * n
  {
    if n == 0 then [] else RowBytes(g, i, n - 1) + [g(i, n - 1, 0), g(i, n - 1, 1), g(i, n - 1, 2)]
  }

  /**
   * The unpadded buffer of the first `rows` rows of width `w` whose channel
   * `c` of pixel (`i`, `j`) is `g(i, j, c)`: the buffer a per-pixel filter produces.
   */
  function Raster(g: (nat, nat, nat) -> byte, w: nat, rows: nat): (s: seq<byte>)
    ensures |s| == 3 * RowStart(w, rows)
  {
    if rows == 0 then [] else Raster(g, w, rows - 1) + RowBytes(g, rows - 1, w)
  }

  lemma RasterSize(g: (nat, nat, nat) -> byte, w: nat, h: nat)
    ensures |Raster(g, w, h)| == 3 * (w * h)
  {
    RowStartIsProduct(w, h);
  }

  lemma {:induction false} RowBytesAt(g: (nat, nat, nat) -> byte, i: nat, n: nat, j: nat, c: nat)
    requires j < n && c < 3
    ensures RowBytes(g, i, n)[3 * j + c] == g(i, j, c)
  {
    if j < n - 1 {
      RowBytesAt(g, i, n - 1, j, c);
    }
  }

  lemma {:induction false} RowStartMonotone(w: nat, a: nat, b: nat)
    requires a <= b
    ensures RowStart(w, a) <= RowStart(w, b)
    decreases b
  {
    if a < b {
      RowStartMonotone(w, a, b - 1);
    }
  }

  /** Channel `c` of pixel (`i`, `j`) of a raster, located by row starts. */
  lemma {:induction false} RasterAtRow(g: (nat, nat, nat) -> byte, w: nat, h: nat, i: nat, j: nat, c: nat)
    requires i < h && j < w && c < 3
    ensures 3 * (RowStart(w, i) + j) + c < |Raster(g, w, h)|
    ensures Raster(g, w, h)[3 * (RowStart(w, i) + j) + c] == g(i, j, c)
    decreases h
  {
    if i < h - 1 {
      RowStartMonotone(w, i + 1, h - 1);
      assert RowStart(w, i + 1) == RowStart(w, i) + w;
      RasterAtRow(g, w, h - 1, i, j, c);
      RasterEarlierRows(g, w, h, 3 * (RowStart(w, i) + j) + c);
    } else {
      assert h == i + 1;
      RasterAtLastRow(g, w, i, j, c);
    }
  }

  /** `(a + b)[|a| + k]` is `b[k]`. */
  lemma ConcatAt<T>(a: seq<T>, b: seq<T>, k: nat)
    requires k < |b|
    ensures (a + b)[|a| + k] == b[k]
  {
  }

  lemma RasterAtLastRow(g: (nat, nat, nat) -> byte, w: nat, i: nat, j: nat, c: nat)
    requires j < w && c < 3
    ensures 3 * (RowStart(w, i) + j) + c < |Raster(g, w, i + 1)|
    ensures Raster(g, w, i + 1)[3 * (RowStart(w, i) + j) + c] == g(i, j, c)
  {
    var prefix, row := Raster(g, w, i), RowBytes(g, i, w);
    assert Raster(g, w, i + 1) == prefix + row;
    RowBytesAt(g, i, w, j, c);
    ConcatAt(prefix, row, 3 * j + c);
    assert |prefix| + (3 * j + c) == 3 * (RowStart(w, i) + j) + c;
  }

  lemma RasterEarlierRows(g: (nat, nat, nat) -> byte, w: nat, h: nat, k: nat)
    requires h > 0 && k < 3 * RowStart(w, h - 1)
    ensures k < |Raster(g, w, h)| && Raster(g, w, h)[k] == Raster(g, w, h - 1)[k]
  {
  }

  /** Channel `c` of pixel (`i`, `j`) of a raster sits at its unpadded offset. */
  lemma RasterAt(g: (nat, nat, nat) -> byte, w: nat, h: nat, i: nat, j: nat, c: nat)
    requires i < h && j < w && c < 3
    ensures Offset(w, i, j, c) < |Raster(g, w, h)|
    ensures Raster(g, w, h)[Offset(w, i, j, c)] == g(i, j, c)
  {
    RowStartIsProduct(w, i);
    RasterAtRow(g, w, h, i, j, c);
  }

  /** A raster that agrees with every sample of an image in the unpadded layout is its buffer. */
  lemma RasterOfImage(g: (nat, nat, nat) -> byte, img: Image)
    requires WellFormed(img)
    requires forall i: nat, j: nat, c: nat :: i < img.height && j < img.width && c < 3 ==> g(i, j, c) == Sample(img, i, j, c)
    ensures Raster(g, img.width, img.height) == img.pixels
  {
    var w: nat, h: nat := img.width, img.height;
    RasterSize(g, w, h);
    forall k | 0 <= k < 3 * (w * h)
      ensures Raster(g, w, h)[k] == img.pixels[k]
    {
      OffsetEncode(w, h, k);
      RasterAt(g, w, h, RowOf(w, k), ColOf(w, k), k % 3);
    }
  }

  /** Rows 0 .. `i` - 1 of the raster of `g`, followed by the first `j` pixels of row `i`. */
  function Prefix(g: (nat, nat, nat) -> byte, w: nat, i: nat, j: nat): (s: seq<byte>)
    ensures |s| == 3 * (RowStart(w, i) + j)
  {
    Raster(g, w, i) + RowBytes(g, i, j)
  }

  lemma PrefixNext(g: (nat, nat, nat) -> byte, w: nat, i: nat, j: nat)
    ensures Prefix(g, w, i, j + 1) == Prefix(g, w, i, j) + [g(i, j, 0), g(i, j, 1), g(i, j, 2)]
  {
    var a, b, t := Raster(g, w, i), RowBytes(g, i, j), [g(i, j, 0), g(i, j, 1), g(i, j, 2)];
    assert RowBytes(g, i, j + 1) == b + t;
    assert a + (b + t) == (a + b) + t;
  }

  /** `s` holds rows 0 .. `i` - 1 and the first `j` pixels of row `i` of the raster of `g`. */
  ghost predicate FilledTo(s: seq<byte>, g: (nat, nat, nat) -> byte, w: nat, i: nat, j: nat) {
    3 * (RowStart(w, i) + j) <= |s| && s[..3 * (RowStart(w, i) + j)] == Prefix(g, w, i, j)
  }

  lemma {:induction false} RowBytesAgree(g1: (nat, nat, nat) -> byte, g2: (nat, nat, nat) -> byte, i: nat, n: nat)
    requires forall q: nat, c: nat :: q < n && c < 3 ==> g1(i, q, c) == g2(i, q, c)
    ensures RowBytes(g1, i, n) == RowBytes(g2, i, n)
    decreases n
  {
    if n > 0 {
      RowBytesAgree(g1, g2, i, n - 1);
      assert g1(i, n - 1, 0) == g2(i, n - 1, 0);
      assert g1(i, n - 1, 1) == g2(i, n - 1, 1);
      assert g1(i, n - 1, 2) == g2(i, n - 1, 2);
    }
  }

  /** Two pixel functions that agree on every channel of a `w` x `h` image give the same raster. */
  lemma {:induction false} RasterAgree(g1: (nat, nat, nat) -> byte, g2: (nat, nat, nat) -> byte, w: nat, h: nat)
    requires forall i: nat, j: nat, c: nat :: i < h && j < w && c < 3 ==> g1(i, j, c) == g2(i, j, c)
    ensures Raster(g1, w, h) == Raster(g2, w, h)
    decreases h
  {
    if h > 0 {
      RasterAgree(g1, g2, w, h - 1);
      RowBytesAgree(g1, g2, h - 1, w);
    }
  }

  /** Pixel (`i`, `j`) has index `i * w + j`, its row start plus `j`, and its three bytes fit the buffer. */
  lemma PixelSlot(w: nat, h: nat, i: nat, j: nat)
    requires i < h && j < w
    ensures i * w + j == RowStart(w, i) + j
    ensures 3 * (RowStart(w, i) + j) + 3 <= 3 * (w * h)
  {
    RowStartIsProduct(w, i);
    RowStartIsProduct(w, h);
    RowStartMonotone(w, i + 1, h);
  }

  /** Everything from position `start` on is still 0. */
  ghost predicate ZeroFrom(s: seq<byte>, start: nat) {
    forall k :: start <= k < |s| ==> s[k] == 0
  }

  /** Storing pixel (`i`, `j`) at its place extends the filled prefix by one pixel. */
  lemma FillNext(s: seq<byte>, g: (nat, nat, nat) -> byte, w: nat, i: nat, j: nat)
    requires FilledTo(s, g, w, i, j) && 3 * (RowStart(w, i) + j) + 3 <= |s|
    ensures var p := RowStart(w, i) + j;
      FilledTo(s[3 * p := g(i, j, 0)][3 * p + 1 := g(i, j, 1)][3 * p + 2 := g(i, j, 2)], g, w, i, j + 1)
  {
    var p := RowStart(w, i) + j;
    var x, y, z := g(i, j, 0), g(i, j, 1), g(i, j, 2);
    UpdateExtends(s, 3 * p, x, y, z);
    PrefixNext(g, w, i, j);
    assert 3 * (RowStart(w, i) + (j + 1)) == 3 * p + 3;
  }

  /** Writing three bytes right after the first `n` extends the first `n` by those three. */
  lemma UpdateExtends(s: seq<byte>, n: nat, x: byte, y: byte, z: byte)
    requires n + 3 <= |s|
    ensures s[n := x][n + 1 := y][n + 2 := z][..n + 3] == s[..n] + [x, y, z]
  {
  }

  /** Storing pixel (`i`, `j`) leaves the zero tail after it zero. */
  lemma FillNextZero(s: seq<byte>, p: nat, b: byte, g: byte, r: byte)
    requires ZeroFrom(s, 3 * p) && 3 * p + 3 <= |s|
    ensures ZeroFrom(s[3 * p := b][3 * p + 1 := g][3 * p + 2 := r], 3 * p + 3)
  {
  }

  /** A pixel whose channels are all 0 by `g` is already in place in a zero tail. */
  lemma SkipNext(s: seq<byte>, g: (nat, nat, nat) -> byte, w: nat, i: nat, j: nat)
    requires FilledTo(s, g, w, i, j) && ZeroFrom(s, 3 * (RowStart(w, i) + j))
    requires 3 * (RowStart(w, i) + j) + 3 <= |s|
    requires g(i, j, 0) == 0 && g(i, j, 1) == 0 && g(i, j, 2) == 0
    ensures FilledTo(s, g, w, i, j + 1) && ZeroFrom(s, 3 * (RowStart(w, i) + (j + 1)))
  {
    var p := RowStart(w, i) + j;
    PrefixNext(g, w, i, j);
    assert s[3 * p] == 0 && s[3 * p + 1] == 0 && s[3 * p + 2] == 0;
    assert s[..3 * p + 3] == s[..3 * p] + [s[3 * p], s[3 * p + 1], s[3 * p + 2]];
  }

  /** A whole row of all-zero pixels is already in place in a zero tail. */
  lemma {:induction false} SkipRow(s: seq<byte>, g: (nat, nat, nat) -> byte, w: nat, i: nat, j: nat)
    requires j <= w && FilledTo(s, g, w, i, j) && ZeroFrom(s, 3 * (RowStart(w, i) + j))
    requires 3 * RowStart(w, i + 1) <= |s|
    requires forall q, c :: j <= q < w && c < 3 ==> g(i, q, c) == 0
    ensures FilledTo(s, g, w, i + 1, 0) && ZeroFrom(s, 3 * RowStart(w, i + 1))
    decreases w - j
  {
    if j < w {
      SkipNext(s, g, w, i, j);
      SkipRow(s, g, w, i, j + 1);
    } else {
      NextRow(s, g, w, i);
      assert RowStart(w, i) + j == RowStart(w, i + 1);
    }
  }

  /** A completed row starts the next one. */
  lemma NextRow(s: seq<byte>, g: (nat, nat, nat) -> byte, w: nat, i: nat)
    requires FilledTo(s, g, w, i, w)
    ensures FilledTo(s, g, w, i + 1, 0)
  {
    assert Prefix(g, w, i + 1, 0) == Raster(g, w, i + 1) + [];
  }

  /** A buffer of exactly `h` filled rows is the raster. */
  lemma FilledAll(s: seq<byte>, g: (nat, nat, nat) -> byte, w: nat, h: nat)
    requires |s| == 3 * (w * h) && FilledTo(s, g, w, h, 0)
    ensures s == Raster(g, w, h)
  {
    RowStartIsProduct(w, h);
    assert s == s[..3 * RowStart(w, h)];
    assert Prefix(g, w, h, 0) == Raster(g, w, h) + [];
  }

  /** Row `i` of an image of `h` rows ends inside the buffer. */
  lemma RowFits(w: nat, h: nat, i: nat)
    requires i < h
    ensures 3 * RowStart(w, i + 1) <= 3 * (w * h)
  {
    RowStartIsProduct(w, h);
    RowStartMonotone(w, i + 1, h);
  }

  /** `s` with channels 0 .. `n` - 1 of pixel `p` replaced by channels 0 .. `n` - 1 of `g` at (`i`, `j`). */
  function WithChannels(s: seq<byte>, p: nat, g: (nat, nat, nat) -> byte, i: nat, j: nat, n: nat): (r: seq<byte>)
    requires 3 * p + 3 <= |s| && n <= 3
    ensures |r| == |s|
  {
    if n == 0 then s else WithChannels(s, p, g, i, j, n - 1)[3 * p + (n - 1) := g(i, j, n - 1)]
  }

  lemma AllChannels(s: seq<byte>, p: nat, g: (nat, nat, nat) -> byte, i: nat, j: nat)
    requires 3 * p + 3 <= |s|
    ensures WithChannels(s, p, g, i, j, 3) == s[3 * p := g(i, j, 0)][3 * p + 1 := g(i, j, 1)][3 * p + 2 := g(i, j, 2)]
  {
    assert WithChannels(s, p, g, i, j, 1) == s[3 * p := g(i, j, 0)];
    assert WithChannels(s, p, g, i, j, 2) == s[3 * p := g(i, j, 0)][3 * p + 1 := g(i, j, 1)];
  }

  /** Stores the three channels of pixel `p`: `out[3p] = b`, `out[3p+1] = g`, `out[3p+2] = r`. */
  method StorePixel(out: array<byte>, p: nat, b: byte, g: byte, r: byte)
    requires 3 * p + 3 <= out.Length
    modifies out
    ensures out[..] == old(out[..])[3 * p := b][3 * p + 1 := g][3 * p + 2 := r]
  {
    out[3 * p] := b;
    out[3 * p + 1] := g;
    out[3 * p + 2] := r;
  }
}
