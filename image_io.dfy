/**
 * The codec and constructors of src/util/image.cc.  Files are byte
 * sequences: reading a file is `Decode`, writing one is `WriteImageToFile`,
 * which returns the bytes the output stream receives.  The unsigned 32-bit
 * arithmetic of the row size, the buffer size, the file size and the
 * bits-per-pixel field is written out with explicit wrap-around.
 */
module ImageIO {
  import opened Math
  import opened Images
  import opened Bitmap

  /** Size of both headers: where this codec writes the pixel array. */
  const HeadersSize: nat := 54

  /**
   * `((width * 3 + 3) / 4) * 4` in unsigned 32-bit arithmetic.  Unless the
   * sum wraps, it is the least multiple of 4 that holds a row of 3-byte
   * pixels, so a row carries 0 to 3 bytes of padding.
   */
  function RowSize(width: u32): (r: nat)
    ensures r % 4 == 0 && r < U32
    ensures 3 * width + 3 < U32 ==> 3 * width <= r < 3 * width + 4
  {
    (3 * width + 3) % U32 / 4 * 4
  }

  /** `height * rowSize`, the decoder's buffer length, in unsigned 32-bit arithmetic. */
  function PaddedSize(width: u32, height: u32): nat {
    height * RowSize(width) % U32
  }

  datatype ReadResult = Read(image: Image) | Unreadable

  /** `n` bytes read from position `offset`; a read that reaches the end of the file leaves zeros. */
  function ReadFrom(file: seq<byte>, offset: nat, n: nat): seq<byte> {
    seq(n, k requires 0 <= k < n => if offset + k < |file| then file[offset + k] else 0)
  }

  /**
   * The file-path constructor on the file's bytes.  A file too short for the
   * two headers is reported as unreadable.  Width and height are the
   * header's signed fields taken as unsigned; the buffer holds
   * `height * rowSize` bytes, padding included, read from `imageOffset`.
   */
  function Decode(file: seq<byte>): (r: ReadResult)
    ensures r.Unreadable? <==> |file| < HeadersSize
  {
    if |file| < HeadersSize then Unreadable
    else
      var fileHeader := ParseFileHeader(file[..FileHeaderSize]);
      var infoHeader := ParseInfoHeader(file[FileHeaderSize..HeadersSize]);
      var height := Bits(infoHeader.bitmapHeight);
      var width := Bits(infoHeader.bitmapWidth);
      var rowSize := RowSize(width);
      Read(Image(width, height, ReadFrom(file, fileHeader.imageOffset, height * rowSize % U32)))
  }

  /**
   * What a decoded image holds: the width and height fields at offsets 18
   * and 22 taken as unsigned, `height * rowSize` bytes, and byte `k` taken
   * from position `imageOffset + k` of the file, or 0 past its end.
   */
  lemma DecodeLayout(file: seq<byte>)
    requires |file| >= HeadersSize
    ensures Decode(file).Read?
    ensures var img := Decode(file).image;
      var offset := U32At(file, 10);
      img.width == U32At(file, 18) && img.height == U32At(file, 22) &&
      |img.pixels| == PaddedSize(img.width, img.height) &&
      forall k :: 0 <= k < |img.pixels| ==>
        img.pixels[k] == if offset + k < |file| then file[offset + k] else 0
  {
    var infoBytes := file[FileHeaderSize..HeadersSize];
    assert U32At(infoBytes, 4) == U32At(file, 18);
    assert U32At(infoBytes, 8) == U32At(file, 22);
    assert U32At(file[..FileHeaderSize], 10) == U32At(file, 10);
  }

  /** `n` pixels of colour (b, g, r), stored B, G, R. */
  function SolidPixels(n: nat, r: byte, g: byte, b: byte): seq<byte> {
    seq(3 * n, k requires 0 <= k < 3 * n => [b, g, r][k % 3])
  }

  /**
   * The solid-colour constructor fills `N = height * width` pixels with one
   * colour; `N` and the buffer length `3 * N` are unsigned 32-bit values.
   */
  method SolidColor(width: u32, height: u32, r: byte, g: byte, b: byte) returns (img: Image)
    requires 3 * (width * height % U32) < U32
    ensures img == Image(width, height, SolidPixels(width * height % U32, r, g, b))
  {
    var n := width * height % U32;
    var pixels := new byte[3 * n](_ => 0);
    for i := 0 to n
      invariant forall p :: 0 <= p < i ==>
        pixels[3 * p] == b && pixels[3 * p + 1] == g && pixels[3 * p + 2] == r
    {
      pixels[3 * i] := b;
      pixels[3 * i + 1] := g;
      pixels[3 * i + 2] := r;
    }
    img := Image(width, height, pixels[..]);
    RepeatedPixel(img.pixels, n, r, g, b);
  }

  /** A buffer holding (b, g, r) at every pixel is `SolidPixels`. */
  lemma RepeatedPixel(pixels: seq<byte>, n: nat, r: byte, g: byte, b: byte)
    requires |pixels| == 3 * n
    requires forall p :: 0 <= p < n ==>
      pixels[3 * p] == b && pixels[3 * p + 1] == g && pixels[3 * p + 2] == r
    ensures pixels == SolidPixels(n, r, g, b)
  {
    forall k | 0 <= k < 3 * n
      ensures pixels[k] == SolidPixels(n, r, g, b)[k]
    {
      var p := k / 3;
      assert k == 3 * p + k % 3;
    }
  }

  /**
   * A solid-colour image holds (b, g, r) at `3p`, `3p+1`, `3p+2` for every
   * pixel `p`, each channel is constant, and the layout is the unpadded one
   * unless `width * height` wraps.
   */
  lemma SolidColorLayout(width: u32, height: u32, r: byte, g: byte, b: byte)
    ensures var n := width * height % U32;
      var img := Image(width, height, SolidPixels(n, r, g, b));
      |img.pixels| == 3 * n &&
      (width * height < U32 ==> WellFormed(img) && IsFlat(img)) &&
      forall p :: 0 <= p < n ==>
        img.pixels[3 * p] == b && img.pixels[3 * p + 1] == g && img.pixels[3 * p + 2] == r
  {
    var n := width * height % U32;
    var pixels := SolidPixels(n, r, g, b);
    forall p | 0 <= p < n
      ensures pixels[3 * p] == b && pixels[3 * p + 1] == g && pixels[3 * p + 2] == r
    {
      assert (3 * p) % 3 == 0 && (3 * p + 1) % 3 == 1 && (3 * p + 2) % 3 == 2;
    }
    forall k | 0 <= k < 3 * n
      ensures pixels[k] == pixels[k % 3]
    {
      assert (k % 3) % 3 == k % 3;
    }
    AreaNoWrap(width, height);
  }

  /** The file header `writeImageToFile` fills in for a buffer of `count` bytes. */
  function FileHeaderFor(count: nat): FileHeader {
    FileHeader('B' as int, 'M' as int, (HeadersSize + count) % U32, 0, 0, HeadersSize)
  }

  /** The info header `writeImageToFile` fills in; only the bits-per-pixel field differs between the two copies. */
  function InfoHeaderFor(width: u32, height: u32, bitsPerPixel: u16): InfoHeader {
    InfoHeader(InfoHeaderSize, FromBits(width), FromBits(height), 1, bitsPerPixel, 0, 0, 0, 0, 0, 0)
  }

  /** `8 * (pixels.size() / (width * height))`, the product in 32 bits, stored into 16 bits. */
  function BitsPerPixel(img: Image): u16
    requires img.width * img.height % U32 != 0
  {
    8 * (|img.pixels| / (img.width * img.height % U32)) % 0x1_0000
  }

  /** The buffer holds `height` rows of `rowSize` bytes, and no row offset wraps. */
  predicate RowsFit(img: Image) {
    img.height * RowSize(img.width) <= |img.pixels| && img.height * RowSize(img.width) <= U32
  }

  /** The bytes written: both headers, then `height` rows of `rowSize` bytes in buffer order. */
  function Encoding(img: Image, bitsPerPixel: u16): seq<byte>
    requires RowsFit(img)
  {
    FileHeaderBytes(FileHeaderFor(|img.pixels|))
      + InfoHeaderBytes(InfoHeaderFor(img.width, img.height, bitsPerPixel))
      + img.pixels[..img.height * RowSize(img.width)]
  }

  /** Writes both headers, then the rows one at a time (shared by both copies of the codec). */
  method WriteBitmap(img: Image, bitsPerPixel: u16) returns (file: seq<byte>)
    requires RowsFit(img)
    ensures file == Encoding(img, bitsPerPixel)
  {
    var fileHeader := FileHeaderFor(|img.pixels|);
    file := FileHeaderBytes(fileHeader);
    var infoHeader := InfoHeaderFor(img.width, img.height, bitsPerPixel);
    file := file + InfoHeaderBytes(infoHeader);
    var rowSize := RowSize(img.width);
    for i := 0 to img.height
      invariant i * rowSize <= img.height * rowSize
      invariant file == FileHeaderBytes(fileHeader) + InfoHeaderBytes(infoHeader) + img.pixels[..i * rowSize]
    {
      MulMonotone(i + 1, img.height, rowSize);
      assert (i + 1) * rowSize == i * rowSize + rowSize;
      assert img.pixels[..i * rowSize] + img.pixels[i * rowSize..i * rowSize + rowSize]
        == img.pixels[..(i + 1) * rowSize];
      file := file + img.pixels[i * rowSize..i * rowSize + rowSize];
    }
  }

  /** `writeImageToFile`: the division by `width * height` needs a non-empty image. */
  method WriteImageToFile(img: Image) returns (file: seq<byte>)
    requires RowsFit(img) && img.width * img.height % U32 != 0
    ensures file == Encoding(img, BitsPerPixel(img))
  {
    file := WriteBitmap(img, BitsPerPixel(img));
  }

  /** For the filters' unpadded layout, three bytes per pixel, the recorded depth is 24 bits. */
  lemma UnpaddedDepth(img: Image)
    requires 0 < img.width * img.height < U32 && |img.pixels| == 3 * (img.width * img.height)
    ensures img.width * img.height % U32 != 0 && BitsPerPixel(img) == 24
  {
    var n := img.width * img.height;
    DivBetween(|img.pixels|, n, 3);
  }

  /**
   * For the decoder's padded layout the recorded depth is the number of
   * buffer bytes per pixel: 24 bits once a row holds at least 4 pixels, but
   * 32 bits for widths 1 to 3, whose padded rows hold 4 bytes per pixel.
   */
  lemma PaddedDepth(img: Image)
    requires img.width > 0 && img.height > 0 && 3 * img.width + 3 < U32
    requires img.width * img.height < U32
    requires |img.pixels| == img.height * RowSize(img.width)
    ensures img.width * img.height % U32 != 0
    ensures BitsPerPixel(img) == if img.width <= 3 then 32 else 24
  {
    var n := img.width * img.height;
    MulMonotone(1, img.width, img.height);
    if img.width <= 3 {
      NarrowRows(img.width, img.height);
      DivBetween(|img.pixels|, n, 4);
    } else {
      WideRows(img.width, img.height, RowSize(img.width));
      DivBetween(|img.pixels|, n, 3);
    }
  }

  /** A row 1 to 3 pixels wide pads to 4 bytes per pixel. */
  lemma NarrowRows(w: nat, h: nat)
    requires 1 <= w <= 3
    ensures RowSize(w) == 4 * w && h * RowSize(w) == 4 * (w * h)
  {
  }

  /** From 4 pixels on, a padded row holds at least 3 and under 4 bytes per pixel. */
  lemma WideRows(w: nat, h: nat, row: nat)
    requires 4 <= w && 0 < h && 3 * w <= row < 3 * w + 4
    ensures 3 * (w * h) <= h * row < 3 * (w * h) + w * h
  {
    MulMonotone(3 * w, row, h);
    MulStrict(row, 4 * w, h);
    assert h * (3 * w) == 3 * (w * h) && (4 * w) * h == 3 * (w * h) + w * h;
  }

  /**
   * Reading a file whose image is 1 to 3 pixels wide and writing it back
   * records a depth of 32 bits per pixel in the new info header, although
   * its rows still hold 3-byte pixels.
   */
  lemma RewriteNarrowDepth(file: seq<byte>)
    requires |file| >= HeadersSize
    requires var img := Decode(file).image;
      1 <= img.width <= 3 && 1 <= img.height && img.height * RowSize(img.width) < U32
    ensures var img := Decode(file).image;
      RowsFit(img) && img.width * img.height % U32 != 0 &&
      var written := Encoding(img, BitsPerPixel(img));
      ParseInfoHeader(written[FileHeaderSize..HeadersSize]).bitsPerPixel == 32
  {
    DecodeLayout(file);
    var img := Decode(file).image;
    PaddedSizeExact(img.width, img.height);
    PaddedDepth(img);
    EncodingLayout(img, BitsPerPixel(img));
  }

  /** The written file, field by field. */
  lemma EncodingLayout(img: Image, bitsPerPixel: u16)
    requires RowsFit(img)
    ensures var file := Encoding(img, bitsPerPixel);
      |file| == HeadersSize + img.height * RowSize(img.width) &&
      var fh := ParseFileHeader(file[..FileHeaderSize]);
      ValidFileHeader(fh) && fh.fileSize == (HeadersSize + |img.pixels|) % U32 &&
      fh.reservedA == 0 && fh.reservedB == 0 && fh.imageOffset == HeadersSize &&
      var ih := ParseInfoHeader(file[FileHeaderSize..HeadersSize]);
      ValidInfoHeader(ih) && ih.headerSize == InfoHeaderSize &&
      Bits(ih.bitmapWidth) == img.width && Bits(ih.bitmapHeight) == img.height &&
      ih.bitsPerPixel == bitsPerPixel && ih.imageSize == 0 &&
      ih.horizontalResolution == 0 && ih.verticalResolution == 0 &&
      ih.colorPalette == 0 && ih.importantColors == 0 &&
      file[HeadersSize..] == img.pixels[..img.height * RowSize(img.width)]
  {
    var file := Encoding(img, bitsPerPixel);
    EncodingParts(img, bitsPerPixel);
    var fh := FileHeaderFor(|img.pixels|);
    var ih := InfoHeaderFor(img.width, img.height, bitsPerPixel);
    FileHeaderRoundTrip(fh);
    InfoHeaderRoundTrip(ih);
  }

  /** The three parts of the written file, cut at their offsets. */
  lemma EncodingParts(img: Image, bitsPerPixel: u16)
    requires RowsFit(img)
    ensures var file := Encoding(img, bitsPerPixel);
      |file| == HeadersSize + img.height * RowSize(img.width) &&
      file[..FileHeaderSize] == FileHeaderBytes(FileHeaderFor(|img.pixels|)) &&
      file[FileHeaderSize..HeadersSize] == InfoHeaderBytes(InfoHeaderFor(img.width, img.height, bitsPerPixel)) &&
      file[HeadersSize..] == img.pixels[..img.height * RowSize(img.width)]
  {
  }

  /**
   * Writing then reading gives back the image whenever the buffer is
   * exactly the decoder's padded layout, `height * rowSize` bytes (and
   * that length fits in 32 bits).
   */
  lemma RoundTrip(img: Image, bitsPerPixel: u16)
    requires |img.pixels| == img.height * RowSize(img.width) < U32
    ensures Decode(Encoding(img, bitsPerPixel)) == Read(img)
  {
    var file := Encoding(img, bitsPerPixel);
    var fh := FileHeaderFor(|img.pixels|);
    var ih := InfoHeaderFor(img.width, img.height, bitsPerPixel);
    EncodingParts(img, bitsPerPixel);
    FileHeaderRoundTrip(fh);
    InfoHeaderRoundTrip(ih);
    assert ParseFileHeader(file[..FileHeaderSize]).imageOffset == HeadersSize;
    assert ParseInfoHeader(file[FileHeaderSize..HeadersSize]) == ih;
    assert img.pixels[..|img.pixels|] == img.pixels;
    ReadFromSuffix(file, HeadersSize, img.pixels);
    DecodeOf(file, img.width, img.height, HeadersSize);
    PaddedSizeExact(img.width, img.height);
    assert PaddedSize(img.width, img.height) == |img.pixels|;
  }

  lemma PaddedSizeExact(width: u32, height: u32)
    requires height * RowSize(width) < U32
    ensures PaddedSize(width, height) == height * RowSize(width)
  {
  }

  /** `Decode` once the header fields are known. */
  lemma DecodeOf(file: seq<byte>, width: u32, height: u32, offset: u32)
    requires |file| >= HeadersSize
    requires ParseFileHeader(file[..FileHeaderSize]).imageOffset == offset
    requires Bits(ParseInfoHeader(file[FileHeaderSize..HeadersSize]).bitmapWidth) == width
    requires Bits(ParseInfoHeader(file[FileHeaderSize..HeadersSize]).bitmapHeight) == height
    ensures Decode(file) == Read(Image(width, height, ReadFrom(file, offset, PaddedSize(width, height))))
  {
  }

  lemma ReadFromSuffix(file: seq<byte>, offset: nat, s: seq<byte>)
    requires offset <= |file| && file[offset..] == s
    ensures ReadFrom(file, offset, |s|) == s
  {
    forall k | 0 <= k < |s|
      ensures ReadFrom(file, offset, |s|)[k] == s[k]
    {
      assert file[offset..][k] == file[offset + k];
    }
  }

  /** The gray value `toGrayscale` computes for pixel `p`. */
  function GrayOf(img: Image, luma: (byte, byte, byte) -> byte, p: nat): byte
    requires 3 * p + 2 < |img.pixels|
  {
    luma(img.pixels[3 * p], img.pixels[3 * p + 1], img.pixels[3 * p + 2])
  }

  /** `n` gray pixels: each channel of pixel `p` is the gray value of pixel `p`. */
  function GrayPixels(img: Image, luma: (byte, byte, byte) -> byte, n: nat): seq<byte>
    requires 3 * n <= |img.pixels|
  {
    seq(3 * n, k requires 0 <= k < 3 * n => GrayOf(img, luma, k / 3))
  }

  /**
   * `toGrayscale`: every pixel becomes three copies of `luma(b, g, r)`,
   * where `luma` stands for the single-precision weighted sum
   * `0.114 b + 0.587 g + 0.299 r` truncated to a byte.  The pixel count is
   * `width * height` in 32 bits.
   */
  method ToGrayscale(img: Image, luma: (byte, byte, byte) -> byte) returns (gray: Image)
    requires 3 * (img.width * img.height % U32) <= |img.pixels|
    ensures gray == Image(img.width, img.height, GrayPixels(img, luma, img.width * img.height % U32))
  {
    var size := img.width * img.height % U32;
    var grayscalePixels := new byte[size * 3](_ => 0);
    for i := 0 to size
      invariant forall p :: 0 <= p < i ==>
        grayscalePixels[3 * p] == grayscalePixels[3 * p + 1] == grayscalePixels[3 * p + 2]
          == GrayOf(img, luma, p)
    {
      var b := img.pixels[3 * i + 0];
      var g := img.pixels[3 * i + 1];
      var r := img.pixels[3 * i + 2];
      var v := luma(b, g, r);
      grayscalePixels[3 * i + 0] := v;
      grayscalePixels[3 * i + 1] := v;
      grayscalePixels[3 * i + 2] := v;
    }
    gray := Image(img.width, img.height, grayscalePixels[..]);
    GrayFill(gray.pixels, img, luma, size);
  }

  /** A buffer holding the gray value of pixel `p` in its three channels is `GrayPixels`. */
  lemma GrayFill(pixels: seq<byte>, img: Image, luma: (byte, byte, byte) -> byte, n: nat)
    requires 3 * n <= |img.pixels| && |pixels| == 3 * n
    requires forall p :: 0 <= p < n ==>
      pixels[3 * p] == pixels[3 * p + 1] == pixels[3 * p + 2] == GrayOf(img, luma, p)
    ensures pixels == GrayPixels(img, luma, n)
  {
    forall k | 0 <= k < 3 * n
      ensures pixels[k] == GrayPixels(img, luma, n)[k]
    {
      var p := k / 3;
      assert k == 3 * p + k % 3;
    }
  }

  /**
   * The grayscale image keeps the dimensions, has the unpadded layout when
   * `width * height` does not wrap, and its three channels are equal at
   * every pixel.
   */
  lemma GrayscaleLayout(img: Image, luma: (byte, byte, byte) -> byte)
    requires 3 * (img.width * img.height % U32) <= |img.pixels|
    ensures var gray := Image(img.width, img.height, GrayPixels(img, luma, img.width * img.height % U32));
      IsGray(gray) && (img.width * img.height < U32 ==> WellFormed(gray)) &&
      forall p :: 0 <= p < |gray.pixels| / 3 ==>
        gray.pixels[3 * p] == luma(img.pixels[3 * p], img.pixels[3 * p + 1], img.pixels[3 * p + 2])
  {
    var n := img.width * img.height % U32;
    var pixels := GrayPixels(img, luma, n);
    assert |pixels| / 3 == n;
    forall p | 0 <= p < n
      ensures pixels[3 * p] == pixels[3 * p + 1] == pixels[3 * p + 2] == GrayOf(img, luma, p)
    {
      GrayPixelAt(img, luma, n, p);
    }
    AreaNoWrap(img.width, img.height);
  }

  lemma GrayPixelAt(img: Image, luma: (byte, byte, byte) -> byte, n: nat, p: nat)
    requires 3 * n <= |img.pixels| && p < n
    ensures var pixels := GrayPixels(img, luma, n);
      pixels[3 * p] == pixels[3 * p + 1] == pixels[3 * p + 2] == GrayOf(img, luma, p)
  {
    assert (3 * p) / 3 == (3 * p + 1) / 3 == (3 * p + 2) / 3 == p;
  }

  /** Below 2^32 the 32-bit pixel count is the pixel count. */
  lemma AreaNoWrap(width: u32, height: u32)
    ensures width * height < U32 ==> width * height % U32 == width * height
  {
  }
}
