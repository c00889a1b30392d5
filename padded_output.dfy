/**
 * Writing a filter's output.  The filters return buffers in the unpadded
 * layout, 3 bytes per pixel, while `writeImageToFile` copies `height` rows
 * of the padded `rowSize` bytes each; the two agree only when the width is
 * a multiple of 4.  `PaddedWriter` is the writer that pads each row as it
 * goes, so that any filter output can be written and read back.
 */
module PaddedOutput {
  import opened Math
  import opened Images
  import opened Bitmap
  import opened ImageIO
  import LegacyImageIO

  /**
   * An unpadded buffer of at least one row covers the `height * rowSize`
   * bytes `writeImageToFile` copies exactly when the width is a multiple
   * of 4; for any other width the copy of the last row runs past the end.
   */
  lemma UnpaddedRowsFit(img: Image)
    requires WellFormed(img) && 3 * img.width + 3 < U32 && |img.pixels| < U32
    ensures img.height * RowSize(img.width) >= |img.pixels|
    ensures RowsFit(img) <==> img.width % 4 == 0 || img.height == 0
  {
    var w: nat, h: nat := img.width, img.height;
    var row := RowSize(w);
    RowSizeExact(w);
    assert h * (3 * w) == |img.pixels|;
    MulMonotone(3 * w, row, h);
    if row != 3 * w && h > 0 {
      MulStrict(3 * w, row, h);
    }
  }

  /** A row needs no padding exactly when the width is a multiple of 4. */
  lemma RowSizeExact(w: nat)
    requires 3 * w + 3 < U32
    ensures RowSize(w) == 3 * w <==> w % 4 == 0
  {
    var q := w / 4;
    assert w == 4 * q + w % 4;
    assert 3 * w + 3 == 4 * (3 * q) + (3 * (w % 4) + 3);
  }

  /** Row `i` of an unpadded buffer: its `3 * width` bytes. */
  function PixelRow(img: Image, i: nat): (r: seq<byte>)
    requires WellFormed(img) && i < img.height
    ensures |r| == 3 * img.width
  {
    RowFits(img.width, img.height, i);
    img.pixels[3 * RowStart(img.width, i)..3 * RowStart(img.width, i + 1)]
  }

  /** The zero bytes that bring a row of `width` pixels up to `RowSize(width)`. */
  function Padding(width: u32): (p: seq<byte>)
    requires 3 * width + 3 < U32
    ensures 3 * width + |p| == RowSize(width) && |p| < 4
    ensures forall k :: 0 <= k < |p| ==> p[k] == 0
  {
    seq(RowSize(width) - 3 * width, _ => 0)
  }

  /** The first `rows` rows of an unpadded buffer, each followed by its padding. */
  function PaddedRows(img: Image, rows: nat): (s: seq<byte>)
    requires WellFormed(img) && 3 * img.width + 3 < U32 && rows <= img.height
    ensures |s| == RowStart(RowSize(img.width), rows)
  {
    if rows == 0 then [] else PaddedRows(img, rows - 1) + PixelRow(img, rows - 1) + Padding(img.width)
  }

  /** The image with its rows padded: the layout the decoder produces. */
  function Padded(img: Image): (p: Image)
    requires WellFormed(img) && 3 * img.width + 3 < U32
    ensures p.width == img.width && p.height == img.height
    ensures |p.pixels| == img.height * RowSize(img.width)
  {
    RowStartIsProduct(RowSize(img.width), img.height);
    Image(img.width, img.height, PaddedRows(img, img.height))
  }

  /**
   * Writes a buffer in the unpadded layout: each row is copied, followed
   * by its padding, and the padded buffer is written with both headers and
   * a depth of 24 bits per pixel.
   */
  method PaddedWriter(img: Image) returns (file: seq<byte>)
    requires WellFormed(img) && 3 * img.width + 3 < U32
    requires img.height * RowSize(img.width) < U32
    ensures RowsFit(Padded(img)) && file == Encoding(Padded(img), LegacyImageIO.Depth)
  {
    var padded: seq<byte> := [];
    var i := 0;
    while i < img.height
      invariant i <= img.height && padded == PaddedRows(img, i)
    {
      padded := padded + PixelRow(img, i) + Padding(img.width);
      i := i + 1;
    }
    RowStartIsProduct(RowSize(img.width), img.height);
    assert img.height * RowSize(img.width) == RowSize(img.width) * img.height;
    file := LegacyImageIO.WriteImageToFile(Image(img.width, img.height, padded));
  }

  /** Byte `k` of padded row `i`. */
  function PaddedByte(img: Image, i: nat, k: nat): byte
    requires 3 * img.width + 3 < U32
    requires i < img.height && k < RowSize(img.width)
    requires img.height * RowSize(img.width) <= |img.pixels|
  {
    var row := RowSize(img.width);
    MulStrict(i, img.height, row);
    img.pixels[i * row + k]
  }

  /** Byte `k` of row `i` of the padded rows: a pixel byte below `3 * width`, padding above. */
  lemma {:induction false} PaddedRowsAt(img: Image, rows: nat, i: nat, k: nat)
    requires WellFormed(img) && 3 * img.width + 3 < U32 && rows <= img.height
    requires i < rows && k < RowSize(img.width)
    ensures RowStart(RowSize(img.width), i) + k < |PaddedRows(img, rows)|
    ensures PaddedRows(img, rows)[RowStart(RowSize(img.width), i) + k]
      == if k < 3 * img.width then PixelRow(img, i)[k] else 0
    decreases rows
  {
    var row := RowSize(img.width);
    var front := PaddedRows(img, rows - 1);
    assert PaddedRows(img, rows) == front + (PixelRow(img, rows - 1) + Padding(img.width));
    if i < rows - 1 {
      PaddedRowsAt(img, rows - 1, i, k);
      RowStartMonotone(row, i + 1, rows - 1);
    } else {
      assert |front| == RowStart(row, i);
      ConcatAt(front, PixelRow(img, rows - 1) + Padding(img.width), k);
    }
  }

  /**
   * Writing an unpadded buffer with `PaddedWriter` and reading the file
   * back gives the same dimensions and a padded buffer holding every
   * channel of every pixel where the decoder's layout places it, with zero
   * padding after each row.
   */
  lemma PaddedRoundTrip(img: Image)
    requires WellFormed(img) && 3 * img.width + 3 < U32
    requires img.height * RowSize(img.width) < U32
    ensures var back := Decode(Encoding(Padded(img), LegacyImageIO.Depth));
      back == Read(Padded(img)) &&
      |back.image.pixels| == img.height * RowSize(img.width) &&
      (forall i: nat, j: nat, c: nat :: i < img.height && j < img.width && c < 3 ==>
        PaddedByte(back.image, i, 3 * j + c) == Sample(img, i, j, c)) &&
      (forall i: nat, k: nat :: i < img.height && 3 * img.width <= k < RowSize(img.width) ==>
        PaddedByte(back.image, i, k) == 0)
  {
    var padded := Padded(img);
    var row := RowSize(img.width);
    LegacyImageIO.RoundTrip24(padded);
    forall i: nat, k: nat | i < img.height && k < row
      ensures PaddedByte(padded, i, k) == if k < 3 * img.width then PixelRow(img, i)[k] else 0
    {
      PaddedRowsAt(img, img.height, i, k);
      RowStartIsProduct(row, i);
    }
    forall i: nat, j: nat, c: nat | i < img.height && j < img.width && c < 3
      ensures PaddedByte(padded, i, 3 * j + c) == Sample(img, i, j, c)
    {
      PixelRowAt(img, i, j, c);
    }
  }

  /** Channel `c` of pixel (`i`, `j`) sits at `3 * j + c` in its row. */
  lemma PixelRowAt(img: Image, i: nat, j: nat, c: nat)
    requires WellFormed(img) && i < img.height && j < img.width && c < 3
    ensures PixelRow(img, i)[3 * j + c] == Sample(img, i, j, c)
  {
    var start := RowStart(img.width, i);
    RowFits(img.width, img.height, i);
    assert PixelRow(img, i)[3 * j + c] == img.pixels[3 * start + (3 * j + c)];
    RowStartIsProduct(img.width, i);
    assert 3 * start + (3 * j + c) == Offset(img.width, i, j, c);
  }
}
