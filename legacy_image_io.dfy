/**
 * The older copy of the codec, src/image.cpp.  Its constructors and its
 * decoder are those of src/util/image.cc line for line, so `ImageIO.Decode`
 * and `ImageIO.SolidColor` model both; only the writer differs: it records
 * a fixed depth of 24 bits per pixel instead of dividing the buffer length
 * by the pixel count.
 */
module LegacyImageIO {
  import opened Images
  import opened Bitmap
  import opened ImageIO

  /** The bits-per-pixel field this writer always records. */
  const Depth: u16 := 24

  /** `writeImageToFile` of the older copy: both headers, then `height` rows of `rowSize` bytes. */
  method WriteImageToFile(img: Image) returns (file: seq<byte>)
    requires RowsFit(img)
    ensures file == Encoding(img, Depth)
  {
    file := WriteBitmap(img, Depth);
  }

  /**
   * Whatever the buffer's length, the written info header records 24 bits
   * per pixel, and the file header `'B'`, `'M'`, offset 54 and the size of
   * the headers plus the whole buffer.
   */
  lemma WrittenHeaders(img: Image)
    requires RowsFit(img)
    ensures var file := Encoding(img, Depth);
      var fh := ParseFileHeader(file[..FileHeaderSize]);
      var ih := ParseInfoHeader(file[FileHeaderSize..HeadersSize]);
      ValidFileHeader(fh) && fh.imageOffset == HeadersSize &&
      fh.fileSize == (HeadersSize + |img.pixels|) % U32 &&
      ValidInfoHeader(ih) && ih.bitsPerPixel == 24 &&
      Bits(ih.bitmapWidth) == img.width && Bits(ih.bitmapHeight) == img.height
  {
    EncodingLayout(img, Depth);
  }

  /**
   * Writing an image in the padded layout and reading the file back gives
   * the image again, and the header it went through records 24 bits per
   * pixel for every width, the narrow ones included.
   */
  lemma RoundTrip24(img: Image)
    requires |img.pixels| == img.height * RowSize(img.width) < U32
    ensures var file := Encoding(img, Depth);
      Decode(file) == Read(img) &&
      ParseInfoHeader(file[FileHeaderSize..HeadersSize]).bitsPerPixel == 24
  {
    RoundTrip(img, Depth);
    EncodingLayout(img, Depth);
  }
}
