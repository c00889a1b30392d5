/**
 * The two packed headers of include/bitmap.h and their byte images.  The
 * structs are declared under `#pragma pack(1)` and written raw on a
 * little-endian host, so each field occupies exactly its width, in
 * declaration order, least significant byte first; the signed 32-bit fields
 * are stored as their two's-complement bit pattern.
 */
module Bitmap {
  import opened Images

  type u8 = byte
  type u16 = x: int | 0 <= x < 0x1_0000
  type i32 = x: int | -0x8000_0000 <= x < 0x8000_0000

  const FileHeaderSize: nat := 14
  const InfoHeaderSize: nat := 40

  datatype FileHeader = FileHeader(
    headerFieldA: u8,   // 'B'
    headerFieldB: u8,   // 'M'
    fileSize: u32,      // file header + info header + pixel array
    reservedA: u16,
    reservedB: u16,
    imageOffset: u32)   // where the pixel array starts

  datatype InfoHeader = InfoHeader(
    headerSize: u32,
    bitmapWidth: i32,
    bitmapHeight: i32,
    numberOfColorPlanes: u16,
    bitsPerPixel: u16,
    compressionMethod: u32,
    imageSize: u32,
    horizontalResolution: i32,
    verticalResolution: i32,
    colorPalette: u32,
    importantColors: u32)

  /** The header of a file this codec accepts as a 24-bit uncompressed bitmap. */
  predicate ValidFileHeader(h: FileHeader) {
    h.headerFieldA == 'B' as int && h.headerFieldB == 'M' as int
  }

  predicate ValidInfoHeader(h: InfoHeader) {
    h.numberOfColorPlanes == 1 && h.compressionMethod == 0
  }

  // ---- little-endian fields ----

  function LE16(x: u16): (b: seq<byte>)
    ensures |b| == 2
  {
    [x % 256, x / 256]
  }

  function LE32(x: u32): (b: seq<byte>)
    ensures |b| == 4
  {
    [x % 256, x / 256 % 256, x / 256 / 256 % 256, x / 256 / 256 / 256]
  }

  function U16At(b: seq<byte>, off: nat): (x: u16)
    requires off + 2 <= |b|
  {
    b[off] as int + 256 * b[off + 1] as int
  }

  function U32At(b: seq<byte>, off: nat): (x: u32)
    requires off + 4 <= |b|
  {
    b[off] as int + 256 * (b[off + 1] as int + 256 * (b[off + 2] as int + 256 * b[off + 3] as int))
  }

  /** Splitting `lo + 256 * hi` back into its low byte and the rest. */
  lemma Split256(lo: byte, hi: nat)
    ensures (lo + 256 * hi) % 256 == lo && (lo + 256 * hi) / 256 == hi
  {
  }

  /** Reading back a written 16-bit field gives the value. */
  lemma LE16RoundTrip(x: u16)
    ensures U16At(LE16(x), 0) == x
  {
  }

  /** Reading back a written 32-bit field gives the value. */
  lemma LE32RoundTrip(x: u32)
    ensures U32At(LE32(x), 0) == x
  {
  }

  lemma LE16Inverse(b: seq<byte>, off: nat)
    requires off + 2 <= |b|
    ensures LE16(U16At(b, off)) == b[off..off + 2]
  {
    Split256(b[off], b[off + 1]);
  }

  lemma LE32Inverse(b: seq<byte>, off: nat)
    requires off + 4 <= |b|
    ensures LE32(U32At(b, off)) == b[off..off + 4]
  {
    var hi2 := b[off + 2] as int + 256 * b[off + 3] as int;
    var hi1 := b[off + 1] as int + 256 * hi2;
    Split256(b[off], hi1);
    Split256(b[off + 1], hi2);
    Split256(b[off + 2], b[off + 3]);
  }

  /** Two's-complement bit pattern of a signed 32-bit value (the conversion int32 -> unsigned). */
  function Bits(x: i32): (u: u32)
    ensures u % 0x1_0000_0000 == x % 0x1_0000_0000
  {
    if x < 0 then x + 0x1_0000_0000 else x
  }

  /** The signed 32-bit value with bit pattern `u` (the conversion unsigned -> int32). */
  function FromBits(u: u32): (x: i32)
    ensures Bits(x) == u
  {
    if u >= 0x8000_0000 then u - 0x1_0000_0000 else u
  }

  lemma FromBitsInverse(x: i32)
    ensures FromBits(Bits(x)) == x
  {
  }

  // ---- whole headers ----

  function FileHeaderBytes(h: FileHeader): (b: seq<byte>)
    ensures |b| == FileHeaderSize
  {
    [h.headerFieldA, h.headerFieldB] + LE32(h.fileSize) + LE16(h.reservedA)
      + LE16(h.reservedB) + LE32(h.imageOffset)
  }

  function ParseFileHeader(b: seq<byte>): FileHeader
    requires |b| >= FileHeaderSize
  {
    FileHeader(b[0], b[1], U32At(b, 2), U16At(b, 6), U16At(b, 8), U32At(b, 10))
  }

  function InfoHeaderBytes(h: InfoHeader): (b: seq<byte>)
    ensures |b| == InfoHeaderSize
  {
    LE32(h.headerSize) + LE32(Bits(h.bitmapWidth)) + LE32(Bits(h.bitmapHeight))
      + LE16(h.numberOfColorPlanes) + LE16(h.bitsPerPixel) + LE32(h.compressionMethod)
      + LE32(h.imageSize) + LE32(Bits(h.horizontalResolution))
      + LE32(Bits(h.verticalResolution)) + LE32(h.colorPalette) + LE32(h.importantColors)
  }

  function ParseInfoHeader(b: seq<byte>): InfoHeader
    requires |b| >= InfoHeaderSize
  {
    InfoHeader(U32At(b, 0), FromBits(U32At(b, 4)), FromBits(U32At(b, 8)), U16At(b, 12),
      U16At(b, 14), U32At(b, 16), U32At(b, 20), FromBits(U32At(b, 24)),
      FromBits(U32At(b, 28)), U32At(b, 32), U32At(b, 36))
  }

  /** Reading back a written file header gives the header. */
  lemma {:induction false} FileHeaderRoundTrip(h: FileHeader)
    ensures ParseFileHeader(FileHeaderBytes(h)) == h
  {
    var b := FileHeaderBytes(h);
    LE32RoundTrip(h.fileSize);
    LE16RoundTrip(h.reservedA);
    LE16RoundTrip(h.reservedB);
    LE32RoundTrip(h.imageOffset);
    assert b[2..6] == LE32(h.fileSize);
    assert b[6..8] == LE16(h.reservedA);
    assert b[8..10] == LE16(h.reservedB);
    assert b[10..14] == LE32(h.imageOffset);
  }

  /** Every 14 bytes are the image of the header parsed from them: the packed layout has no gaps. */
  lemma FileHeaderBytesOfParse(b: seq<byte>)
    requires |b| == FileHeaderSize
    ensures FileHeaderBytes(ParseFileHeader(b)) == b
  {
    LE32Inverse(b, 2);
    LE16Inverse(b, 6);
    LE16Inverse(b, 8);
    LE32Inverse(b, 10);
    assert b == b[0..2] + b[2..6] + b[6..8] + b[8..10] + b[10..14];
  }

  lemma {:induction false} InfoHeaderRoundTrip(h: InfoHeader)
    ensures ParseInfoHeader(InfoHeaderBytes(h)) == h
  {
    var b := InfoHeaderBytes(h);
    LE32RoundTrip(h.headerSize);
    LE32RoundTrip(Bits(h.bitmapWidth));
    LE32RoundTrip(Bits(h.bitmapHeight));
    LE16RoundTrip(h.numberOfColorPlanes);
    LE16RoundTrip(h.bitsPerPixel);
    LE32RoundTrip(h.compressionMethod);
    LE32RoundTrip(h.imageSize);
    LE32RoundTrip(Bits(h.horizontalResolution));
    LE32RoundTrip(Bits(h.verticalResolution));
    LE32RoundTrip(h.colorPalette);
    LE32RoundTrip(h.importantColors);
    assert b[0..4] == LE32(h.headerSize);
    assert b[4..8] == LE32(Bits(h.bitmapWidth));
    assert b[8..12] == LE32(Bits(h.bitmapHeight));
    assert b[12..14] == LE16(h.numberOfColorPlanes);
    assert b[14..16] == LE16(h.bitsPerPixel);
    assert b[16..20] == LE32(h.compressionMethod);
    assert b[20..24] == LE32(h.imageSize);
    assert b[24..28] == LE32(Bits(h.horizontalResolution));
    assert b[28..32] == LE32(Bits(h.verticalResolution));
    assert b[32..36] == LE32(h.colorPalette);
    assert b[36..40] == LE32(h.importantColors);
    FromBitsInverse(h.bitmapWidth);
    FromBitsInverse(h.bitmapHeight);
    FromBitsInverse(h.horizontalResolution);
    FromBitsInverse(h.verticalResolution);
  }

  lemma InfoHeaderBytesOfParse(b: seq<byte>)
    requires |b| == InfoHeaderSize
    ensures InfoHeaderBytes(ParseInfoHeader(b)) == b
  {
    var h := ParseInfoHeader(b);
    var front := LE32(h.headerSize) + LE32(Bits(h.bitmapWidth)) + LE32(Bits(h.bitmapHeight))
      + LE16(h.numberOfColorPlanes) + LE16(h.bitsPerPixel);
    var back := LE32(h.compressionMethod) + LE32(h.imageSize) + LE32(Bits(h.horizontalResolution))
      + LE32(Bits(h.verticalResolution)) + LE32(h.colorPalette) + LE32(h.importantColors);
    InfoHeaderFront(b);
    InfoHeaderBack(b);
    assert InfoHeaderBytes(h) == front + back;
    assert b == b[..16] + b[16..];
  }

  lemma InfoHeaderFront(b: seq<byte>)
    requires |b| == InfoHeaderSize
    ensures var h := ParseInfoHeader(b);
      LE32(h.headerSize) + LE32(Bits(h.bitmapWidth)) + LE32(Bits(h.bitmapHeight))
        + LE16(h.numberOfColorPlanes) + LE16(h.bitsPerPixel) == b[..16]
  {
    LE32Inverse(b, 0);
    LE32Inverse(b, 4);
    LE32Inverse(b, 8);
    LE16Inverse(b, 12);
    LE16Inverse(b, 14);
    assert b[..16] == b[0..4] + b[4..8] + b[8..12] + b[12..14] + b[14..16];
  }

  lemma InfoHeaderBack(b: seq<byte>)
    requires |b| == InfoHeaderSize
    ensures var h := ParseInfoHeader(b);
      LE32(h.compressionMethod) + LE32(h.imageSize) + LE32(Bits(h.horizontalResolution))
        + LE32(Bits(h.verticalResolution)) + LE32(h.colorPalette) + LE32(h.importantColors) == b[16..]
  {
    var h := ParseInfoHeader(b);
    LE32Inverse(b, 16);
    LE32Inverse(b, 20);
    LE32Inverse(b, 24);
    var middle := LE32(h.compressionMethod) + LE32(h.imageSize) + LE32(Bits(h.horizontalResolution));
    assert middle == b[16..28];
    LE32Inverse(b, 28);
    LE32Inverse(b, 32);
    LE32Inverse(b, 36);
    var last := LE32(Bits(h.verticalResolution)) + LE32(h.colorPalette) + LE32(h.importantColors);
    assert last == b[28..40];
    assert b[16..] == b[16..28] + b[28..40];
  }
}
