# cuda-vision edge detection and BMP codec, modelled in Dafny

This project models the sequential core of cuda-vision. It has three parts:

- **Gaussian smoothing.** `getGaussianKernel`, `horizontalConvolution`, `verticalConvolution` and `gaussianSmooth`.
- **Gradient edge operators.** `robertsOperator`, `prewittOperator` and `sobelOperator`.
- **The BMP codec behind `Image`.** The file-path constructor, the solid-colour constructor, `writeImageToFile` and `toGrayscale`.

An image is a width, a height and a flat byte buffer of B, G, R triples.

- **The filters** read and write the unpadded layout: channel `c` of pixel (`i`, `j`) sits at `3 * (i * width + j) + c`.
- **The decoder** stores each row padded to a multiple of 4 bytes.

The modules follow the source files:

| module | file | models |
|---|---|---|
| `Math` | `math.dfy` | Integer square root and small non-linear facts |
| `Images` | `images.dfy` | The `Image` value of `include/util/image.h` and the flat-buffer layout. `Raster(g, w, h)` is the buffer whose channel `c` of pixel (`i`, `j`) is `g(i, j, c)`. The filters are specified through it. |
| `Bitmap` | `bitmap.dfy` | The packed headers of `include/bitmap.h` as little-endian bytes |
| `ImageIO` | `image_io.dfy` | `src/util/image.cc` |
| `LegacyImageIO` | `legacy_image_io.dfy` | The writer of `src/image.cpp`. Its decoder and constructors are line for line those of `src/util/image.cc`, so `ImageIO.Decode` and `ImageIO.SolidColor` model both files. |
| `Smoothing` | `smoothing.dfy` | `src/edge_detection/canny.cc:20-107`. It also models `src/algorithms/canny.cpp:9-94`, which is the same code except that `size` and `kernelSize` are `unsigned int` there and `int` in `canny.cc`; both are modelled as `nat`. |
| `EdgeDetection` | `edges.dfy` | `src/edge_detection/canny.cc:109-192` |
| `PaddedOutput` | `padded_output.dfy` | Writing a filter output to a file (see Findings) |

**How the imperative code is modelled.** Each routine is a method that works on an `array` or a sequence, with the source's loops. Its contract ties the result to a specification function. The properties are then proved about those functions. Where a loop body was too costly to verify in one piece, it was moved into a helper method with its own contract, keeping the order of the writes. Examples:

- `StoreWeights` / `DivideAll`
- `HorizontalTap` / `HorizontalSums` / `StoreHorizontal`
- `RobertsRow`
- `WindowTap` / `WindowResponse` / `StoreGradient` / `GradientRow`

**The constructors of `include/util/image.h`** are modelled by the `Images.Image` datatype itself:

- `Image(w, h)` is `Image(w, h, [])`.
- `Image(w, h, pixels)` keeps the buffer, whatever its length.
- The copy constructor is value copy.

**The gradient magnitude.** The operators compute `(int)sqrt(gx*gx + gy*gy)`, clamped into `[0, 255]`. This is modelled as the exact integer floor square root, `ISqrt`. For the Sobel kernels the energy is at most `2 * 1020 * 1020`, which `EdgeDetection.SobelEnergyFits` proves. A `double` represents that value exactly, and its square root truncates to the floor root.

## Model

| member | source | states |
|---|---|---|
| `Math.ISqrt` | src/edge_detection/canny.cc:123 | The result `r` is the floor square root: `r*r <= n < (r+1)*(r+1)`. |
| `Math.ISqrtUnique` | src/edge_detection/canny.cc:154 | Any `r` with `r*r <= n < (r+1)*(r+1)` is `ISqrt(n)`, so the truncated root is determined by the energy alone. |
| `EdgeDetection.Energy` | src/edge_detection/canny.cc:185 | `gx*gx + gy*gy` is a natural number, and 0 exactly when both gradients are 0. |
| `EdgeDetection.Magnitude` | src/edge_detection/canny.cc:123-125 | The stored byte is 0 if and only if both gradients are 0. |
| `EdgeDetection.MagnitudeIsRoot` | src/edge_detection/canny.cc:154-156 | Below `255*255` the byte is the floor square root of the energy; from `255*255` on it saturates at 255. |
| `EdgeDetection.MagnitudeSymmetric` | src/edge_detection/canny.cc:186-187 | The magnitude is unchanged when both gradients are negated or when they are swapped. |
| `EdgeDetection.RobertsGx` | src/edge_detection/canny.cc:121 | With `kx = {1,0,0,-1}`, gx is the pixel minus its lower-right neighbour in the same channel. |
| `EdgeDetection.RobertsGy` | src/edge_detection/canny.cc:122 | With `ky = {0,1,-1,0}`, gy is the right neighbour minus the lower neighbour in the same channel. |
| `EdgeDetection.RobertsImage` | src/edge_detection/canny.cc:115 | The Roberts output keeps width and height and has the unpadded length `3*w*h`. |
| `EdgeDetection.NeighbourOffsets` | src/edge_detection/canny.cc:119-122 | The right, lower and lower-right neighbours of `idx` are at `idx+3`, `idx+3*w` and `idx+3*(w+1)`. |
| `EdgeDetection.RobertsResponse` | src/edge_detection/canny.cc:120-125 | One channel computed from the flat buffer with the kernel entries equals the specified Roberts value. |
| `EdgeDetection.StoreRoberts` | src/edge_detection/canny.cc:119-126 | Writing the three channels of an interior pixel extends the filled prefix by that pixel; the rest of the buffer stays zero. |
| `EdgeDetection.RobertsRow` | src/edge_detection/canny.cc:118-127 | One pass of the column loop fills row `i` up to column `w-2`, and column `w-1` stays zero. |
| `EdgeDetection.RobertsRowEnd` | src/edge_detection/canny.cc:118 | The last column is never written and keeps the zero the buffer was created with. |
| `EdgeDetection.RobertsLastRow` | src/edge_detection/canny.cc:117 | The last row is never written; the finished buffer is the specified Roberts raster. |
| `EdgeDetection.RobertsOperator` | src/edge_detection/canny.cc:109-130 | For images of at least one row and column, the result is the specified image. |
| `EdgeDetection.RobertsImageAt` | src/edge_detection/canny.cc:115-128 | Byte `3*(i*w+j)+c` of the output is the Roberts magnitude for `i < h-1` and `j < w-1`, and 0 otherwise. |
| `EdgeDetection.WindowTap` | src/edge_detection/canny.cc:147-151 | One `kj` step adds `kx[ki*3+kj]` and `ky[ki*3+kj]` times the neighbour at `nidx` to both sums. |
| `EdgeDetection.WindowResponse` | src/edge_detection/canny.cc:144-153 | The `ki`/`kj` loops compute the 3x3 window sums of both kernels. |
| `EdgeDetection.GradientResponse` | src/edge_detection/canny.cc:143-156 | One channel of an inner pixel is the magnitude of the two window sums. |
| `EdgeDetection.StoreGradient` | src/edge_detection/canny.cc:142-157 | Writing an inner pixel extends the filled prefix by that pixel; the rest stays zero. |
| `EdgeDetection.GradientBorderRow` | src/edge_detection/canny.cc:140 | Rows 0 and `h-1` are never written and stay zero. |
| `EdgeDetection.GradientRowStart` | src/edge_detection/canny.cc:141 | Column 0 is never written and stays zero. |
| `EdgeDetection.GradientRowEnd` | src/edge_detection/canny.cc:158 | Column `w-1` is never written and stays zero. |
| `EdgeDetection.GradientRow` | src/edge_detection/canny.cc:141-158 | One pass of the column loop fills columns 1 to `w-2` of an inner row. |
| `EdgeDetection.GradientDone` | src/edge_detection/canny.cc:159-160 | Once every row is accounted for, the buffer is the specified gradient raster. |
| `EdgeDetection.ApplyGradient` | src/edge_detection/canny.cc:135-160 | The 3x3 operator with any two 9-entry kernels yields the specified gradient image. |
| `EdgeDetection.PrewittOperator` | src/edge_detection/canny.cc:132-161 | The Prewitt operator yields the gradient image of the two Prewitt kernels. |
| `EdgeDetection.SobelOperator` | src/edge_detection/canny.cc:163-192 | The Sobel operator yields the gradient image of the two Sobel kernels. |
| `EdgeDetection.GradientImage` | src/edge_detection/canny.cc:138 | The gradient output keeps width and height and has the unpadded length `3*w*h`. |
| `EdgeDetection.GradientImageAt` | src/edge_detection/canny.cc:140-157 | Byte `3*(i*w+j)+c` is the magnitude of the window sums when `1 <= i <= h-2` and `1 <= j <= w-2`, and 0 otherwise. |
| `EdgeDetection.WindowSumIsWindow` | src/edge_detection/canny.cc:145-152 | The loop-ordered window sum equals the nine-term sum over neighbours `(i+ki-1, j+kj-1)`. |
| `EdgeDetection.SobelClosedForm` | src/edge_detection/canny.cc:164-165 | Sobel gx is the weighted right column minus the left, gy the bottom row minus the top; both lie in `[-1020, 1020]`. |
| `EdgeDetection.PrewittClosedForm` | src/edge_detection/canny.cc:133-134 | Prewitt gx is the top row minus the bottom, gy the left column minus the right; both lie in `[-765, 765]`. |
| `EdgeDetection.SobelEnergyFits` | src/edge_detection/canny.cc:185 | The Sobel energy is at most `2*1020*1020`, below `2^31`, so `gx*gx + gy*gy` does not overflow `int`. |
| `EdgeDetection.FlatWindow` | src/edge_detection/canny.cc:145-153 | On a solid-colour image a window sum is the colour times the sum of the kernel's weights. |
| `EdgeDetection.FlatGradient` | src/edge_detection/canny.cc:138-160 | A 3x3 operator whose kernels each sum to 0 maps a solid-colour image to an all-zero buffer. |
| `EdgeDetection.FlatHasNoEdges` | src/edge_detection/canny.cc:109-192 | Roberts, Prewitt and Sobel all map a solid-colour image to an all-zero buffer. |
| `EdgeDetection.InvertedWindow` | src/edge_detection/canny.cc:150-151 | On the inverted image (`255 - v` per channel) a window sum is `255*weight` minus the original sum. |
| `EdgeDetection.GradientInversion` | src/edge_detection/canny.cc:144-156 | With zero-sum kernels, inverting the image leaves the gradient output unchanged. |
| `EdgeDetection.RobertsInversion` | src/edge_detection/canny.cc:121-125 | Inverting the image leaves the Roberts output unchanged. |
| `EdgeDetection.InversionKeepsEdges` | src/edge_detection/canny.cc:163-192 | Inverting the image leaves the Prewitt and Sobel outputs unchanged. |
| `Smoothing.RawKernel` | src/edge_detection/canny.cc:21 | The weight vector has `size` entries. |
| `Smoothing.RawWeight` | src/edge_detection/canny.cc:25-26 | Entry `i+mid` holds the weight of offset `i`, a function of `i*i` only. |
| `Smoothing.StoreWeights` | src/edge_detection/canny.cc:21-28 | For an odd size the first loop writes every entry in bounds and returns the sum of all raw weights. |
| `Smoothing.DivideAll` | src/edge_detection/canny.cc:30-32 | The second loop divides every entry by the sum. |
| `Smoothing.GaussianKernel` | src/edge_detection/canny.cc:20-35 | For an odd size the kernel is the raw weights divided by their sum. |
| `Smoothing.KernelSymmetric` | src/edge_detection/canny.cc:25-32 | Entry `t` equals entry `size-1-t`: the kernel is symmetric about `mid`. |
| `Smoothing.KernelPositive` | src/algorithms/canny.cpp:14-21 | Every entry is positive when every weight is. |
| `Smoothing.SumScaled` | src/algorithms/canny.cpp:19-21 | Dividing every entry by `d` divides the sum by `d`. |
| `Smoothing.KernelSumsToOne` | src/edge_detection/canny.cc:30-32 | The normalised kernel sums to 1. |
| `Smoothing.KernelPeak` | src/edge_detection/canny.cc:17-18 | When the weight does not increase with `i*i`, the centre entry is the largest. |
| `Smoothing.ToByte` | src/edge_detection/canny.cc:55-60 | A sum is clamped into `[0, 255]` and truncated: 0 below, 255 above, the floor in between. |
| `Smoothing.ToByteOfByte` | src/edge_detection/canny.cc:56 | A byte value converts back to itself. |
| `Smoothing.ClampIndex` | src/edge_detection/canny.cc:48 | The clamped index lies in `[0, n-1]`, is the index itself inside, 0 below and `n-1` above. |
| `Smoothing.HSumNext` | src/edge_detection/canny.cc:47-52 | Tap `k` adds the sample at the clamped column `j+k` of the same row and channel times `kernel[k+mid]`. |
| `Smoothing.VSumNext` | src/edge_detection/canny.cc:77-82 | Tap `k` adds the sample at the clamped row `i+k` of the same column and channel times `kernel[k+mid]`. |
| `Smoothing.HorizontalTap` | src/edge_detection/canny.cc:48-51 | One `k` step advances all three channel sums by one tap. |
| `Smoothing.HorizontalSums` | src/edge_detection/canny.cc:46-52 | The `k` loop computes the full horizontal sum of each channel. |
| `Smoothing.StoreHorizontal` | src/edge_detection/canny.cc:54-60 | Storing the clamped sums extends the filled prefix by one pixel, and every byte after the stored pixel keeps its old value. |
| `Smoothing.HorizontalConvolution` | src/edge_detection/canny.cc:37-65 | The horizontal pass returns the specified image. |
| `Smoothing.HorizontalImage` | src/edge_detection/canny.cc:41 | The horizontal output keeps width and height and has length `3*h*w`. |
| `Smoothing.HorizontalImageAt` | src/edge_detection/canny.cc:54-60 | Output byte `3*(i*w+j)+c` is the channel's horizontal sum clamped into a byte. |
| `Smoothing.VerticalTap` | src/edge_detection/canny.cc:78-81 | One `k` step advances all three channel sums by one tap. |
| `Smoothing.VerticalSums` | src/edge_detection/canny.cc:76-82 | The `k` loop computes the full vertical sum of each channel. |
| `Smoothing.StoreVertical` | src/edge_detection/canny.cc:84-90 | Storing the clamped sums extends the filled prefix by one pixel, and every byte after the stored pixel keeps its old value. |
| `Smoothing.VerticalConvolution` | src/edge_detection/canny.cc:67-95 | The vertical pass returns the specified image. |
| `Smoothing.VerticalImage` | src/edge_detection/canny.cc:71 | The vertical output keeps width and height and has length `3*h*w`. |
| `Smoothing.VerticalImageAt` | src/edge_detection/canny.cc:84-90 | Output byte `3*(i*w+j)+c` is the channel's vertical sum clamped into a byte. |
| `Smoothing.HSumRowLocal` | src/edge_detection/canny.cc:49-51 | The horizontal sum depends only on channel `c` of row `i`. |
| `Smoothing.HorizontalRowLocal` | src/algorithms/canny.cpp:36-48 | Two images that agree on channel `c` of row `i` give the same horizontal output there. |
| `Smoothing.VSumColumnLocal` | src/edge_detection/canny.cc:79-81 | The vertical sum depends only on channel `c` of column `j`. |
| `Smoothing.VerticalColumnLocal` | src/algorithms/canny.cpp:65-77 | Two images that agree on channel `c` of column `j` give the same vertical output there. |
| `Smoothing.HSumUnitKernel` | src/edge_detection/canny.cc:47-56 | With the one-entry kernel `[1.0]` the horizontal sum reproduces the sample. |
| `Smoothing.VSumUnitKernel` | src/edge_detection/canny.cc:77-86 | With the one-entry kernel `[1.0]` the vertical sum reproduces the sample. |
| `Smoothing.UnitKernelIdentity` | src/algorithms/canny.cpp:26-82 | Both passes with `[1.0]` return an unpadded image unchanged. |
| `Smoothing.VerticalPasses` | src/edge_detection/canny.cc:100-102 | Repeated vertical passes keep the dimensions and yield the unpadded layout. |
| `Smoothing.HorizontalPasses` | src/edge_detection/canny.cc:103-105 | Repeated horizontal passes keep the dimensions and yield the unpadded layout. |
| `Smoothing.GaussianSmooth` | src/edge_detection/canny.cc:97-107 | The result is three horizontal passes after three vertical passes, all with one kernel built once; dimensions are kept. |
| `Smoothing.SingleEntryKernel` | src/algorithms/canny.cpp:9-24 | A kernel of size 1 is `[1.0]`. |
| `Smoothing.UnitVerticalPasses` | src/algorithms/canny.cpp:87-89 | Any number of vertical passes with `[1.0]` leaves an unpadded image unchanged. |
| `Smoothing.UnitHorizontalPasses` | src/algorithms/canny.cpp:90-92 | Any number of horizontal passes with `[1.0]` leaves an unpadded image unchanged. |
| `Smoothing.SmoothWithSizeOne` | src/algorithms/canny.cpp:84-94 | Smoothing with kernel size 1 returns an unpadded image unchanged. |
| `Images.OffsetInRange` | src/edge_detection/canny.cc:49-51 | Every channel offset of an in-range pixel lies inside a `3*w*h` buffer. |
| `Images.RasterAt` | src/edge_detection/canny.cc:54-60 | Channel `c` of pixel (`i`, `j`) of a row-by-row buffer sits at `3*(i*w+j)+c`. |
| `Images.RasterOfImage` | src/edge_detection/canny.cc:41 | A row-by-row buffer that agrees with every sample of an unpadded image is its buffer. |
| `Images.StorePixel` | src/edge_detection/canny.cc:55-60 | The three stores write B, G, R at `3p`, `3p+1`, `3p+2` and nothing else. |
| `Bitmap.FileHeaderBytes` | include/bitmap.h:13-44 | The packed file header is 14 bytes. |
| `Bitmap.InfoHeaderBytes` | include/bitmap.h:52-108 | The packed info header is 40 bytes. |
| `Bitmap.FileHeaderRoundTrip` | include/bitmap.h:13-44 | Parsing the 14 written bytes gives back every field. |
| `Bitmap.FileHeaderBytesOfParse` | include/bitmap.h:18-43 | Any 14 bytes are the serialisation of the header parsed from them. |
| `Bitmap.InfoHeaderRoundTrip` | include/bitmap.h:52-108 | Parsing the 40 written bytes gives back every field. |
| `Bitmap.InfoHeaderBytesOfParse` | include/bitmap.h:57-107 | Any 40 bytes are the serialisation of the header parsed from them. |
| `Bitmap.LE16RoundTrip` | include/bitmap.h:33 | A 16-bit field read back from its two little-endian bytes is unchanged. |
| `Bitmap.LE32RoundTrip` | include/bitmap.h:28 | A 32-bit field read back from its four little-endian bytes is unchanged. |
| `Bitmap.LE32Inverse` | include/bitmap.h:43 | Four bytes are the little-endian form of the value read from them. |
| `Bitmap.FromBitsInverse` | include/bitmap.h:62-67 | A signed 32-bit field survives the round trip through its unsigned bit pattern. |
| `ImageIO.RowSize` | src/util/image.cc:19 | The row size is a multiple of 4 and, when `3*w+3` does not wrap, between `3*w` and `3*w+3`. |
| `ImageIO.Decode` | src/util/image.cc:6-23 | A file is unreadable exactly when it is shorter than the two headers. |
| `ImageIO.DecodeLayout` | src/util/image.cc:14-22 | Width and height come from offsets 18 and 22, and the buffer has `height*rowSize` bytes. Byte `k` comes from `imageOffset + k`, or is 0 past the end of the file. |
| `ImageIO.SolidColor` | src/util/image.cc:25-35 | The constructor returns the given dimensions and `N = w*h` (32-bit) copies of `b, g, r`. |
| `ImageIO.RepeatedPixel` | src/util/image.cc:30-34 | A buffer holding `b, g, r` at `3p, 3p+1, 3p+2` for every pixel is the solid buffer. |
| `ImageIO.SolidColorLayout` | src/image.cpp:25-35 | The solid buffer has length `3*N`, holds `(b, g, r)` per pixel, and is unpadded and flat when `w*h` does not wrap. |
| `ImageIO.WriteBitmap` | src/util/image.cc:43-71 | The file is both headers followed by `height` rows of `rowSize` bytes in buffer order. |
| `ImageIO.WriteImageToFile` | src/util/image.cc:60 | The writer records `8 * (size / (w*h))` bits per pixel. |
| `ImageIO.EncodingLayout` | src/util/image.cc:46-67 | Header fields: `'B'`, `'M'`, `fileSize = 54 + size` (32-bit), reserved 0, offset 54, header size 40, width, height, 1 plane, the given depth, and 0 in every other field. |
| `ImageIO.EncodingParts` | src/util/image.cc:68-71 | The file is 14 + 40 header bytes followed by exactly the first `height*rowSize` buffer bytes. |
| `ImageIO.RoundTrip` | src/util/image.cc:16-22 | When the buffer has exactly `height*rowSize < 2^32` bytes, decoding the written file gives back width, height and buffer. |
| `ImageIO.UnpaddedDepth` | src/util/image.cc:60 | For a `3*w*h` buffer the recorded depth is 24. |
| `ImageIO.PaddedDepth` | src/util/image.cc:60 | For a decoded, padded buffer the recorded depth is 32 for widths 1 to 3 and 24 otherwise. |
| `ImageIO.RewriteNarrowDepth` | src/util/image.cc:55-67 | Writing back a decoded image 1 to 3 pixels wide records 32 bits per pixel in the info header. |
| `ImageIO.ToGrayscale` | src/util/image.cc:74-89 | The result keeps the dimensions, and each of the three channels of pixel `p` holds `luma(b, g, r)` of input pixel `p`. |
| `ImageIO.GrayscaleLayout` | include/util/image.h:105-113 | The grayscale buffer has equal channels at every pixel, holds the luma of each input pixel, and is unpadded when `w*h` does not wrap. |
| `LegacyImageIO.WriteImageToFile` | src/image.cpp:43-71 | The older writer produces the same layout with a fixed depth of 24. |
| `LegacyImageIO.WrittenHeaders` | src/image.cpp:46-67 | The headers carry `'B'`, `'M'`, offset 54, `fileSize = 54 + size`, width, height and 24 bits per pixel, whatever the buffer length. |
| `LegacyImageIO.RoundTrip24` | src/image.cpp:16-22 | Decoding what the older writer wrote gives the image back when the buffer is in the padded layout, and the depth read is 24 for every width. |
| `PaddedOutput.UnpaddedRowsFit` | src/util/image.cc:68-71 | An unpadded buffer covers the `height*rowSize` bytes the writer copies if and only if the width is a multiple of 4 (or there are no rows). |
| `PaddedOutput.RowSizeExact` | src/util/image.cc:68 | A row needs no padding if and only if the width is a multiple of 4. |
| `PaddedOutput.PaddedRows` | src/util/image.cc:19-20 | Padding the rows of an unpadded buffer gives `rows * rowSize` bytes. |
| `PaddedOutput.PaddedRowsAt` | src/util/image.cc:69-70 | Byte `k` of padded row `i` is byte `k` of unpadded row `i`, or 0 in the padding. |
| `PaddedOutput.PaddedWriter` | src/image.cpp:68-71 | The corrected writer pads each row of an unpadded buffer and writes it with 24 bits per pixel, reading only inside the buffer. |
| `PaddedOutput.PaddedRoundTrip` | src/util/image.cc:6-23 | Reading back the corrected writer's file gives the dimensions and every channel of every pixel at its padded position, with zero padding. |

## Left out

- File I/O is not modelled. Opening, seeking and writing streams become functions and methods on byte sequences, and the "could not be read" message is not modelled. A file that cannot be opened leaves the fields uninitialised; the model has no counterpart for it. A file shorter than the two headers decodes to `Unreadable`.
- Floating point is not modelled. The weights are exact reals. The weight formula `exp(-(i*i)/(2σ²)/(2πσ²))` is a caller-supplied positive function `gauss` of `i*i`, and sums are exact. Rounding of `double` accumulation is not captured.
- The grayscale weights `0.114 b + 0.587 g + 0.299 r` in `float` are an abstract `luma` function.
- `Math.ISqrt` stands for `(int)std::sqrt` of an exact integer. That the library square root of an integer below `2^31` truncates to the floor root is assumed, not proved.
- 32-bit wrap-around of the filters' index and size expressions is not modelled; indices are unbounded integers. In the convolutions `width` and `height` are `int`, so `3 * height * width` and `3 * (i * width + j)` could overflow as signed values. In the three edge operators they are `unsigned int`, so `3 * height * width` wraps without undefined behaviour; on an image that large the output vector is too short and the loops write past its end. The codec's unsigned 32-bit row size, the decoder's buffer size `height * rowSize`, the pixel count, the file size and the 16-bit depth are modelled with explicit wrap-around; the writer's row offset `i * rowSize` is not (see `ImageIO.WriteBitmap` below).
- EdgeDetection.RobertsOperator: requires width and height of at least 1, because `height - 1` and `width - 1` on unsigned values wrap for an empty image. It also requires `Covers`, a buffer of at least `3*w*h` bytes. The source writes only the pixels it computes (rows below `h-1`, columns below `w-1`) and reads only their 2x2 windows, which also take in row `h-1` and column `w-1`; so with width 1 or height 1 it reads nothing and returns `3*w*h` zero bytes whatever the buffer holds, for example on `Image(1, 5, [])`. The model does not cover those inputs; on other short buffers the source reads out of bounds.
- EdgeDetection.ApplyGradient: requires width and height of at least 1 and `Covers`, for the same reasons. The source reads only the windows of inner pixels, so with width or height below 3 it returns `3*w*h` zero bytes whatever the buffer holds; the model does not cover short buffers of that kind.
- EdgeDetection.PrewittOperator: requires the same as `ApplyGradient`, for the same reasons.
- EdgeDetection.SobelOperator: requires the same as `ApplyGradient`, for the same reasons.
- ImageIO.WriteImageToFile: requires `width * height` to be nonzero modulo `2^32`, because the source divides by it when it computes the depth; an empty image, or one whose area wraps to 0, is a division by zero there. It also requires the two bounds of `ImageIO.WriteBitmap`, which it calls.
- Smoothing.GaussianKernel: requires an odd `size`, because for an even `size` the first loop runs `i` up to `size / 2` and writes `kernel[size]`, one past the end; for `size` 0 it writes `kernel[0]` of an empty vector.
- Smoothing.HorizontalConvolution: requires an odd-length kernel, because for an even length the tap loop reads `kernel[size]` and for an empty kernel it reads `kernel[0]`. It also requires `Covers`, because the source reads every pixel and reads out of bounds on a shorter buffer.
- Smoothing.VerticalConvolution: requires the same as `HorizontalConvolution`, for the same reasons.
- Smoothing.GaussianSmooth: requires an odd `kernelSize` and `Covers`, because it builds its kernel with `GaussianKernel` and passes the image to the convolutions.
- ImageIO.SolidColor: requires `3 * N < 2^32` for the 32-bit pixel count `N`, because the source sizes the buffer by the wrapped product and then writes past it.
- ImageIO.ToGrayscale: requires the buffer to hold `3 * N` bytes, because the source reads past a shorter buffer.
- ImageIO.WriteBitmap: requires the buffer to hold `height * rowSize` bytes, because the source copies that many and reads past a shorter buffer (see Findings). It also requires `height * rowSize <= 2^32`, so no unsigned row offset `i * rowSize` wraps; when one does, the source copies a row from the wrapped offset, and the model does not cover those inputs.
- LegacyImageIO.WriteImageToFile: requires the same two bounds, for the same reasons.
- Smoothing.VSumColumnLocal: is stated for two images of equal width and height, not for images of different widths.
- The 3x3 loops are one method, `EdgeDetection.ApplyGradient`, which Prewitt and Sobel call with their kernels. In the source they are two copies of the same loop.
- The getters are not modelled as members. `getWidth`, `getHeight` and `getPixels` are the datatype's field selectors.
- The drivers (`app/main.cc`, `app/main.cpp`, `src/main.cpp`) only sequence calls and write files. The declaration-only headers and the Canny steps listed but never implemented (non-maximum suppression, hysteresis) are not part of this model.

## Findings

| source | as written | input that shows it | evidently intended | confidence | as-written member | corrected member |
|---|---|---|---|---|---|---|
| src/util/image.cc:60 | `bitsPerPixel = 8 * (pixels.size() / (width * height))` counts the row padding of a decoded buffer as pixel data | A 24-bit file 2 pixels wide and 1 high decodes to an 8-byte row (6 pixel bytes and 2 of padding); writing it back records 32 bits per pixel, so a reader takes the row as two 4-byte pixels and reads the second pixel from the wrong bytes | The 24-bit depth the rows actually have, as `src/image.cpp:60` writes | not executed | `ImageIO.RewriteNarrowDepth` | `LegacyImageIO.RoundTrip24` |
| src/util/image.cc:68-71 | The writer copies `height` rows of `rowSize` bytes, but the filters return unpadded `3*w*h` buffers (`app/main.cc` writes them) | Writing the 3-byte Roberts output of a 1x1 image copies 4 bytes, one past the end of the buffer | Pad each row of an unpadded buffer while writing it | not executed | `PaddedOutput.UnpaddedRowsFit` | `PaddedOutput.PaddedWriter` |
