# imagecraft: BMP codec and image filters, modelled in Dafny

The repository is a command-line image processor. It reads a 24-bit
uncompressed BMP file, runs a chain of filters named on the command line
and writes the result back as a BMP. Two pixel models sit side by side in
its sources, and this model keeps them apart:

- **Float variant** (`include/image.h`, `src/filter_factory.cpp`,
  `src/filters/gs.cpp`, `src/filters/neg.cpp`). An `Image` of `Pixel`s with
  three `double` channels in [0, 1]. Access goes through the bounds-checked
  `At(x, y)`. The filters return a new image: crop, grayscale, negative,
  convolution with the sharpen kernel, Laplacian edge detection and median.
  `CreateFilters` builds these filters from the command-line tokens.
- **8-bit variant** (`src/image.cpp`, `include/utils.h`,
  `src/filters/{crop,med,edge,hist_eq}.cpp`). An `Image` with `int` sizes,
  `GetPixel`/`SetPixel` and channels in 0..255. Its filters work in place:
  crop, median by radius, an integer Laplacian edge detector and histogram
  equalisation.

The BMP codec (`src/bmp.cpp`) is modelled as two pure functions over byte
sequences, `Bmp.Decode` and `Bmp.Encode`. Pixels are the bytes stored in
the file.

Modules:

| file | module | models |
|---|---|---|
| errors.dfy | `Errors` | the exceptions as an `Error` value; `Result` and `Option` |
| little_endian.dfy | `LittleEndian` | packed little-endian `uint16_t`/`uint32_t`/`int32_t` fields |
| grid.dfy | `Grid` | row-major index `y*width+x` |
| raster.dfy | `Raster` | the `Image`/`Pixel` of include/image.h, generic in the channel type |
| bmp.dfy | `Bmp` | `ReadBmp`/`WriteBmp` as `Decode`/`Encode` |
| byte_image.dfy | `ByteImage` | the `Image` of src/image.cpp: `int` sizes, `size_t` flat-index check |
| utils.dfy | `Utils` | include/utils.h: clamps, clamped access, 8-bit luma, Gaussian kernel shape |
| rank.dfy | `Rank` | `std::nth_element` as rank selection |
| crop8.dfy, median8.dfy, edge8.dfy, hist_eq8.dfy | `Crop`, `Median`, `Edge`, `HistEq` | the in-place 8-bit filters |
| float_helpers.dfy | `FloatHelpers` | `ClampIndex`, `ClampPixel01`, luma, edge-replicating neighbours |
| float_filters.dfy | `FloatFilters` | factory crop, grayscale, negative and median; blur validation |
| convolution.dfy | `Convolution` | factory convolution, sharpen and edge |
| gs_neg.dfy | `PlainFilters` | the stand-alone unclamped grayscale and negative |
| filter_parser.dfy | `FilterParser` | `CreateFilters` |

Channels of the float variant are exact `real`s rather than IEEE doubles.
Integer widths are modelled where they matter:
- the `int32_t` header fields;
- the `uint32_t` `bfSize`/`biSizeImage` casts;
- the `size_t` wrap of the flat index in `GetPixel`/`SetPixel`.

Exceptions become `Err` values. `ToInt`/`ToDouble` become parameters
returning `Option`.

## Model

| member | source | states |
|---|---|---|
| LittleEndian.U16BytesOfU16 | src/bmp.cpp:9-16 | re-serialising a parsed `uint16_t` field gives back its two bytes |
| LittleEndian.U32BytesOfU32 | src/bmp.cpp:9-16 | re-serialising a parsed `uint32_t` field gives back its four bytes |
| LittleEndian.I32BytesOfI32 | src/bmp.cpp:18-30 | re-serialising a parsed `int32_t` field gives back its four bytes (two's complement) |
| LittleEndian.I32 | src/bmp.cpp:20-21 | an `int32_t` field lies in [-2^31, 2^31) and agrees with the unsigned reading modulo 2^32 |
| LittleEndian.ToUint32 | src/bmp.cpp:136 | `static_cast<uint32_t>` is below 2^32 and is the identity on values that fit |
| LittleEndian.ToInt32 | src/bmp.cpp:139-140 | `static_cast<int32_t>` lies in the int32 range, is the identity below 2^31 and agrees modulo 2^32 |
| Bmp.FileHeaderRoundTrip | src/bmp.cpp:10-16 | parsing the 14 packed bytes of a file header gives back its fields |
| Bmp.FileHeaderBytesRoundTrip | src/bmp.cpp:10-16 | every 14-byte sequence is the serialisation of the header parsed from it |
| Bmp.InfoHeaderRoundTrip | src/bmp.cpp:18-30 | parsing the 40 packed bytes of an info header gives back its fields |
| Bmp.InfoHeaderBytesRoundTrip | src/bmp.cpp:18-30 | every 40-byte sequence is the serialisation of the info header parsed from it |
| Bmp.Stride | src/bmp.cpp:83-85 | the row stride is a multiple of 4 and exceeds 3*width by 0..3 bytes of padding |
| Bmp.RowMapInvolution | src/bmp.cpp:92-93 | the stored-row to image-row map (identity top-down, height-1-y bottom-up) is its own inverse, so a bijection |
| Bmp.Decode | src/bmp.cpp:43-117 | fewer than 54 bytes, a signature other than 0x4D42, an info size other than 40, planes other than 1, a depth other than 24, compression other than 0, width <= 0 or height == 0, and a missing pixel byte each give their own error, in that order; otherwise the result has the declared width and the magnitude of the declared height |
| Bmp.DecodedPixel | src/bmp.cpp:87-107 | the pixel at column x of stored row y is read from bfOffBits + y*stride + 3x in B, G, R order and lands in image row RowMap(y) |
| Bmp.DecodeAccepted | src/bmp.cpp:58-116 | accepted headers with every pixel byte present decode to the pixels read from bfOffBits |
| Bmp.Encode | src/bmp.cpp:119-176 | an image with width or height 0 is rejected; otherwise the output is 54 + stride*height bytes |
| Bmp.EncodedHeader | src/bmp.cpp:131-144 | the written signature, bfSize (the output length), bfOffBits 54, info size 40, width, positive height, 1 plane, 24 bits, compression 0 and biSizeImage = stride*height |
| Bmp.EncodedPixel | src/bmp.cpp:156-168 | file row y, column x holds image row height-1-y in B, G, R order |
| Bmp.EncodedPadding | src/bmp.cpp:154-170 | every padding byte of every row is zero |
| Bmp.EncodingAccepted | src/bmp.cpp:119-144 | the bytes written for a non-empty image pass every header check of the reader, as a bottom-up file with pixel data at 54 |
| Bmp.EncodeDecodeRoundTrip | src/bmp.cpp:43-176 | decoding the encoding of a non-empty image gives back the same image |
| Grid.IndexInBounds | include/image.h:27 | an in-range (x, y) addresses an element below width*height |
| Grid.IndexInjective | include/image.h:27 | distinct in-range coordinate pairs address distinct elements |
| Grid.IndexSurjective | include/image.h:17-18 | every element of the width*height buffer is addressed by some in-range pair |
| Raster.New | include/image.h:17-18 | `Image(w, h)` holds exactly w*h pixels, all black |
| Raster.EmptyHasNoPixels | include/image.h:15 | the default image has no pixel: every access is out of range |
| Raster.At | include/image.h:23-35 | `At(x, y)` fails with out_of_range exactly when x >= width or y >= height, and otherwise reads element y*width+x |
| Raster.Set | include/image.h:23-28 | writing through `At(x, y)` changes that pixel and no other |
| Raster.Extensionality | include/image.h:17-40 | two images with the same sizes and the same pixel at every coordinate are equal |
| ByteImage.New | src/image.cpp:5-12 | a negative width or height is rejected: with `length_error` when the other side is positive, since the buffer is sized first, and with the negative-size error otherwise; a valid size gives an image of w*h black pixels |
| ByteImage.AllocCountOfInts | src/image.cpp:7-9 | with a negative side, the wrapped `size_t` element count reaches 2^63 exactly when the other side is positive, and two negative sides wrap back to their product |
| ByteImage.GetPixel | src/image.cpp:17-19 | access succeeds exactly when y*width+x lies in 0..width*height-1, and reads that element |
| ByteImage.SetPixel | src/image.cpp:21-23 | succeeds under the same condition; writes element y*width+x and leaves every other element alone |
| ByteImage.SetThenGet | src/image.cpp:17-23 | `GetPixel` after a successful `SetPixel` at the same place returns the value written |
| ByteImage.SetKeepsOthers | src/image.cpp:21-23 | `SetPixel` leaves the pixel at every other in-range coordinate unchanged |
| ByteImage.GetInRange | src/image.cpp:14-19 | an in-range (x, y) reads flat element y*width+x |
| ByteImage.ColumnOverflow | src/image.cpp:17-19 | the check is on the flat index only: column x >= width of row y reads column x-width of row y+1 |
| ByteImage.FlatIndexOfInts | src/image.cpp:18 | the `size_t` flat index equals y*width+x when that is non-negative and wraps to a huge value when it is negative |
| Utils.ClampInt | include/utils.h:10-12 | lies in [lo, hi] when lo <= hi, is v inside the range and the nearer end outside it |
| Utils.ClampU8 | include/utils.h:14-18 | the identity on 0..255, 0 below and 255 above |
| Utils.ClampU8Monotone | include/utils.h:14-18 | ClampU8 preserves order |
| Utils.Luma8 | src/filters/hist_eq.cpp:25 | lround of 0.299r+0.587g+0.114b: a level 0..255 within half a unit of the exact weighted sum |
| Utils.Luma8OfGray | src/filters/edge.cpp:22-24 | a gray pixel has its own level as luma |
| Utils.Luma8Monotone | src/filters/hist_eq.cpp:25 | a pixel no brighter in any channel has no higher luma |
| Utils.GetClamped | include/utils.h:24-28 | on a non-empty image never fails, for any integers x, y, and reads the nearest in-range pixel; on an empty image it fails |
| Utils.GetClampedInRange | include/utils.h:24-28 | in range, GetClamped is GetPixel |
| Utils.GetClampedEdges | include/utils.h:24-28 | x < 0 reads column 0, x >= w column w-1, and likewise for rows |
| Utils.GaussianKernel1D | include/utils.h:30-45 | sigma <= 0 gives exactly [1.0]; a size 2*ceil(3 sigma)+1 that overflows `int` gives `length_error`; otherwise 2*ceil(3 sigma)+1 positive weights, each the raw weight divided by their sum, summing to 1 |
| Utils.SigmaLimit | include/utils.h:34-36 | every sigma in (0, 357913941] sizes its kernel, and every sigma in (357913941, 715827882] overflows the `int` size |
| Rank.Sort | src/filter_factory.cpp:331-333 | the output is ordered by the key and is a permutation of the input |
| Rank.Select | src/filters/med.cpp:39-43 | the element `nth_element` leaves at position k is an element of the input with at most k elements below it and more than k at or below it |
| Rank.RankUnique | src/filter_factory.cpp:331-333 | any two elements of rank k have the same key, so the result does not depend on how ties are broken |
| Rank.SelectBounds | src/filters/med.cpp:39-43 | the selected element lies within any bounds every input element lies within |
| Crop.Apply | src/filters/crop.cpp:11-27 | a negative requested size fails in the `Image` constructor, with `length_error` when the other output side is positive; otherwise the output is min(requested, old) on each axis and every output pixel is the input pixel at the same place |
| Crop.CropCoversImage | src/filters/crop.cpp:15-26 | a requested size at least the image size leaves the image unchanged |
| Crop.CropIdempotent | src/filters/crop.cpp:15-26 | cropping twice with the same filter is cropping once |
| Crop.CropToZero | src/filters/crop.cpp:7-18 | the constructor accepts a requested width of 0, and it gives an image with no pixels |
| Median.MakeMedian | src/filters/med.cpp:11-13 | a negative radius is rejected; radius 0 is accepted |
| Median.Window | src/filters/med.cpp:31-38 | the window holds (2r+1)^2 samples, and the one at column i, row j is the clamped pixel at offset (i-r, j-r) |
| Median.WindowOrder | src/filters/med.cpp:31-38 | sample (dx, dy) of the window is the clamped pixel at (x+dx, y+dy), rows of dy outermost |
| Median.MedianPixel | src/filters/med.cpp:39-44 | each channel, chosen independently, is an element of rank size/2 among that channel's samples |
| Median.Apply | src/filters/med.cpp:15-49 | the filter fails with `length_error` exactly when the reserved capacity (2r+1)^2, computed in wrapping 32-bit `int`, is negative; otherwise dimensions are kept and each output pixel is the median pixel of its window |
| Median.RadiusLimit | src/filters/med.cpp:24 | every radius below 23170 reserves (2r+1)^2 and succeeds, and radius 23170 overflows and fails |
| Median.MedianWithinWindow | src/filters/med.cpp:39-43 | each output channel lies within the bounds of its window's channel values |
| Median.RadiusZeroIdentity | src/filters/med.cpp:24-44 | radius 0 succeeds and leaves the image unchanged |
| Median.UniformUnchanged | src/filters/med.cpp:31-44 | a uniform image is unchanged for every radius the filter accepts |
| Edge.MakeEdge | src/filters/edge.cpp:10-12 | thresholds outside [0, 1] are rejected |
| Edge.Gray | src/filters/edge.cpp:18-26 | the gray image keeps the dimensions, and each pixel is its clamped luma in all three channels |
| Edge.Response | src/filters/edge.cpp:32-38 | the Laplacian 4c-l-r-u-d of clamped neighbours lies in [-1020, 1020] |
| Edge.Strength | src/filters/edge.cpp:39 | the response clamped to 0..255 and divided by 255 lies in [0, 1] |
| Edge.Apply | src/filters/edge.cpp:14-46 | dimensions are kept; a pixel is white when its strength exceeds the threshold and black otherwise |
| Edge.WhiteIffResponseAbove | src/filters/edge.cpp:38-40 | for a threshold below 1, a pixel is white exactly when its Laplacian exceeds 255*t |
| Edge.ThresholdOneAllBlack | src/filters/edge.cpp:39-40 | with t = 1 every pixel is black |
| Edge.FlatResponse | src/filters/edge.cpp:38 | where the four neighbours equal the centre, the response and strength are 0 |
| Edge.UniformAllBlack | src/filters/edge.cpp:30-43 | a uniform image becomes all black for every accepted threshold |
| HistEq.LevelsOrder | src/filters/hist_eq.cpp:22-28 | `lum` holds the clamped luma of every pixel in row-major order |
| HistEq.CdfShape | src/filters/hist_eq.cpp:16-37 | the 256 buckets sum to n = w*h, the CDF is non-decreasing and cdf[255] = n |
| HistEq.CdfCountsAtMost | src/filters/hist_eq.cpp:32-37 | cdf[i] counts the pixels of luma at most i |
| HistEq.CdfMinAtSmallest | src/filters/hist_eq.cpp:39-45 | the first occupied bucket is the smallest luma, cdf_min is the CDF there, and cdf_min >= 1 |
| HistEq.CdfAtLeastMin | src/filters/hist_eq.cpp:39-52 | every occupied level has cdf >= cdf_min, so the numerator is never negative |
| HistEq.Round255 | src/filters/hist_eq.cpp:52-53 | lround(255*a/b) for 0 <= a <= b: within half a unit of 255a/b and at most 255 |
| HistEq.Round255Monotone | src/filters/hist_eq.cpp:52-53 | rounding preserves order |
| HistEq.RemappableIffTwoLevels | src/filters/hist_eq.cpp:52 | n > cdf_min exactly when the image has two distinct luma levels |
| HistEq.Apply | src/filters/hist_eq.cpp:11-59 | dimensions are kept and every output pixel is the equalised value of its luma |
| HistEq.Equalised | src/filters/hist_eq.cpp:49-56 | each output pixel has r = g = b, equal to the remapped level of its own luma |
| HistEq.SmallestMapsToZero | src/filters/hist_eq.cpp:52-53 | pixels of the smallest luma map to 0 |
| HistEq.LargestMapsTo255 | src/filters/hist_eq.cpp:52-53 | pixels of the largest luma map to 255 |
| HistEq.RemapMonotone | src/filters/hist_eq.cpp:52 | a lower input luma never yields a higher output |
| FloatHelpers.ClampIndex | src/filter_factory.cpp:44-48 | lo below the range, hi above it, v inside; always in [lo, hi] |
| FloatHelpers.Clamp01 | src/filter_factory.cpp:51-53 | `std::clamp(v, 0, 1)`: in [0, 1], the identity there, 0 below and 1 above |
| FloatHelpers.ClampPixel01 | src/filter_factory.cpp:50-55 | every channel clamped on its own into [0, 1]; a pixel already in range is unchanged |
| FloatHelpers.LumaBounds | src/filter_factory.cpp:90 | the luma weights sum to 1: a gray pixel's luma is its level, and a [0, 1] pixel has luma in [0, 1] |
| FloatFilters.MakeCrop | src/filter_factory.cpp:59-63 | a width or height <= 0 is rejected |
| FloatFilters.Crop | src/filter_factory.cpp:65-76 | the output is min(W, w) x min(H, h) and equals the top-left region of the source |
| FloatFilters.CropCoversImage | src/filter_factory.cpp:65-76 | a crop at least as large as the image leaves it unchanged |
| FloatFilters.CropIdempotent | src/filter_factory.cpp:65-76 | cropping twice is cropping once |
| FloatFilters.Grayscale | src/filter_factory.cpp:83-96 | dimensions are kept and each pixel becomes its clamped luma in all three channels |
| FloatFilters.GrayscaleIsGray | src/filter_factory.cpp:90-91 | every output pixel has r = g = b and lies in [0, 1] |
| FloatFilters.GrayscaleIdempotent | src/filter_factory.cpp:83-96 | grayscale twice is grayscale once |
| FloatFilters.Negative | src/filter_factory.cpp:98-113 | dimensions are kept, the output lies in [0, 1] and each pixel is the clamped 1 - c of the source |
| FloatFilters.InvertInvolution | src/filter_factory.cpp:105-107 | 1 - (1 - c) = c on every channel |
| FloatFilters.NegativeInvolution | src/filter_factory.cpp:98-113 | on a [0, 1] image, negative twice is the image itself |
| FloatFilters.MakeMedian | src/filter_factory.cpp:287-291 | a window <= 0 or even is rejected |
| FloatFilters.Buffer | src/filter_factory.cpp:316-329 | the buffer holds window^2 samples, and the one at column i, row j is the channel of the clamped neighbour at offset (i-r, j-r) |
| FloatFilters.BufferOrder | src/filter_factory.cpp:319-327 | sample (dx, dy) of the buffer is the channel of the clamped neighbour at that offset |
| FloatFilters.MedianChannel | src/filter_factory.cpp:316-334 | the channel median is a buffer element of rank size/2 |
| FloatFilters.Median | src/filter_factory.cpp:293-313 | the filter fails with `length_error` exactly when the reserved capacity window^2, computed in wrapping 32-bit `int`, is negative; otherwise dimensions are kept and each output pixel is the clamped per-channel median of its window |
| FloatFilters.WindowLimit | src/filter_factory.cpp:298 | every window below 46341 reserves window^2 and succeeds, and window 46341 overflows and fails |
| FloatFilters.MedianWithinWindow | src/filter_factory.cpp:331-333 | each output channel lies within the bounds of its window |
| FloatFilters.MedianUniform | src/filter_factory.cpp:293-334 | a uniform [0, 1] image is unchanged for every window the filter accepts |
| FloatFilters.MedianWindowOne | src/filter_factory.cpp:293-334 | window 1 succeeds and leaves a [0, 1] image unchanged |
| FloatFilters.MakeBlur | src/filter_factory.cpp:212-217 | a sigma that is not > 0 is rejected; a positive sigma whose kernel size overflows `int` in `BuildKernel` gives `length_error` |
| FloatFilters.BlurLimit | src/filter_factory.cpp:262-265 | every sigma in (0, 357913941] is accepted, and every sigma in (357913941, 715827882] fails with `length_error` |
| Convolution.MakeConvolution | src/filter_factory.cpp:117-131 | an empty kernel, ragged rows and an even height or width are rejected, with the first failing check deciding the error; everything else is accepted |
| Convolution.SumFlatten | src/filter_factory.cpp:143-157 | the sum over the whole kernel window is the sum of its row sums |
| Convolution.MatrixSingle | src/filter_factory.cpp:143-157 | a product matrix that is zero except at one entry sums to that entry |
| Convolution.Convolve | src/filter_factory.cpp:133-164 | dimensions are kept, the output lies in [0, 1] and each pixel is the clamped weighted sum over its clamped neighbourhood |
| Convolution.IdentityKernelUnchanged | src/filter_factory.cpp:133-164 | a kernel that is 0 except a 1 at the centre leaves a [0, 1] image unchanged |
| Convolution.AccUniform | src/filter_factory.cpp:143-157 | on a uniform image the weighted sum is the channel times the kernel's weight sum |
| Convolution.UniformUnitWeight | src/filter_factory.cpp:143-159 | a kernel whose weights sum to 1 maps a uniform image to its clamped value |
| Convolution.UniformZeroWeight | src/filter_factory.cpp:143-159 | a kernel whose weights sum to 0 maps a uniform image to black |
| Convolution.FixedKernelsAccepted | src/filter_factory.cpp:170-192 | the sharpen and Laplacian kernels pass the constructor's checks |
| Convolution.FixedKernelWeights | src/filter_factory.cpp:170-192 | the sharpen weights sum to 1 and the Laplacian weights to 0 |
| Convolution.Sharpen | src/filter_factory.cpp:170-178 | sharpening keeps dimensions and stays in [0, 1] |
| Convolution.SharpenUniform | src/filter_factory.cpp:170-178 | a uniform [0, 1] image is unchanged by sharpening |
| Convolution.Edge | src/filter_factory.cpp:184-204 | each output pixel is white when the red channel of the Laplacian of the grayscale exceeds t, black otherwise |
| Convolution.EdgeBinary | src/filter_factory.cpp:199-200 | every output pixel is (1,1,1) or (0,0,0) |
| Convolution.GrayscaleUniform | src/filter_factory.cpp:83-96 | the grayscale of a uniform image is uniform |
| Convolution.EdgeUniformBlack | src/filter_factory.cpp:184-204 | a uniform image with t >= 0 becomes all black |
| PlainFilters.Grayscale | src/filters/gs.cpp:5-17 | dimensions are kept and each pixel becomes 0.299r+0.587g+0.114b in all three channels, unclamped |
| PlainFilters.GrayPixelUnchanged | src/filters/gs.cpp:11-12 | a gray pixel keeps its value |
| PlainFilters.GrayscaleIdempotent | src/filters/gs.cpp:11-12 | grayscale twice is grayscale once |
| PlainFilters.GrayscaleUnit | src/filters/gs.cpp:11 | a [0, 1] image stays in [0, 1], and there the filter agrees with the factory's clamped grayscale |
| PlainFilters.Negative | src/filters/neg.cpp:5-16 | dimensions are kept and each channel becomes 1 - c, unclamped |
| PlainFilters.NegativeInvolution | src/filters/neg.cpp:11 | negative twice is the image itself, for every image |
| PlainFilters.NegativeUnit | src/filters/neg.cpp:11 | a [0, 1] image stays in [0, 1], and there the filter agrees with the factory's clamped negative |
| FilterParser.ArgumentCounts | src/filter_factory.cpp:352-401 | "-crop" needs two argument tokens and "-edge", "-blur" and "-med" one, or the factory raises |
| FilterParser.BareFilters | src/filter_factory.cpp:352-401 | "-gs", "-neg" and "-sharp" take no arguments: each alone parses to its filter |
| FilterParser.Lookup | src/filter_factory.cpp:352-403 | a token the factory recognises names exactly the operation found for it |
| FilterParser.LookupName | src/filter_factory.cpp:352-401 | every operation is recognised under its own name |
| FilterParser.ParseInt | src/filter_factory.cpp:16-28 | a text `ToInt` rejects gives the invalid-integer error naming that text |
| FilterParser.ParseReal | src/filter_factory.cpp:30-42 | a text `ToDouble` rejects gives the invalid-double error naming that text |
| FilterParser.ParseOne | src/filter_factory.cpp:352-401 | a filter built for an operation is of the kind that operation selects and has passed its constructor's check |
| FilterParser.Parse | src/filter_factory.cpp:348-406 | no tokens give no filters; an unknown first token and a missing argument raise; a successful parse consumes every token and starts with the filter the first token names; every parsed filter has passed its constructor's check |
| FilterParser.CreateFilters | src/filter_factory.cpp:341-344 | a start index outside [0, argc] raises; otherwise the tokens from the start index are parsed |
| FilterParser.UnknownOperations | src/filter_factory.cpp:403 | "-gamma" and "-hist_eq" are rejected as unknown filters |
| FilterParser.ParseRender | src/filter_factory.cpp:348-406 | the tokens naming any list of constructible filters parse back to that list, provided `ToInt`/`ToDouble` read back the numbers the filters carry (crop sizes, median window, edge threshold, blur sigma) |
| FilterParser.ParseConcat | src/filter_factory.cpp:348-406 | two token runs that each parse also parse when joined, to the filters of the first followed by those of the second |

## Left out

- File and stream plumbing of `ReadBmp`/`WriteBmp`: opening files, `seekg`, and the write failure check. Both functions work on an in-memory byte sequence instead.
- Bmp.Decode: a missing padding run after the last row is accepted, because `ignore` at end of file sets only eofbit. The model therefore demands only the pixel bytes.
- Bmp.Decode: a `bfOffBits` past the end of the data fails only as a missing pixel byte. `seekg` past the end does not fail by itself.
- Bmp.Decode: a declared height of -2^31 is read as 2^31 rows. In the source, negating it overflows `int`.
- `ToByte`/`ToFloat` (src/bmp.cpp:33-41): the float scaling between bytes and [0, 1] is left out. Codec pixels are the stored bytes.
- Luma: `lround` of a weighted sum of doubles is modelled exactly over the rationals. Ties and rounding at the last bit of a double are not claimed bit-exact. The same holds for the division by 255.0 in Edge.Strength and the comparison with the threshold in Edge.Apply and Edge.WhiteIffResponseAbove. A threshold that is the double nearest k/255 can compare equal to a response of k in the source, where the model compares it with the exact k/255.
- Float channels are exact reals. Involution and idempotence of grayscale and negative hold over reals, not necessarily over IEEE doubles. NaN and infinite values, including a NaN edge threshold or sigma, are not modelled.
- Gaussian blur: `GaussianBlurFilter::Apply` and the weights its `BuildKernel` computes are left out, and so are the `exp` weights of `GaussianKernel1D`. They need `exp`, `ceil` and `lround` on doubles.
  - Utils.GaussianKernel1D takes the weight function as a positive parameter, and its shape is proved for every such weight.
  - Of the factory blur, only the constructor's checks in `MakeBlur` are modelled: the sigma check and the `length_error` of a kernel size that overflows `int`.
- Utils.GaussianKernel1D: the source computes `-(i * i)` in `int`, which overflows once |i| exceeds 46340, that is for sigma above about 15446.67; the weights there are not the bell curve. The model takes the weights as a parameter, positive on offsets -r .. r, and does not model that overflow.
- Utils.GaussianKernel1D and FloatFilters.MakeBlur: once ceil(3 sigma) reaches 2^31, that is for sigma above 715827882, its conversion to `int` is undefined behaviour in C++. The model accepts those sigmas and builds the 2*ceil(3 sigma)+1 weights. The overflow of `2 * radius + 1` below that range is modelled as the two's-complement wrap.
- `gamma.cpp` is not part of this model, because it depends on `pow` on doubles.
- HistEq.Apply: requires n > cdf_min, or an empty image. For a uniform non-empty image the source divides 0 by 0 and passes NaN to `lround`; no result is modelled for that case. HistEq.RemappableIffTwoLevels characterises the precondition.
- HistEq.CdfShape: the `uint32_t` histogram and CDF are unbounded counts. Images of 2^32 pixels or more are not modelled.
- `ToInt`/`ToDouble` (src/filter_factory.cpp:16-42) are parameters returning `Option`. Their `stoi`/`stod` parsing is not modelled.
- The filter loop of `main.cpp` (src/main.cpp:36-43) is not modelled, and neither is argv handling, usage text or exit codes. The blur filter it would fold over has no modelled `Apply`.
- Header-only declarations such as `filter.h` and `bmp.h` are not part of this model. Their interfaces disagree with the sources.
- `sharp.cpp` and its `MatrixFilter` are not part of this model. Sharpen is convolution with the kernel at src/filter_factory.cpp:173-177.
- ByteImage.New: when both sides are negative, `size_t(w)*size_t(h)` wraps back to |w|*|h|, and the buffer of that many pixels is sized before the check. A count above the vector's `max_size` (for instance -2^31 by -2^31) throws `length_error`, and a large one may fail to allocate. The model gives the negative-size error for every such pair; only counts of 2^63 or more, which every `max_size` rules out, are modelled as `length_error`.
- Crop.Apply: inherits the ByteImage.New line above for a crop with both output sides negative.
- Memory exhaustion is not modelled: a buffer or a reserved capacity small enough for `max_size` is assumed to allocate.
- Raster.New: the image holds w*h pixels for every pair of sizes. In the source, the `size_t` product at include/image.h:18 wraps modulo 2^64. A count above the vector's `max_size` (below 7.7e17 for the 24-byte `Pixel`) throws `length_error`, and neither case is modelled.
- Bmp.Decode: the image is constructed at src/bmp.cpp:81, after the header checks and before the pixels are read. A header declaring width*height above `max_size`, such as 2^31-1 by 2^31-1, throws `length_error` there. The model reports the missing pixel bytes instead (UnexpectedEof), since no file holds that many.
- ByteImage.New: for non-negative sizes, a count w*h above the vector's `max_size` (2^31-1 by 2^31-1 with libstdc++ and 3-byte pixels) throws `length_error` in the source. The model returns the image.
- FloatFilters.Median and Convolution.Convolve: the `long long` arithmetic of `x + dx` is unbounded here. It cannot overflow: x is below an image width and |dx| below 2^31.
- Median.Apply: the `int` sums `x + dx` and `y + dy` are unbounded here. In the source they overflow only when a coordinate plus the radius passes 2^31 - 1, which needs a radius near 2^31.
- Median.Apply and FloatFilters.Median: signed overflow of the reserved capacity is undefined behaviour in C++. The model takes the two's-complement wrap that compilers produce.
- `Luma01` (include/utils.h:20-22) is not modelled; no modelled code uses it.
- The factory `EdgeFilter` accepts every threshold, as its constructor does no check. Convolution.EdgeUniformBlack needs t >= 0.
