# bmptoascii in Dafny

A verified model of the C core of bmptoascii. That core decodes a 32-bit
Windows BMP held in a byte buffer and renders it as text: either one glyph
per pixel, or one glyph per square block of pixels when the image is wider
than the 140-column console.

The model has four modules:

- `Utilities` (`utilities.dfy`, models `include/utilities.h`):
  - the three palettes (27, 44 and 70 glyphs, in ascending luminance);
  - the `nudge` correction and the shared palette index rule;
  - the four primitive transformers;
  - the basic, tunable, penalizing and block mappers.
- `Bitmap` (`bitmap.dfy`, models `include/bitmap.h`):
  - the little-endian field extraction of `parse_fileheader` and `parse_infoheader`, with their all-zero rejections;
  - `get_pixel_order`;
  - the decode composition inside `bitmap_read`, taken after `open`.
  - It also has encoders for both headers. They are inverses used to state round trips.
- `Rendering` (`rendering.dfy`, the specification side of `include/tostring.h`):
  - the text each path must produce, as line-by-line concatenations;
  - what the buffer arithmetic relies on: line counts, line lengths, the block size and the block averages.
- `ToString` (`tostring.dfy`, the imperative side of `include/tostring.h`):
  - `to_raw_string`, `to_downscaled_string` and `to_string`;
  - each fills an `array<char>` through a caret, inside the source's nested loops;
  - each is proved to produce the `Rendering` text.

How numbers are modelled:

- C `float` and `double` become exact `real`. Converting a non-negative floating value to `unsigned` is truncation (`Utilities.Truncate`).
- In the renderer, the `double` block accumulators hold integer sums of channel bytes until the in-place division by `npixels_per_block` (include/tostring.h:126-128). The model keeps the sums as `nat` and the quotient as `real` (`Rendering.BlockAverage`).
- Bytes are `uint8` (`0..255`). Header fields are `uint16`/`uint32`. The height is a two's-complement `int32`.

Three behaviours of the code that the model keeps as written:

- The palette index uses `nudge` (include/utilities.h:139), which raises values below 1 to 1 and truncates the rest; no ceiling is used.
- An edge block is divided by the nominal `block_d * block_d` (include/tostring.h:72), not by its pixel count; the average still stays in [0, 255] (`Rendering.BlockAverage`).
- The weighted and "luminosity" transformers apply the red coefficient to blue and the blue coefficient to red (include/utilities.h:100 and 113).

## Model

| member | source | states |
|---|---|---|
| Utilities.Truncate | include/utilities.h:148 | the `(unsigned)` conversion of a non-negative value is the integer n with n <= v < n + 1 |
| Utilities.Nudge | include/utilities.h:139 | the result is at least 1; it is 1 for v < 1 and the truncation of v otherwise |
| Utilities.PaletteIndex | include/utilities.h:150 | the index rule equals the integer formula `offset == 0 ? 0 : max(1, offset * plength / 255) - 1` |
| Utilities.NudgePreventsNegativeIndex | include/utilities.h:122-139 | without nudge, offset 1 on the 70-glyph palette indexes -1; with nudge, every index is the naive one raised to at least 0 |
| Utilities.PaletteIndexInBounds | include/utilities.h:150 | for every offset in [0, 255] and every non-empty palette, the index is below the palette length |
| Utilities.PaletteIndexEndpoints | include/utilities.h:150 | offset 0 selects index 0 and offset 255 selects the last index |
| Utilities.PaletteIndexMonotone | include/utilities.h:74 | a larger offset never selects a smaller index (palettes ascend in luminance) |
| Utilities.ShippedPalettesAreSafe | include/utilities.h:75-86 | the palettes have 27, 44 and 70 glyphs, and every offset in [0, 255] indexes each of them in bounds |
| Utilities.Glyph | include/utilities.h:150 | the selected glyph is in the palette; offset 0 gives the first glyph and offset 255 the last |
| Utilities.Mean | include/utilities.h:95 | the arithmetic mean lies between the smallest and the largest channel |
| Utilities.Weighted | include/utilities.h:100 | the weighted average, with 0.299 on blue as written, lies between the smallest and the largest channel |
| Utilities.MinMax | include/utilities.h:106-108 | the min-max average lies between the smallest and the largest channel |
| Utilities.Luminosity | include/utilities.h:113 | the luminosity, with 0.2126 on blue as written, lies between the smallest and the largest channel |
| Utilities.Tunable | include/utilities.h:195-200 | with scales >= 0 summing to at most 1, the scaled sum is a channel value in [0, 255] |
| Utilities.GreyIsFixed | include/utilities.h:93-114 | every transformer maps a grey (v, v, v) to v |
| Utilities.ArithmeticAverage | include/utilities.h:93-96 | the offset is at most 255 and is the integer quotient of (b + g + r) by 3 |
| Utilities.WeightedAverage | include/utilities.h:99-101 | the offset is at most 255 and is the integer quotient of (299b + 587g + 114r) by 1000 |
| Utilities.MinmaxAverage | include/utilities.h:104-109 | the offset is at most 255 and equals (min + max) / 2 in integers |
| Utilities.LuminosityOf | include/utilities.h:112-114 | the offset is at most 255 and is the integer quotient of (2126b + 7152g + 722r) by 10000 |
| Utilities.TransformerEndpoints | src/test.c:42-56 | black gives 0 and white 255 under all four transformers; mid grey gives 128 in exact arithmetic |
| Utilities.ArithmeticMapper | include/utilities.h:143-151 | the glyph is in the palette; black maps to the first glyph and white to the last |
| Utilities.WeightedMapper | include/utilities.h:153-160 | the glyph is in the palette; black maps to the first glyph and white to the last |
| Utilities.MinmaxMapper | include/utilities.h:162-171 | the glyph is in the palette; black maps to the first glyph and white to the last |
| Utilities.LuminosityMapper | include/utilities.h:173-180 | the glyph is in the palette; black maps to the first glyph and white to the last |
| Utilities.TunableMapper | include/utilities.h:187-202 | under the asserted scale prerequisites the glyph is in the palette; black gives the first glyph, and white the last when the scales sum to 1 |
| Utilities.Penalize | include/utilities.h:227-229 | only a channel whose lower limit is below its upper limit can trigger penalization, and a channel value strictly inside such a band always does |
| Utilities.EqualLimitsNeverPenalize | include/utilities.h:210 | when each channel's two limits are equal, no pixel is penalized |
| Utilities.EqualLimitsIgnoreColour | include/utilities.h:210 | a colour whose two limits are equal never affects the penalize flag, whatever the other colours' limits |
| Utilities.Penalized | include/utilities.h:231-233 | the penalized offset never exceeds the unpenalized one; it equals it without penalization or with penalty 0; it is 0 with penalty 1 |
| Utilities.PenalizingArithmeticMapper | include/utilities.h:211-235 | the glyph is in the palette; an unpenalized pixel maps as under arithmetic_mapper; penalty 1 gives the first glyph |
| Utilities.PenalizingWeightedMapper | include/utilities.h:237-256 | the glyph is in the palette; an unpenalized pixel maps as under weighted_mapper; penalty 1 gives the first glyph |
| Utilities.PenalizingMinmaxMapper | include/utilities.h:258-279 | with the corrected `(min + max) / 2`: the glyph is in the palette; an unpenalized pixel maps as under minmax_mapper; penalty 1 gives the first glyph |
| Utilities.PenalizingLuminosityMapper | include/utilities.h:281-301 | the glyph is in the palette; an unpenalized pixel maps as under luminosity_mapper; penalty 1 gives the first glyph |
| Utilities.PenaltyNeverDenser | include/utilities.h:225-234 | with penalty in [0, 1], the penalized index is never above the unpenalized index |
| Utilities.MinMaxAsWritten | include/utilities.h:275-276 | the as-written `min + max / 2` is bounded only by 1.5 * 255 |
| Utilities.PenalizingMinmaxOffsetAsWritten | include/utilities.h:275-277 | the as-written penalized offset is bounded only by 382 |
| Utilities.PenalizingMinmaxAsWrittenOverruns | include/utilities.h:275-278 | as written, an unpenalized white pixel gets offset 382, which indexes 64 on the 44-glyph palette, past its end |
| Utilities.ArithmeticBlockmapper | include/utilities.h:307-317 | for channel averages in [0, 255] the glyph is in the palette; all-0 gives the first glyph and all-255 the last |
| Utilities.WeightedBlockmapper | include/utilities.h:319-328 | for channel averages in [0, 255] the glyph is in the palette; all-0 gives the first glyph and all-255 the last |
| Utilities.MinmaxBlockmapper | include/utilities.h:330-339 | for channel averages in [0, 255] the glyph is in the palette; all-0 gives the first glyph and all-255 the last |
| Utilities.LuminosityBlockmapper | include/utilities.h:341-350 | for channel averages in [0, 255] the glyph is in the palette; all-0 gives the first glyph and all-255 the last |
| Utilities.TunableBlockmapper | include/utilities.h:352-370 | under the asserted scale prerequisites the glyph is in the palette; all-0 gives the first glyph, and all-255 the last when the scales sum to 1 |
| Utilities.BlockmappersExtendPixelMappers | include/utilities.h:307-350 | each block mapper, given one pixel's channels, returns the glyph of the matching pixel mapper |
| Bitmap.LE16 | include/bitmap.h:55-56 | the `uint16_t` read at an offset has s[at] as its low byte and s[at + 1] as its high byte |
| Bitmap.LE32 | include/bitmap.h:36-38 | the `uint32_t` read at an offset has s[at + k] as its byte k, for k = 0 .. 3 |
| Bitmap.ToInt32 | include/bitmap.h:54 | the `int32_t` read of four bytes is the two's-complement value: congruent to the unsigned read mod 2^32, and negative iff the top bit is set |
| Bitmap.Int32RoundTrip | include/bitmap.h:54 | the signed and unsigned readings of a 32-bit field are mutually inverse |
| Bitmap.TagTestIsByteTest | include/bitmap.h:22-31 | the LE u16 read of bytes 0-1 equals `start_tag_le` iff byte 0 is 'B' and byte 1 is 'M' |
| Bitmap.ParseFileHeader | include/bitmap.h:27-40 | without the 'BM' tag the header is all zero; with it, bfType is 0x4D42, bfSize is LE u32 at offset 2 and bfOffBits LE u32 at offset 10; both reserved fields are always 0 |
| Bitmap.ParseInfoHeader | include/bitmap.h:42-65 | a size field above 40 gives the all-zero header; otherwise biSize is that field, at most 40; a negative height means byte 25 has its top bit set |
| Bitmap.FileHeaderReadsOnlyItsFields | include/bitmap.h:29-38 | the parsed file header depends only on bytes 0-5 and 10-13 |
| Bitmap.InfoHeaderReadsOnlyItsFields | include/bitmap.h:52-62 | the parsed info header depends only on bytes 14-53 |
| Bitmap.GetPixelOrder | include/bitmap.h:67-69 | the order is BOTTOMUP iff biHeight >= 0 |
| Bitmap.PixelOrderIsSignBit | include/bitmap.h:67-69 | for an accepted info header, the order is TOPDOWN iff the top bit of byte 25 is set |
| Bitmap.FileHeaderRoundTrip | include/bitmap.h:36-38 | parsing an encoded tagged file header, whatever bytes follow, gives it back |
| Bitmap.InfoHeaderLeadingFields | include/bitmap.h:52-56 | biSize, biWidth, biHeight, biPlanes and biBitCount are encoded at offsets 14, 18, 22, 26 and 28, which InfoHeaderRoundTrip and ParseInfoHeaderEncodes make the parser's offsets |
| Bitmap.InfoHeaderTrailingFields | include/bitmap.h:57-62 | the six remaining u32 fields are encoded at offsets 30, 34, 38, 42, 46 and 50, which InfoHeaderRoundTrip and ParseInfoHeaderEncodes make the parser's offsets |
| Bitmap.InfoHeaderRoundTrip | include/bitmap.h:52-62 | parsing an encoded info header with size <= 40, after any 14 bytes and before any suffix, gives it back |
| Bitmap.ParseInfoHeaderEncodes | include/bitmap.h:52-62 | for every buffer whose size field is at most 40, encoding the parsed info header gives back bytes 14-53 exactly: each byte lands in the field read at its offset |
| Bitmap.PixelView | include/bitmap.h:89 | RGBQUAD record i is bytes 4i .. 4i+3 as blue, green, red, reserved; there are length / 4 records |
| Bitmap.PixelViewRoundTrip | include/bitmap.h:89 | viewing the bytes of a record sequence as records gives it back |
| Bitmap.Read | include/bitmap.h:72-92 | without the 'BM' tag the result is the zeroed image; a non-zeroed image has the LE tag, a non-zero bfSize, biSize in [1, 40], and (length - 54) / 4 pixels |
| Bitmap.ReadEncodeRoundTrip | include/bitmap.h:79-89 | any image whose headers the decoder accepts is decoded from its encoding unchanged |
| Bitmap.OffBitsIgnored | include/bitmap.h:89 | two buffers that differ only in bfOffBits decode to the same info header and the same pixels |
| Bitmap.ReservedBytesIgnored | include/bitmap.h:29 | bytes 6-9 never affect the decoded image |
| Bitmap.SampleFileHeaderEncodes | src/test.c:16-17 | the first 14 sample bytes are the file header with bfSize 1409334 and bfOffBits 54 |
| Bitmap.SampleInfoHeaderEncodes | src/test.c:17-18 | the next 40 sample bytes are the info header of the 734 x 480, 32-bit, 3780 ppm image |
| Bitmap.SampleFileHeaderDecodes | src/test.c:206-211 | the 300-byte sample parses to bfType 0x4D42, bfSize 1409334, reserved 0 and bfOffBits 54 |
| Bitmap.SampleInfoHeaderDecodes | src/test.c:213-227 | the sample parses to size 40, width 734, height 480, planes 1, bitcount 32, 3780 ppm on both axes and zero for the rest; its order is BOTTOMUP |
| Bitmap.SampleDecodes | include/bitmap.h:79-89 | the sample decodes to both parsed headers and the 61 RGBQUADs that follow byte 54 |
| Rendering.Map | include/tostring.h:13 | `map` gives a glyph of the 44-entry palette; black gives ' ' and white 'N' |
| Rendering.Blockmap | include/tostring.h:16 | `blockmap` of channel averages gives a glyph of the 44-entry palette |
| Rendering.StoredRow | include/tostring.h:39-51 | output line k shows stored row h-1-k of a bottom-up file and stored row k of a top-down file |
| Rendering.RawLine | include/tostring.h:53-57 | a raw line has w glyphs and the two line-break characters |
| Rendering.RawTextLength | include/tostring.h:19-21 | the raw text has exactly abs(h) * w + 2 * abs(h) characters, the `nwchars` allocated |
| Rendering.RawTextContent | include/tostring.h:51-57 | in the raw text, character c of line k is `map` of column c of the line's stored row, followed by '\n' then '\r' |
| Rendering.BlockDim | include/tostring.h:69 | `block_d` is the ceiling of w / 140, and it is positive iff w is |
| Rendering.BlockEnd | include/tostring.h:117-118 | a block ends at start + block_d, clamped to the image edge |
| Rendering.BlockSumBound | include/tostring.h:117-124 | the channel sum of a clamped block is at most 255 * block_d * block_d |
| Rendering.BlockAverage | include/tostring.h:126-128 | the block sum divided by the nominal block_d * block_d is a channel value in [0, 255] |
| Rendering.BlockGlyph | include/tostring.h:129 | the block glyph is in the 44-entry palette |
| Rendering.BlockStartInImage | include/tostring.h:114 | block j of a line starts inside the image iff j < ceil(w / block_d) |
| Rendering.BlockLine | include/tostring.h:114-134 | a block line has ceil(w / block_d) glyphs and the two line-break characters |
| Rendering.StepsIsCeilDiv | include/tostring.h:112 | stepping by block_d from line r to the image's end makes ceil((rows - r) / block_d) passes |
| Rendering.BlockLinesFromLength | include/tostring.h:112-135 | the block lines from line r have ceil((rows - r) / block_d) * (ceil(w / block_d) + 2) characters |
| Rendering.BlockColsFit | include/tostring.h:76 | a block line has at most 140 glyphs |
| Rendering.DownscaledTextLength | include/tostring.h:76 | the downscaled text has ceil(h / block_d) lines of ceil(w / block_d) + 2 characters, within the 142 * ceil(h / block_d) allocated |
| Rendering.DownscaledTextLineBreaks | include/tostring.h:133-134 | every downscaled line ends with '\n' then '\r' |
| Rendering.DownscaledTextGlyph | include/tostring.h:114-129 | glyph j of downscaled line i is the glyph of the block whose corner is line i * block_d, column j * block_d, which lies inside the image |
| ToString.WriteRawLine | include/tostring.h:53-57 | the scan-line loop appends the raw line to what the buffer held and advances the caret by w + 2 |
| ToString.ToRawString | include/tostring.h:18-63 | the buffer has exactly abs(h) * w + 2 * abs(h) characters and holds the raw text, so `caret == nwchars`; top-down files run in buffer order |
| ToString.SumRow | include/tostring.h:118-123 | the `bw` loop sums each channel over the row's columns of the block, reading record `bh * w + bw` |
| ToString.SumBlock | include/tostring.h:117-124 | the `bh` loop sums each channel over the clamped block |
| ToString.MapBlock | include/tostring.h:126-129 | dividing the sums by block_d * block_d and applying `blockmap` gives the specified block glyph |
| ToString.WriteBlockLine | include/tostring.h:114-134 | the column loop appends the block line to what the buffer held and advances the caret by ceil(w / block_d) + 2 |
| ToString.WriteBlockRow | include/tostring.h:112-135 | one pass of the block-row loop consumes the block line at r from the text still to be written |
| ToString.FillDownscaled | include/tostring.h:87-136 | both traversals write the downscaled text at the start of the buffer |
| ToString.ToDownscaledString | include/tostring.h:68-140 | the buffer has 142 * ceil(h / block_d) characters and starts with the downscaled text |
| ToString.ToString | include/tostring.h:143-146 | width <= 140 gives exactly the raw text; a wider image gives a buffer that starts with the downscaled text |
| ToString.ForPasses | include/tostring.h:42 | a `for (n = start; n < bound; n += step)` loop runs iff start < bound |
| ToString.Ceiling | include/tostring.h:76 | `ceill(x)` is the integer n with x <= n < x + 1 |
| ToString.RawNwcharsAsWritten | include/tostring.h:19-21 | the as-written `nwchars` of `to_raw_string` is negative iff the signed height is; for a bottom-up file it is the raw text's length |
| ToString.CeilingOfQuotient | include/tostring.h:76 | `ceill` of the exact quotient a / d of naturals is the integer ceiling ceil(a / d) |
| ToString.DownscaledNwcharsAsWritten | include/tostring.h:76 | the as-written `nwchars` of `to_downscaled_string` is at most 0 for a top-down file and 142 * ceil(h / block_d) for a bottom-up one |
| ToString.TopDownAsWrittenWritesNothing | include/tostring.h:40-48 | for a top-down file, neither path's row loop runs as written, and both `nwchars` are <= 0, although the picture has abs(h) > 0 rows and non-empty texts |
| ToString.BlockOffsetAsWrittenAt | include/tostring.h:117-119 | pass (a, b) of the unclamped `bh`/`bw` loops, for a, b < block_d, reads record (nrows - a) * w + ncols + b |
| ToString.RightmostBlockAsWrittenLeavesItsLine | include/tostring.h:112-119 | for every bottom-up file wider than 140 whose width is not a multiple of block_d, the top-right pixel of the last block of any block row lies in the next scan line, and past the last record for the topmost block row |
| ToString.LastBlockRowAsWrittenReadsNegative | include/tostring.h:112-119 | for every bottom-up file whose height is not a multiple of block_d, the `nrows` loop reaches block row (h - 1) % block_d, its last, and every block of that row reads a negative record |
| ToString.BlockLoopsAsWrittenOverrun | include/tostring.h:117-119 | as written, a 141 x 2 file reads record 282 of 282 and a 141 x 1 file reads records -141 and -140; the clamped block ends stay in the image |

## Left out

- File and console I/O are not modelled, because the model starts from the bytes in memory and produces the text. This covers:
  - `open` (include/utilities.h:36-71) and its call in `bitmap_read`;
  - `bitmap_info`;
  - `src/main.c`;
  - the `fputws` error messages;
  - the `wprintf_s` diagnostic in `tunable_blockmapper`.
- Memory management is not modelled, because it has no logic to state:
  - the `malloc` failure returns;
  - the `free(imstream)` calls on parse errors.
- `bitmap_close` is not modelled at all. It frees the interior pointer `_pixels` rather than `_buffer`, which is a defect in memory management that a value model cannot express.
- Floating-point rounding is not modelled, because the model uses exact reals. The test expectations weighted(mid) = 127 and luminosity(white) = 254 come from IEEE `double` rounding: the literals at include/utilities.h:100 and 113 are `double`, and in `double` arithmetic 128 * 0.299 + 128 * 0.587 + 128 * 0.114 and 255 * 0.2126 + 255 * 0.7152 + 255 * 0.0722 fall just below 128 and 255. Exact arithmetic gives 128 and 255 (`Utilities.TransformerEndpoints`).
- Utilities.TransformerEndpoints: states 128 and 255 for those two cases, not 127 and 254, because exact reals carry no `double` rounding.
- `penalizing_blockmapper` is not modelled, because its body is empty.
- The `penalizing_*blockmapper` test calls are not modelled, because those functions do not exist.
- The C++ revisions and the older `ascii.h` are not modelled, because they duplicate this logic and several of them do not compile: `utilities.hpp`, `utilities.cpp`, `tostring.hpp`, `tostring.cpp`, `bmp.hpp`, `ascii.hpp`, `ascii.h`, `main.cpp` and `test.cpp`.
- The missing NUL terminator is not modelled. `to_raw_string` allocates exactly the text and writes no terminator, while the caller prints the buffer as a C string. The model states the buffer's contents and length only.
- Bitmap.ParseInfoHeader: `biWidth`, `biXPelsPerMeter` and `biYPelsPerMeter` are kept as the `uint32` they are read as (include/bitmap.h:53, 59-60). The conversion to the `LONG` fields of `BITMAPINFOHEADER` is not modelled, so values of 2^31 and above are not negative here.
- Rendering.Renderable: the renderer demands pixel data for all w * abs(h) records. The source reads them unchecked, and the model requires them.
- ToString.ToDownscaledString: requires w > 0. `to_string` only takes this path for w > 140, so width 0 never reaches it.
- ToString.ToDownscaledString: the buffer past the downscaled text is left unspecified. Its size is stated through the model's ceil(abs(h) / block_d), not through `ceill` of a signed height.
- Rendering.BlockAverage: keeps the source's nominal divisor `block_d * block_d`. An edge block is not divided by its actual pixel count.
- Utilities.Weighted: keeps the code's coefficient order. Blue is weighted 0.299 and red 0.114, the reverse of ITU-R BT.601 section 2.5.1.
- Utilities.Luminosity: keeps the code's coefficient order. Blue is weighted 0.2126 and red 0.0722, the reverse of ITU-R BT.709 item 3.2.
- Rendering.StoredRow: maps output line k of a top-down file to stored row k, the order the comment at include/tostring.h:39-40 intends; the source's top-down loop never runs (see Findings).
- ToString.ToRawString: renders a top-down file row 0 first, in buffer order, as the comment at include/tostring.h:39-40 intends. The source's loop never runs (see Findings).
- ToString.FillDownscaled: for the same reason, renders a top-down file from block row 0 downwards, as intended.
- Rendering.BlockEnd: clamps a block's end to the image edge. The source's `bh`/`bw` loops (include/tostring.h:117-118) do not clamp (see Findings).
- ToString.SumBlock: sums over the block clamped by `Rendering.BlockEnd`, for the same reason.
- Bitmap.Read: takes the size `assert`s of the parsers as its precondition (`Readable`). Too short a buffer is a failed assertion in the source, not a modelled error.
- Validation the source does not perform is not modelled: bit depth, compression, pixel-data length and zero dimensions are never checked.

## Findings

| source | as written | input that shows it | evidently intended | confidence | as-written member | corrected member |
|---|---|---|---|---|---|---|
| include/utilities.h:275-277 | `min + max / 2.0`: the offset reaches 382 and the palette index can pass the end | an unpenalized white pixel (255, 255, 255) on the 44-glyph palette: offset 382, index 64 | `(min + max) / 2.0`, as in minmax_mapper | high, not executed | Utilities.PenalizingMinmaxAsWrittenOverruns | Utilities.PenalizingMinmaxMapper |
| include/tostring.h:42 | `nrows < biHeight` with biHeight < 0: the top-down raw loop never runs, and `nwchars` is negative | any top-down file, such as width 3 and height -2 | abs(h) rows in buffer order, row 0 first | high, not executed | ToString.TopDownAsWrittenWritesNothing | ToString.ToRawString |
| include/tostring.h:88 | the same bound in the top-down downscaled loop: no block row is written | any top-down file wider than 140, such as width 141 and height -2 | block rows from row 0 downwards | high, not executed | ToString.TopDownAsWrittenWritesNothing | ToString.FillDownscaled |
| include/tostring.h:117-118 | the block loops do not clamp, so edge blocks read past the last record, wrap into the next scan line, or read negative records | a bottom-up file of width 141 and height 2 reads record 282 of 282 records; one of width 141 and height 1 reads record -141; in general, ToString.RightmostBlockAsWrittenLeavesItsLine covers every width that is not a multiple of block_d and ToString.LastBlockRowAsWrittenReadsNegative every such height | blocks clamped at the right and bottom edges | high, not executed | ToString.BlockLoopsAsWrittenOverrun | ToString.SumBlock |
