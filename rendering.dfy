/** What include/tostring.h renders, as specification functions: the text of
    the raw path (one glyph per pixel) and of the downscaled path (one glyph per
    square block of pixels), line by line, together with the facts about them
    that the renderer's buffer arithmetic relies on.

    A line of output is an image row: line 0 is the top of the picture. For a
    bottom-up file (non-negative height) line k holds stored row h-1-k; for a
    top-down file it holds stored row k. */
module Rendering {
  import opened Utilities
  import opened Bitmap

  /** CONSOLE_WIDTH: images at most this wide are rendered pixel by pixel. */
  const ConsoleWidth: nat := 140

  /** Every emitted row ends with '\n' followed by '\r', in that order. */
  const LineBreak: seq<char> := ['\n', '\r']

  /** The `map` binding: arithmetic_mapper over the 44-glyph palette. */
  function Map(p: Pixel): (c: char)
    ensures c in Palette
    ensures IsBlack(p) ==> c == Palette[0]
    ensures IsWhite(p) ==> c == Palette[|Palette| - 1]
  {
    ArithmeticMapper(p, Palette)
  }

  /** The `blockmap` binding: weighted_blockmapper over the 44-glyph palette. */
  function Blockmap(b: real, g: real, r: real): (c: char)
    requires AreChannels(b, g, r)
    ensures c in Palette
  {
    WeightedBlockmapper(b, g, r, Palette)
  }

  // ---------------------------------------------------------------------------
  // Geometry
  // ---------------------------------------------------------------------------

  function Width(img: Bmp): nat { img.infoHeader.biWidth }

  function Height(img: Bmp): int { img.infoHeader.biHeight }

  /** |biHeight|, the number of rows whatever the ordering. */
  function Rows(img: Bmp): nat { if Height(img) < 0 then -Height(img) else Height(img) }

  /** The pixel data holds every row the header declares; the renderer reads
      `Width * Rows` records without checking. */
  predicate Renderable(img: Bmp) { Width(img) * Rows(img) <= |img.pixels| }

  lemma MulMono(a: nat, b: nat, k: nat)
    requires a <= b
    ensures a * k <= b * k
  {
    assert b * k - a * k == (b - a) * k;
  }

  /** Record `r * w + c` of a `rows`-by-`w` image exists. */
  lemma IndexInImage(w: nat, rows: nat, r: nat, c: nat)
    requires r < rows && c < w
    ensures r * w + c < w * rows
  {
    MulMono(r + 1, rows, w);
    assert (r + 1) * w == r * w + w;
  }

  /** Record `row * w + col` of a renderable image exists. */
  lemma PixelIndexInRange(img: Bmp, row: nat, col: nat)
    requires Renderable(img) && row < Rows(img) && col < Width(img)
    ensures row * Width(img) + col < |img.pixels|
  {
    IndexInImage(Width(img), Rows(img), row, col);
  }

  /** The stored row shown on output line k. */
  function StoredRow(img: Bmp, k: nat): (row: nat)
    requires k < Rows(img)
    ensures row < Rows(img)
    ensures Height(img) >= 0 ==> row == Rows(img) - 1 - k
    ensures Height(img) < 0 ==> row == k
  {
    if Height(img) < 0 then k else Rows(img) - 1 - k
  }

  function PixelAt(img: Bmp, row: nat, col: nat): Pixel
    requires Renderable(img) && row < Rows(img) && col < Width(img)
  {
    PixelIndexInRange(img, row, col);
    img.pixels[row * Width(img) + col]
  }

  // ---------------------------------------------------------------------------
  // The raw path
  // ---------------------------------------------------------------------------

  /** Output line k of the raw path: the row's glyphs left to right, then the
      line break. */
  function RawLine(img: Bmp, k: nat): (line: seq<char>)
    requires Renderable(img) && k < Rows(img)
    ensures |line| == Width(img) + 2
  {
    seq(Width(img), c requires 0 <= c < Width(img) => Map(PixelAt(img, StoredRow(img, k), c)))
    + LineBreak
  }

  /** The first n lines of the raw path. */
  function RawLines(img: Bmp, n: nat): seq<char>
    requires Renderable(img) && n <= Rows(img)
  {
    if n == 0 then [] else RawLines(img, n - 1) + RawLine(img, n - 1)
  }

  /** The whole text of the raw path. */
  function RawText(img: Bmp): seq<char>
    requires Renderable(img)
  {
    RawLines(img, Rows(img))
  }

  lemma {:induction false} RawLinesLength(img: Bmp, n: nat)
    requires Renderable(img) && n <= Rows(img)
    ensures |RawLines(img, n)| == n * (Width(img) + 2)
  {
    if n > 0 {
      RawLinesLength(img, n - 1);
    }
  }

  /** One glyph per pixel plus two characters per row: the `nwchars` the raw
      path allocates, which the caret reaches exactly. */
  lemma RawTextLength(img: Bmp)
    requires Renderable(img)
    ensures |RawText(img)| == Rows(img) * Width(img) + 2 * Rows(img)
  {
    RawLinesLength(img, Rows(img));
  }

  lemma {:induction false} RawLinesIndex(img: Bmp, n: nat, k: nat, c: nat)
    requires Renderable(img) && n <= Rows(img) && k < n && c < Width(img) + 2
    ensures k * (Width(img) + 2) + c < |RawLines(img, n)|
    ensures RawLines(img, n)[k * (Width(img) + 2) + c] == RawLine(img, k)[c]
  {
    RawLinesLength(img, n);
    RawLinesLength(img, n - 1);
    if k < n - 1 {
      RawLinesIndex(img, n - 1, k, c);
    }
  }

  /** Line k of the raw text shows stored row h-1-k of a bottom-up file, or
      stored row k of a top-down file, left to right, then '\n' and '\r'. */
  lemma RawTextContent(img: Bmp, k: nat, c: nat)
    requires Renderable(img) && k < Rows(img) && c < Width(img)
    ensures k * (Width(img) + 2) + Width(img) + 1 < |RawText(img)|
    ensures RawText(img)[k * (Width(img) + 2) + c] == Map(PixelAt(img, StoredRow(img, k), c))
    ensures RawText(img)[k * (Width(img) + 2) + Width(img)] == '\n'
    ensures RawText(img)[k * (Width(img) + 2) + Width(img) + 1] == '\r'
  {
    RawLinesIndex(img, Rows(img), k, c);
    RawLinesIndex(img, Rows(img), k, Width(img));
    RawLinesIndex(img, Rows(img), k, Width(img) + 1);
  }

  // ---------------------------------------------------------------------------
  // The downscaled path
  // ---------------------------------------------------------------------------

  /** Integer ceiling of a / d. */
  function CeilDiv(a: nat, d: nat): nat
    requires 0 < d
  {
    (a + d - 1) / d
  }

  /** The ceiling is a quotient q with (q - 1) * d < a <= q * d. */
  lemma CeilDivBounds(a: nat, d: nat)
    requires 0 < d
    ensures a <= CeilDiv(a, d) * d
    ensures 0 < CeilDiv(a, d) ==> (CeilDiv(a, d) - 1) * d < a
  {
    var q := (a + d - 1) / d;
    assert q * d <= a + d - 1 < q * d + d;
  }

  /** `block_d = ceil(w / 140)`, the side of a square block. */
  function BlockDim(img: Bmp): (d: nat)
    ensures Width(img) <= d * ConsoleWidth
    ensures 0 < d ==> (d - 1) * ConsoleWidth < Width(img)
    ensures 0 < Width(img) <==> 0 < d
  {
    CeilDiv(Width(img), ConsoleWidth)
  }

  /** The upper end of a block that starts at `start`, clamped to `limit`. */
  function BlockEnd(start: nat, d: nat, limit: nat): (e: nat)
    requires start <= limit
    ensures start <= e <= limit && e <= start + d
    ensures e == limit || e == start + d
  {
    if start + d < limit then start + d else limit
  }

  datatype Channel = Blue | Green | Red

  function Value(p: Pixel, ch: Channel): uint8
  {
    match ch
    case Blue => p.blue
    case Green => p.green
    case Red => p.red
  }

  /** Sum of one channel over columns c0 .. c1-1 of output line k. */
  function RowSum(img: Bmp, k: nat, c0: nat, c1: nat, ch: Channel): nat
    requires Renderable(img) && k < Rows(img) && c0 <= c1 <= Width(img)
    decreases c1 - c0
  {
    if c1 == c0 then 0 else RowSum(img, k, c0, c1 - 1, ch) + Value(PixelAt(img, StoredRow(img, k), c1 - 1), ch)
  }

  /** Sum of one channel over output lines r0 .. r1-1 and columns c0 .. c1-1. */
  function RegionSum(img: Bmp, r0: nat, r1: nat, c0: nat, c1: nat, ch: Channel): nat
    requires Renderable(img) && r0 <= r1 <= Rows(img) && c0 <= c1 <= Width(img)
    decreases r1 - r0
  {
    if r1 == r0 then 0 else RegionSum(img, r0, r1 - 1, c0, c1, ch) + RowSum(img, r1 - 1, c0, c1, ch)
  }

  lemma {:induction false} RowSumBound(img: Bmp, k: nat, c0: nat, c1: nat, ch: Channel)
    requires Renderable(img) && k < Rows(img) && c0 <= c1 <= Width(img)
    ensures RowSum(img, k, c0, c1, ch) <= 255 * (c1 - c0)
    decreases c1 - c0
  {
    if c1 > c0 {
      RowSumBound(img, k, c0, c1 - 1, ch);
    }
  }

  /** No region sums to more than 255 per pixel it covers. */
  lemma {:induction false} RegionSumBound(img: Bmp, r0: nat, r1: nat, c0: nat, c1: nat, ch: Channel)
    requires Renderable(img) && r0 <= r1 <= Rows(img) && c0 <= c1 <= Width(img)
    ensures RegionSum(img, r0, r1, c0, c1, ch) <= (r1 - r0) * (255 * (c1 - c0))
    decreases r1 - r0
  {
    if r1 > r0 {
      RegionSumBound(img, r0, r1 - 1, c0, c1, ch);
      RowSumBound(img, r1 - 1, c0, c1, ch);
      assert (r1 - r0) * (255 * (c1 - c0)) == (r1 - 1 - r0) * (255 * (c1 - c0)) + 255 * (c1 - c0);
    }
  }

  /** The sum over a clamped block is at most 255 times the nominal block size. */
  lemma BlockSumBound(img: Bmp, r: nat, c: nat, ch: Channel)
    requires Renderable(img) && 0 < Width(img) && r < Rows(img) && c < Width(img)
    ensures var d := BlockDim(img);
            RegionSum(img, r, BlockEnd(r, d, Rows(img)), c, BlockEnd(c, d, Width(img)), ch) <= 255 * (d * d)
  {
    var d := BlockDim(img);
    var r1, c1 := BlockEnd(r, d, Rows(img)), BlockEnd(c, d, Width(img));
    RegionSumBound(img, r, r1, c, c1, ch);
    ProductFits(RegionSum(img, r, r1, c, c1, ch), r1 - r, c1 - c, d);
  }

  lemma ProductFits(s: nat, rr: nat, cc: nat, d: nat)
    requires rr <= d && cc <= d && s <= rr * (255 * cc)
    ensures s <= 255 * (d * d)
  {
    MulMono(cc, d, 255);
    MulMono(rr, d, 255 * cc);
    assert d * (255 * cc) == (255 * cc) * d;
    MulMono(255 * cc, 255 * d, d);
    assert d * (255 * d) == 255 * (d * d);
  }

  /** An average below 255 per pixel is a channel value. */
  lemma AverageIsChannel(s: nat, n: nat)
    requires 0 < n && s <= 255 * n
    ensures IsChannel(s as real / n as real)
  {
    var v := s as real / n as real;
    assert v * n as real == s as real;
  }

  /** The block average of one channel: the sum over the clamped block divided
      by the nominal block size `block_d * block_d`, as the source divides. */
  function BlockAverage(img: Bmp, r: nat, c: nat, ch: Channel): (v: real)
    requires Renderable(img) && 0 < Width(img) && r < Rows(img) && c < Width(img)
    ensures IsChannel(v)
  {
    var d := BlockDim(img);
    var r1, c1 := BlockEnd(r, d, Rows(img)), BlockEnd(c, d, Width(img));
    BlockSumBound(img, r, c, ch);
    AverageIsChannel(RegionSum(img, r, r1, c, c1, ch), d * d);
    RegionSum(img, r, r1, c, c1, ch) as real / (d * d) as real
  }

  /** The glyph of the block whose top-left pixel is at line r, column c. */
  function BlockGlyph(img: Bmp, r: nat, c: nat): (g: char)
    requires Renderable(img) && 0 < Width(img) && r < Rows(img) && c < Width(img)
    ensures g in Palette
  {
    Blockmap(BlockAverage(img, r, c, Blue), BlockAverage(img, r, c, Green), BlockAverage(img, r, c, Red))
  }

  /** Block j of a line starts at column j * block_d; it lies inside the image
      exactly when j is below `ceil(w / block_d)`. */
  lemma BlockStartInImage(img: Bmp, j: nat)
    requires 0 < Width(img)
    ensures j * BlockDim(img) < Width(img) <==> j < BlockCols(img)
  {
    var d, q := BlockDim(img), BlockCols(img);
    CeilDivBounds(Width(img), d);
    if j < q {
      MulMono(j, q - 1, d);
    } else {
      MulMono(q, j, d);
    }
  }

  /** One output line of the downscaled path: the glyph of every block whose
      top edge is line r, left to right, then the line break. */
  function BlockLine(img: Bmp, r: nat): (line: seq<char>)
    requires Renderable(img) && 0 < Width(img) && r < Rows(img)
    ensures |line| == BlockCols(img) + 2
  {
    seq(BlockCols(img), j requires 0 <= j < BlockCols(img) =>
          BlockStartInImage(img, j); BlockGlyph(img, r, j * BlockDim(img)))
    + LineBreak
  }

  /** The block lines that start at lines r, r + d, ... */
  function BlockLinesFrom(img: Bmp, r: nat): seq<char>
    requires Renderable(img) && 0 < Width(img) && r <= Rows(img)
    decreases Rows(img) - r
  {
    if r == Rows(img) then []
    else BlockLine(img, r) + BlockLinesFrom(img, BlockEnd(r, BlockDim(img), Rows(img)))
  }

  /** The whole text of the downscaled path. */
  function DownscaledText(img: Bmp): seq<char>
    requires Renderable(img) && 0 < Width(img)
  {
    BlockLinesFrom(img, 0)
  }

  /** `ceil(w / block_d)` glyphs per line. */
  function BlockCols(img: Bmp): nat
    requires 0 < Width(img)
  {
    CeilDiv(Width(img), BlockDim(img))
  }

  /** `ceil(h / block_d)` lines. */
  function BlockRows(img: Bmp): nat
    requires 0 < Width(img)
  {
    CeilDiv(Rows(img), BlockDim(img))
  }

  /** Stepping by d from a position before the limit consumes one block. */
  lemma CeilDivStep(a: nat, d: nat)
    requires 0 < a && 0 < d
    ensures CeilDiv(a, d) == 1 + CeilDiv(if a <= d then 0 else a - d, d)
  {
    var q := CeilDiv(if a <= d then 0 else a - d, d);
    CeilDivBounds(if a <= d then 0 else a - d, d);
    MulSucc(q, d);
    if q > 0 {
      MulSucc(q - 1, d);
    }
    CeilDivUnique(a, d, q + 1);
  }

  /** The ceiling is the one quotient q with (q - 1) * d < a <= q * d. */
  lemma CeilDivUnique(a: nat, d: nat, q: nat)
    requires 0 < d && a <= q * d && (0 < q ==> (q - 1) * d < a)
    ensures q == CeilDiv(a, d)
  {
    var p := CeilDiv(a, d);
    CeilDivBounds(a, d);
    if p < q {
      MulMono(p, q - 1, d);
    } else if q < p {
      MulMono(q, p - 1, d);
    }
  }

  lemma MulSucc(n: nat, k: nat)
    ensures (n + 1) * k == n * k + k
  {
  }

  /** The number of iterations of `for (n = r; n < rows; n += d)`. */
  function Steps(r: nat, rows: nat, d: nat): nat
    requires 0 < d
    decreases rows - r
  {
    if r >= rows then 0 else 1 + Steps(r + d, rows, d)
  }

  lemma {:induction false} StepsIsCeilDiv(r: nat, rows: nat, d: nat)
    requires 0 < d && r <= rows
    ensures Steps(r, rows, d) == CeilDiv(rows - r, d)
    decreases rows - r
  {
    if r < rows {
      CeilDivStep(rows - r, d);
      if r + d <= rows {
        StepsIsCeilDiv(r + d, rows, d);
      } else {
        assert CeilDiv(0, d) == 0;
      }
    } else {
      assert CeilDiv(0, d) == 0;
    }
  }

  lemma {:induction false} BlockLinesFromSteps(img: Bmp, r: nat)
    requires Renderable(img) && 0 < Width(img) && r <= Rows(img)
    ensures |BlockLinesFrom(img, r)| == Steps(r, Rows(img), BlockDim(img)) * (BlockCols(img) + 2)
    decreases Rows(img) - r
  {
    if r < Rows(img) {
      var d := BlockDim(img);
      var e := BlockEnd(r, d, Rows(img));
      BlockLinesFromSteps(img, e);
      assert Steps(r, Rows(img), d) == 1 + Steps(e, Rows(img), d);
      MulSucc(Steps(e, Rows(img), d), BlockCols(img) + 2);
    }
  }

  lemma BlockLinesFromLength(img: Bmp, r: nat)
    requires Renderable(img) && 0 < Width(img) && r <= Rows(img)
    ensures |BlockLinesFrom(img, r)| == CeilDiv(Rows(img) - r, BlockDim(img)) * (BlockCols(img) + 2)
  {
    BlockLinesFromSteps(img, r);
    StepsIsCeilDiv(r, Rows(img), BlockDim(img));
  }

  /** A line has at most 140 glyphs. */
  lemma BlockColsFit(img: Bmp)
    requires 0 < Width(img)
    ensures BlockCols(img) <= ConsoleWidth
  {
    var d := BlockDim(img);
    var q := BlockCols(img);
    CeilDivBounds(Width(img), d);
    if q > ConsoleWidth {
      MulMono(ConsoleWidth, q - 1, d);
      assert false;
    }
  }

  /** The downscaled text has `ceil(h / block_d)` lines of `ceil(w / block_d)`
      glyphs and a line break each, so it fits in the `142 * ceil(h / block_d)`
      characters the downscaled path allocates. */
  lemma DownscaledTextLength(img: Bmp)
    requires Renderable(img) && 0 < Width(img)
    ensures |DownscaledText(img)| == BlockRows(img) * (BlockCols(img) + 2)
    ensures |DownscaledText(img)| <= (ConsoleWidth + 2) * BlockRows(img)
  {
    BlockLinesFromLength(img, 0);
    BlockColsFit(img);
    MulMono(BlockCols(img) + 2, ConsoleWidth + 2, BlockRows(img));
  }

  lemma ConcatShift<T>(a: seq<T>, b: seq<T>, k: nat)
    requires k < |b|
    ensures |a| + k < |a + b| && (a + b)[|a| + k] == b[k]
  {
  }

  /** `base + i * step`, by repeated addition. */
  function Offset(base: nat, i: nat, step: nat): nat
  {
    if i == 0 then base else step + Offset(base, i - 1, step)
  }

  lemma {:induction false} OffsetIsProduct(base: nat, i: nat, step: nat)
    ensures Offset(base, i, step) == base + i * step
  {
    if i > 0 {
      OffsetIsProduct(base, i - 1, step);
      MulSucc(i - 1, step);
    }
  }

  /** Character c of the i-th block line from line r. */
  lemma {:induction false} BlockLinesIndex(img: Bmp, r: nat, i: nat, c: nat)
    requires Renderable(img) && 0 < Width(img) && r <= Rows(img)
    requires i < Steps(r, Rows(img), BlockDim(img)) && c < BlockCols(img) + 2
    ensures r + Offset(0, i, BlockDim(img)) < Rows(img)
    ensures Offset(c, i, BlockCols(img) + 2) < |BlockLinesFrom(img, r)|
    ensures BlockLinesFrom(img, r)[Offset(c, i, BlockCols(img) + 2)]
            == BlockLine(img, r + Offset(0, i, BlockDim(img)))[c]
    decreases Rows(img) - r
  {
    var d, n := BlockDim(img), BlockCols(img) + 2;
    var e := BlockEnd(r, d, Rows(img));
    var head, tail := BlockLine(img, r), BlockLinesFrom(img, e);
    assert BlockLinesFrom(img, r) == head + tail;
    if i > 0 {
      assert e == r + d;
      BlockLinesIndex(img, e, i - 1, c);
      ConcatShift(head, tail, Offset(c, i - 1, n));
    }
  }

  /** Line i of the downscaled text ends with '\n' then '\r'. */
  lemma DownscaledTextLineBreaks(img: Bmp, i: nat)
    requires Renderable(img) && 0 < Width(img) && i < BlockRows(img)
    ensures i * (BlockCols(img) + 2) + BlockCols(img) + 1 < |DownscaledText(img)|
    ensures DownscaledText(img)[i * (BlockCols(img) + 2) + BlockCols(img)] == '\n'
    ensures DownscaledText(img)[i * (BlockCols(img) + 2) + BlockCols(img) + 1] == '\r'
  {
    var d, n := BlockDim(img), BlockCols(img) + 2;
    StepsIsCeilDiv(0, Rows(img), d);
    BlockLinesIndex(img, 0, i, n - 2);
    BlockLinesIndex(img, 0, i, n - 1);
    OffsetIsProduct(n - 2, i, n);
    OffsetIsProduct(n - 1, i, n);
  }

  /** Glyph j of line i of the downscaled text is the glyph of the block whose
      top-left pixel is at line i * block_d, column j * block_d. */
  lemma DownscaledTextGlyph(img: Bmp, i: nat, j: nat)
    requires Renderable(img) && 0 < Width(img) && i < BlockRows(img) && j < BlockCols(img)
    ensures var d, n := BlockDim(img), BlockCols(img) + 2;
            var r: nat, c: nat, at: nat := i * d, j * d, i * n + j;
            r < Rows(img) && c < Width(img) &&
            at < |DownscaledText(img)| && DownscaledText(img)[at] == BlockGlyph(img, r, c)
  {
    var d, n := BlockDim(img), BlockCols(img) + 2;
    StepsIsCeilDiv(0, Rows(img), d);
    BlockStartInImage(img, j);
    BlockLinesIndex(img, 0, i, j);
    OffsetIsProduct(0, i, d);
    OffsetIsProduct(j, i, n);
  }

  // ---------------------------------------------------------------------------
  // The dispatcher
  // ---------------------------------------------------------------------------

  /** What `to_string` produces: the raw text up to 140 columns, the downscaled
      text beyond. */
  function Rendered(img: Bmp): seq<char>
    requires Renderable(img)
  {
    if Width(img) <= ConsoleWidth then RawText(img) else DownscaledText(img)
  }
}
