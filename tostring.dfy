/** The renderer of include/tostring.h: `to_raw_string`, `to_downscaled_string`
    and the `to_string` dispatcher, each filling a character buffer through a
    caret, proved to produce the text the Rendering module specifies.

    The block accumulators `blockavg_*` are `double` in the source; they only
    ever hold sums of channel bytes before the division, which a `double`
    represents exactly, so they are integers here. */
module ToString {
  import opened Utilities
  import opened Bitmap
  import opened Rendering

  /** One scan line of the raw path: the glyph of every pixel of stored row
      `row`, left to right, then '\n' and '\r'. */
  method WriteRawLine(img: Bmp, buf: array<char>, caret: nat, k: nat, row: nat) returns (next: nat)
    requires Renderable(img) && k < Rows(img) && row == StoredRow(img, k)
    requires caret + Width(img) + 2 <= buf.Length
    modifies buf
    ensures next == caret + Width(img) + 2
    ensures buf[..next] == old(buf[..caret]) + RawLine(img, k)
  {
    var w := Width(img);
    ghost var before := buf[..caret];
    ghost var line := RawLine(img, k);
    next := caret;
    var ncols := 0;
    while ncols < w
      invariant 0 <= ncols <= w && next == caret + ncols
      invariant buf[..next] == before + line[..ncols]
    {
      PixelIndexInRange(img, row, ncols);
      var offset := row * w + ncols;
      assert line[ncols] == Map(img.pixels[offset]);
      buf[next] := Map(img.pixels[offset]);
      next := next + 1;
      ncols := ncols + 1;
    }
    ghost var glyphs := buf[..next];
    buf[next] := '\n';
    buf[next + 1] := '\r';
    next := next + 2;
    assert buf[..next] == glyphs + LineBreak;
    assert line == line[..w] + LineBreak;
  }

  lemma RawLinesFit(img: Bmp, k: nat)
    requires Renderable(img) && k < Rows(img)
    ensures |RawLines(img, k)| + Width(img) + 2 == |RawLines(img, k + 1)|
    ensures |RawLines(img, k + 1)| <= |RawText(img)|
  {
    RawLinesLength(img, k);
    RawLinesLength(img, k + 1);
    RawLinesLength(img, Rows(img));
    MulMono(k + 1, Rows(img), Width(img) + 2);
  }

  /** `to_raw_string`: a buffer of exactly `|h| * w + 2 * |h|` characters, the
      raw text. Top-down files are rendered in buffer order, row 0 first. */
  method ToRawString(img: Bmp) returns (buf: array<char>)
    requires Renderable(img)
    ensures fresh(buf)
    ensures buf.Length == Rows(img) * Width(img) + 2 * Rows(img)
    ensures buf[..] == RawText(img)
  {
    var rows := Rows(img);
    var nwchars := rows * Width(img) + 2 * rows;
    RawTextLength(img);
    buf := new char[nwchars];
    var caret: nat := 0;
    if Height(img) < 0 {
      var nrows := 0;
      while nrows < rows
        invariant 0 <= nrows <= rows
        invariant caret == |RawLines(img, nrows)| <= buf.Length
        invariant buf[..caret] == RawLines(img, nrows)
      {
        RawLinesFit(img, nrows);
        caret := WriteRawLine(img, buf, caret, nrows, nrows);
        nrows := nrows + 1;
      }
    } else {
      var nrows: int := rows - 1;
      while nrows >= 0
        invariant -1 <= nrows < rows
        invariant caret == |RawLines(img, rows - 1 - nrows)| <= buf.Length
        invariant buf[..caret] == RawLines(img, rows - 1 - nrows)
      {
        RawLinesFit(img, rows - 1 - nrows);
        caret := WriteRawLine(img, buf, caret, rows - 1 - nrows, nrows);
        nrows := nrows - 1;
      }
    }
    assert buf[..] == buf[..caret];
  }

  /** The channel sums of the block whose top-left corner is output line r,
      column c, clamped to the image: the `bh` loop of the source, over the
      lines of the block from top to bottom. For a bottom-up file the stored
      row `bh` counts down from h - 1 - r, as in the source; for a top-down file
      it counts up from r. */
  method SumBlock(img: Bmp, r: nat, c: nat, d: nat) returns (blue: nat, green: nat, red: nat)
    requires Renderable(img) && 0 < Width(img) && r < Rows(img) && c < Width(img)
    requires d == BlockDim(img)
    ensures blue == RegionSum(img, r, BlockEnd(r, d, Rows(img)), c, BlockEnd(c, d, Width(img)), Blue)
    ensures green == RegionSum(img, r, BlockEnd(r, d, Rows(img)), c, BlockEnd(c, d, Width(img)), Green)
    ensures red == RegionSum(img, r, BlockEnd(r, d, Rows(img)), c, BlockEnd(c, d, Width(img)), Red)
  {
    var r1, c1 := BlockEnd(r, d, Rows(img)), BlockEnd(c, d, Width(img));
    blue, green, red := 0, 0, 0;
    var k := r;
    while k < r1
      invariant r <= k <= r1
      invariant blue == RegionSum(img, r, k, c, c1, Blue)
      invariant green == RegionSum(img, r, k, c, c1, Green)
      invariant red == RegionSum(img, r, k, c, c1, Red)
    {
      var rowBlue, rowGreen, rowRed := SumRow(img, k, c, c1);
      blue, green, red := blue + rowBlue, green + rowGreen, red + rowRed;
      k := k + 1;
    }
  }

  /** The `bw` loop of the source: the channel sums over columns c .. c1-1 of
      output line k, read at record `bh * w + bw`. */
  method SumRow(img: Bmp, k: nat, c: nat, c1: nat) returns (blue: nat, green: nat, red: nat)
    requires Renderable(img) && k < Rows(img) && c <= c1 <= Width(img)
    ensures blue == RowSum(img, k, c, c1, Blue)
    ensures green == RowSum(img, k, c, c1, Green)
    ensures red == RowSum(img, k, c, c1, Red)
  {
    var w := Width(img);
    var bh := StoredRow(img, k);
    blue, green, red := 0, 0, 0;
    var bw := c;
    while bw < c1
      invariant c <= bw <= c1
      invariant blue == RowSum(img, k, c, bw, Blue)
      invariant green == RowSum(img, k, c, bw, Green)
      invariant red == RowSum(img, k, c, bw, Red)
    {
      PixelIndexInRange(img, bh, bw);
      var offset := bh * w + bw;
      var p := img.pixels[offset];
      blue, green, red := blue + p.blue, green + p.green, red + p.red;
      bw := bw + 1;
    }
  }

  /** The glyph of one block: the clamped channel sums, each divided by the
      nominal `block_d * block_d`, fed to the `blockmap` binding. */
  method MapBlock(img: Bmp, r: nat, c: nat, d: nat) returns (glyph: char)
    requires Renderable(img) && 0 < Width(img) && r < Rows(img) && c < Width(img)
    requires d == BlockDim(img)
    ensures glyph == BlockGlyph(img, r, c) && glyph in Palette
  {
    MulMono(1, d, d);
    var nPixelsPerBlock := (d * d) as real;
    var blue, green, red := SumBlock(img, r, c, d);
    var avgBlue := blue as real / nPixelsPerBlock;
    var avgGreen := green as real / nPixelsPerBlock;
    var avgRed := red as real / nPixelsPerBlock;
    assert avgBlue == BlockAverage(img, r, c, Blue);
    assert avgGreen == BlockAverage(img, r, c, Green);
    assert avgRed == BlockAverage(img, r, c, Red);
    glyph := Blockmap(avgBlue, avgGreen, avgRed);
  }

  /** One block row of the downscaled path: for the blocks at columns 0, d,
      2d, ... the glyph of the per-block averages, then '\n' and '\r'. */
  method WriteBlockLine(img: Bmp, buf: array<char>, caret: nat, r: nat, d: nat) returns (next: nat)
    requires Renderable(img) && 0 < Width(img) && r < Rows(img) && d == BlockDim(img)
    requires caret + BlockCols(img) + 2 <= buf.Length
    modifies buf
    ensures next == caret + BlockCols(img) + 2
    ensures buf[..next] == old(buf[..caret]) + BlockLine(img, r)
  {
    var w := Width(img);
    ghost var line := BlockLine(img, r);
    next := caret;
    var ncols := 0;
    ghost var j := 0;
    BlockStartInImage(img, 0);
    while ncols < w
      invariant 0 <= j <= BlockCols(img) && ncols == j * d && next == caret + j
      invariant ncols < w <==> j < BlockCols(img)
      invariant buf[..next] == old(buf[..caret]) + line[..j]
    {
      buf[next] := MapBlock(img, r, ncols, d);
      next := next + 1;
      ncols := ncols + d;
      MulSucc(j, d);
      j := j + 1;
      BlockStartInImage(img, j);
    }
    ghost var glyphs := buf[..next];
    buf[next] := '\n';
    buf[next + 1] := '\r';
    next := next + 2;
    assert buf[..next] == glyphs + LineBreak;
    assert line == line[..j] + LineBreak;
  }

  lemma BlockLinesStep(img: Bmp, r: nat)
    requires Renderable(img) && 0 < Width(img) && r < Rows(img)
    ensures BlockLinesFrom(img, r) == BlockLine(img, r) + BlockLinesFrom(img, BlockEnd(r, BlockDim(img), Rows(img)))
  {
  }

  /** Writes the block row that starts at line r and advances the caret past it. */
  method WriteBlockRow(img: Bmp, buf: array<char>, caret: nat, r: nat, d: nat) returns (next: nat)
    requires Renderable(img) && 0 < Width(img) && r < Rows(img) && d == BlockDim(img)
    requires caret + |BlockLinesFrom(img, r)| <= buf.Length
    modifies buf
    ensures next + |BlockLinesFrom(img, BlockEnd(r, d, Rows(img)))| == caret + |BlockLinesFrom(img, r)|
    ensures buf[..next] + BlockLinesFrom(img, BlockEnd(r, d, Rows(img)))
            == old(buf[..caret]) + BlockLinesFrom(img, r)
  {
    BlockLinesStep(img, r);
    next := WriteBlockLine(img, buf, caret, r, d);
  }

  /** `to_downscaled_string`: a buffer of `142 * ceil(h / block_d)` characters
      whose first characters are the downscaled text. */
  method ToDownscaledString(img: Bmp) returns (buf: array<char>)
    requires Renderable(img) && 0 < Width(img)
    ensures fresh(buf)
    ensures buf.Length == (ConsoleWidth + 2) * BlockRows(img)
    ensures |DownscaledText(img)| <= buf.Length
    ensures buf[..|DownscaledText(img)|] == DownscaledText(img)
  {
    var d := CeilDiv(Width(img), ConsoleWidth);
    var nwchars := (ConsoleWidth + 2) * CeilDiv(Rows(img), d);
    DownscaledTextLength(img);
    buf := new char[nwchars];
    FillDownscaled(img, buf, d);
  }

  /** The traversal of `to_downscaled_string`: block rows from the top of the
      picture, blocks left to right within a row. Top-down files are rendered
      in buffer order, with `nrows` counting up from 0; bottom-up files with
      `nrows` counting down from h - 1, as in the source. Blocks clamp at the
      right and bottom edges. */
  method FillDownscaled(img: Bmp, buf: array<char>, d: nat)
    requires Renderable(img) && 0 < Width(img) && d == BlockDim(img)
    requires |DownscaledText(img)| <= buf.Length
    modifies buf
    ensures buf[..|DownscaledText(img)|] == DownscaledText(img)
  {
    var rows := Rows(img);
    var caret: nat := 0;
    if Height(img) < 0 {
      var nrows := 0;
      while nrows < rows
        invariant 0 <= nrows
        invariant caret + |BlockLinesFrom(img, MinI(nrows, rows))| <= buf.Length
        invariant buf[..caret] + BlockLinesFrom(img, MinI(nrows, rows)) == DownscaledText(img)
      {
        caret := WriteBlockRow(img, buf, caret, nrows, d);
        nrows := nrows + d;
        assert MinI(nrows, rows) == BlockEnd(nrows - d, d, rows);
      }
    } else {
      var nrows: int := rows - 1;
      while nrows >= 0
        invariant nrows < rows
        invariant caret + |BlockLinesFrom(img, MinI(rows - 1 - nrows, rows))| <= buf.Length
        invariant buf[..caret] + BlockLinesFrom(img, MinI(rows - 1 - nrows, rows)) == DownscaledText(img)
      {
        var r := rows - 1 - nrows;
        caret := WriteBlockRow(img, buf, caret, r, d);
        nrows := nrows - d;
        assert MinI(rows - 1 - nrows, rows) == BlockEnd(r, d, rows);
      }
    }
    assert buf[..caret] == DownscaledText(img);
  }

  /** `to_string`: the raw path up to 140 columns, the downscaled path beyond.
      The raw buffer is exactly the text; the downscaled one may be longer. */
  method ToString(img: Bmp) returns (buf: array<char>)
    requires Renderable(img)
    ensures fresh(buf)
    ensures |Rendered(img)| <= buf.Length
    ensures buf[..|Rendered(img)|] == Rendered(img)
    ensures Width(img) <= ConsoleWidth ==> buf.Length == |Rendered(img)| && buf[..] == RawText(img)
    ensures ConsoleWidth < Width(img) ==>
              |DownscaledText(img)| <= buf.Length && buf[..|DownscaledText(img)|] == DownscaledText(img)
  {
    if Width(img) <= ConsoleWidth {
      buf := ToRawString(img);
    } else {
      buf := ToDownscaledString(img);
    }
  }

  // ---------------------------------------------------------------------------
  // The top-down branches and the block loops as the source writes them
  // ---------------------------------------------------------------------------

  /** The number of passes of `for (n = start; n < bound; n += step)`. */
  function ForPasses(start: int, bound: int, step: nat): (n: nat)
    requires 0 < step
    ensures (0 < n) <==> (start < bound)
    decreases bound - start
  {
    if start < bound then 1 + ForPasses(start + step, bound, step) else 0
  }

  /** The real ceiling, as `ceill`. */
  function Ceiling(x: real): (n: int)
    ensures x <= n as real < x + 1.0
  {
    -((-x).Floor)
  }

  /** `nwchars` of `to_raw_string` as written, with the signed height: negative
      exactly for a top-down file, and the length of the raw text otherwise. */
  function RawNwcharsAsWritten(img: Bmp): (n: int)
    ensures (n < 0) <==> (Height(img) < 0)
    ensures Height(img) >= 0 && Renderable(img) ==> n == |RawText(img)|
  {
    var h, w := Height(img), Width(img);
    assert h * w + 2 * h == h * (w + 2);
    if h < 0 then
      MulMono(1, w + 2, -h);
      assert (-h) * (w + 2) == -(h * (w + 2));
      h * w + 2 * h
    else if Renderable(img) then
      RawTextLength(img);
      h * w + 2 * h
    else
      h * w + 2 * h
  }

  /** An integer n with a / d <= n < a / d + 1 satisfies a <= n * d < a + d. */
  lemma QuotientBracket(a: nat, d: nat, n: int)
    requires 0 < d && a as real / d as real <= n as real < a as real / d as real + 1.0
    ensures 0 <= n && a <= n * d < a + d
  {
    var x, dr, nr := a as real / d as real, d as real, n as real;
    assert x * dr == a as real;
    assert 0 <= n;
    var nd := n * d;
    assert nd as real == nr * dr;
    var lo, hi := nr - x, x + 1.0 - nr;
    assert 0.0 <= lo && 0.0 < hi;
    var plo, phi := lo * dr, hi * dr;
    ScaleByPositive(lo, dr);
    ScaleByPositive(hi, dr);
    assert plo == nr * dr - x * dr;
    assert phi == x * dr + dr - nr * dr;
    assert a as real <= nd as real;
    assert nd as real < (a + d) as real;
  }

  /** Scaling by a positive real keeps the sign. */
  lemma ScaleByPositive(u: real, v: real)
    requires 0.0 <= u && 0.0 < v
    ensures 0.0 <= u * v && (0.0 < u ==> 0.0 < u * v)
  {
  }

  /** `ceill` of an exact quotient of naturals is the integer ceiling. */
  lemma CeilingOfQuotient(a: nat, d: nat)
    requires 0 < d
    ensures Ceiling(a as real / d as real) == CeilDiv(a, d)
  {
    var n := Ceiling(a as real / d as real);
    QuotientBracket(a, d, n);
    if 0 < n {
      MulSucc(n - 1, d);
    }
    CeilDivUnique(a, d, n);
  }

  /** `nwchars` of `to_downscaled_string` as written, with the signed height:
      at most 0 for a top-down file, and 142 characters per block row of the
      downscaled text otherwise. */
  function DownscaledNwcharsAsWritten(img: Bmp): (n: int)
    requires 0 < Width(img)
    ensures Height(img) < 0 ==> n <= 0
    ensures Height(img) >= 0 ==> n == (ConsoleWidth + 2) * BlockRows(img)
  {
    var q := Height(img) as real / BlockDim(img) as real;
    if Height(img) >= 0 then
      CeilingOfQuotient(Rows(img), BlockDim(img));
      (ConsoleWidth + 2) * Ceiling(q)
    else
      assert q < 0.0;
      (ConsoleWidth + 2) * Ceiling(q)
  }

  /** For a top-down file the source tests `nrows < biHeight` against the
      negative height, so the row loops of both paths never run and no line is
      written, while the picture has |h| rows and a nonempty text; both
      allocation sizes are negative too. */
  lemma TopDownAsWrittenWritesNothing(img: Bmp)
    requires Renderable(img) && 0 < Width(img) && Height(img) < 0
    ensures ForPasses(0, Height(img), 1) == 0
    ensures ForPasses(0, Height(img), BlockDim(img)) == 0
    ensures RawNwcharsAsWritten(img) < 0 && DownscaledNwcharsAsWritten(img) <= 0
    ensures 0 < Rows(img) && 0 < |RawText(img)| && 0 < |DownscaledText(img)|
  {
    var h, w, d := Height(img), Width(img), BlockDim(img);
    assert h * w <= 0 by { MulMono(0, w, -h); assert (-h) * w == -(h * w); }
    var q := h as real / d as real;
    assert q < 0.0;
    assert Ceiling(q) <= 0;
    RawTextLength(img);
    DownscaledTextLength(img);
    CeilDivBounds(Rows(img), d);
    assert 0 < CeilDiv(Rows(img), d);
  }

  /** The records the source's block loops read for the block whose corner is
      scan line `nrows`, column `ncols` of a bottom-up file: `bh` from `nrows`
      down to `nrows - d + 1`, `bw` from `ncols` up to `ncols + d - 1`, record
      `bh * w + bw`, with no clamp at the right or the bottom edge. */
  function BlockOffsetsAsWritten(w: int, nrows: int, ncols: int, d: nat): seq<int>
  {
    seq(d * d, i requires 0 <= i < d * d => (nrows - i / d) * w + ncols + i % d)
  }

  /** A bottom-up 141 x 2 file has `block_d` 2. As written, its last block
      reads record 282, past the 282 records of the file, and record 141, the
      first pixel of the other scan line; a 141 x 1 file reads records -141 and
      -140 for its first block. Clamped, the last block is one column wide and
      the only block row of the 141 x 1 file one line tall. */
  lemma BlockLoopsAsWrittenOverrun()
    ensures CeilDiv(141, ConsoleWidth) == 2
    ensures BlockOffsetsAsWritten(141, 1, 140, 2) == [281, 282, 140, 141] && 282 == 141 * 2
    ensures BlockOffsetsAsWritten(141, 0, 0, 2) == [0, 1, -141, -140]
    ensures BlockEnd(140, 2, 141) == 141 && BlockEnd(0, 2, 1) == 1
  {
    var a := BlockOffsetsAsWritten(141, 1, 140, 2);
    assert a[0] == 281 && a[1] == 282 && a[2] == 140 && a[3] == 141;
    var b := BlockOffsetsAsWritten(141, 0, 0, 2);
    assert b[0] == 0 && b[1] == 1 && b[2] == -141 && b[3] == -140;
  }

  /** Euclidean division by d splits q * d + r back into q and r. */
  lemma DivModOf(q: nat, r: nat, d: nat)
    requires r < d
    ensures (q * d + r) / d == q && (q * d + r) % d == r
  {
    var x := q * d + r;
    var q', r' := x / d, x % d;
    assert x == q' * d + r' && 0 <= r' < d;
    if q' < q {
      MulSucc(q', d);
      MulMono(q' + 1, q, d);
    } else if q < q' {
      MulSucc(q, d);
      MulMono(q + 1, q', d);
    }
  }

  /** Pass (a, b) of the as-written `bh`/`bw` loops, a lines down and b columns
      right of the corner, reads record (nrows - a) * w + ncols + b. */
  lemma BlockOffsetAsWrittenAt(w: int, nrows: int, ncols: int, d: nat, a: nat, b: nat)
    requires a < d && b < d
    ensures a * d + b < d * d
    ensures BlockOffsetsAsWritten(w, nrows, ncols, d)[a * d + b] == (nrows - a) * w + ncols + b
  {
    DivModOf(a, b, d);
    MulMono(a + 1, d, d);
    MulSucc(a, d);
  }

  /** In a bottom-up file wider than 140 columns whose width is not a multiple
      of `block_d`, the last block of a block row starts inside the image, but
      as written its last column lies in the next scan line; for the first
      block row, scan line h - 1, that record is past the end of the pixels. */
  lemma RightmostBlockAsWrittenLeavesItsLine(img: Bmp, nrows: nat)
    requires ConsoleWidth < Width(img) && 0 <= Height(img) && nrows < Rows(img)
    requires Width(img) % BlockDim(img) != 0
    ensures var w, d := Width(img), BlockDim(img);
            var last := (BlockCols(img) - 1) * d;
            var at := BlockOffsetsAsWritten(w, nrows, last, d)[0 * d + (d - 1)];
            last < w && 0 * d + (d - 1) < d * d &&
            (nrows + 1) * w <= at < (nrows + 2) * w &&
            (nrows + 1 == Rows(img) ==> Rows(img) * w <= at)
  {
    var w, d := Width(img), BlockDim(img);
    var q, m := w / d, w % d;
    assert w == q * d + m && 0 < m < d;
    assert d <= w;
    MulSucc(q, d);
    CeilDivUnique(w, d, q + 1);
    var last := (BlockCols(img) - 1) * d;
    assert last == q * d;
    BlockOffsetAsWrittenAt(w, nrows, last, d, 0, d - 1);
    MulSucc(nrows, w);
    MulSucc(nrows + 1, w);
  }

  /** In a bottom-up file whose height is not a multiple of `block_d`, the
      as-written `nrows` loop, stepping down from h - 1 by d, reaches the
      block row (h - 1) % d, the last one at or above 0; every block of that
      row reads a negative record, since its last line nrows - (d - 1) lies
      above the first scan line. */
  lemma LastBlockRowAsWrittenReadsNegative(img: Bmp, ncols: nat)
    requires 0 < Width(img) && 0 < Height(img) && Height(img) % BlockDim(img) != 0
    requires ncols < Width(img)
    ensures var h, d := Height(img), BlockDim(img);
            var k, nrows := (h - 1) / d, (h - 1) % d;
            nrows == h - 1 - k * d && 0 <= nrows && nrows - d < 0 && nrows < d - 1 &&
            (d - 1) * d + 0 < d * d &&
            BlockOffsetsAsWritten(Width(img), nrows, ncols, d)[(d - 1) * d + 0] < 0
  {
    var w, h, d := Width(img), Height(img), BlockDim(img);
    var k, m := (h - 1) / d, (h - 1) % d;
    assert h - 1 == k * d + m && 0 <= m < d;
    if m == d - 1 {
      MulSucc(k, d);
      DivModOf(k + 1, 0, d);
      assert false;
    }
    BlockOffsetAsWrittenAt(w, m, ncols, d, d - 1, 0);
    MulMono(1, d - 1 - m, w);
    assert (m - (d - 1)) * w == -((d - 1 - m) * w);
  }
}
