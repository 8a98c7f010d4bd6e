/** Pixel-to-glyph mapping of include/utilities.h: the three palettes, the
    `nudge` correction, the primitive transformers, and the basic, tunable,
    penalizing and block mappers.

    The C code computes with `float` and `double`; this model computes with
    exact reals, and the C conversion of a non-negative floating value to
    `unsigned` is modelled as truncation (`Truncate`). */
module Utilities {

  /** BYTE of wingdi.h. */
  type uint8 = x: int | 0 <= x < 0x100

  /** RGBQUAD of wingdi.h: one 32-bit pixel record, blue first. */
  datatype Pixel = Pixel(blue: uint8, green: uint8, red: uint8, reserved: uint8)

  /** UCHAR_MAX, the largest channel value. */
  const UcharMax: nat := 255

  // ---------------------------------------------------------------------------
  // Palettes, each listed in ascending order of luminance
  // ---------------------------------------------------------------------------

  const PaletteMinimal: seq<char> :=
    ['_', '.', ',', '-', '=', '+', ':', ';', 'c', 'b', 'a', '!', '?', '1',
     '2', '3', '4', '5', '6', '7', '8', '9', '$', 'W', '#', '@', 'N']

  const Palette: seq<char> :=
    [' ', '.', '-', ',', ':', '+', '~', ';', '(', '%', 'x', '1', '*', 'n', 'u',
     'T', '3', 'J', '5', '$', 'S', '4', 'F', 'P', 'G', 'O', 'V', 'X', 'E', 'Z',
     '8', 'A', 'U', 'D', 'H', 'K', 'W', '@', 'B', 'Q', '#', '0', 'M', 'N']

  const PaletteExtended: seq<char> :=
    [' ',  '.', '\'', '`', '^', '"', ',', ':', ';', 'I', 'l', '!', 'i', '>',
     '<',  '~', '+',  '_', '-', '?', ']', '[', '}', '{', '1', ')', '(', '|',
     '\\', '/', 't',  'f', 'j', 'r', 'x', 'n', 'u', 'v', 'c', 'z', 'X', 'Y',
     'U',  'J', 'C',  'L', 'Q', '0', 'O', 'Z', 'm', 'w', 'q', 'p', 'd', 'b',
     'k',  'h', 'a',  'o', '*', '#', 'M', 'W', '&', '8', '%', 'B', '@', '$']

  // ---------------------------------------------------------------------------
  // Arithmetic helpers
  // ---------------------------------------------------------------------------

  /** The `min` and `max` macros of windef.h, on integers. */
  function MinI(a: int, b: int): int { if a < b then a else b }
  function MaxI(a: int, b: int): int { if a > b then a else b }

  /** The `min` and `max` macros of windef.h, on reals. */
  function MinR(a: real, b: real): real { if a < b then a else b }
  function MaxR(a: real, b: real): real { if a > b then a else b }

  function Min3(b: real, g: real, r: real): real { MinR(MinR(b, g), r) }
  function Max3(b: real, g: real, r: real): real { MaxR(MaxR(b, g), r) }

  /** A channel value, raw or block-averaged, in the range the mappers expect. */
  predicate IsChannel(x: real) { 0.0 <= x <= UcharMax as real }

  predicate AreChannels(b: real, g: real, r: real) { IsChannel(b) && IsChannel(g) && IsChannel(r) }

  /** The C conversion of a non-negative floating value to `unsigned`. */
  function Truncate(v: real): (n: nat)
    requires 0.0 <= v
    ensures n as real <= v < n as real + 1.0
  {
    v.Floor
  }

  /** Truncating an exact quotient of naturals is integer division. */
  lemma TruncateQuotient(n: nat, d: nat)
    requires 0 < d
    ensures Truncate(n as real / d as real) == n / d
  {
    var q, m := n / d, n % d;
    assert n == q * d + m;
    assert n as real == q as real * d as real + m as real;
    assert n as real / d as real == q as real + m as real / d as real;
    assert 0.0 <= m as real / d as real < 1.0;
  }

  // ---------------------------------------------------------------------------
  // Palette indexing
  // ---------------------------------------------------------------------------

  /** nudge (include/utilities.h:139): values below one become one, the others
      are truncated, so a non-zero offset never selects index -1. */
  function Nudge(v: real): (n: nat)
    ensures 1 <= n
    ensures v < 1.0 ==> n == 1
    ensures 1.0 <= v ==> n as real <= v < n as real + 1.0
  {
    if v < 1.0 then 1 else v.Floor
  }

  /** The index expression shared by every mapper:
      `offset ? nudge(offset / (float) UCHAR_MAX * plength) - 1 : 0`.
      Its contract is the equivalent integer formula. */
  function PaletteIndex(offset: nat, plength: nat): (i: nat)
    ensures i == if offset == 0 then 0 else MaxI(1, offset * plength / UcharMax) - 1
  {
    if offset == 0 then 0
    else
      var v := offset as real / UcharMax as real * plength as real;
      assert v == (offset * plength) as real / UcharMax as real;
      TruncateQuotient(offset * plength, UcharMax);
      Nudge(v) - 1
  }

  /** The index the comment block at include/utilities.h:122-138 warns about:
      truncation without nudge, which yields -1 for small non-zero offsets. */
  function NaiveIndex(offset: nat, plength: nat): int
  {
    if offset == 0 then 0
    else (offset as real / UcharMax as real * plength as real).Floor - 1
  }

  /** Without nudge, offset 1 on the 70-glyph palette would index -1; with nudge
      every index is the naive one raised to at least zero. */
  lemma NudgePreventsNegativeIndex(offset: nat, plength: nat)
    ensures NaiveIndex(1, |PaletteExtended|) == -1
    ensures PaletteIndex(offset, plength) == MaxI(0, NaiveIndex(offset, plength))
  {
    assert (1.0 / 255.0 * 70.0).Floor == 0;
    if offset != 0 {
      var v := offset as real / UcharMax as real * plength as real;
      assert v == (offset * plength) as real / UcharMax as real;
      TruncateQuotient(offset * plength, UcharMax);
    }
  }

  /** Palette index safety: for every offset in [0, 255] and every non-empty
      palette the index lies in [0, plength - 1]. */
  lemma PaletteIndexInBounds(offset: nat, plength: nat)
    requires offset <= UcharMax && 1 <= plength
    ensures PaletteIndex(offset, plength) < plength
  {
    if offset != 0 {
      assert offset * plength <= UcharMax * plength;
      assert offset * plength / UcharMax <= plength;
    }
  }

  /** Offset 0 selects the emptiest glyph and offset 255 the densest. */
  lemma PaletteIndexEndpoints(plength: nat)
    requires 1 <= plength
    ensures PaletteIndex(0, plength) == 0
    ensures PaletteIndex(UcharMax, plength) == plength - 1
  {
    assert UcharMax * plength / UcharMax == plength;
  }

  /** A brighter offset never selects an emptier glyph. */
  lemma PaletteIndexMonotone(o1: nat, o2: nat, plength: nat)
    requires o1 <= o2
    ensures PaletteIndex(o1, plength) <= PaletteIndex(o2, plength)
  {
    assert o1 * plength <= o2 * plength;
    DivMonotone(o1 * plength, o2 * plength, UcharMax);
  }

  lemma DivMonotone(a: nat, b: nat, d: nat)
    requires a <= b && 0 < d
    ensures a / d <= b / d
  {
    var qa, qb := a / d, b / d;
    assert qa * d <= a;
    assert b < (qb + 1) * d;
  }

  /** The three shipped palettes have 27, 44 and 70 glyphs, and every offset in
      [0, 255] indexes each of them safely. */
  lemma ShippedPalettesAreSafe()
    ensures |PaletteMinimal| == 27 && |Palette| == 44 && |PaletteExtended| == 70
    ensures forall offset: nat | offset <= UcharMax ::
      PaletteIndex(offset, |PaletteMinimal|) < |PaletteMinimal| &&
      PaletteIndex(offset, |Palette|) < |Palette| &&
      PaletteIndex(offset, |PaletteExtended|) < |PaletteExtended|
  {
    forall offset: nat | offset <= UcharMax
      ensures PaletteIndex(offset, |PaletteMinimal|) < |PaletteMinimal|
      ensures PaletteIndex(offset, |Palette|) < |Palette|
      ensures PaletteIndex(offset, |PaletteExtended|) < |PaletteExtended|
    {
      PaletteIndexInBounds(offset, |PaletteMinimal|);
      PaletteIndexInBounds(offset, |Palette|);
      PaletteIndexInBounds(offset, |PaletteExtended|);
    }
  }

  /** `palette[offset ? nudge(offset / 255.0 * plength) - 1 : 0]`. */
  function Glyph(offset: nat, palette: seq<char>): (c: char)
    requires offset <= UcharMax && 1 <= |palette|
    ensures c in palette
    ensures offset == 0 ==> c == palette[0]
    ensures offset == UcharMax ==> c == palette[|palette| - 1]
  {
    PaletteIndexInBounds(offset, |palette|);
    PaletteIndexEndpoints(|palette|);
    palette[PaletteIndex(offset, |palette|)]
  }

  // ---------------------------------------------------------------------------
  // Transformer values on (possibly averaged) channels
  // ---------------------------------------------------------------------------

  /** Arithmetic mean `(b + g + r) / 3`. */
  function Mean(b: real, g: real, r: real): (v: real)
    requires AreChannels(b, g, r)
    ensures Min3(b, g, r) <= v <= Max3(b, g, r)
  {
    (b + g + r) / 3.0
  }

  /** Weighted average with the ITU-R BT.601 coefficients as the code applies
      them: 0.299 to BLUE and 0.114 to red. */
  function Weighted(b: real, g: real, r: real): (v: real)
    requires AreChannels(b, g, r)
    ensures Min3(b, g, r) <= v <= Max3(b, g, r)
  {
    b * 0.299 + g * 0.587 + r * 0.114
  }

  /** Average of the smallest and the largest channel. */
  function MinMax(b: real, g: real, r: real): (v: real)
    requires AreChannels(b, g, r)
    ensures Min3(b, g, r) <= v <= Max3(b, g, r)
  {
    (Min3(b, g, r) + Max3(b, g, r)) / 2.0
  }

  /** "Luminosity" with the ITU-R BT.709 coefficients as the code applies them:
      0.2126 to BLUE and 0.0722 to red. */
  function Luminosity(b: real, g: real, r: real): (v: real)
    requires AreChannels(b, g, r)
    ensures Min3(b, g, r) <= v <= Max3(b, g, r)
  {
    b * 0.2126 + g * 0.7152 + r * 0.0722
  }

  /** The scale factors tunable_mapper demands: each at least zero, sum at most one. */
  predicate ValidScales(bscale: real, gscale: real, rscale: real)
  {
    0.0 <= bscale && 0.0 <= gscale && 0.0 <= rscale && bscale + gscale + rscale <= 1.0
  }

  /** One channel weighed by its caller-chosen scale. */
  function Scaled(x: real, s: real): (t: real)
    requires 0.0 <= x <= 255.0 && 0.0 <= s
    ensures 0.0 <= t <= 255.0 * s
  {
    assert (255.0 - x) * s >= 0.0;
    x * s
  }

  /** Caller-scaled sum `b * bscale + g * gscale + r * rscale`. */
  function Tunable(b: real, g: real, r: real, bscale: real, gscale: real, rscale: real): (v: real)
    requires AreChannels(b, g, r) && ValidScales(bscale, gscale, rscale)
    ensures IsChannel(v)
  {
    Scaled(b, bscale) + Scaled(g, gscale) + Scaled(r, rscale)
  }

  /** Every transformer leaves a grey value unchanged. */
  lemma GreyIsFixed(v: real)
    requires IsChannel(v)
    ensures Mean(v, v, v) == v && Weighted(v, v, v) == v
    ensures MinMax(v, v, v) == v && Luminosity(v, v, v) == v
  {
  }

  // ---------------------------------------------------------------------------
  // Primitive transformers on pixels (compiled under __WANT_PRIMITIVE_TRANSFORMERS__)
  // ---------------------------------------------------------------------------

  function ArithmeticAverage(p: Pixel): (off: nat)
    ensures off <= UcharMax
    ensures 3 * off <= p.blue + p.green + p.red < 3 * off + 3
  {
    Truncate(Mean(p.blue as real, p.green as real, p.red as real))
  }

  function WeightedAverage(p: Pixel): (off: nat)
    ensures off <= UcharMax
    ensures 1000 * off <= 299 * p.blue + 587 * p.green + 114 * p.red < 1000 * off + 1000
  {
    Truncate(Weighted(p.blue as real, p.green as real, p.red as real))
  }

  function MinmaxAverage(p: Pixel): (off: nat)
    ensures off <= UcharMax
    ensures var lo := MinI(MinI(p.blue, p.green), p.red);
            var hi := MaxI(MaxI(p.blue, p.green), p.red);
            off == (lo + hi) / 2
  {
    var b, g, r := p.blue as real, p.green as real, p.red as real;
    var lo := MinI(MinI(p.blue, p.green), p.red);
    var hi := MaxI(MaxI(p.blue, p.green), p.red);
    assert Min3(b, g, r) == lo as real && Max3(b, g, r) == hi as real;
    TruncateQuotient(lo + hi, 2);
    Truncate(MinMax(b, g, r))
  }

  function LuminosityOf(p: Pixel): (off: nat)
    ensures off <= UcharMax
    ensures 10000 * off <= 2126 * p.blue + 7152 * p.green + 722 * p.red < 10000 * off + 10000
  {
    Truncate(Luminosity(p.blue as real, p.green as real, p.red as real))
  }

  predicate IsBlack(p: Pixel) { p.blue == 0 && p.green == 0 && p.red == 0 }
  predicate IsWhite(p: Pixel) { p.blue == 255 && p.green == 255 && p.red == 255 }

  /** Black maps to 0 and white to 255 under every primitive transformer;
      mid grey (128, 128, 128) maps to 128 in exact arithmetic. */
  lemma TransformerEndpoints(p: Pixel)
    ensures IsBlack(p) ==> ArithmeticAverage(p) == 0 && WeightedAverage(p) == 0 &&
                           MinmaxAverage(p) == 0 && LuminosityOf(p) == 0
    ensures IsWhite(p) ==> ArithmeticAverage(p) == 255 && WeightedAverage(p) == 255 &&
                           MinmaxAverage(p) == 255 && LuminosityOf(p) == 255
    ensures p.blue == 128 && p.green == 128 && p.red == 128 ==>
              ArithmeticAverage(p) == 128 && WeightedAverage(p) == 128 &&
              MinmaxAverage(p) == 128 && LuminosityOf(p) == 128
  {
  }

  // ---------------------------------------------------------------------------
  // Basic and tunable mappers
  // ---------------------------------------------------------------------------

  function ArithmeticMapper(p: Pixel, palette: seq<char>): (c: char)
    requires 1 <= |palette|
    ensures c in palette
    ensures IsBlack(p) ==> c == palette[0]
    ensures IsWhite(p) ==> c == palette[|palette| - 1]
  {
    Glyph(ArithmeticAverage(p), palette)
  }

  function WeightedMapper(p: Pixel, palette: seq<char>): (c: char)
    requires 1 <= |palette|
    ensures c in palette
    ensures IsBlack(p) ==> c == palette[0]
    ensures IsWhite(p) ==> c == palette[|palette| - 1]
  {
    Glyph(WeightedAverage(p), palette)
  }

  function MinmaxMapper(p: Pixel, palette: seq<char>): (c: char)
    requires 1 <= |palette|
    ensures c in palette
    ensures IsBlack(p) ==> c == palette[0]
    ensures IsWhite(p) ==> c == palette[|palette| - 1]
  {
    Glyph(MinmaxAverage(p), palette)
  }

  function LuminosityMapper(p: Pixel, palette: seq<char>): (c: char)
    requires 1 <= |palette|
    ensures c in palette
    ensures IsBlack(p) ==> c == palette[0]
    ensures IsWhite(p) ==> c == palette[|palette| - 1]
  {
    Glyph(LuminosityOf(p), palette)
  }

  function TunableMapper(p: Pixel, bscale: real, gscale: real, rscale: real, palette: seq<char>): (c: char)
    requires ValidScales(bscale, gscale, rscale) && 1 <= |palette|
    ensures c in palette
    ensures IsBlack(p) ==> c == palette[0]
    ensures IsWhite(p) && bscale + gscale + rscale == 1.0 ==> c == palette[|palette| - 1]
  {
    Glyph(Truncate(Tunable(p.blue as real, p.green as real, p.red as real, bscale, gscale, rscale)), palette)
  }

  // ---------------------------------------------------------------------------
  // Penalizing mappers
  // ---------------------------------------------------------------------------

  /** Per-channel lower and upper limits; equal limits switch a channel off. */
  datatype Limits = Limits(blueLower: uint8, blueUpper: uint8, greenLower: uint8,
                           greenUpper: uint8, redLower: uint8, redUpper: uint8)

  /** The `penalize` flag: some channel has distinct limits and lies within them.
      Only a channel whose lower limit is strictly below its upper limit can
      trigger it, and a channel strictly inside such a band always does. */
  predicate Penalize(p: Pixel, lim: Limits)
    ensures Penalize(p, lim) ==>
              lim.blueLower < lim.blueUpper || lim.greenLower < lim.greenUpper || lim.redLower < lim.redUpper
    ensures (lim.blueLower < p.blue < lim.blueUpper || lim.greenLower < p.green < lim.greenUpper ||
             lim.redLower < p.red < lim.redUpper) ==> Penalize(p, lim)
  {
    (lim.blueLower != lim.blueUpper && lim.blueLower <= p.blue <= lim.blueUpper) ||
    (lim.greenLower != lim.greenUpper && lim.greenLower <= p.green <= lim.greenUpper) ||
    (lim.redLower != lim.redUpper && lim.redLower <= p.red <= lim.redUpper)
  }

  /** Limits set to identical values never penalize. */
  lemma EqualLimitsNeverPenalize(p: Pixel, lim: Limits)
    requires lim.blueLower == lim.blueUpper && lim.greenLower == lim.greenUpper
    requires lim.redLower == lim.redUpper
    ensures !Penalize(p, lim)
  {
  }

  /** A colour whose two limits are identical is never considered: whatever
      the other colours' limits, changing that colour's value leaves the
      `penalize` flag as it was. */
  lemma EqualLimitsIgnoreColour(p: Pixel, lim: Limits, v: uint8)
    ensures lim.blueLower == lim.blueUpper ==> Penalize(p.(blue := v), lim) == Penalize(p, lim)
    ensures lim.greenLower == lim.greenUpper ==> Penalize(p.(green := v), lim) == Penalize(p, lim)
    ensures lim.redLower == lim.redUpper ==> Penalize(p.(red := v), lim) == Penalize(p, lim)
  {
  }

  /** The offset `(unsigned) (v * (penalize ? 1 - penalty : 1))`. */
  function Penalized(v: real, penalize: bool, penalty: real): (off: nat)
    requires 0.0 <= v && 0.0 <= penalty <= 1.0
    ensures off <= Truncate(v)
    ensures !penalize || penalty == 0.0 ==> off == Truncate(v)
    ensures penalize && penalty == 1.0 ==> off == 0
  {
    FactorShrinks(v, 1.0 - penalty);
    Truncate(v * (if penalize then 1.0 - penalty else 1.0))
  }

  lemma FactorShrinks(v: real, f: real)
    requires 0.0 <= v && 0.0 <= f <= 1.0
    ensures 0.0 <= v * f <= v
  {
    assert v * (1.0 - f) >= 0.0;
  }

  predicate ValidPenalty(penalty: real) { 0.0 <= penalty <= 1.0 }

  function PenalizingArithmeticMapper(p: Pixel, lim: Limits, palette: seq<char>, penalty: real): (c: char)
    requires 1 <= |palette| && ValidPenalty(penalty)
    ensures c in palette
    ensures !Penalize(p, lim) ==> c == ArithmeticMapper(p, palette)
    ensures Penalize(p, lim) && penalty == 1.0 ==> c == palette[0]
  {
    Glyph(Penalized(Mean(p.blue as real, p.green as real, p.red as real), Penalize(p, lim), penalty), palette)
  }

  function PenalizingWeightedMapper(p: Pixel, lim: Limits, palette: seq<char>, penalty: real): (c: char)
    requires 1 <= |palette| && ValidPenalty(penalty)
    ensures c in palette
    ensures !Penalize(p, lim) ==> c == WeightedMapper(p, palette)
    ensures Penalize(p, lim) && penalty == 1.0 ==> c == palette[0]
  {
    Glyph(Penalized(Weighted(p.blue as real, p.green as real, p.red as real), Penalize(p, lim), penalty), palette)
  }

  /** penalizing_minmaxmapper with the intended `(min + max) / 2`. */
  function PenalizingMinmaxMapper(p: Pixel, lim: Limits, palette: seq<char>, penalty: real): (c: char)
    requires 1 <= |palette| && ValidPenalty(penalty)
    ensures c in palette
    ensures !Penalize(p, lim) ==> c == MinmaxMapper(p, palette)
    ensures Penalize(p, lim) && penalty == 1.0 ==> c == palette[0]
  {
    Glyph(Penalized(MinMax(p.blue as real, p.green as real, p.red as real), Penalize(p, lim), penalty), palette)
  }

  function PenalizingLuminosityMapper(p: Pixel, lim: Limits, palette: seq<char>, penalty: real): (c: char)
    requires 1 <= |palette| && ValidPenalty(penalty)
    ensures c in palette
    ensures !Penalize(p, lim) ==> c == LuminosityMapper(p, palette)
    ensures Penalize(p, lim) && penalty == 1.0 ==> c == palette[0]
  {
    Glyph(Penalized(Luminosity(p.blue as real, p.green as real, p.red as real), Penalize(p, lim), penalty), palette)
  }

  /** A penalty never moves a pixel to a denser glyph. */
  lemma PenaltyNeverDenser(v: real, penalize: bool, penalty: real, plength: nat)
    requires IsChannel(v) && ValidPenalty(penalty)
    ensures PaletteIndex(Penalized(v, penalize, penalty), plength) <= PaletteIndex(Truncate(v), plength)
  {
    PaletteIndexMonotone(Penalized(v, penalize, penalty), Truncate(v), plength);
  }

  /** The value penalizing_minmaxmapper computes as written (include/utilities.h:275-277):
      `min + max / 2`, which reaches 382.5 for white. */
  function MinMaxAsWritten(b: real, g: real, r: real): (v: real)
    requires AreChannels(b, g, r)
    ensures 0.0 <= v <= 1.5 * UcharMax as real
  {
    Min3(b, g, r) + Max3(b, g, r) / 2.0
  }

  function PenalizingMinmaxOffsetAsWritten(p: Pixel, lim: Limits, penalty: real): (off: nat)
    requires ValidPenalty(penalty)
    ensures off <= 382
  {
    Penalized(MinMaxAsWritten(p.blue as real, p.green as real, p.red as real), Penalize(p, lim), penalty)
  }

  /** As written, a white pixel that is not penalized gets offset 382, and on the
      44-glyph palette that gives index 64, past the last glyph (43). */
  lemma PenalizingMinmaxAsWrittenOverruns()
    ensures var white := Pixel(255, 255, 255, 255);
            var off := PenalizingMinmaxOffsetAsWritten(white, Limits(0, 0, 0, 0, 0, 0), 0.5);
            off == 382 && PaletteIndex(off, |Palette|) == 64 && 64 >= |Palette|
  {
    var white := Pixel(255, 255, 255, 255);
    assert !Penalize(white, Limits(0, 0, 0, 0, 0, 0));
    assert MinMaxAsWritten(255.0, 255.0, 255.0) == 382.5;
    assert 382 * 44 / 255 == 65;
  }

  // ---------------------------------------------------------------------------
  // Block mappers (channel averages of a pixel block)
  // ---------------------------------------------------------------------------

  function ArithmeticBlockmapper(b: real, g: real, r: real, palette: seq<char>): (c: char)
    requires AreChannels(b, g, r) && 1 <= |palette|
    ensures c in palette
    ensures b == g == r == 0.0 ==> c == palette[0]
    ensures b == g == r == 255.0 ==> c == palette[|palette| - 1]
  {
    Glyph(Truncate(Mean(b, g, r)), palette)
  }

  function WeightedBlockmapper(b: real, g: real, r: real, palette: seq<char>): (c: char)
    requires AreChannels(b, g, r) && 1 <= |palette|
    ensures c in palette
    ensures b == g == r == 0.0 ==> c == palette[0]
    ensures b == g == r == 255.0 ==> c == palette[|palette| - 1]
  {
    Glyph(Truncate(Weighted(b, g, r)), palette)
  }

  function MinmaxBlockmapper(b: real, g: real, r: real, palette: seq<char>): (c: char)
    requires AreChannels(b, g, r) && 1 <= |palette|
    ensures c in palette
    ensures b == g == r == 0.0 ==> c == palette[0]
    ensures b == g == r == 255.0 ==> c == palette[|palette| - 1]
  {
    Glyph(Truncate(MinMax(b, g, r)), palette)
  }

  function LuminosityBlockmapper(b: real, g: real, r: real, palette: seq<char>): (c: char)
    requires AreChannels(b, g, r) && 1 <= |palette|
    ensures c in palette
    ensures b == g == r == 0.0 ==> c == palette[0]
    ensures b == g == r == 255.0 ==> c == palette[|palette| - 1]
  {
    Glyph(Truncate(Luminosity(b, g, r)), palette)
  }

  function TunableBlockmapper(b: real, bscale: real, g: real, gscale: real, r: real, rscale: real,
                              palette: seq<char>): (c: char)
    requires AreChannels(b, g, r) && ValidScales(bscale, gscale, rscale) && 1 <= |palette|
    ensures c in palette
    ensures b == g == r == 0.0 ==> c == palette[0]
    ensures b == g == r == 255.0 && bscale + gscale + rscale == 1.0 ==> c == palette[|palette| - 1]
  {
    Glyph(Truncate(Tunable(b, g, r, bscale, gscale, rscale)), palette)
  }

  /** A pixel mapper and the matching block mapper agree on a block of one pixel. */
  lemma BlockmappersExtendPixelMappers(p: Pixel, palette: seq<char>)
    requires 1 <= |palette|
    ensures ArithmeticBlockmapper(p.blue as real, p.green as real, p.red as real, palette) == ArithmeticMapper(p, palette)
    ensures WeightedBlockmapper(p.blue as real, p.green as real, p.red as real, palette) == WeightedMapper(p, palette)
    ensures MinmaxBlockmapper(p.blue as real, p.green as real, p.red as real, palette) == MinmaxMapper(p, palette)
    ensures LuminosityBlockmapper(p.blue as real, p.green as real, p.red as real, palette) == LuminosityMapper(p, palette)
  {
  }
}
