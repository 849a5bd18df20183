/**
 * What the ordered dither guarantees about its output: every pixel holds a
 * palette colour, each pixel's result depends only on its own colour and its
 * position modulo 4, and, for palettes whose colours lie far enough apart
 * (both shipped palettes do), a palette colour is left as it is, so that
 * dithering an already dithered buffer changes nothing.
 */
module DitherProperties {
  import opened Palettes
  import opened NearestColor
  import opened OrderedDither

  /**
   * With a palette of byte colours, every pixel of the dithered buffer holds
   * one of the palette's colours.
   */
  lemma OrderedDitheredInPalette(s: seq<byte>, width: nat, height: nat, palette: seq<RGB>, p: nat)
    requires |s| == 4 * (width * height) && |palette| > 0 && IsBytePalette(palette)
    requires p < width * height
    ensures 4 * p + 2 < |OrderedDithered(s, width, height, palette)|
    ensures PixelColor(OrderedDithered(s, width, height, palette), p) in palette
  {
    OrderedDitheredAt(s, width, height, palette, p);
    var q := DitheredPixel(s, width, palette, p);
    var k :| 0 <= k < |palette| && palette[k] == q;
    assert IsByteColor(palette[k]);
  }

  /**
   * Two pixels, p1 of one buffer at column x1 and row y1, p2 of another (or
   * the same) at column x2 and row y2, with the same original colour and
   * whose columns and rows agree modulo 4, are given the same colour: nothing
   * but the pixel itself and its place in the Bayer tile goes into its result.
   */
  lemma DitherIsLocal(s1: seq<byte>, width1: nat, height1: nat, x1: nat, y1: nat, p1: nat,
                      s2: seq<byte>, width2: nat, height2: nat, x2: nat, y2: nat, p2: nat,
                      palette: seq<RGB>)
    requires |s1| == 4 * (width1 * height1) && x1 < width1 && y1 < height1 && p1 == y1 * width1 + x1
    requires |s2| == 4 * (width2 * height2) && x2 < width2 && y2 < height2 && p2 == y2 * width2 + x2
    requires p1 < width1 * height1 && p2 < width2 * height2
    requires |palette| > 0
    requires x1 % 4 == x2 % 4 && y1 % 4 == y2 % 4
    requires PixelColor(s1, p1) == PixelColor(s2, p2)
    ensures PixelColor(OrderedDithered(s1, width1, height1, palette), p1)
         == PixelColor(OrderedDithered(s2, width2, height2, palette), p2)
  {
    OrderedDitheredAt(s1, width1, height1, palette, p1);
    OrderedDitheredAt(s2, width2, height2, palette, p2);
    DitheredPixelAtColumnRow(s1, width1, palette, x1, y1, p1);
    DitheredPixelAtColumnRow(s2, width2, palette, x2, y2, p2);
    DitherPixelDependsOnTile(PixelColor(s1, p1), x1, y1, x2, y2, palette);
  }

  /**
   * Mid grey on the black-and-white palette: the top-left pixel of a tile
   * (Bayer entry 0) turns black, its right-hand neighbour (entry 8) white.
   */
  lemma MidGreyOnTwoColours()
    ensures DitherPixel(RGB(128, 128, 128), 0, 0, Palette2) == RGB(0, 0, 0)
    ensures DitherPixel(RGB(128, 128, 128), 1, 0, Palette2) == RGB(255, 255, 255)
  {
    assert AdjustChannel(128, 0, 0) == 104.5625;
    assert AdjustChannel(128, 1, 0) == 129.5625;
    assert NearestIndex(104.5625, 104.5625, 104.5625, Palette2) == 0;
    assert NearestIndex(129.5625, 129.5625, 129.5625, Palette2) == 1;
  }

  /**
   * The least channel difference that keeps two palette colours apart under
   * the largest offset, 375 sixteenths (23.4375): 16 * 65 - 375 = 665
   * sixteenths, and 665^2 exceeds 3 * 375^2, the farthest (squared) an offset
   * can move a colour from itself.
   */
  const MinSeparation: int := 65

  function Abs(d: int): int { if d < 0 then -d else d }

  /** Colours `c` and `e` differ by at least MinSeparation in some channel. */
  predicate FarApart(c: RGB, e: RGB) {
    Abs(c.r - e.r) >= MinSeparation || Abs(c.g - e.g) >= MinSeparation || Abs(c.b - e.b) >= MinSeparation
  }

  /** Any two entries at different indices are far apart. */
  predicate Separated(palette: seq<RGB>) {
    forall i, j :: 0 <= i < |palette| && 0 <= j < |palette| && i != j ==> FarApart(palette[i], palette[j])
  }

  function SqInt(d: int): int { d * d }

  /**
   * 256 times the squared distance from the query (r/16, g/16, b/16), given
   * by the whole numbers of sixteenths r, g, b, to entry `c`.
   */
  function DistanceSixteenths(r: int, g: int, b: int, c: RGB): int {
    SqInt(r - 16 * c.r) + SqInt(g - 16 * c.g) + SqInt(b - 16 * c.b)
  }

  /** One channel's squared difference, for a query channel of k sixteenths. */
  lemma ChannelInSixteenths(k: int, e: int)
    ensures Sq(k as real / 16.0 - e as real) == SqInt(k - 16 * e) as real / 256.0
  {
    var d := k - 16 * e;
    assert k as real / 16.0 - e as real == d as real / 16.0;
    assert SqInt(d) as real == d as real * d as real;
  }

  /** The matcher's distance for a query in sixteenths is DistanceSixteenths / 256, exactly. */
  lemma DistanceInSixteenths(r: int, g: int, b: int, c: RGB)
    ensures DistanceSq(r as real / 16.0, g as real / 16.0, b as real / 16.0, c)
         == DistanceSixteenths(r, g, b, c) as real / 256.0
  {
    ChannelInSixteenths(r, c.r);
    ChannelInSixteenths(g, c.g);
    ChannelInSixteenths(b, c.b);
  }

  lemma SqAtMost(d: int, bound: int)
    requires 0 <= bound && -bound <= d <= bound
    ensures SqInt(d) <= SqInt(bound)
  {
    assert SqInt(d) == Abs(d) * Abs(d);
    assert Abs(d) * Abs(d) <= Abs(d) * bound <= bound * bound;
  }

  lemma SqAtLeast(d: int, bound: int)
    requires 0 <= bound && (d >= bound || d <= -bound)
    ensures SqInt(d) >= SqInt(bound)
  {
    assert SqInt(d) == Abs(d) * Abs(d);
    assert Abs(d) * Abs(d) >= Abs(d) * bound >= bound * bound;
  }

  /** A query within 375 sixteenths of `c` in every channel is at most 3 * 375^2 from it. */
  lemma NearDistance(r: int, g: int, b: int, c: RGB)
    requires Abs(r - 16 * c.r) <= 375 && Abs(g - 16 * c.g) <= 375 && Abs(b - 16 * c.b) <= 375
    ensures DistanceSixteenths(r, g, b, c) <= 3 * SqInt(375)
  {
    SqAtMost(r - 16 * c.r, 375);
    SqAtMost(g - 16 * c.g, 375);
    SqAtMost(b - 16 * c.b, 375);
  }

  /** A channel within 375 sixteenths of `c` is more than 3 * 375^2 away (squared) from a value far from `c`. */
  lemma ChannelFar(q: int, c: int, e: int)
    requires Abs(q - 16 * c) <= 375 && Abs(c - e) >= MinSeparation
    ensures SqInt(q - 16 * e) > 3 * SqInt(375)
  {
    var far := 16 * MinSeparation - 375;
    assert q - 16 * e >= far || q - 16 * e <= -far;
    SqAtLeast(q - 16 * e, far);
  }

  /** Such a query is farther than 3 * 375^2 from every colour far apart from `c`. */
  lemma FarDistance(r: int, g: int, b: int, c: RGB, e: RGB)
    requires Abs(r - 16 * c.r) <= 375 && Abs(g - 16 * c.g) <= 375 && Abs(b - 16 * c.b) <= 375
    requires FarApart(c, e)
    ensures DistanceSixteenths(r, g, b, e) > 3 * SqInt(375)
  {
    SqPositive(r - 16 * e.r);
    SqPositive(g - 16 * e.g);
    SqPositive(b - 16 * e.b);
    if Abs(c.r - e.r) >= MinSeparation {
      ChannelFar(r, c.r, e.r);
    } else if Abs(c.g - e.g) >= MinSeparation {
      ChannelFar(g, c.g, e.g);
    } else {
      ChannelFar(b, c.b, e.b);
    }
  }

  /**
   * In a separated palette of byte colours, a pixel that already holds a
   * palette colour keeps it, whatever its position.
   */
  lemma PaletteColorIsFixed(palette: seq<RGB>, m: nat, x: nat, y: nat)
    requires m < |palette| && IsBytePalette(palette) && Separated(palette)
    ensures DitherPixel(palette[m], x, y, palette) == palette[m]
  {
    var c := palette[m];
    assert IsByteColor(c);
    AdjustChannelSixteenths(c.r, x, y);
    AdjustChannelSixteenths(c.g, x, y);
    AdjustChannelSixteenths(c.b, x, y);
    var r, g, b := AdjustSixteenths(c.r, x, y), AdjustSixteenths(c.g, x, y), AdjustSixteenths(c.b, x, y);
    var qr, qg, qb := AdjustChannel(c.r, x, y), AdjustChannel(c.g, x, y), AdjustChannel(c.b, x, y);
    NearDistance(r, g, b, c);
    DistanceInSixteenths(r, g, b, c);
    forall j | 0 <= j < |palette| && j != m
      ensures DistanceSq(qr, qg, qb, palette[m]) < DistanceSq(qr, qg, qb, palette[j])
    {
      FarDistance(r, g, b, c, palette[j]);
      DistanceInSixteenths(r, g, b, palette[j]);
    }
    assert IsNearest(qr, qg, qb, palette, m);
    NearestIndexCharacterized(qr, qg, qb, palette, m);
  }

  /**
   * With a separated palette of byte colours, dithering the dithered buffer
   * again gives the same buffer: ordered dithering is idempotent.
   */
  lemma OrderedDitheredIdempotent(s: seq<byte>, width: nat, height: nat, palette: seq<RGB>)
    requires |s| == 4 * (width * height) && |palette| > 0
    requires IsBytePalette(palette) && Separated(palette)
    ensures var t := OrderedDithered(s, width, height, palette);
      OrderedDithered(t, width, height, palette) == t
  {
    var t := OrderedDithered(s, width, height, palette);
    if width > 0 && height > 0 {
      var u := OrderedDithered(t, width, height, palette);
      forall i | 0 <= i < |t| ensures u[i] == t[i] {
        RedoByte(s, width, height, palette, i);
      }
    }
  }

  /** Byte i of the dithered buffer is kept when it is dithered again. */
  lemma RedoByte(s: seq<byte>, width: nat, height: nat, palette: seq<RGB>, i: nat)
    requires |s| == 4 * (width * height) && |palette| > 0 && width > 0
    requires IsBytePalette(palette) && Separated(palette)
    requires i < |s|
    ensures var t := OrderedDithered(s, width, height, palette);
      OrderedDithered(t, width, height, palette)[i] == t[i]
  {
    var t := OrderedDithered(s, width, height, palette);
    var p, k := i / 4, i % 4;
    ByteOffset(p, k);
    if k == 3 {
      OrderedDitheredAlpha(t, width, height, palette, i);
    } else {
      RedoPixel(s, width, height, palette, p, k);
    }
  }

  /** Byte k of pixel p of the dithered buffer is kept when it is dithered again. */
  lemma RedoPixel(s: seq<byte>, width: nat, height: nat, palette: seq<RGB>, p: nat, k: int)
    requires |s| == 4 * (width * height) && |palette| > 0 && width > 0
    requires IsBytePalette(palette) && Separated(palette)
    requires 4 * p + 3 < |s| && 0 <= k < 3
    ensures var t := OrderedDithered(s, width, height, palette);
      OrderedDithered(t, width, height, palette)[4 * p + k] == t[4 * p + k]
  {
    var t := OrderedDithered(s, width, height, palette);
    OrderedDitheredInPalette(s, width, height, palette, p);
    var m :| 0 <= m < |palette| && palette[m] == PixelColor(t, p);
    PaletteColorIsFixedAt(t, width, palette, p, m);
    FixedPixelKept(t, width, height, palette, p, k);
  }

  /** The same, for pixel p of a buffer: its chosen colour is the palette colour it holds. */
  lemma PaletteColorIsFixedAt(t: seq<byte>, width: nat, palette: seq<RGB>, p: nat, m: nat)
    requires width > 0 && 4 * p + 2 < |t|
    requires m < |palette| && IsBytePalette(palette) && Separated(palette)
    requires PixelColor(t, p) == palette[m]
    ensures DitheredPixel(t, width, palette, p) == PixelColor(t, p)
  {
    PaletteColorIsFixed(palette, m, p % width, p / width);
  }

  lemma LevelsApart(d1: int, d2: int)
    requires d1 != d2
    ensures Abs(Level(d1) - Level(d2)) >= 85
  {
  }

  /** Distinct cube entries differ by a full level in some channel. */
  lemma CubeFarApart(i: nat, j: nat)
    requires i < 64 && j < 64 && i != j
    ensures FarApart(CubeColor(i), CubeColor(j))
  {
    CubeDigitsDiffer(i, j);
    if i / 16 != j / 16 {
      LevelsApart(i / 16, j / 16);
    } else if i / 4 % 4 != j / 4 % 4 {
      LevelsApart(i / 4 % 4, j / 4 % 4);
    } else {
      LevelsApart(i % 4, j % 4);
    }
  }

  /** The 64-colour table is separated. */
  lemma Palette64Separated()
    ensures Separated(Palette64)
  {
    Palette64IsCube();
    forall i, j | 0 <= i < |Palette64| && 0 <= j < |Palette64| && i != j
      ensures FarApart(Palette64[i], Palette64[j])
    {
      CubeFarApart(i, j);
    }
  }

  /** Black and white are separated. */
  lemma Palette2Separated()
    ensures Separated(Palette2)
  {
  }

  /** Both palettes the selector offers are separated. */
  lemma GetPaletteSeparated(choice: PaletteChoice)
    ensures Separated(GetPalette(choice))
  {
    Palette64Separated();
  }
}
