/**
 * Ordered (Bayer 4x4) dithering of a row-major RGBA byte buffer, in place.
 *
 * Each pixel's red, green and blue are shifted by an offset that depends only
 * on the pixel's position modulo 4, clamped to 0..255, and replaced by the
 * nearest palette colour; alpha is not touched.
 */
module OrderedDither {
  import opened Palettes
  import opened NearestColor

  /** One byte of a `Uint8ClampedArray`. */
  newtype byte = x: int | 0 <= x < 256

  /** The 4x4 Bayer matrix, indexed [row][column], with entries 0..15. */
  const BayerMatrix: seq<seq<int>> :=
    [[ 0,  8,  2, 10],
     [12,  4, 14,  6],
     [ 3, 11,  1,  9],
     [15,  7, 13,  5]]

  /** The gain applied to the threshold. */
  const Factor: real := 50.0

  function Bayer(x: nat, y: nat): (v: int)
    ensures 0 <= v < 16
  {
    BayerMatrix[y % 4][x % 4]
  }

  /** The normalised threshold of pixel (x, y). */
  function Threshold(x: nat, y: nat): (t: real)
    ensures -0.5 < t < 0.5
  {
    ((Bayer(x, y) as real + 0.5) / 16.0) - 0.5
  }

  /** The amount added to each channel of pixel (x, y) before clamping. */
  function Offset(x: nat, y: nat): (o: real)
    ensures -23.4375 <= o <= 23.4375
  {
    Threshold(x, y) * Factor
  }

  function MinReal(a: real, b: real): real { if a < b then a else b }
  function MaxReal(a: real, b: real): real { if a < b then b else a }

  /**
   * The adjusted channel of a pixel at (x, y) whose original value is `c`:
   * `Math.min(255, Math.max(0, c + threshold * factor))`. It lies in 0..255,
   * it is the shifted value itself when that is in range and the nearer bound
   * otherwise, and for a byte it is never farther than the largest offset
   * from the original value.
   */
  function AdjustChannel(c: int, x: nat, y: nat): (a: real)
    ensures 0.0 <= a <= 255.0
    ensures var v := c as real + Offset(x, y);
      (0.0 <= v <= 255.0 ==> a == v) && (v < 0.0 ==> a == 0.0) && (v > 255.0 ==> a == 255.0)
    ensures 0 <= c <= 255 ==> -23.4375 <= a - c as real <= 23.4375
  {
    MinReal(255.0, MaxReal(0.0, c as real + Offset(x, y)))
  }

  /** The offset counted in sixteenths: 50 * bayer - 375, a whole number in -375..375. */
  function OffsetSixteenths(x: nat, y: nat): (o: int)
    ensures -375 <= o <= 375
  {
    50 * Bayer(x, y) - 375
  }

  /** The offset is exactly that many sixteenths. */
  lemma OffsetSixteenthsExact(x: nat, y: nat)
    ensures Offset(x, y) == OffsetSixteenths(x, y) as real / 16.0
  {
  }

  /** The adjusted channel of a byte counted in sixteenths: 16 * c plus the offset, clamped to 0..16 * 255. */
  function AdjustSixteenths(c: int, x: nat, y: nat): (a: int)
    ensures 0 <= a <= 16 * 255
    ensures 0 <= c <= 255 ==> -375 <= a - 16 * c <= 375
  {
    var v := 16 * c + OffsetSixteenths(x, y);
    if v > 16 * 255 then 16 * 255 else if v < 0 then 0 else v
  }

  /**
   * Every adjusted channel is a whole number of sixteenths, so the distances
   * the matcher compares for it are exact.
   */
  lemma AdjustChannelSixteenths(c: int, x: nat, y: nat)
    ensures AdjustChannel(c, x, y) == AdjustSixteenths(c, x, y) as real / 16.0
  {
    OffsetSixteenthsExact(x, y);
  }

  /** The palette colour chosen for a pixel of colour `c` at (x, y). */
  function DitherPixel(c: RGB, x: nat, y: nat, palette: seq<RGB>): (q: RGB)
    requires |palette| > 0
    ensures q in palette
  {
    var r := AdjustChannel(c.r, x, y);
    var g := AdjustChannel(c.g, x, y);
    var b := AdjustChannel(c.b, x, y);
    palette[NearestIndex(r, g, b, palette)]
  }

  /** Columns, and rows, that agree modulo 4 get the same offset and so the same colour. */
  lemma DitherPixelDependsOnTile(c: RGB, x1: nat, y1: nat, x2: nat, y2: nat, palette: seq<RGB>)
    requires |palette| > 0 && x1 % 4 == x2 % 4 && y1 % 4 == y2 % 4
    ensures DitherPixel(c, x1, y1, palette) == DitherPixel(c, x2, y2, palette)
  {
    assert Offset(x1, y1) == Offset(x2, y2);
    assert AdjustChannel(c.r, x1, y1) == AdjustChannel(c.r, x2, y2);
    assert AdjustChannel(c.g, x1, y1) == AdjustChannel(c.g, x2, y2);
    assert AdjustChannel(c.b, x1, y1) == AdjustChannel(c.b, x2, y2);
  }

  /** Storing an integer into a `Uint8ClampedArray` clamps it to 0..255. */
  function StoreClamped(v: int): (s: byte)
    ensures 0 <= v <= 255 ==> s as int == v
    ensures v < 0 ==> s == 0
    ensures v > 255 ==> s == 255
  {
    if v < 0 then 0 else if v > 255 then 255 else v as byte
  }

  /** The bytes a palette colour becomes once stored into the buffer. */
  function StoredColor(q: RGB): (c: RGB)
    ensures IsByteColor(c)
    ensures IsByteColor(q) ==> c == q
  {
    RGB(StoreClamped(q.r) as int, StoreClamped(q.g) as int, StoreClamped(q.b) as int)
  }

  function Channel(c: RGB, k: int): int
    requires 0 <= k < 3
  {
    if k == 0 then c.r else if k == 1 then c.g else c.b
  }

  /** The colour held by pixel `p` of buffer `s`. */
  function PixelColor(s: seq<byte>, p: nat): (c: RGB)
    requires 4 * p + 2 < |s|
    ensures IsByteColor(c)
  {
    RGB(s[4 * p] as int, s[4 * p + 1] as int, s[4 * p + 2] as int)
  }

  /** Buffer `t` with the red, green and blue of pixel `p` set to the stored channels of `q`. */
  function SetPixel(t: seq<byte>, p: nat, q: RGB): (u: seq<byte>)
    requires 4 * p + 2 < |t|
    ensures |u| == |t|
  {
    t[4 * p := StoreClamped(q.r)][4 * p + 1 := StoreClamped(q.g)][4 * p + 2 := StoreClamped(q.b)]
  }

  /** The palette colour chosen for pixel `p` of `s`, at column p % width and row p / width. */
  function DitheredPixel(s: seq<byte>, width: nat, palette: seq<RGB>, p: nat): RGB
    requires 4 * p + 2 < |s|
    requires width > 0 && |palette| > 0
  {
    DitherPixel(PixelColor(s, p), p % width, p / width, palette)
  }

  /** The colour chosen for each pixel of `s`, in pixel order. */
  function Choices(s: seq<byte>, width: nat, palette: seq<RGB>): (cs: seq<RGB>)
    requires width > 0 && |palette| > 0 && |s| % 4 == 0
    ensures |cs| == |s| / 4
  {
    seq(|s| / 4, p requires 0 <= p < |s| / 4 => DitheredPixel(s, width, palette, p))
  }

  /**
   * The buffer `s` with the red, green and blue of each pixel p that has a
   * colour cs[p] replaced by the stored channels of that colour; alpha bytes
   * and pixels without a colour are kept.
   */
  function Recolor(s: seq<byte>, cs: seq<RGB>): (t: seq<byte>)
    ensures |t| == |s|
  {
    seq(|s|, i requires 0 <= i < |s| =>
      if i % 4 == 3 || |cs| <= i / 4 then s[i] else StoreClamped(Channel(cs[i / 4], i % 4)))
  }

  /**
   * The whole buffer after ordered dithering, as a function of the buffer
   * before: every pixel recoloured with the colour chosen for it.
   */
  function OrderedDithered(s: seq<byte>, width: nat, height: nat, palette: seq<RGB>): (t: seq<byte>)
    requires |s| == 4 * (width * height)
    requires width == 0 || height == 0 || |palette| > 0
    ensures |t| == |s|
  {
    if width == 0 || height == 0 then s else Recolor(s, Choices(s, width, palette))
  }

  lemma MulAtLeast(a: int, w: nat)
    requires a >= 1
    ensures a * w >= w
  {
  }

  /** Euclidean division by a positive divisor has one quotient and one remainder. */
  lemma DivModUnique(p: int, w: int, q: int, m: int)
    requires w > 0 && 0 <= m < w && p == q * w + m
    ensures p / w == q && p % w == m
  {
    var q', m' := p / w, p % w;
    assert (q' - q) * w == m - m';
    if q' > q {
      MulAtLeast(q' - q, w);
    } else if q' < q {
      MulAtLeast(q - q', w);
    }
  }

  /** Row y, column x is pixel y * width + x, and nothing else. */
  lemma RowMajor(x: nat, y: nat, width: nat)
    requires x < width
    ensures (y * width + x) / width == y && (y * width + x) % width == x
  {
    DivModUnique(y * width + x, width, y, x);
  }

  lemma PixelInBounds(x: nat, y: nat, width: nat, height: nat)
    requires x < width && y < height
    ensures y * width + x < width * height
  {
    assert y * width + x < (y + 1) * width;
    assert (y + 1) * width <= height * width;
  }

  /** Pixel y * width + x is dithered with the offset of column x and row y. */
  lemma DitheredPixelAtColumnRow(s: seq<byte>, width: nat, palette: seq<RGB>, x: nat, y: nat, n: nat)
    requires x < width && |palette| > 0 && n == y * width + x && 4 * n + 2 < |s|
    ensures DitheredPixel(s, width, palette, n) == DitherPixel(PixelColor(s, n), x, y, palette)
  {
    RowMajor(x, y, width);
  }

  /** Byte k of pixel p sits at offset 4 * p + k. */
  lemma ByteOffset(p: nat, k: int)
    requires 0 <= k < 4
    ensures (4 * p + k) / 4 == p && (4 * p + k) % 4 == k
  {
  }

  lemma OrderedDitheredChannel(s: seq<byte>, width: nat, height: nat, palette: seq<RGB>, p: nat, k: int)
    requires |s| == 4 * (width * height) && |palette| > 0
    requires width > 0 && 4 * p + 3 < |s| && 0 <= k < 3
    ensures OrderedDithered(s, width, height, palette)[4 * p + k]
         == StoreClamped(Channel(DitheredPixel(s, width, palette, p), k))
  {
    var cs := Choices(s, width, palette);
    RecolorAt(s, cs, p, k);
    assert cs[p] == DitheredPixel(s, width, palette, p);
  }

  /** Colour byte k of a recoloured pixel p is the stored channel k of its colour. */
  lemma RecolorAt(s: seq<byte>, cs: seq<RGB>, p: nat, k: int)
    requires 4 * p + 3 < |s| && p < |cs| && 0 <= k < 3
    ensures Recolor(s, cs)[4 * p + k] == StoreClamped(Channel(cs[p], k))
  {
    ByteOffset(p, k);
  }

  /**
   * Pixel p of the dithered buffer holds the stored palette colour chosen
   * from that pixel's own original colour and its column and row.
   */
  lemma OrderedDitheredAt(s: seq<byte>, width: nat, height: nat, palette: seq<RGB>, p: nat)
    requires |s| == 4 * (width * height) && |palette| > 0
    requires width > 0 && 4 * p + 3 < |s|
    ensures PixelColor(OrderedDithered(s, width, height, palette), p)
         == StoredColor(DitheredPixel(s, width, palette, p))
  {
    OrderedDitheredChannel(s, width, height, palette, p, 0);
    OrderedDitheredChannel(s, width, height, palette, p, 1);
    OrderedDitheredChannel(s, width, height, palette, p, 2);
  }

  /**
   * A pixel whose chosen colour is the colour it already holds keeps each of
   * its colour bytes.
   */
  lemma FixedPixelKept(t: seq<byte>, width: nat, height: nat, palette: seq<RGB>, p: nat, k: int)
    requires |t| == 4 * (width * height) && |palette| > 0
    requires width > 0 && 4 * p + 3 < |t| && 0 <= k < 3
    requires DitheredPixel(t, width, palette, p) == PixelColor(t, p)
    ensures OrderedDithered(t, width, height, palette)[4 * p + k] == t[4 * p + k]
  {
    OrderedDitheredChannel(t, width, height, palette, p, k);
    StoredChannelOfPixel(t, p, k);
  }

  /** Storing a channel read from the buffer writes back the same byte. */
  lemma StoredChannelOfPixel(t: seq<byte>, p: nat, k: int)
    requires 4 * p + 2 < |t| && 0 <= k < 3
    ensures StoreClamped(Channel(PixelColor(t, p), k)) == t[4 * p + k]
  {
    assert Channel(PixelColor(t, p), k) == t[4 * p + k] as int;
  }

  /** Alpha bytes, those at offsets 3 mod 4, come through unchanged. */
  lemma OrderedDitheredAlpha(s: seq<byte>, width: nat, height: nat, palette: seq<RGB>, i: nat)
    requires |s| == 4 * (width * height) && (width == 0 || height == 0 || |palette| > 0)
    requires i < |s| && i % 4 == 3
    ensures OrderedDithered(s, width, height, palette)[i] == s[i]
  {
  }

  /** The colour chosen for pixel n = y * width + x is the one found with the offset of column x, row y. */
  lemma ChoiceAt(s: seq<byte>, width: nat, palette: seq<RGB>, x: nat, y: nat, n: nat)
    requires |palette| > 0 && |s| % 4 == 0 && x < width && n == y * width + x && 4 * n + 3 < |s|
    ensures n < |Choices(s, width, palette)|
    ensures Choices(s, width, palette)[n] == DitherPixel(PixelColor(s, n), x, y, palette)
  {
    DitheredPixelAtColumnRow(s, width, palette, x, y, n);
  }

  /**
   * The buffer `s` once its first n pixels have had their red, green and blue
   * overwritten, one pixel after another, with the stored channels of the
   * colours `cs`. A pixel with no colour, or past the end of the buffer, is
   * left as it is.
   */
  function Paint(s: seq<byte>, cs: seq<RGB>, n: nat): (t: seq<byte>)
    ensures |t| == |s|
  {
    if n == 0 then s
    else
      var t := Paint(s, cs, n - 1);
      if n - 1 < |cs| && 4 * (n - 1) + 2 < |s| then SetPixel(t, n - 1, cs[n - 1]) else t
  }

  /** Bytes at or beyond pixel n are untouched once n pixels are painted. */
  lemma {:induction false} PaintAhead(s: seq<byte>, cs: seq<RGB>, n: nat, i: nat)
    requires 4 * n <= i < |s|
    ensures Paint(s, cs, n)[i] == s[i]
  {
    if n > 0 {
      PaintAhead(s, cs, n - 1, i);
    }
  }

  /** So pixel n still holds its original colour once n pixels are painted. */
  lemma PaintPixelAhead(s: seq<byte>, cs: seq<RGB>, n: nat)
    requires 4 * n + 2 < |s|
    ensures PixelColor(Paint(s, cs, n), n) == PixelColor(s, n)
  {
    PaintAhead(s, cs, n, 4 * n);
    PaintAhead(s, cs, n, 4 * n + 1);
    PaintAhead(s, cs, n, 4 * n + 2);
  }

  /**
   * Once n pixels are painted, each colour byte of those pixels is the stored
   * channel of its pixel's colour, and every other byte, alpha included, is
   * the original one.
   */
  lemma {:induction false} PaintBytes(s: seq<byte>, cs: seq<RGB>, n: nat)
    requires n <= |cs| && 4 * n <= |s|
    ensures forall i :: 0 <= i < |s| ==>
      Paint(s, cs, n)[i] == if i < 4 * n && i % 4 != 3 then StoreClamped(Channel(cs[i / 4], i % 4)) else s[i]
  {
    if n > 0 {
      var m := n - 1;
      PaintBytes(s, cs, m);
      ByteOffset(m, 0);
      ByteOffset(m, 1);
      ByteOffset(m, 2);
      ByteOffset(m, 3);
    }
  }

  /** Painting all pixels, one colour each, recolours the whole buffer. */
  lemma PaintAll(s: seq<byte>, cs: seq<RGB>, n: nat)
    requires |cs| == n && |s| == 4 * n
    ensures Paint(s, cs, n) == Recolor(s, cs)
  {
    PaintBytes(s, cs, n);
    var t, u := Paint(s, cs, n), Recolor(s, cs);
    forall i | 0 <= i < |s| ensures t[i] == u[i] {
    }
  }

  /** Painting every pixel with its chosen colour yields the dithered buffer. */
  lemma PaintComplete(s: seq<byte>, width: nat, height: nat, palette: seq<RGB>)
    requires width > 0 && height > 0 && |palette| > 0 && |s| == 4 * (width * height)
    ensures Paint(s, Choices(s, width, palette), width * height)
         == OrderedDithered(s, width, height, palette)
  {
    PaintAll(s, Choices(s, width, palette), width * height);
  }

  /**
   * The byte offsets written for the first n pixels, in the order they are
   * written: red, green, blue of pixel 0, then of pixel 1, and so on.
   */
  function WriteOrder(n: nat): (w: seq<int>)
    ensures |w| == 3 * n
  {
    if n == 0 then [] else WriteOrder(n - 1) + [4 * (n - 1), 4 * (n - 1) + 1, 4 * (n - 1) + 2]
  }

  /** The writes for pixel n follow those for the pixels before it. */
  lemma WriteOrderNext(n: nat, n': nat)
    requires n' == n + 1
    ensures WriteOrder(n') == WriteOrder(n) + [4 * n, 4 * n + 1, 4 * n + 2]
  {
  }

  /** Write number j goes to channel j % 3 of pixel j / 3. */
  lemma {:induction false} WriteOrderAt(n: nat)
    ensures forall j :: 0 <= j < 3 * n ==> WriteOrder(n)[j] == 4 * (j / 3) + j % 3
  {
    if n > 0 {
      WriteOrderAt(n - 1);
      forall j | 3 * (n - 1) <= j < 3 * n ensures WriteOrder(n)[j] == 4 * (j / 3) + j % 3 {
        assert j / 3 == n - 1;
      }
    }
  }

  /**
   * The writes for n pixels go to strictly increasing offsets, so no byte is
   * written twice, and they hit exactly the red, green and blue bytes of
   * those pixels, never an alpha byte.
   */
  lemma WriteOrderExact(n: nat)
    ensures forall j, k :: 0 <= j < k < |WriteOrder(n)| ==> WriteOrder(n)[j] < WriteOrder(n)[k]
    ensures forall i :: 0 <= i < 4 * n ==> (i in WriteOrder(n) <==> i % 4 != 3)
    ensures forall i :: i in WriteOrder(n) ==> 0 <= i < 4 * n
  {
    var w := WriteOrder(n);
    WriteOrderAt(n);
    forall j, k | 0 <= j < k < |w| ensures w[j] < w[k] {
      assert j / 3 <= k / 3;
    }
    forall i | 0 <= i < 4 * n ensures i in w <==> i % 4 != 3 {
      if i % 4 != 3 {
        var j := 3 * (i / 4) + i % 4;
        assert j / 3 == i / 4 && j % 3 == i % 4;
        assert w[j] == i;
      }
    }
    forall i | i in w ensures 0 <= i < 4 * n {
      var j :| 0 <= j < |w| && w[j] == i;
    }
  }

  /** The browser's pixel buffer: its dimensions and its mutable bytes. */
  class ImageData {
    const width: nat
    const height: nat
    const data: array<byte>

    /** Four bytes, R, G, B and A, per pixel, row by row. */
    predicate Valid() {
      data.Length == 4 * (width * height)
    }

    constructor (data: array<byte>, width: nat, height: nat)
      requires data.Length == 4 * (width * height)
      ensures Valid()
      ensures this.data == data && this.width == width && this.height == height
    {
      this.data := data;
      this.width := width;
      this.height := height;
    }
  }

  /**
   * The body of the scan for pixel p, at byte offset idx, column x and row y:
   * read its red, green and blue, add the pixel's offset and clamp, find the
   * nearest palette colour and store its channels over the pixel.
   */
  method DitherPixelAt(data: array<byte>, palette: seq<RGB>, x: nat, y: nat, idx: int, ghost p: nat)
    returns (ghost written: seq<int>)
    requires idx == 4 * p && idx + 2 < data.Length && |palette| > 0
    modifies data
    ensures data[..] == SetPixel(old(data[..]), p, DitherPixel(PixelColor(old(data[..]), p), x, y, palette))
    ensures written == WriteOrder(p + 1)[3 * p..]
  {
    var oldR := data[idx];
    var oldG := data[idx + 1];
    var oldB := data[idx + 2];
    var adjustedR := AdjustChannel(oldR as int, x, y);
    var adjustedG := AdjustChannel(oldG as int, x, y);
    var adjustedB := AdjustChannel(oldB as int, x, y);
    var nearest := FindNearestColor(adjustedR, adjustedG, adjustedB, palette);
    written := [];
    data[idx] := StoreClamped(nearest.r);
    written := written + [idx];
    data[idx + 1] := StoreClamped(nearest.g);
    written := written + [idx + 1];
    data[idx + 2] := StoreClamped(nearest.b);
    written := written + [idx + 2];
    WriteOrderNext(p, p + 1);
  }

  /**
   * Painting pixel n = y * width + x with its chosen colour is what the scan
   * does to it: the pixel still holds its original colour, and the colour
   * chosen for it is the one found with the offset of column x, row y.
   */
  lemma PaintNext(s: seq<byte>, cs: seq<RGB>, width: nat, palette: seq<RGB>, x: nat, y: nat, n: nat, n': nat)
    requires |palette| > 0 && |s| % 4 == 0 && x < width && n == y * width + x && 4 * n + 3 < |s| && n' == n + 1
    requires cs == Choices(s, width, palette)
    ensures Paint(s, cs, n')
         == SetPixel(Paint(s, cs, n), n, DitherPixel(PixelColor(Paint(s, cs, n), n), x, y, palette))
  {
    ChoiceAt(s, width, palette, x, y, n);
    PaintPixelAhead(s, cs, n);
  }

  /** Rows 0 up to y + 1 lie within a buffer of `height` rows. */
  lemma RowsInBounds(width: nat, y: nat, height: nat)
    requires y < height
    ensures width * (y + 1) <= width * height
  {
  }

  /** Row y starts at pixel y * width, and row y + 1 one row later. */
  lemma RowStart(width: nat, y: nat)
    ensures y * width == width * y && width * (y + 1) == y * width + width
  {
  }

  /**
   * The inner loop of the scan: dither row y, left to right, logging the
   * byte offsets written.
   */
  method DitherRow(data: array<byte>, ghost before: seq<byte>, ghost choices: seq<RGB>,
                   width: nat, palette: seq<RGB>, y: nat, ghost writes: seq<int>)
    returns (ghost writes': seq<int>)
    requires width > 0 && |before| % 4 == 0 && |palette| > 0 && 4 * (width * (y + 1)) <= |before|
    requires choices == Choices(before, width, palette)
    requires data[..] == Paint(before, choices, width * y) && writes == WriteOrder(width * y)
    modifies data
    ensures data[..] == Paint(before, choices, width * (y + 1))
    ensures writes' == WriteOrder(width * (y + 1))
  {
    ghost var p0 := y * width;
    ghost var p1 := width * (y + 1);
    RowStart(width, y);
    ghost var p := p0;
    writes' := writes;
    for x := 0 to width
      invariant p == p0 + x
      invariant data[..] == Paint(before, choices, p)
      invariant writes' == WriteOrder(p)
    {
      var idx := (y * width + x) * 4;
      assert idx == 4 * p;
      ghost var q := p + 1;
      PaintNext(before, choices, width, palette, x, y, p, q);
      WriteOrderNext(p, q);
      ghost var written := DitherPixelAt(data, palette, x, y, idx, p);
      writes' := writes' + written;
      p := q;
    }
    assert p == p1;
  }

  /**
   * The outer loop of the scan over a non-empty image: dither rows 0 up to
   * height, top to bottom, logging the byte offsets written.
   */
  method DitherRows(data: array<byte>, width: nat, height: nat, palette: seq<RGB>)
    returns (ghost writes: seq<int>)
    requires width > 0 && height > 0 && |palette| > 0 && data.Length == 4 * (width * height)
    modifies data
    ensures data[..] == Paint(old(data[..]), Choices(old(data[..]), width, palette), width * height)
    ensures writes == WriteOrder(width * height)
  {
    ghost var before := data[..];
    ghost var choices := Choices(before, width, palette);
    writes := [];
    for y := 0 to height
      invariant data[..] == Paint(before, choices, width * y)
      invariant writes == WriteOrder(width * y)
    {
      RowsInBounds(width, y, height);
      writes := DitherRow(data, before, choices, width, palette, y, writes);
    }
  }

  /**
   * Dither `image` in place, pixel by pixel in row-major order, and return
   * the same object. `writes` records the byte offsets written, in order.
   */
  method OrderedDitherImage(image: ImageData, palette: seq<RGB>)
    returns (result: ImageData, ghost writes: seq<int>)
    requires image.Valid()
    requires image.width == 0 || image.height == 0 || |palette| > 0
    modifies image.data
    ensures result == image
    ensures image.data[..] == OrderedDithered(old(image.data[..]), image.width, image.height, palette)
    ensures writes == WriteOrder(image.width * image.height)
  {
    var width := image.width;
    var height := image.height;
    if width == 0 || height == 0 {
      // There is no pixel to visit; the buffer is empty.
      writes := [];
      assert width * height == 0;
      return image, writes;
    }
    ghost var before := image.data[..];
    writes := DitherRows(image.data, width, height, palette);
    PaintComplete(before, width, height, palette);
    result := image;
  }
}
