/**
 * The fixed colour tables of the converter and the selector that picks one.
 * Channels are integers; both shipped tables stay inside 0..255.
 */
module Palettes {

  /** A palette entry: the `RGB` record of the application. */
  datatype RGB = RGB(r: int, g: int, b: int)

  /** All three channels of `c` fit in an 8-bit pixel buffer. */
  predicate IsByteColor(c: RGB) {
    0 <= c.r <= 255 && 0 <= c.g <= 255 && 0 <= c.b <= 255
  }

  predicate IsBytePalette(palette: seq<RGB>) {
    forall k :: 0 <= k < |palette| ==> IsByteColor(palette[k])
  }

  /** The 64-colour table, written out entry by entry in the program's order. */
  const Palette64: seq<RGB> :=
    [RGB(  0,   0,   0), RGB(  0,   0,  85), RGB(  0,   0, 170), RGB(  0,   0, 255)] +
    [RGB(  0,  85,   0), RGB(  0,  85,  85), RGB(  0,  85, 170), RGB(  0,  85, 255)] +
    [RGB(  0, 170,   0), RGB(  0, 170,  85), RGB(  0, 170, 170), RGB(  0, 170, 255)] +
    [RGB(  0, 255,   0), RGB(  0, 255,  85), RGB(  0, 255, 170), RGB(  0, 255, 255)] +
    [RGB( 85,   0,   0), RGB( 85,   0,  85), RGB( 85,   0, 170), RGB( 85,   0, 255)] +
    [RGB( 85,  85,   0), RGB( 85,  85,  85), RGB( 85,  85, 170), RGB( 85,  85, 255)] +
    [RGB( 85, 170,   0), RGB( 85, 170,  85), RGB( 85, 170, 170), RGB( 85, 170, 255)] +
    [RGB( 85, 255,   0), RGB( 85, 255,  85), RGB( 85, 255, 170), RGB( 85, 255, 255)] +
    [RGB(170,   0,   0), RGB(170,   0,  85), RGB(170,   0, 170), RGB(170,   0, 255)] +
    [RGB(170,  85,   0), RGB(170,  85,  85), RGB(170,  85, 170), RGB(170,  85, 255)] +
    [RGB(170, 170,   0), RGB(170, 170,  85), RGB(170, 170, 170), RGB(170, 170, 255)] +
    [RGB(170, 255,   0), RGB(170, 255,  85), RGB(170, 255, 170), RGB(170, 255, 255)] +
    [RGB(255,   0,   0), RGB(255,   0,  85), RGB(255,   0, 170), RGB(255,   0, 255)] +
    [RGB(255,  85,   0), RGB(255,  85,  85), RGB(255,  85, 170), RGB(255,  85, 255)] +
    [RGB(255, 170,   0), RGB(255, 170,  85), RGB(255, 170, 170), RGB(255, 170, 255)] +
    [RGB(255, 255,   0), RGB(255, 255,  85), RGB(255, 255, 170), RGB(255, 255, 255)]

  /** The black-and-white table. */
  const Palette2: seq<RGB> := [RGB(0, 0, 0), RGB(255, 255, 255)]

  /** The two values the palette selector can hold ('64' and '2'). */
  datatype PaletteChoice = Colors64 | Colors2

  /** The channel level of digit `d` of the 4-level colour cube. */
  function Level(d: int): int { 85 * d }

  /** Entry `n` of a 4x4x4 colour cube in red-major, blue-minor order. */
  function CubeColor(n: nat): (c: RGB)
    requires n < 64
    ensures IsByteColor(c)
  {
    RGB(Level(n / 16), Level(n / 4 % 4), Level(n % 4))
  }

  /**
   * The written-out table is exactly the colour cube: entry n has the base-4
   * digits of n, scaled by 85, as its red, green and blue channels.
   */
  lemma Palette64IsCube()
    ensures |Palette64| == 64
    ensures forall n :: 0 <= n < 64 ==> Palette64[n] == CubeColor(n)
  {
    forall n | 0 <= n < 64 ensures Palette64[n] == CubeColor(n) {
      // n is one of the 64 table indices; each case is a literal lookup.
      assert n == 0 || n == 1 || n == 2 || n == 3 || n == 4 || n == 5 || n == 6 || n == 7 ||
        n == 8 || n == 9 || n == 10 || n == 11 || n == 12 || n == 13 || n == 14 || n == 15 ||
        n == 16 || n == 17 || n == 18 || n == 19 || n == 20 || n == 21 || n == 22 || n == 23 ||
        n == 24 || n == 25 || n == 26 || n == 27 || n == 28 || n == 29 || n == 30 || n == 31 ||
        n == 32 || n == 33 || n == 34 || n == 35 || n == 36 || n == 37 || n == 38 || n == 39 ||
        n == 40 || n == 41 || n == 42 || n == 43 || n == 44 || n == 45 || n == 46 || n == 47 ||
        n == 48 || n == 49 || n == 50 || n == 51 || n == 52 || n == 53 || n == 54 || n == 55 ||
        n == 56 || n == 57 || n == 58 || n == 59 || n == 60 || n == 61 || n == 62 || n == 63;
    }
  }

  /** Every colour of the cube appears in the table, at index 16r + 4g + b. */
  lemma Palette64Complete(dr: int, dg: int, db: int)
    requires 0 <= dr < 4 && 0 <= dg < 4 && 0 <= db < 4
    ensures 16 * dr + 4 * dg + db < |Palette64|
    ensures Palette64[16 * dr + 4 * dg + db] == RGB(Level(dr), Level(dg), Level(db))
  {
    Palette64IsCube();
    var n := 16 * dr + 4 * dg + db;
    assert n / 16 == dr && n / 4 % 4 == dg && n % 4 == db;
  }

  /** n < 64 has the base-4 digits n / 16, n / 4 % 4 and n % 4. */
  lemma CubeDigits(n: nat)
    requires n < 64
    ensures n == 16 * (n / 16) + 4 * (n / 4 % 4) + n % 4
    ensures n / 16 < 4 && n / 4 % 4 < 4 && n % 4 < 4
  {
  }

  /** Distinct indices differ in some base-4 digit. */
  lemma CubeDigitsDiffer(i: nat, j: nat)
    requires i < 64 && j < 64 && i != j
    ensures i / 16 != j / 16 || i / 4 % 4 != j / 4 % 4 || i % 4 != j % 4
  {
    CubeDigits(i);
    CubeDigits(j);
  }

  /** The 64 entries are pairwise distinct. */
  lemma Palette64Distinct(i: int, j: int)
    requires 0 <= i < 64 && 0 <= j < 64 && i != j
    ensures Palette64[i] != Palette64[j]
  {
    Palette64IsCube();
    CubeDigitsDiffer(i, j);
  }

  /** The 64-colour table holds byte colours and runs from black to white. */
  lemma Palette64Bounds()
    ensures |Palette64| == 64 && IsBytePalette(Palette64)
    ensures Palette64[0] == RGB(0, 0, 0) && Palette64[63] == RGB(255, 255, 255)
  {
    Palette64IsCube();
    assert Palette64[0] == CubeColor(0) && Palette64[63] == CubeColor(63);
  }

  /** The palette the selector names. */
  function GetPalette(choice: PaletteChoice): (palette: seq<RGB>)
    ensures |palette| > 0 && IsBytePalette(palette)
    ensures |palette| == (if choice == Colors64 then 64 else 2)
    ensures palette[0] == RGB(0, 0, 0) && palette[|palette| - 1] == RGB(255, 255, 255)
  {
    if choice == Colors64 then Palette64Bounds(); Palette64 else Palette2
  }
}
