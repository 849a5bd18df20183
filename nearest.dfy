/**
 * The nearest-colour matcher: the palette entry at the smallest squared
 * Euclidean RGB distance from a query colour, the lowest index winning ties.
 *
 * Query channels are real numbers and may lie outside 0..255; distances are
 * compared exactly as given, without clamping the query.
 */
module NearestColor {
  import opened Palettes

  function Sq(d: real): real { d * d }

  /** The squared Euclidean distance between the query (r, g, b) and entry `c`. */
  function DistanceSq(r: real, g: real, b: real, c: RGB): real
  {
    Sq(r - c.r as real) + Sq(g - c.g as real) + Sq(b - c.b as real)
  }

  /**
   * Index `k` is the answer among the first `n` entries: none of them is
   * strictly closer, and every entry before `k` is strictly farther.
   */
  predicate IsNearestAmong(r: real, g: real, b: real, palette: seq<RGB>, n: nat, k: nat)
    requires n <= |palette|
  {
    && k < n
    && (forall j :: 0 <= j < n ==>
          DistanceSq(r, g, b, palette[k]) <= DistanceSq(r, g, b, palette[j]))
    && (forall j :: 0 <= j < k ==>
          DistanceSq(r, g, b, palette[k]) < DistanceSq(r, g, b, palette[j]))
  }

  predicate IsNearest(r: real, g: real, b: real, palette: seq<RGB>, k: nat) {
    IsNearestAmong(r, g, b, palette, |palette|, k)
  }

  /** The answer among the first `n` entries, found by extending the prefix one entry at a time. */
  function NearestInPrefix(r: real, g: real, b: real, palette: seq<RGB>, n: nat): (k: nat)
    requires 0 < n <= |palette|
    ensures k < n
    decreases n
  {
    if n == 1 then 0
    else
      var k := NearestInPrefix(r, g, b, palette, n - 1);
      if DistanceSq(r, g, b, palette[n - 1]) < DistanceSq(r, g, b, palette[k]) then n - 1 else k
  }

  /** The index of the nearest entry of a non-empty palette. */
  function NearestIndex(r: real, g: real, b: real, palette: seq<RGB>): (k: nat)
    requires |palette| > 0
    ensures k < |palette|
  {
    NearestInPrefix(r, g, b, palette, |palette|)
  }

  /** Each prefix answer is the argmin of its prefix, with the first-index tie-break. */
  lemma {:induction false} NearestInPrefixIsNearest(r: real, g: real, b: real, palette: seq<RGB>, n: nat)
    requires 0 < n <= |palette|
    ensures IsNearestAmong(r, g, b, palette, n, NearestInPrefix(r, g, b, palette, n))
    decreases n
  {
    if n > 1 {
      NearestInPrefixIsNearest(r, g, b, palette, n - 1);
    }
  }

  /**
   * NearestIndex is the argmin of the squared distance over the whole palette,
   * and among equally near entries it is the first.
   */
  lemma NearestIndexIsNearest(r: real, g: real, b: real, palette: seq<RGB>)
    requires |palette| > 0
    ensures IsNearest(r, g, b, palette, NearestIndex(r, g, b, palette))
  {
    NearestInPrefixIsNearest(r, g, b, palette, |palette|);
  }

  /** The argmin with the first-index tie-break has at most one solution. */
  lemma NearestUnique(r: real, g: real, b: real, palette: seq<RGB>, k1: nat, k2: nat)
    requires IsNearest(r, g, b, palette, k1) && IsNearest(r, g, b, palette, k2)
    ensures k1 == k2
  {
    // An earlier index is strictly farther than a later winner, which the
    // earlier winner's minimality forbids.
    var d1, d2 := DistanceSq(r, g, b, palette[k1]), DistanceSq(r, g, b, palette[k2]);
    assert k1 < k2 ==> d2 < d1;
    assert k2 < k1 ==> d1 < d2;
  }

  /** Every index that satisfies the argmin specification is the one NearestIndex gives. */
  lemma NearestIndexCharacterized(r: real, g: real, b: real, palette: seq<RGB>, k: nat)
    requires |palette| > 0
    ensures IsNearest(r, g, b, palette, k) <==> k == NearestIndex(r, g, b, palette)
  {
    NearestIndexIsNearest(r, g, b, palette);
    if IsNearest(r, g, b, palette, k) {
      NearestUnique(r, g, b, palette, k, NearestIndex(r, g, b, palette));
    }
  }

  /** The `minDiff` variable, which starts at Infinity. */
  datatype Bound = Infinite | Finite(value: real)

  predicate Below(d: real, bound: Bound) {
    bound.Infinite? || d < bound.value
  }

  /**
   * The palette scan: keep the first entry and replace it only by an entry at
   * a strictly smaller distance.
   */
  method FindNearestColor(r: real, g: real, b: real, palette: seq<RGB>) returns (nearest: RGB)
    requires |palette| > 0
    ensures nearest == palette[NearestIndex(r, g, b, palette)]
    ensures nearest in palette
    ensures forall j :: 0 <= j < |palette| ==>
              DistanceSq(r, g, b, nearest) <= DistanceSq(r, g, b, palette[j])
  {
    var minDiff := Infinite;
    nearest := palette[0];
    ghost var k := 0;
    for i := 0 to |palette|
      invariant i == 0 ==> minDiff == Infinite && nearest == palette[0]
      invariant i > 0 ==> k == NearestInPrefix(r, g, b, palette, i)
      invariant i > 0 ==> nearest == palette[k] && minDiff == Finite(DistanceSq(r, g, b, nearest))
    {
      var color := palette[i];
      var diff := DistanceSq(r, g, b, color);
      if Below(diff, minDiff) {
        minDiff := Finite(diff);
        nearest := color;
        k := i;
      }
    }
    NearestIndexIsNearest(r, g, b, palette);
  }

  /** A query exactly halfway between two entries resolves to the first. */
  lemma TieGoesToFirstEntry()
    ensures NearestIndex(1.0, 0.0, 0.0, [RGB(0, 0, 0), RGB(2, 0, 0)]) == 0
  {
    var p := [RGB(0, 0, 0), RGB(2, 0, 0)];
    assert DistanceSq(1.0, 0.0, 0.0, p[0]) == DistanceSq(1.0, 0.0, 0.0, p[1]);
  }

  /** A query that equals an entry exactly yields the first entry equal to it. */
  lemma ExactMatchIsNearest(palette: seq<RGB>, m: nat)
    requires m < |palette|
    ensures var c := palette[m];
      palette[NearestIndex(c.r as real, c.g as real, c.b as real, palette)] == c
  {
    var c := palette[m];
    var r, g, b := c.r as real, c.g as real, c.b as real;
    NearestIndexIsNearest(r, g, b, palette);
    var e := palette[NearestIndex(r, g, b, palette)];
    DistanceZero(c, c);
    assert DistanceSq(r, g, b, e) <= DistanceSq(r, g, b, c);
    DistanceZero(c, e);
  }

  /** The square of an integer, taken as a real, is the integer square. */
  lemma SqOfInt(k: int)
    ensures Sq(k as real) == (k * k) as real
  {
    assert (k * k) as real == k as real * k as real;
  }

  /** Two colours with integer channels are at distance zero exactly when they are equal. */
  lemma DistanceZero(c: RGB, e: RGB)
    ensures DistanceSq(c.r as real, c.g as real, c.b as real, e) == 0.0 <==> e == c
    ensures DistanceSq(c.r as real, c.g as real, c.b as real, e) >= 0.0
  {
    var dr, dg, db := c.r - e.r, c.g - e.g, c.b - e.b;
    SqOfInt(dr);
    SqOfInt(dg);
    SqOfInt(db);
    assert DistanceSq(c.r as real, c.g as real, c.b as real, e) == (dr * dr + dg * dg + db * db) as real;
    SqPositive(dr);
    SqPositive(dg);
    SqPositive(db);
  }

  lemma SqPositive(d: int)
    ensures d * d >= 0 && (d != 0 ==> d * d > 0)
  {
  }
}
