/** Reading a planet's position out of its ephemeris at a point of the
    animation: `ratio` runs from 0 at the first sample to 1 at the last. */
module Interpolation {
  import opened Results
  import opened JsNumber
  import opened Ephemeris

  datatype Coord = Coord(ra: Num, dec: Num)

  /** The fractional position of `ratio` among `n` samples. */
  function Position(ratio: real, n: nat): real {
    ratio * ((n as int) - 1) as real
  }

  /** The sample index `Math.floor(ratio * (n - 1))`. */
  function Index(ratio: real, n: nat): int {
    Position(ratio, n).Floor
  }

  /** The position of a ratio in [0, 1] lies between the first and the last sample. */
  lemma PositionBounds(ratio: real, n: nat)
    requires 0.0 <= ratio <= 1.0 && n > 0
    ensures 0.0 <= Position(ratio, n) <= ((n as int) - 1) as real
  {
    var m := ((n as int) - 1) as real;
    NonNegativeProduct(1.0 - ratio, m);
    NonNegativeProduct(ratio, m);
  }

  lemma NonNegativeProduct(x: real, y: real)
    requires x >= 0.0 && y >= 0.0
    ensures x * y >= 0.0
  {
    if y > 0.0 {
      MulMonotone(0.0, x, y);
    }
  }

  /** Every ratio in [0, 1] selects an existing sample. */
  lemma IndexInRange(ratio: real, n: nat)
    requires 0.0 <= ratio <= 1.0 && n > 0
    ensures 0 <= Index(ratio, n) < n
  {
    PositionBounds(ratio, n);
  }

  /** A later point of the animation never selects an earlier sample. */
  lemma IndexMonotone(r1: real, r2: real, n: nat)
    requires r1 <= r2 && n > 0
    ensures Index(r1, n) <= Index(r2, n)
  {
    var m := ((n as int) - 1) as real;
    NonNegativeProduct(r2 - r1, m);
  }

  /** The sample at a ratio, or None where the source reads past either end
      of the array (an `undefined` element). */
  function RatioOf(arr: seq<Sample>, ratio: real): (r: Option<Sample>)
    ensures r.Some? <==> 0 <= Index(ratio, |arr|) < |arr|
    ensures r.Some? ==> r.value in arr
  {
    var i := Index(ratio, |arr|);
    if 0 <= i < |arr| then Some(arr[i]) else None
  }

  /** An empty ephemeris has no sample at any ratio. */
  lemma RatioOfEmpty(ratio: real)
    ensures RatioOf([], ratio) == None
  {
  }

  /** Ratio 0 is the first sample and ratio 1 the last. */
  lemma RatioOfEnds(arr: seq<Sample>)
    requires |arr| > 0
    ensures RatioOf(arr, 0.0) == Some(arr[0])
    ensures RatioOf(arr, 1.0) == Some(arr[|arr| - 1])
  {
  }

  /** With a single sample, every ratio selects it. */
  lemma RatioOfSingleSample(arr: seq<Sample>, ratio: real)
    requires |arr| == 1
    ensures RatioOf(arr, ratio) == Some(arr[0])
    ensures InterpolateRatioOf(arr, ratio) == Some(CoordOf(arr[0]))
  {
    assert Position(ratio, |arr|) == 0.0;
  }

  /** Every sample is shown at some ratio in [0, 1]: sample k at k / (n - 1). */
  lemma RatioOfReachesEverySample(arr: seq<Sample>, k: nat)
    requires |arr| > 1 && k < |arr|
    ensures 0.0 <= k as real / (|arr| - 1) as real <= 1.0
    ensures RatioOf(arr, k as real / (|arr| - 1) as real) == Some(arr[k])
  {
    var m := (|arr| - 1) as real;
    var ratio := k as real / m;
    assert ratio * m == k as real;
    assert Position(ratio, |arr|) == k as real;
  }

  /** The linear blend of two numbers, `a * (1 - t) + b * t`. */
  function Lerp(a: Num, b: Num, t: real): (r: Num)
    ensures r.Finite? <==> a.Finite? && b.Finite?
  {
    Add(Mul(a, Finite(1.0 - t)), Mul(b, Finite(t)))
  }

  predicate Between(x: real, a: real, b: real) {
    (a <= x <= b) || (b <= x <= a)
  }

  /** A blend with a weight in [0, 1] lies between its two ends, and weight
      0 gives the first end. */
  lemma LerpBetween(a: real, b: real, t: real)
    requires 0.0 <= t <= 1.0
    ensures Lerp(Finite(a), Finite(b), t).Finite?
    ensures Between(Lerp(Finite(a), Finite(b), t).v, a, b)
    ensures t == 0.0 ==> Lerp(Finite(a), Finite(b), t) == Finite(a)
  {
    if a < b {
      LerpUpward(a, b, t);
    } else if b < a {
      LerpUpward(b, a, 1.0 - t);
      LerpSwap(a, b, t);
    } else {
      assert Lerp(Finite(a), Finite(b), t).v == a * ((1.0 - t) + t);
    }
  }

  /** The blend of a smaller and a larger number stays between them. */
  lemma LerpUpward(a: real, b: real, t: real)
    requires a < b && 0.0 <= t <= 1.0
    ensures a <= Lerp(Finite(a), Finite(b), t).v <= b
  {
    var x := Lerp(Finite(a), Finite(b), t).v;
    assert x == a * (1.0 - t) + b * t;
    LerpShift(a, b, t);
    ScaledWeight(b - a, t);
  }

  /** `a * (1 - t) + b * t` is `a` moved by the fraction `t` of `b - a`. */
  lemma LerpShift(a: real, b: real, t: real)
    ensures a * (1.0 - t) + b * t == a + (b - a) * t
  {
    calc {
      a * (1.0 - t) + b * t;
      == { assert a * (1.0 - t) == a - a * t; }
      a - a * t + b * t;
      == { assert (b - a) * t == b * t - a * t; }
      a + (b - a) * t;
    }
  }

  /** A fraction in [0, 1] of a non-negative distance is at most the distance. */
  lemma ScaledWeight(d: real, t: real)
    requires d >= 0.0 && 0.0 <= t <= 1.0
    ensures 0.0 <= d * t <= d
  {
    NonNegativeProduct(d, t);
    NonNegativeProduct(d, 1.0 - t);
    assert d * (1.0 - t) == d - d * t;
  }

  /** Blending from b to a with the complementary weight is the same blend. */
  lemma LerpSwap(a: real, b: real, t: real)
    ensures Lerp(Finite(b), Finite(a), 1.0 - t) == Lerp(Finite(a), Finite(b), t)
  {
    assert 1.0 - (1.0 - t) == t;
  }

  /** The weight of the following sample, `idx - lo`. */
  function Weight(ratio: real, n: nat): (w: real)
    ensures 0.0 <= w < 1.0
  {
    Position(ratio, n) - Index(ratio, n) as real
  }

  function Blend(x: Sample, y: Sample, t: real): Coord {
    Coord(Lerp(x.ra, y.ra, t), Lerp(x.dec, y.dec, t))
  }

  function CoordOf(s: Sample): Coord {
    Coord(s.ra, s.dec)
  }

  /** The planet's drawn position: at or past the last sample the sample
      itself, otherwise the blend of the sample at the index and the next
      one, weighted by the fractional part. None where the source reads an
      `undefined` element. Only the coordinates are kept: the blended time
      label is never used. */
  function InterpolateRatioOf(arr: seq<Sample>, ratio: real): (r: Option<Coord>)
    ensures r.Some? <==> RatioOf(arr, ratio).Some?
    ensures |arr| > 0 && Index(ratio, |arr|) == |arr| - 1 ==> r == Some(CoordOf(arr[|arr| - 1]))
  {
    var lo := Index(ratio, |arr|);
    if lo >= |arr| - 1 then
      if 0 <= lo < |arr| then Some(CoordOf(arr[lo])) else None
    else if lo < 0 then None
    else Some(Blend(arr[lo], arr[lo + 1], Weight(ratio, |arr|)))
  }

  /** The interpolated position lies between the sample `RatioOf` selects and
      the next one, coordinate by coordinate. */
  lemma InterpolationBetweenNeighbours(arr: seq<Sample>, ratio: real)
    requires RatioOf(arr, ratio).Some?
    requires var i := Index(ratio, |arr|);
      i + 1 < |arr| && arr[i].ra.Finite? && arr[i].dec.Finite? &&
      arr[i + 1].ra.Finite? && arr[i + 1].dec.Finite?
    ensures var i := Index(ratio, |arr|);
      var c := InterpolateRatioOf(arr, ratio);
      c.Some? && c.value.ra.Finite? && c.value.dec.Finite? &&
      Between(c.value.ra.v, arr[i].ra.v, arr[i + 1].ra.v) &&
      Between(c.value.dec.v, arr[i].dec.v, arr[i + 1].dec.v)
  {
    var i := Index(ratio, |arr|);
    var w := Weight(ratio, |arr|);
    LerpBetween(arr[i].ra.v, arr[i + 1].ra.v, w);
    LerpBetween(arr[i].dec.v, arr[i + 1].dec.v, w);
  }

  /** Where the ratio falls exactly on a sample whose successor is defined,
      the interpolated position is that sample's own position. */
  lemma InterpolationAtSample(arr: seq<Sample>, k: nat)
    requires |arr| > 1 && k < |arr|
    requires k + 1 < |arr| ==> arr[k + 1].ra.Finite? && arr[k + 1].dec.Finite?
    ensures InterpolateRatioOf(arr, k as real / (|arr| - 1) as real) == Some(CoordOf(arr[k]))
  {
    var ratio := k as real / (|arr| - 1) as real;
    RatioOfReachesEverySample(arr, k);
    assert Position(ratio, |arr|) == k as real;
    if k + 1 < |arr| {
      LerpAtZero(arr[k].ra, arr[k + 1].ra.v);
      LerpAtZero(arr[k].dec, arr[k + 1].dec.v);
    }
  }

  /** Weight 0 on a finite second end gives back the first end, NaN included. */
  lemma LerpAtZero(a: Num, b: real)
    ensures Lerp(a, Finite(b), 0.0) == a
  {
    if a.Finite? {
      LerpBetween(a.v, b, 0.0);
    }
  }

  /** At the end of the animation the planet is at the last sample. */
  lemma InterpolationAtEnd(arr: seq<Sample>)
    requires |arr| > 0
    ensures InterpolateRatioOf(arr, 1.0) == Some(CoordOf(arr[|arr| - 1]))
  {
    assert Position(1.0, |arr|) == (|arr| - 1) as real;
  }

  /** A NaN in the following sample spoils the blend even at weight 0. */
  lemma InterpolationNaNNeighbour(arr: seq<Sample>, ratio: real)
    requires RatioOf(arr, ratio).Some?
    requires var i := Index(ratio, |arr|); i + 1 < |arr| && arr[i + 1].ra == NaN
    ensures InterpolateRatioOf(arr, ratio).value.ra == NaN
  {
  }
}
