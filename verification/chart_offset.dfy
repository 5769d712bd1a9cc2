/** The horizontal coordinate of the chart: a right ascension in seconds of
    arc, turned by the configured offset in degrees and reduced to one
    full circle. */
module ChartOffset {
  import opened JsNumber

  /** 360 degrees in seconds of arc. */
  const FullCircle: real := 1296000.0

  /** The reduction as the chart code writes it, with JavaScript's `%`,
      whose result takes the sign of the dividend. */
  function RaAsWritten(ra: Num, offsetDegrees: real): (r: Num)
    ensures r.Finite? <==> ra.Finite?
    ensures ra.Finite? && ra.v + offsetDegrees * 3600.0 >= 0.0 ==> 0.0 <= r.v < FullCircle
  {
    Rem(Add(ra, Finite(offsetDegrees * 3600.0)), FullCircle)
  }

  /** When the turned coordinate is below zero but above minus one full
      circle, the reduction leaves it negative: it is not wrapped. */
  lemma AsWrittenStaysNegative(ra: real, offsetDegrees: real)
    requires -FullCircle < ra + offsetDegrees * 3600.0 < 0.0
    ensures RaAsWritten(Finite(ra), offsetDegrees) == Finite(ra + offsetDegrees * 3600.0)
    ensures RaAsWritten(Finite(ra), offsetDegrees).v < 0.0
  {
    var x := ra + offsetDegrees * 3600.0;
    assert -1.0 < x / FullCircle < 0.0;
    assert Trunc(x / FullCircle) == 0;
  }

  /** An offset of -30 degrees moves a star at 10 degrees (36000 seconds of
      arc) to -72000 instead of 1224000. */
  lemma AsWrittenNegativeOffset()
    ensures RaAsWritten(Finite(36000.0), -30.0) == Finite(-72000.0)
  {
    AsWrittenStaysNegative(36000.0, -30.0);
  }

  /** For a right ascension within one circle and an offset in (-360, 0]
      degrees, the reduction as written only shifts the coordinate: nothing
      wraps. */
  lemma AsWrittenTranslates(ra: real, offsetDegrees: real)
    requires 0.0 <= ra < FullCircle && -360.0 < offsetDegrees <= 0.0
    ensures RaAsWritten(Finite(ra), offsetDegrees) == Finite(ra + offsetDegrees * 3600.0)
  {
    var x := ra + offsetDegrees * 3600.0;
    if x < 0.0 {
      AsWrittenStaysNegative(ra, offsetDegrees);
    } else {
      assert 0.0 <= x / FullCircle < 1.0;
      assert Trunc(x / FullCircle) == 0;
    }
  }

  /** So such an offset keeps the distance between any two stars, and the
      chart, whose horizontal extent is taken through the same reduction,
      looks as it does without an offset. */
  lemma AsWrittenKeepsDistances(a: real, b: real, offsetDegrees: real)
    requires 0.0 <= a < FullCircle && 0.0 <= b < FullCircle
    requires -360.0 < offsetDegrees <= 0.0
    ensures RaAsWritten(Finite(a), offsetDegrees).v - RaAsWritten(Finite(b), offsetDegrees).v == a - b
  {
    AsWrittenTranslates(a, offsetDegrees);
    AsWrittenTranslates(b, offsetDegrees);
  }

  /** The corrected reduction does wrap: with an offset of -30 degrees, a
      star at 10 degrees moves from the near end of the chart to the far
      end, past a star at 350 degrees. */
  lemma RaWrapsNegativeOffset()
    ensures Ra(Finite(36000.0), -30.0).v > Ra(Finite(1260000.0), -30.0).v
    ensures RaAsWritten(Finite(36000.0), -30.0).v < RaAsWritten(Finite(1260000.0), -30.0).v
  {
    RaNegativeOffset();
    RaCharacterised(1260000.0, -30.0, 0, 1152000.0);
    AsWrittenTranslates(36000.0, -30.0);
    AsWrittenTranslates(1260000.0, -30.0);
  }

  /** The reduction into [0, full circle) for every input, the intended
      meaning of the offset. */
  function Ra(ra: Num, offsetDegrees: real): (r: Num)
    ensures r.Finite? <==> ra.Finite?
    ensures r.Finite? ==> 0.0 <= r.v < FullCircle
  {
    if ra.Finite? then
      var x := ra.v + offsetDegrees * 3600.0;
      var k := (x / FullCircle).Floor;
      QuotientBounds(x, FullCircle, k);
      Finite(x - k as real * FullCircle)
    else NaN
  }

  /** The reduced coordinate is the only value in [0, full circle) that
      differs from the turned coordinate by whole circles. */
  lemma RaCharacterised(ra: real, offsetDegrees: real, k: int, y: real)
    requires 0.0 <= y < FullCircle
    requires ra + offsetDegrees * 3600.0 == y + k as real * FullCircle
    ensures Ra(Finite(ra), offsetDegrees) == Finite(y)
  {
    var x := ra + offsetDegrees * 3600.0;
    assert x / FullCircle == y / FullCircle + k as real;
    assert 0.0 <= y / FullCircle < 1.0;
    assert (x / FullCircle).Floor == k;
  }

  /** The reduction does not depend on whole turns of the input. */
  lemma RaPeriodic(ra: real, offsetDegrees: real, turns: int)
    ensures Ra(Finite(ra + turns as real * FullCircle), offsetDegrees) == Ra(Finite(ra), offsetDegrees)
  {
    var x := ra + offsetDegrees * 3600.0;
    var k := (x / FullCircle).Floor;
    var y := Ra(Finite(ra), offsetDegrees).v;
    assert x == y + k as real * FullCircle;
    RaCharacterised(ra + turns as real * FullCircle, offsetDegrees, k + turns, y);
  }

  /** Offsets that differ by whole circles of 360 degrees give the same chart. */
  lemma RaOffsetPeriodic(ra: real, offsetDegrees: real, turns: int)
    ensures Ra(Finite(ra), offsetDegrees + turns as real * 360.0) == Ra(Finite(ra), offsetDegrees)
  {
    var x := ra + offsetDegrees * 3600.0;
    var k := (x / FullCircle).Floor;
    var y := Ra(Finite(ra), offsetDegrees).v;
    assert x == y + k as real * FullCircle;
    assert ra + (offsetDegrees + turns as real * 360.0) * 3600.0 == x + turns as real * FullCircle;
    RaCharacterised(ra, offsetDegrees + turns as real * 360.0, k + turns, y);
  }

  /** Wherever the source's reduction stays in range, the two agree. */
  lemma RaAgreesWhenNonNegative(ra: real, offsetDegrees: real)
    requires ra + offsetDegrees * 3600.0 >= 0.0
    ensures RaAsWritten(Finite(ra), offsetDegrees) == Ra(Finite(ra), offsetDegrees)
  {
  }

  /** The corrected reduction puts the star of the example at 340 degrees. */
  lemma RaNegativeOffset()
    ensures Ra(Finite(36000.0), -30.0) == Finite(1224000.0)
  {
    RaCharacterised(36000.0, -30.0, -1, 1224000.0);
  }

  /** Where the shifted coordinate is non-negative, the reduction as
      written ignores a whole turn of the input too. */
  lemma AsWrittenPeriodic(ra: real, offsetDegrees: real)
    requires ra + offsetDegrees * 3600.0 >= 0.0
    ensures RaAsWritten(Finite(ra + FullCircle), offsetDegrees) == RaAsWritten(Finite(ra), offsetDegrees)
  {
    RaAgreesWhenNonNegative(ra, offsetDegrees);
    RaAgreesWhenNonNegative(ra + FullCircle, offsetDegrees);
    RaPeriodic(ra, offsetDegrees, 1);
  }
}
