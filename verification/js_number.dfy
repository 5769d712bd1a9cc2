/** JavaScript numbers as the chart code uses them: exact reals plus NaN.
    Floating-point rounding and the infinities are not modelled. */
module JsNumber {
  import opened Results
  import opened Decimal

  datatype Num = Finite(v: real) | NaN

  function Add(a: Num, b: Num): (r: Num)
    ensures r.Finite? <==> a.Finite? && b.Finite?
  {
    if a.Finite? && b.Finite? then Finite(a.v + b.v) else NaN
  }

  function Sub(a: Num, b: Num): (r: Num)
    ensures r.Finite? <==> a.Finite? && b.Finite?
  {
    if a.Finite? && b.Finite? then Finite(a.v - b.v) else NaN
  }

  function Mul(a: Num, b: Num): (r: Num)
    ensures r.Finite? <==> a.Finite? && b.Finite?
  {
    if a.Finite? && b.Finite? then Finite(a.v * b.v) else NaN
  }

  /** Rounding toward zero, the quotient JavaScript's `%` is built on. */
  function Trunc(x: real): (t: int)
    ensures x >= 0.0 ==> t as real <= x < t as real + 1.0
    ensures x < 0.0 ==> t as real - 1.0 < x <= t as real
  {
    if x >= 0.0 then x.Floor else -((-x).Floor)
  }

  /** JavaScript's `a % m` for a positive finite divisor: the remainder takes
      the sign of the dividend. */
  function Rem(a: Num, m: real): (r: Num)
    requires m > 0.0
    ensures r.Finite? <==> a.Finite?
    ensures a.Finite? && a.v >= 0.0 ==> 0.0 <= r.v < m
    ensures a.Finite? && a.v < 0.0 ==> -m < r.v <= 0.0
  {
    if a.Finite? then
      var t := Trunc(a.v / m);
      QuotientBounds(a.v, m, t);
      Finite(a.v - t as real * m)
    else NaN
  }

  /** Multiplying the bounds of a quotient back by its positive divisor. */
  lemma QuotientBounds(x: real, m: real, t: int)
    requires m > 0.0
    ensures t as real <= x / m ==> t as real * m <= x
    ensures x / m < t as real + 1.0 ==> x < t as real * m + m
    ensures t as real - 1.0 < x / m ==> t as real * m - m < x
    ensures x / m <= t as real ==> x <= t as real * m
  {
    ScaledBound(x, m, t as real, 0.0);
    ScaledBound(x, m, t as real, 1.0);
    ScaledBound(x, m, t as real, -1.0);
  }

  lemma ScaledBound(x: real, m: real, r: real, k: real)
    requires m > 0.0
    ensures r + k <= x / m ==> r * m + k * m <= x
    ensures x / m <= r + k ==> x <= r * m + k * m
    ensures r + k < x / m ==> r * m + k * m < x
    ensures x / m < r + k ==> x < r * m + k * m
  {
    var q := x / m;
    assert x == q * m;
    assert (r + k) * m == r * m + k * m;
    MulMonotone(r + k, q, m);
    MulMonotone(q, r + k, m);
  }

  lemma MulMonotone(a: real, b: real, m: real)
    requires m > 0.0
    ensures a <= b ==> a * m <= b * m
    ensures a < b ==> a * m < b * m
  {
    if a < b {
      assert (b - a) * m > 0.0;
    }
  }

  /** Position of the first `c` in `s`, or `|s|` when there is none. */
  function IndexOf(s: string, c: char): (k: nat)
    ensures k <= |s|
    ensures k < |s| ==> s[k] == c
    ensures forall i :: 0 <= i < k ==> s[i] != c
  {
    if |s| == 0 then 0 else if s[0] == c then 0 else 1 + IndexOf(s[1..], c)
  }

  /** The value of the digits after a decimal point. */
  function Fraction(digits: string): (x: real)
    requires AllDigits(digits)
    ensures 0.0 <= x
    ensures |digits| == 0 ==> x == 0.0
  {
    var p := Pow10(|digits|) as real;
    assert p >= 1.0;
    if |digits| == 0 then 0.0 else Value(digits) as real / p
  }

  /** The number with digits `whole` before the point and `frac` after it,
      when both are digit strings and not both empty. */
  function Literal(whole: string, frac: string): (r: Option<real>)
    ensures r.Some? ==> r.value >= 0.0
  {
    if AllDigits(whole) && AllDigits(frac) && |whole| + |frac| > 0 then
      Some(Value(whole) as real + Fraction(frac))
    else
      None
  }

  /** An unsigned decimal literal: digits, optionally a point and more digits,
      with at least one digit in all ("5", "5.", ".5", "5.25"). */
  function UnsignedDecimal(t: string): (r: Option<real>)
    ensures r.Some? ==> r.value >= 0.0
  {
    var k := IndexOf(t, '.');
    Literal(t[..k], if k < |t| then t[k + 1..] else "")
  }

  /** JavaScript's unary `+` on a string: "" is 0, a signed decimal literal is
      its value, anything else is NaN. */
  function ToNumber(s: string): Num
  {
    if |s| == 0 then Finite(0.0)
    else
      var signed := s[0] == '-' || s[0] == '+';
      var body := if signed then s[1..] else s;
      match UnsignedDecimal(body)
      case None => NaN
      case Some(x) => if s[0] == '-' then Finite(-x) else Finite(x)
  }

  /** JavaScript's unary `+` on an array element that may be `undefined`
      (`+undefined` is NaN). */
  function FieldNumber(fields: seq<string>, i: nat): (r: Num)
    ensures i >= |fields| ==> r == NaN
  {
    if i < |fields| then ToNumber(fields[i]) else NaN
  }

  /** The decimal text of a natural number converts back to that number. */
  lemma ToNumberOfShow(n: nat)
    ensures ToNumber(Show(n)) == Finite(n as real)
    ensures ToNumber("-" + Show(n)) == Finite(-(n as real))
  {
    var s := Show(n);
    assert UnsignedDecimal(s) == Some(n as real) by {
      DigitsAreUnsignedDecimal(s);
      ValueOfShow(n);
    }
    UnsignedToNumber(s, n as real);
  }

  /** Unary `+` on a literal that starts with a digit, with and without a
      leading minus sign. */
  lemma UnsignedToNumber(s: string, x: real)
    requires |s| > 0 && IsDigit(s[0]) && UnsignedDecimal(s) == Some(x)
    ensures ToNumber(s) == Finite(x)
    ensures ToNumber("-" + s) == Finite(-x)
  {
    assert ("-" + s)[0] == '-' && ("-" + s)[1..] == s;
  }

  lemma DigitsAreUnsignedDecimal(s: string)
    requires |s| > 0 && AllDigits(s)
    ensures UnsignedDecimal(s) == Some(Value(s) as real)
  {
    DigitsHaveNoPoint(s);
    WholeNumberLiteral(s);
  }

  lemma DigitsHaveNoPoint(s: string)
    requires AllDigits(s)
    ensures IndexOf(s, '.') == |s|
  {
    forall i | 0 <= i < |s| ensures s[i] != '.' {
      assert IsDigit(s[i]);
    }
    NoDotIndex(s);
  }

  /** A literal without a decimal point is its whole part. */
  lemma WholeNumberLiteral(s: string)
    requires |s| > 0 && AllDigits(s) && IndexOf(s, '.') == |s|
    ensures UnsignedDecimal(s) == Some(Value(s) as real)
  {
    assert UnsignedDecimal(s) == Literal(s[..|s|], "");
    assert s[..|s|] == s;
    assert Literal(s, "") == Some(Value(s) as real + Fraction(""));
  }

  lemma {:induction false} NoDotIndex(s: string)
    requires forall i :: 0 <= i < |s| ==> s[i] != '.'
    ensures IndexOf(s, '.') == |s|
  {
    if |s| > 0 {
      NoDotIndex(s[1..]);
    }
  }
}
