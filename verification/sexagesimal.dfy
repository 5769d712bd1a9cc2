/** Splitting on a separator character and the sexagesimal "D M S" reading
    used for catalog coordinates (ti.js, `ti.fromBase60`). */
module Sexagesimal {
  import opened Decimal
  import opened JsNumber

  /** Joins non-empty `parts` with `sep` between neighbours. */
  function Join(parts: seq<string>, sep: char): string
    requires |parts| > 0
  {
    if |parts| == 1 then parts[0] else parts[0] + [sep] + Join(parts[1..], sep)
  }

  /** JavaScript's `s.split(sep)` for a one-character separator: every
      separator ends a piece, so "" splits into [""] and "a  b" into
      ["a", "", "b"]. */
  function Split(s: string, sep: char): (parts: seq<string>)
    ensures |parts| > 0
    ensures forall i :: 0 <= i < |parts| ==> sep !in parts[i]
    ensures Join(parts, sep) == s
    decreases |s|
  {
    var k := IndexOf(s, sep);
    if k == |s| then
      assert sep !in s;
      [s]
    else
      var rest := Split(s[k + 1..], sep);
      assert sep !in s[..k] by {
        forall i | 0 <= i < k ensures s[..k][i] != sep { }
      }
      assert s == s[..k] + [sep] + s[k + 1..];
      [s[..k]] + rest
  }

  /** Splitting a joined sequence of separator-free pieces gives the pieces back. */
  lemma {:induction false} SplitJoin(parts: seq<string>, sep: char)
    requires |parts| > 0
    requires forall i :: 0 <= i < |parts| ==> sep !in parts[i]
    ensures Split(Join(parts, sep), sep) == parts
  {
    var s := Join(parts, sep);
    var p := parts[0];
    NoSeparatorIndex(p, sep);
    if |parts| == 1 {
      assert IndexOf(s, sep) == |s|;
    } else {
      var tail := Join(parts[1..], sep);
      assert s == p + [sep] + tail;
      FirstSeparator(p, tail, sep);
      assert s[..|p|] == p;
      assert s[|p| + 1..] == tail;
      SplitJoin(parts[1..], sep);
      assert parts == [p] + parts[1..];
    }
  }

  lemma {:induction false} NoSeparatorIndex(s: string, sep: char)
    requires sep !in s
    ensures IndexOf(s, sep) == |s|
  {
    if |s| > 0 {
      assert s[0] != sep;
      assert sep !in s[1..];
      NoSeparatorIndex(s[1..], sep);
    }
  }

  lemma {:induction false} FirstSeparator(p: string, tail: string, sep: char)
    requires sep !in p
    ensures IndexOf(p + [sep] + tail, sep) == |p|
  {
    if |p| > 0 {
      assert (p + [sep] + tail)[1..] == p[1..] + [sep] + tail;
      assert sep !in p[1..];
      FirstSeparator(p[1..], tail, sep);
    }
  }

  /** `ti.fromBase60`: "D M S" to seconds as `D*3600 + M*60 + S`, each field
      converted with JavaScript's unary `+`. Missing fields read as
      `undefined`, so the sum is NaN. Only the first field carries a sign. */
  function FromBase60(s: string): (r: Num)
    ensures |Split(s, ' ')| < 3 ==> r == NaN
  {
    var arr := Split(s, ' ');
    Add(Add(Mul(Mul(FieldNumber(arr, 0), Finite(60.0)), Finite(60.0)),
            Mul(FieldNumber(arr, 1), Finite(60.0))),
        FieldNumber(arr, 2))
  }

  /** Three space-separated fields with values x, y, z read as x*3600 + y*60 + z.
      Each field is converted on its own, so a minus sign on the degrees
      ("-5 30 0") does not carry over to the minutes and seconds. */
  lemma FromBase60OfFields(a: string, b: string, c: string, x: real, y: real, z: real)
    requires ' ' !in a && ' ' !in b && ' ' !in c
    requires ToNumber(a) == Finite(x) && ToNumber(b) == Finite(y) && ToNumber(c) == Finite(z)
    ensures FromBase60(a + " " + b + " " + c) == Finite(x * 3600.0 + y * 60.0 + z)
  {
    SplitTriple(a, b, c);
  }

  /** `a + " " + b + " " + c` splits back into its three pieces. */
  lemma SplitTriple(a: string, b: string, c: string)
    requires ' ' !in a && ' ' !in b && ' ' !in c
    ensures Split(a + " " + b + " " + c, ' ') == [a, b, c]
  {
    var parts := [a, b, c];
    assert parts[1..] == [b, c];
    assert parts[1..][1..] == [c];
    assert Join(parts[1..], ' ') == b + [' '] + c;
    assert Join(parts, ' ') == a + [' '] + (b + [' '] + c);
    assert a + [' '] + (b + [' '] + c) == a + " " + b + " " + c;
    SplitJoin(parts, ' ');
  }

  /** The text "D M S" of three natural numbers reads as D*3600 + M*60 + S exactly. */
  lemma FromBase60OfTriple(d: nat, m: nat, sec: nat)
    ensures FromBase60(Show(d) + " " + Show(m) + " " + Show(sec))
         == Finite(d as real * 3600.0 + m as real * 60.0 + sec as real)
  {
    NaturalField(d);
    NaturalField(m);
    NaturalField(sec);
    FromBase60OfFields(Show(d), Show(m), Show(sec), d as real, m as real, sec as real);
  }

  lemma NaturalField(n: nat)
    ensures ' ' !in Show(n) && ToNumber(Show(n)) == Finite(n as real)
  {
    DigitsHaveNoSpace(Show(n));
    ToNumberOfShow(n);
  }

  lemma DigitsHaveNoSpace(s: string)
    requires AllDigits(s)
    ensures ' ' !in s
  {
  }
}
