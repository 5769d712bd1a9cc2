/** Planet ephemeris files: one line per time step, space-separated, where
    the third and fourth tokens are the right ascension and declination,
    both in degrees. A sample keeps them in seconds of arc, the unit the
    star catalogue uses too. */
module Ephemeris {
  import opened Results
  import opened Decimal
  import opened JsNumber

  datatype Sample = Sample(time: Option<string>, ra: Num, dec: Num)

  /** The tokens of a line that are not empty: runs of spaces split into
      empty fields, and those are dropped. */
  function NonEmpty(fields: seq<string>): (r: seq<string>)
    ensures |r| <= |fields|
    ensures forall i :: 0 <= i < |r| ==> r[i] != ""
    ensures forall x :: x in r <==> x in fields && x != ""
    ensures r == [] <==> forall i :: 0 <= i < |fields| ==> fields[i] == ""
  {
    if |fields| == 0 then []
    else if fields[0] == "" then NonEmpty(fields[1..])
    else [fields[0]] + NonEmpty(fields[1..])
  }

  /** Filtering a line piecewise is filtering it whole. */
  lemma {:induction false} NonEmptyConcat(a: seq<string>, b: seq<string>)
    ensures NonEmpty(a + b) == NonEmpty(a) + NonEmpty(b)
  {
    if |a| == 0 {
      assert a + b == b;
    } else {
      assert (a + b)[0] == a[0];
      assert (a + b)[1..] == a[1..] + b;
      NonEmptyConcat(a[1..], b);
    }
  }

  /** A line without empty fields is kept as it is. */
  lemma {:induction false} NonEmptyKeeps(fields: seq<string>)
    requires forall i :: 0 <= i < |fields| ==> fields[i] != ""
    ensures NonEmpty(fields) == fields
  {
    if |fields| > 0 {
      NonEmptyKeeps(fields[1..]);
    }
  }

  /** One line of an ephemeris: the first token is the time label, the
      third and fourth (counting from zero: tokens 2 and 3) are scaled by
      3600; a missing token reads as `undefined`, which converts to NaN. */
  function SampleOfRow(fields: seq<string>): (r: Sample)
    ensures r.time == None <==> forall i :: 0 <= i < |fields| ==> fields[i] == ""
    ensures r.time.Some? ==> r.time.value == NonEmpty(fields)[0]
    ensures |NonEmpty(fields)| < 3 ==> r.ra == NaN
    ensures |NonEmpty(fields)| < 4 ==> r.dec == NaN
  {
    var t := NonEmpty(fields);
    Sample(if |t| > 0 then Some(t[0]) else None,
           Mul(FieldNumber(t, 2), Finite(3600.0)),
           Mul(FieldNumber(t, 3), Finite(3600.0)))
  }

  /** An ephemeris file, one sample per line in file order. */
  function ParseEphemeris(rows: seq<seq<string>>): (r: seq<Sample>)
    ensures |r| == |rows|
  {
    if |rows| == 0 then [] else [SampleOfRow(rows[0])] + ParseEphemeris(rows[1..])
  }

  /** Each line is converted on its own: sample i comes from line i. */
  lemma {:induction false} ParseEphemerisLines(rows: seq<seq<string>>, i: nat)
    requires i < |rows|
    ensures ParseEphemeris(rows)[i] == SampleOfRow(rows[i])
  {
    if i > 0 {
      ParseEphemerisLines(rows[1..], i - 1);
    }
  }

  /** A line of the usual shape: time, a token that is never read, the
      right ascension and the declination in degrees, then anything. */
  lemma UsualLine(time: string, skipped: string, ra: string, dec: string, rest: seq<string>)
    requires time != "" && skipped != "" && ra != "" && dec != ""
    ensures SampleOfRow([time, skipped, ra, dec] + rest)
         == Sample(Some(time), Mul(ToNumber(ra), Finite(3600.0)), Mul(ToNumber(dec), Finite(3600.0)))
  {
    var head := [time, skipped, ra, dec];
    NonEmptyConcat(head, rest);
    NonEmptyKeeps(head);
  }

  /** Whole degrees give exact multiples of 3600 seconds of arc. */
  lemma WholeCoordinates(time: string, skipped: string, deg: nat, d: nat, rest: seq<string>)
    requires time != "" && skipped != ""
    ensures SampleOfRow([time, skipped, Show(deg), Show(d)] + rest)
         == Sample(Some(time), Finite(deg as real * 3600.0), Finite(d as real * 3600.0))
  {
    UsualLine(time, skipped, Show(deg), Show(d), rest);
    ToNumberOfShow(deg);
    ToNumberOfShow(d);
  }

  /** A line whose fourth token is a word: the right ascension comes from
      the third token, and the declination is NaN. */
  lemma WordDeclination()
    ensures SampleOfRow(["2024-01-01", "10.0", "5.0", "ignored"])
         == Sample(Some("2024-01-01"), Finite(18000.0), NaN)
  {
    UsualLine("2024-01-01", "10.0", "5.0", "ignored", []);
    assert ["2024-01-01", "10.0", "5.0", "ignored"] + [] == ["2024-01-01", "10.0", "5.0", "ignored"];
    FivePointZero();
    WordIsNaN();
  }

  lemma FivePointZero()
    ensures ToNumber("5.0") == Finite(5.0)
  {
    assert IndexOf("5.0", '.') == 1;
  }

  lemma WordIsNaN()
    ensures ToNumber("ignored") == NaN
  {
    assert !IsDigit('i');
  }

  /** Doubled separators only produce empty fields, which change nothing. */
  lemma BlankFieldIgnored(before: seq<string>, after: seq<string>)
    ensures SampleOfRow(before + [""] + after) == SampleOfRow(before + after)
  {
    assert NonEmpty(before + [""] + after) == NonEmpty(before + after) by {
      NonEmptyConcat(before + [""], after);
      NonEmptyConcat(before, [""]);
      NonEmptyConcat(before, after);
      assert NonEmpty([""]) == [];
    }
  }

  /** The second token never reaches the sample, whatever it says. */
  lemma SecondTokenUnread(time: string, u: string, w: string, rest: seq<string>)
    requires time != "" && u != "" && w != ""
    ensures SampleOfRow([time, u] + rest) == SampleOfRow([time, w] + rest)
  {
    NonEmptyConcat([time, u], rest);
    NonEmptyConcat([time, w], rest);
    NonEmptyKeeps([time, u]);
    NonEmptyKeeps([time, w]);
  }
}
