/**
 * Track names `Class_<id>`: built from a class id when tracks are created (and in the `ID`
 * column of every output row), parsed back with `name.split('_')[1]` when tracks are exported.
 * Decimal text is ASCII digits with an optional leading minus, as Python's `str` prints an int.
 */
module TrackNames {
  import opened Common

  predicate IsDigit(ch: char) {
    '0' <= ch <= '9'
  }

  predicate AllDigits(s: string) {
    forall i :: 0 <= i < |s| ==> IsDigit(s[i])
  }

  function DigitChar(d: nat): (ch: char)
    requires d < 10
    ensures IsDigit(ch)
  {
    ['0', '1', '2', '3', '4', '5', '6', '7', '8', '9'][d]
  }

  function DigitValue(ch: char): (d: nat)
    requires IsDigit(ch)
    ensures d < 10
  {
    (ch as int - '0' as int) as nat
  }

  /** The value of a run of decimal digits (leading zeros allowed, as `int()` allows them). */
  function DecimalValue(s: string): nat
    requires AllDigits(s)
  {
    if s == [] then 0 else DecimalValue(s[..|s| - 1]) * 10 + DigitValue(s[|s| - 1])
  }

  /** `str(n)` for a non-negative int. */
  function NatToString(n: nat): (s: string)
    ensures |s| > 0 && AllDigits(s)
  {
    if n < 10 then [DigitChar(n)] else NatToString(n / 10) + [DigitChar(n % 10)]
  }

  /** `str(i)` for any int. */
  function IntToString(i: int): (s: string)
    ensures '_' !in s
  {
    if i < 0 then "-" + NatToString(-i) else NatToString(i)
  }

  /** `int(s)` on a string of ASCII digits with an optional leading minus; None where `int` raises. */
  function ParseInt(s: string): Option<int> {
    if |s| > 1 && s[0] == '-' && AllDigits(s[1..]) then Some(-(DecimalValue(s[1..]) as int))
    else if |s| > 0 && AllDigits(s) then Some(DecimalValue(s))
    else None
  }

  /** Python's `s.split(sep)`: the pieces between separators, empty pieces included. */
  function Split(s: string, sep: char): (parts: seq<string>)
    ensures |parts| >= 1
  {
    if s == [] then [""]
    else
      var rest := Split(s[1..], sep);
      if s[0] == sep then [""] + rest else [[s[0]] + rest[0]] + rest[1..]
  }

  /** The name given to the track of class `c`, and the `ID` column of its output rows. */
  function TrackName(c: int): string {
    "Class_" + IntToString(c)
  }

  /**
   * The class id read back from a track name: the second `_`-separated piece as an int;
   * a name with no underscore gives 0; None where the piece is not an int.
   */
  function ClassIdOfTrackName(name: string): Option<int> {
    var parts := Split(name, '_');
    if |parts| < 2 then Some(0) else ParseInt(parts[1])
  }

  lemma {:induction false} DigitRoundTrip(d: nat)
    requires d < 10
    ensures DigitValue(DigitChar(d)) == d
  {
  }

  lemma {:induction false} DecimalRoundTrip(n: nat)
    ensures DecimalValue(NatToString(n)) == n
  {
    if n >= 10 {
      DecimalRoundTrip(n / 10);
      var s := NatToString(n / 10) + [DigitChar(n % 10)];
      assert s[..|s| - 1] == NatToString(n / 10);
      DigitRoundTrip(n % 10);
    } else {
      DigitRoundTrip(n);
      var s := [DigitChar(n)];
      assert s[..|s| - 1] == [];
    }
  }

  /** Printing an int and parsing it back gives the int. */
  lemma IntRoundTrip(i: int)
    ensures ParseInt(IntToString(i)) == Some(i)
  {
    if i < 0 {
      var digits := NatToString(-i);
      var s := "-" + digits;
      assert s[0] == '-' && s[1..] == digits;
      DecimalRoundTrip(-i);
    } else {
      var s := NatToString(i);
      assert IsDigit(s[0]);
      DecimalRoundTrip(i);
    }
  }

  lemma {:induction false} SplitNoSeparator(s: string, sep: char)
    requires sep !in s
    ensures Split(s, sep) == [s]
  {
    if s != [] {
      SplitNoSeparator(s[1..], sep);
      assert [s[0]] + s[1..] == s;
    }
  }

  lemma {:induction false} SplitAtFirstSeparator(a: string, b: string, sep: char)
    requires sep !in a
    ensures Split(a + [sep] + b, sep) == [a] + Split(b, sep)
  {
    if a == [] {
      assert a + [sep] + b == [sep] + b;
      assert ([sep] + b)[1..] == b;
    } else {
      SplitAtFirstSeparator(a[1..], b, sep);
      assert (a + [sep] + b)[1..] == a[1..] + [sep] + b;
      assert [a[0]] + a[1..] == a;
    }
  }

  /** A name without an underscore reads back as class 0. */
  lemma NoUnderscoreIsClassZero(name: string)
    requires '_' !in name
    ensures ClassIdOfTrackName(name) == Some(0)
  {
    SplitNoSeparator(name, '_');
  }

  /** The class id written into a track name at import is the one read back at export. */
  lemma TrackNameRoundTrip(c: int)
    ensures ClassIdOfTrackName(TrackName(c)) == Some(c)
  {
    var digits := IntToString(c);
    assert TrackName(c) == "Class" + ['_'] + digits;
    SplitAtFirstSeparator("Class", digits, '_');
    SplitNoSeparator(digits, '_');
    IntRoundTrip(c);
  }

  /** Different classes get different track names. */
  lemma TrackNameInjective(c: int, d: int)
    requires TrackName(c) == TrackName(d)
    ensures c == d
  {
    TrackNameRoundTrip(c);
    TrackNameRoundTrip(d);
  }
}
