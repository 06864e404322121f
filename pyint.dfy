/**
 * Python's `int(s)` for a `str` in base 10, and `str(n)` for an `int`:
 * the conversions the demo script uses on the window-bounds fields.
 */
module PyInt {
  import opened Wrappers
  import opened PyStr

  predicate IsDigit(c: char) {
    '0' <= c <= '9'
  }

  function DigitValue(c: char): (v: nat)
    requires IsDigit(c)
    ensures v < 10
  {
    c as int - '0' as int
  }

  function DigitChar(v: nat): (c: char)
    requires v < 10
    ensures IsDigit(c) && DigitValue(c) == v
  {
    ('0' as int + v) as char
  }

  /**
   * The digit part of a decimal integer as `int` accepts it: digits, with
   * single underscores allowed between two digits.
   */
  predicate IsDigitGroup(d: string)
    decreases |d|
  {
    |d| > 0 && IsDigit(d[0]) &&
    (|d| == 1 || if d[1] == '_' then IsDigitGroup(d[2..]) else IsDigitGroup(d[1..]))
  }

  /** The number the digits of `d` spell, anything else (the underscores) skipped. */
  function DigitsValue(d: string): nat
    decreases |d|
  {
    if |d| == 0 then 0
    else
      var last := d[|d| - 1];
      if IsDigit(last) then 10 * DigitsValue(d[..|d| - 1]) + DigitValue(last)
      else DigitsValue(d[..|d| - 1])
  }

  /**
   * `int(s)`: surrounding whitespace is ignored, then an optional sign and a
   * digit group; anything else is a `ValueError`, here `None`.
   */
  function ParseInt(s: string): Option<int> {
    ParseSigned(Strip(s, Whitespace))
  }

  /** An optional sign followed by a digit group. */
  function ParseSigned(t: string): Option<int> {
    if |t| > 0 && (t[0] == '+' || t[0] == '-') then
      if IsDigitGroup(t[1..]) then
        var v: int := DigitsValue(t[1..]);
        Some(if t[0] == '-' then -v else v)
      else None
    else if IsDigitGroup(t) then Some(DigitsValue(t))
    else None
  }

  /** `str(n)` for a non-negative `n`: its decimal digits, most significant first. */
  function NatToString(n: nat): (s: string)
    ensures |s| >= 1 && forall i :: 0 <= i < |s| ==> IsDigit(s[i])
    decreases n
  {
    if n < 10 then [DigitChar(n)] else NatToString(n / 10) + [DigitChar(n % 10)]
  }

  /** `str(i)`: a minus sign before the digits of a negative number. */
  function IntToString(i: int): string {
    if i < 0 then "-" + NatToString(-i) else NatToString(i)
  }

  /** The digits `str` produces are read back by `int` as the same number. */
  lemma {:induction false} NatToStringValue(n: nat)
    ensures IsDigitGroup(NatToString(n))
    ensures DigitsValue(NatToString(n)) == n
    decreases n
  {
    var s := NatToString(n);
    AllDigitsGroup(s);
    if n >= 10 {
      NatToStringValue(n / 10);
      assert s[..|s| - 1] == NatToString(n / 10);
    }
  }

  /** A non-empty run of digits is a digit group. */
  lemma {:induction false} AllDigitsGroup(s: string)
    requires |s| > 0 && forall i :: 0 <= i < |s| ==> IsDigit(s[i])
    ensures IsDigitGroup(s)
    decreases |s|
  {
    if |s| > 1 {
      assert IsDigit(s[1]);
      AllDigitsGroup(s[1..]);
    }
  }

  /** The sign and the digits are read back as the number they came from. */
  lemma ParseSignedToString(i: int)
    ensures ParseSigned(IntToString(i)) == Some(i)
  {
    var n: nat := if i < 0 then -i else i;
    NatToStringValue(n);
    var d := NatToString(n);
    if i < 0 {
      assert IntToString(i)[1..] == d;
    } else {
      assert IsDigit(d[0]);
    }
  }

  lemma DigitNotWhitespace(c: char)
    requires IsDigit(c)
    ensures c !in Whitespace
  {
  }

  /** `str(i)` neither starts nor ends with whitespace. */
  lemma IntToStringTrimmed(i: int)
    ensures |IntToString(i)| > 0 && Trimmed(IntToString(i), Whitespace)
  {
    var s := IntToString(i);
    var d := NatToString(if i < 0 then -i else i);
    DigitNotWhitespace(d[|d| - 1]);
    assert s[|s| - 1] == d[|d| - 1];
    if i >= 0 {
      DigitNotWhitespace(d[0]);
    } else {
      assert s[0] == '-';
    }
  }

  /** `int(str(i)) == i` */
  lemma ParseIntToString(i: int)
    ensures ParseInt(IntToString(i)) == Some(i)
  {
    ParseIntPadded("", i, "");
    assert "" + IntToString(i) + "" == IntToString(i);
  }

  /** `int` ignores whitespace around the digits of `str(i)`. */
  lemma ParseIntPadded(a: string, i: int, b: string)
    requires AllIn(a, Whitespace) && AllIn(b, Whitespace)
    ensures ParseInt(a + IntToString(i) + b) == Some(i)
  {
    IntToStringTrimmed(i);
    StripSurrounded(a, IntToString(i), b, Whitespace);
    ParseSignedToString(i);
  }

  /**
   * The digit part of a decimal literal described by what it holds: it
   * starts and ends with a digit, holds only digits and underscores, and
   * every underscore is followed by a digit.
   */
  predicate DigitShape(d: string) {
    |d| > 0 && IsDigit(d[0]) && IsDigit(d[|d| - 1]) &&
    (forall k :: 0 <= k < |d| ==> IsDigit(d[k]) || d[k] == '_') &&
    (forall k :: 0 <= k < |d| - 1 && d[k] == '_' ==> IsDigit(d[k + 1]))
  }

  /** The text `int` accepts once whitespace is stripped: an optional sign, then a digit part. */
  predicate IntLiteral(t: string) {
    |t| > 0 && if t[0] == '+' || t[0] == '-' then DigitShape(t[1..]) else DigitShape(t)
  }

  /** A digit group has the shape of a digit part. */
  lemma {:induction false} DigitGroupShape(d: string)
    requires IsDigitGroup(d)
    ensures DigitShape(d)
    decreases |d|
  {
    if |d| > 1 {
      var n := if d[1] == '_' then 2 else 1;
      var tail := d[n..];
      DigitGroupShape(tail);
      assert forall k :: n <= k < |d| ==> d[k] == tail[k - n];
    }
  }

  /** Anything of the shape of a digit part is a digit group. */
  lemma {:induction false} DigitShapeGroup(d: string)
    requires DigitShape(d)
    ensures IsDigitGroup(d)
    decreases |d|
  {
    if |d| > 1 {
      var n := if d[1] == '_' then 2 else 1;
      var tail := d[n..];
      assert forall k :: 0 <= k < |tail| ==> tail[k] == d[k + n];
      assert DigitShape(tail);
      DigitShapeGroup(tail);
    }
  }

  /**
   * `int` succeeds exactly on an optional sign followed by digits with
   * single underscores between them, once surrounding whitespace is stripped.
   */
  lemma ParseIntAccepted(s: string)
    ensures ParseInt(s).Some? <==> IntLiteral(Strip(s, Whitespace))
  {
    var t := Strip(s, Whitespace);
    if |t| > 0 && (t[0] == '+' || t[0] == '-') {
      if IsDigitGroup(t[1..]) { DigitGroupShape(t[1..]); }
      if DigitShape(t[1..]) { DigitShapeGroup(t[1..]); }
    } else {
      if IsDigitGroup(t) { DigitGroupShape(t); }
      if DigitShape(t) { DigitShapeGroup(t); }
    }
  }

  /** Text that is empty or all whitespace is not a number. */
  lemma ParseIntBlank(s: string)
    requires AllIn(s, Whitespace)
    ensures ParseInt(s) == None
  {
    StripSpec(s, Whitespace);
  }
}
