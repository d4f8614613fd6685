/** Calendar dates and their fixed-width decimal rendering.  The date string
    is `strftime('%Y%m%d')`; a submitted-date bound is that string followed
    by `%H%M%S`.  The model reads such a string back as a decimal number, and
    in that reading the order of the bounds the script writes is the order
    of the moments they name. */
module Dates {
  import opened Text

  datatype Date = Date(year: int, month: int, day: int)

  predicate IsLeapYear(y: int)
  {
    y % 4 == 0 && (y % 100 != 0 || y % 400 == 0)
  }

  function DaysInMonth(y: int, m: int): int
  {
    if m == 2 then (if IsLeapYear(y) then 29 else 28)
    else if m == 4 || m == 6 || m == 9 || m == 11 then 30
    else 31
  }

  /** The dates a Python `datetime` can hold: years 1 to 9999. */
  predicate ValidDate(d: Date)
  {
    1 <= d.year <= 9999 && 1 <= d.month <= 12 && 1 <= d.day <= DaysInMonth(d.year, d.month)
  }

  function Pow10(n: nat): (r: nat)
    ensures r >= 1
  {
    if n == 0 then 1 else 10 * Pow10(n - 1)
  }

  predicate IsDigit(c: char)
  {
    '0' <= c <= '9'
  }

  predicate AllDigits(s: string)
  {
    forall i :: 0 <= i < |s| ==> IsDigit(s[i])
  }

  function DigitChar(k: nat): (c: char)
    requires k < 10
    ensures IsDigit(c)
  {
    (48 + k) as char
  }

  function DigitValue(c: char): nat
    requires IsDigit(c)
  {
    (c as int) - 48
  }

  /** The `width` lowest decimal digits of `n`, most significant first,
      zero-padded on the left (`%02d`, `%04d`). */
  function Digits(n: nat, width: nat): (s: string)
    ensures |s| == width && AllDigits(s)
  {
    if width == 0 then "" else Digits(n / 10, width - 1) + [DigitChar(n % 10)]
  }

  /** The number a string of decimal digits denotes. */
  function Value(s: string): nat
    requires AllDigits(s)
  {
    if s == [] then 0 else 10 * Value(s[..|s| - 1]) + DigitValue(s[|s| - 1])
  }

  /** Rendering a number that fits the width loses nothing. */
  lemma {:induction false} ValueOfDigits(n: nat, width: nat)
    requires n < Pow10(width)
    ensures Value(Digits(n, width)) == n
  {
    if width > 0 {
      var s := Digits(n, width);
      assert s[..|s| - 1] == Digits(n / 10, width - 1);
      assert DigitValue(s[|s| - 1]) == n % 10;
      ValueOfDigits(n / 10, width - 1);
    }
  }

  /** A digit string is the rendering of its own value at its own width. */
  lemma {:induction false} DigitsOfValue(s: string)
    requires AllDigits(s)
    ensures Value(s) < Pow10(|s|) && Digits(Value(s), |s|) == s
  {
    if s != [] {
      var init := s[..|s| - 1];
      DigitsOfValue(init);
      var v := Value(s);
      assert v / 10 == Value(init) && v % 10 == DigitValue(s[|s| - 1]);
      assert DigitChar(v % 10) == s[|s| - 1];
      assert init + [s[|s| - 1]] == s;
    }
  }

  /** Reading a concatenation: the left digits shift by the right's width. */
  lemma {:induction false} ValueAppend(a: string, b: string)
    requires AllDigits(a) && AllDigits(b)
    ensures AllDigits(a + b) && Value(a + b) == Value(a) * Pow10(|b|) + Value(b)
  {
    if b == [] {
      assert a + b == a;
    } else {
      var b' := b[..|b| - 1];
      assert (a + b)[..|a + b| - 1] == a + b';
      assert (a + b)[|a + b| - 1] == b[|b| - 1];
      ValueAppend(a, b');
      Shift(Value(a), Pow10(|b'|), Value(b'), DigitValue(b[|b| - 1]));
    }
  }

  /** Appending a digit to the right of `v * p + w` multiplies the shift by ten. */
  lemma Shift(v: int, p: int, w: int, digit: int)
    ensures 10 * (v * p + w) + digit == v * (10 * p) + (10 * w + digit)
  {
  }

  /** `date.strftime('%Y%m%d')`. */
  function DateString(d: Date): (s: string)
    requires ValidDate(d)
    ensures |s| == 8 && AllDigits(s)
  {
    Digits(d.year, 4) + Digits(d.month, 2) + Digits(d.day, 2)
  }

  /** The inverse of `DateString`: eight digits naming a real calendar date. */
  function ParseDate(s: string): (r: Option<Date>)
    ensures r.Some? ==> ValidDate(r.value)
  {
    if |s| == 8 && AllDigits(s) then
      var d := Date(Value(s[..4]), Value(s[4..6]), Value(s[6..]));
      if ValidDate(d) then Some(d) else None
    else None
  }

  /** Every valid date is read back from its rendering ... */
  lemma DateStringRoundTrip(d: Date)
    requires ValidDate(d)
    ensures ParseDate(DateString(d)) == Some(d)
  {
    var s := DateString(d);
    assert Pow10(2) == 100 && Pow10(4) == 10000;
    assert s[..4] == Digits(d.year, 4);
    assert s[4..6] == Digits(d.month, 2);
    assert s[6..] == Digits(d.day, 2);
    ValueOfDigits(d.year, 4);
    ValueOfDigits(d.month, 2);
    ValueOfDigits(d.day, 2);
  }

  /** ... and every string that parses is the rendering of what it parses
      to, so the rendering is one-to-one and the parse has no other inputs. */
  lemma ParseDateRoundTrip(s: string)
    requires ParseDate(s).Some?
    ensures DateString(ParseDate(s).value) == s
  {
    var y, m, dd := s[..4], s[4..6], s[6..];
    assert AllDigits(y) && AllDigits(m) && AllDigits(dd) by {
      forall i | 0 <= i < 4 ensures IsDigit(y[i]) { assert y[i] == s[i]; }
      forall i | 0 <= i < 2 ensures IsDigit(m[i]) { assert m[i] == s[4 + i]; }
      forall i | 0 <= i < 2 ensures IsDigit(dd[i]) { assert dd[i] == s[6 + i]; }
    }
    DigitsOfValue(y);
    DigitsOfValue(m);
    DigitsOfValue(dd);
    assert ParseDate(s).value == Date(Value(y), Value(m), Value(dd));
    assert s == y + m + dd;
  }

  /** `strftime('%Y%m%d%H%M%S')` of a moment on date `d`. */
  function Stamp(d: Date, hour: nat, minute: nat, second: nat): (s: string)
    requires ValidDate(d)
    ensures |s| == 14 && AllDigits(s)
  {
    DateString(d) + Digits(hour, 2) + Digits(minute, 2) + Digits(second, 2)
  }

  /** The date as the number YYYYMMDD. */
  function DateNumber(d: Date): int
  {
    d.year * 10000 + d.month * 100 + d.day
  }

  /** Two valid dates with the same YYYYMMDD number are the same date. */
  lemma DateNumberInjective(d: Date, e: Date)
    requires ValidDate(d) && ValidDate(e) && DateNumber(d) == DateNumber(e)
    ensures d == e
  {
    var a, b, c := d.year - e.year, d.month - e.month, d.day - e.day;
    assert -30 <= c <= 30 && -11 <= b <= 11;
    assert (a * 100 + b) * 100 == -c;
    assert a * 100 + b == 0;
    assert a == 0;
  }

  /** A stamp read as a number is YYYYMMDDhhmmss. */
  lemma StampValue(d: Date, hour: nat, minute: nat, second: nat)
    requires ValidDate(d) && hour < 100 && minute < 100 && second < 100
    ensures Value(Stamp(d, hour, minute, second))
         == DateNumber(d) * 1000000 + hour * 10000 + minute * 100 + second
  {
    assert Pow10(2) == 100 && Pow10(4) == 10000;
    var y, m, dd := Digits(d.year, 4), Digits(d.month, 2), Digits(d.day, 2);
    var h, mi, s := Digits(hour, 2), Digits(minute, 2), Digits(second, 2);
    ValueOfDigits(d.year, 4);
    ValueOfDigits(d.month, 2);
    ValueOfDigits(d.day, 2);
    ValueOfDigits(hour, 2);
    ValueOfDigits(minute, 2);
    ValueOfDigits(second, 2);
    ValueAppend(y, m);
    ValueAppend(y + m, dd);
    ValueAppend(y + m + dd, h);
    ValueAppend(y + m + dd + h, mi);
    ValueAppend(y + m + dd + h + mi, s);
  }
}
