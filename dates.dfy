// The calendar-date validator used on request fields: a string is accepted when it
// has the shape DDDD-DD-DD (ASCII digits) and the three numbers name a day of the
// proleptic Gregorian calendar that Python's `datetime.date` accepts.

module Dates {

  const MinYear := 1
  const MaxYear := 9999

  predicate IsDigit(c: char) {
    '0' <= c <= '9'
  }

  predicate AllDigits(s: string) {
    forall i :: 0 <= i < |s| ==> IsDigit(s[i])
  }

  /**
    The anchored pattern `^\d\d\d\d-\d\d-\d\d$`: Python's `$` also matches just
    before one final newline, so a single trailing "\n" passes the shape test.
  */
  predicate MatchesShape(s: string) {
    && (|s| == 10 || (|s| == 11 && s[10] == '\n'))
    && AllDigits(s[0..4]) && s[4] == '-'
    && AllDigits(s[5..7]) && s[7] == '-'
    && AllDigits(s[8..10])
  }

  /** The number written by a string of decimal digits, most significant first. */
  function DigitsValue(s: string): (n: nat)
    requires AllDigits(s)
    ensures n < Pow10(|s|)
  {
    if s == [] then 0
    else DigitsValue(s[..|s| - 1]) * 10 + (s[|s| - 1] as int - '0' as int)
  }

  function Pow10(k: nat): (p: nat)
    ensures p >= 1
  {
    if k == 0 then 1 else 10 * Pow10(k - 1)
  }

  predicate IsLeap(y: int) {
    y % 4 == 0 && (y % 100 != 0 || y % 400 == 0)
  }

  function DaysInMonth(y: int, m: int): (d: int)
    requires 1 <= m <= 12
    ensures 28 <= d <= 31
    ensures m == 2 ==> (d == 29 <==> IsLeap(y))
  {
    if m == 2 then (if IsLeap(y) then 29 else 28)
    else if m == 4 || m == 6 || m == 9 || m == 11 then 30
    else 31
  }

  /** What `datetime.date(year, month, day)` accepts without raising `ValueError`. */
  predicate IsDate(y: int, m: int, d: int) {
    MinYear <= y <= MaxYear && 1 <= m <= 12 && 1 <= d <= DaysInMonth(y, m)
  }

  /**
    `yyyy_mm_dd_is_valid`: the shape test, then the date test on `s[:4]`, `s[5:7]`
    and `s[8:]`. `int()` ignores surrounding whitespace, so the day read from
    `s[8:]` is the two digits whether or not the trailing newline is there.
  */
  predicate YyyyMmDdIsValid(s: string) {
    MatchesShape(s)
    && IsDate(DigitsValue(s[0..4]), DigitsValue(s[5..7]), DigitsValue(s[8..10]))
  }

  // ---------------------------------------------------------------------------
  // the partner: writing a date in the yyyy-mm-dd form

  /** The digit character of `0 <= k < 10`. */
  function DigitChar(k: int): (c: char)
    requires 0 <= k < 10
    ensures IsDigit(c) && c as int - '0' as int == k
  {
    ('0' as int + k) as char
  }

  /** `n` written in exactly `w` decimal digits, zero-padded on the left. */
  function Digits(n: nat, w: nat): (s: string)
    ensures |s| == w && AllDigits(s)
  {
    if w == 0 then [] else Digits(n / 10, w - 1) + [DigitChar(n % 10)]
  }

  /** `"%04d-%02d-%02d" % (y, m, d)` */
  function FormatDate(y: nat, m: nat, d: nat): (s: string)
    ensures |s| == 10
  {
    Digits(y, 4) + "-" + Digits(m, 2) + "-" + Digits(d, 2)
  }

  /** Writing a number in enough digits and reading it back gives the number. */
  lemma {:induction false} DigitsRoundTrip(n: nat, w: nat)
    requires n < Pow10(w)
    ensures DigitsValue(Digits(n, w)) == n
  {
    if w > 0 {
      var s := Digits(n, w);
      assert s[..|s| - 1] == Digits(n / 10, w - 1);
      DigitsRoundTrip(n / 10, w - 1);
    }
  }

  /** Reading a digit string and writing the number back in as many digits gives the string. */
  lemma {:induction false} DigitsOfValue(s: string)
    requires AllDigits(s)
    ensures Digits(DigitsValue(s), |s|) == s
  {
    if s != [] {
      var init := s[..|s| - 1];
      var n := DigitsValue(s);
      var last := s[|s| - 1] as int - '0' as int;
      assert n / 10 == DigitsValue(init) && n % 10 == last;
      DigitsOfValue(init);
      assert s == init + [s[|s| - 1]];
    }
  }

  /** The fields of a written date sit where the validator reads them. */
  lemma FormatDateParts(y: nat, m: nat, d: nat)
    ensures var s := FormatDate(y, m, d);
      && s[0..4] == Digits(y, 4) && s[4] == '-'
      && s[5..7] == Digits(m, 2) && s[7] == '-'
      && s[8..10] == Digits(d, 2)
  {
    var s := FormatDate(y, m, d);
    assert s == Digits(y, 4) + "-" + Digits(m, 2) + "-" + Digits(d, 2);
  }

  /** Every calendar date, written as yyyy-mm-dd, is accepted, with or without one trailing newline. */
  lemma FormattedDateIsValid(y: nat, m: nat, d: nat)
    requires IsDate(y, m, d)
    ensures YyyyMmDdIsValid(FormatDate(y, m, d))
    ensures YyyyMmDdIsValid(FormatDate(y, m, d) + "\n")
  {
    FormatDateParts(y, m, d);
    DigitsRoundTrip(y, 4);
    DigitsRoundTrip(m, 2);
    DigitsRoundTrip(d, 2);
    var s := FormatDate(y, m, d);
    var t := s + "\n";
    assert t[0..10] == s;
    assert t[0..4] == s[0..4] && t[5..7] == s[5..7] && t[8..10] == s[8..10];
  }

  /** An accepted string is the written form of the date it names, possibly followed by one newline. */
  lemma ValidIsFormatted(s: string) returns (y: nat, m: nat, d: nat)
    requires YyyyMmDdIsValid(s)
    ensures IsDate(y, m, d)
    ensures s == FormatDate(y, m, d) || s == FormatDate(y, m, d) + "\n"
  {
    y, m, d := DigitsValue(s[0..4]), DigitsValue(s[5..7]), DigitsValue(s[8..10]);
    DigitsOfValue(s[0..4]);
    DigitsOfValue(s[5..7]);
    DigitsOfValue(s[8..10]);
    var f := FormatDate(y, m, d);
    FormatDateParts(y, m, d);
    assert s[0..10] == f by {
      assert s[0..10] == s[0..4] + "-" + s[5..7] + "-" + s[8..10];
      assert f == f[0..4] + "-" + f[5..7] + "-" + f[8..10];
    }
    if |s| == 10 {
      assert s == s[0..10];
    } else {
      assert s == s[0..10] + "\n";
    }
  }

  /**
    The validator accepts exactly the written forms of calendar dates, optionally
    followed by one newline.
  */
  lemma ValidIff(s: string)
    ensures YyyyMmDdIsValid(s) <==>
      exists y: nat, m: nat, d: nat :: IsDate(y, m, d) && (s == FormatDate(y, m, d) || s == FormatDate(y, m, d) + "\n")
  {
    if YyyyMmDdIsValid(s) {
      var y, m, d := ValidIsFormatted(s);
    } else {
      forall y: nat, m: nat, d: nat | IsDate(y, m, d)
        ensures s != FormatDate(y, m, d) && s != FormatDate(y, m, d) + "\n"
      {
        FormattedDateIsValid(y, m, d);
      }
    }
  }

  /** A written date is accepted exactly when its numbers form a calendar date. */
  lemma FormatDateValidIff(y: nat, m: nat, d: nat)
    requires y < Pow10(4) && m < Pow10(2) && d < Pow10(2)
    ensures YyyyMmDdIsValid(FormatDate(y, m, d)) <==> IsDate(y, m, d)
  {
    FormatDateParts(y, m, d);
    DigitsRoundTrip(y, 4);
    DigitsRoundTrip(m, 2);
    DigitsRoundTrip(d, 2);
  }

  /** Leap days are accepted exactly in leap years. */
  lemma LeapDay(y: nat)
    requires MinYear <= y <= MaxYear
    ensures YyyyMmDdIsValid(FormatDate(y, 2, 29)) <==> IsLeap(y)
  {
    FormatDateValidIff(y, 2, 29);
  }

  /** A month outside 1 .. 12 or a day outside the month is refused whatever the shape. */
  lemma OutOfCalendarRefused(s: string)
    requires MatchesShape(s)
    requires DigitsValue(s[5..7]) < 1 || DigitsValue(s[5..7]) > 12
      || DigitsValue(s[8..10]) < 1 || DigitsValue(s[8..10]) > DaysInMonth(DigitsValue(s[0..4]), DigitsValue(s[5..7]))
    ensures !YyyyMmDdIsValid(s)
  {
  }

  lemma AcceptedExample()
    ensures YyyyMmDdIsValid("2021-01-31")
  {
    assert FormatDate(2021, 1, 31) == "2021-01-31";
    FormatDateValidIff(2021, 1, 31);
  }

  lemma AcceptedWithNewlineExample()
    ensures YyyyMmDdIsValid("2021-01-31\n")
  {
    assert FormatDate(2021, 1, 31) + "\n" == "2021-01-31\n";
    FormattedDateIsValid(2021, 1, 31);
  }

  lemma AcceptedLeapDayExample()
    ensures YyyyMmDdIsValid("2020-02-29")
  {
    assert Digits(2020, 4) == "2020" && Digits(2, 2) == "02" && Digits(29, 2) == "29";
    assert FormatDate(2020, 2, 29) == "2020-02-29";
    assert DaysInMonth(2020, 2) == 29 by {
      assert 2020 % 4 == 0 && 2020 % 100 == 20;
    }
    FormatDateValidIff(2020, 2, 29);
  }

  lemma RefusedDayExample()
    ensures !YyyyMmDdIsValid("2021-02-30")
  {
    assert FormatDate(2021, 2, 30) == "2021-02-30";
    FormatDateValidIff(2021, 2, 30);
  }

  lemma RefusedMonthExample()
    ensures !YyyyMmDdIsValid("2021-13-01")
  {
    assert FormatDate(2021, 13, 1) == "2021-13-01";
    FormatDateValidIff(2021, 13, 1);
  }

  lemma RefusedYearExample()
    ensures !YyyyMmDdIsValid("0000-01-01")
  {
    assert FormatDate(0, 1, 1) == "0000-01-01";
    FormatDateValidIff(0, 1, 1);
  }

  lemma RefusedShapeExamples()
    ensures !YyyyMmDdIsValid("2021-1-31")
    ensures !YyyyMmDdIsValid("2021-01-31 ")
  {
  }
}
