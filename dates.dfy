/**
 * The two date checks of the exercise tracker: dateFormatValidation, a
 * regular-expression test of the YYYY-MM-DD shape, and dateValidation, which
 * accepts a string only when parsing it as a JavaScript Date and printing the
 * date part of its ISO form gives the same string back.
 */
module Dates {
  import opened Wrappers
  import opened JsValues

  /** One position of an anchored regular expression without repetition. */
  datatype CharClass = AnyDigit | Exactly(c: char)

  predicate ClassMatches(k: CharClass, c: char) {
    match k
    case AnyDigit => IsDigit(c)
    case Exactly(x) => c == x
  }

  /** /^\d{4}-\d{2}-\d{2}$/ with its counted repetitions written out. */
  const DatePattern: seq<CharClass> :=
    [AnyDigit, AnyDigit, AnyDigit, AnyDigit, Exactly('-'), AnyDigit, AnyDigit, Exactly('-'), AnyDigit, AnyDigit]

  /** regex.test(s) for a pattern anchored at both ends: s matches position by position and nothing is left over. */
  predicate FullMatch(p: seq<CharClass>, s: string)
    decreases p
  {
    if p == [] then s == [] else s != [] && ClassMatches(p[0], s[0]) && FullMatch(p[1..], s[1..])
  }

  lemma {:induction false} FullMatchIff(p: seq<CharClass>, s: string)
    ensures FullMatch(p, s) <==> |s| == |p| && forall k :: 0 <= k < |p| ==> ClassMatches(p[k], s[k])
    decreases p
  {
    if p != [] && s != [] {
      FullMatchIff(p[1..], s[1..]);
      if |s| == |p| && forall k :: 0 <= k < |p| ==> ClassMatches(p[k], s[k]) {
        forall k | 0 <= k < |p| - 1 ensures ClassMatches(p[1..][k], s[1..][k]) {
          assert p[1..][k] == p[k + 1] && s[1..][k] == s[k + 1];
        }
      }
      if FullMatch(p, s) {
        forall k | 0 <= k < |p| ensures ClassMatches(p[k], s[k]) {
          if k > 0 {
            assert p[1..][k - 1] == p[k] && s[1..][k - 1] == s[k];
          }
        }
      }
    }
  }

  /** dateFormatValidation: an empty string passes; any other string must match the pattern. */
  predicate DateFormatValidation(s: string) {
    !(s != "" && !FullMatch(DatePattern, s))
  }

  /** The YYYY-MM-DD shape spelled out position by position. */
  predicate IsDateShape(s: string) {
    && |s| == 10
    && IsDigit(s[0]) && IsDigit(s[1]) && IsDigit(s[2]) && IsDigit(s[3])
    && s[4] == '-'
    && IsDigit(s[5]) && IsDigit(s[6])
    && s[7] == '-'
    && IsDigit(s[8]) && IsDigit(s[9])
  }

  /** The format check passes exactly for the empty string and for strings of the YYYY-MM-DD shape. */
  lemma FormatValidationIff(s: string)
    ensures DateFormatValidation(s) <==> s == "" || IsDateShape(s)
  {
    FullMatchIff(DatePattern, s);
    if |s| == 10 && IsDateShape(s) {
      forall k | 0 <= k < 10 ensures ClassMatches(DatePattern[k], s[k]) {
      }
    }
    if |s| == 10 && forall k :: 0 <= k < 10 ==> ClassMatches(DatePattern[k], s[k]) {
      assert ClassMatches(DatePattern[0], s[0]) && ClassMatches(DatePattern[1], s[1]);
      assert ClassMatches(DatePattern[2], s[2]) && ClassMatches(DatePattern[3], s[3]);
      assert ClassMatches(DatePattern[4], s[4]) && ClassMatches(DatePattern[5], s[5]);
      assert ClassMatches(DatePattern[6], s[6]) && ClassMatches(DatePattern[7], s[7]);
      assert ClassMatches(DatePattern[8], s[8]) && ClassMatches(DatePattern[9], s[9]);
    }
  }

  function YearOf(s: string): nat
    requires IsDateShape(s)
  {
    DigitsValue(s[0..4])
  }

  function MonthOf(s: string): nat
    requires IsDateShape(s)
  {
    DigitsValue(s[5..7])
  }

  function DayOf(s: string): nat
    requires IsDateShape(s)
  {
    DigitsValue(s[8..10])
  }

  /** Gregorian leap years, as JavaScript's proleptic calendar has them. */
  predicate IsLeapYear(y: int) {
    y % 4 == 0 && (y % 100 != 0 || y % 400 == 0)
  }

  function DaysInMonth(y: int, m: int): (n: nat)
    requires 1 <= m <= 12
    ensures 28 <= n <= 31
  {
    if m == 2 then (if IsLeapYear(y) then 29 else 28)
    else if m == 4 || m == 6 || m == 9 || m == 11 then 30
    else 31
  }

  /** The long months are January, March, May, July, August, October and December; February has 29 days only in leap years. */
  lemma DaysInMonthFacts(y: int, m: int)
    requires 1 <= m <= 12
    ensures DaysInMonth(y, m) == 31 <==> m in {1, 3, 5, 7, 8, 10, 12}
    ensures DaysInMonth(y, m) == 29 <==> m == 2 && IsLeapYear(y)
    ensures DaysInMonth(y, m) == 28 <==> m == 2 && !IsLeapYear(y)
  {
  }

  /** A YYYY-MM-DD string that names a day of the calendar: month 01 to 12, day 01 to the length of that month. */
  predicate IsCalendarDate(s: string) {
    && IsDateShape(s)
    && 1 <= MonthOf(s) <= 12
    && 1 <= DayOf(s) <= DaysInMonth(YearOf(s), MonthOf(s))
  }

  /** A day of the calendar, as a Date object denotes it. */
  datatype CivilDate = CivilDate(year: int, month: int, day: int)

  predicate IsRealDay(t: CivilDate) {
    1 <= t.month <= 12 && 1 <= t.day <= DaysInMonth(t.year, t.month)
  }

  /**
   * new Date(s) for a date-only string: None stands for an invalid Date
   * (getTime() is NaN). Month 00 or above 12 and day 00 or above 31 are
   * invalid; a day beyond the end of its month rolls over into the next
   * month, as V8 does. Strings of any other shape are taken as invalid.
   */
  function ParseDate(s: string): (r: Option<CivilDate>)
    ensures r.Some? ==> 0 <= r.value.year <= 9999 && IsRealDay(r.value)
  {
    if !IsDateShape(s) then None
    else
      var y, m, d := YearOf(s), MonthOf(s), DayOf(s);
      assert y < 10000 by { assert |s[0..4]| == 4; DigitsBound(s[0..4]); }
      if m < 1 || m > 12 || d < 1 || d > 31 then None
      else if d <= DaysInMonth(y, m) then Some(CivilDate(y, m, d))
      else Some(CivilDate(y, m + 1, d - DaysInMonth(y, m)))
  }

  lemma {:induction false} DigitsBound(s: string)
    requires AllDigits(s)
    ensures DigitsValue(s) < Pow10(|s|)
  {
    if s != [] {
      DigitsBound(s[..|s| - 1]);
    }
  }

  /** toISOString().split('T')[0] for a year from 0000 to 9999: YYYY-MM-DD, zero-padded. */
  function IsoDate(t: CivilDate): (s: string)
    requires 0 <= t.year <= 9999 && IsRealDay(t)
    ensures IsDateShape(s) && YearOf(s) == t.year && MonthOf(s) == t.month && DayOf(s) == t.day
  {
    var s := PadDigits(t.year, 4) + "-" + PadDigits(t.month, 2) + "-" + PadDigits(t.day, 2);
    assert s[0..4] == PadDigits(t.year, 4);
    assert s[5..7] == PadDigits(t.month, 2);
    assert s[8..10] == PadDigits(t.day, 2);
    s
  }

  /** dateValidation: the string parses to a valid Date whose ISO date part is the string itself. */
  predicate DateValidation(s: string) {
    var p := ParseDate(s);
    p.Some? && IsoDate(p.value) == s
  }

  /** Two YYYY-MM-DD strings with the same year, month and day are the same string. */
  lemma SameFieldsSameString(a: string, b: string)
    requires IsDateShape(a) && IsDateShape(b)
    requires YearOf(a) == YearOf(b) && MonthOf(a) == MonthOf(b) && DayOf(a) == DayOf(b)
    ensures a == b
  {
    DigitsValueInjective(a[0..4], b[0..4]);
    DigitsValueInjective(a[5..7], b[5..7]);
    DigitsValueInjective(a[8..10], b[8..10]);
    assert a == a[0..4] + [a[4]] + a[5..7] + [a[7]] + a[8..10];
    assert b == b[0..4] + [b[4]] + b[5..7] + [b[7]] + b[8..10];
  }

  /** On YYYY-MM-DD strings the round trip through Date succeeds exactly for real calendar days. */
  lemma DateValidationIff(s: string)
    requires IsDateShape(s)
    ensures DateValidation(s) <==> IsCalendarDate(s)
  {
    var p := ParseDate(s);
    if IsCalendarDate(s) {
      SameFieldsSameString(IsoDate(p.value), s);
    } else if p.Some? {
      assert MonthOf(IsoDate(p.value)) != MonthOf(s);
    }
  }

  /** An optional date bound in the log query must pass both checks. */
  predicate AcceptedBound(s: string) {
    DateValidation(s) && DateFormatValidation(s)
  }

  /** For a non-empty string, passing both checks means being a real calendar day in YYYY-MM-DD form. */
  lemma BothChecksIff(s: string)
    requires s != ""
    ensures DateFormatValidation(s) && DateValidation(s) <==> IsCalendarDate(s)
  {
    FormatValidationIff(s);
    if IsDateShape(s) {
      DateValidationIff(s);
    }
  }

  lemma TwoDigits(s: string)
    requires |s| == 2 && AllDigits(s)
    ensures DigitsValue(s) == 10 * DigitValue(s[0]) + DigitValue(s[1])
  {
    var h := s[..1];
    assert h[..0] == [] && h[0] == s[0];
    assert DigitsValue(h) == DigitValue(s[0]);
  }

  lemma FourDigits(s: string)
    requires |s| == 4 && AllDigits(s)
    ensures DigitsValue(s) == 1000 * DigitValue(s[0]) + 100 * DigitValue(s[1]) + 10 * DigitValue(s[2]) + DigitValue(s[3])
  {
    TwoDigits(s[..2]);
    assert s[..3][..2] == s[..2];
  }

  /** 30 February fails the calendar check although it has the right shape. */
  lemma February30Rejected(s: string)
    requires s == "2021-02-30"
    ensures DateFormatValidation(s) && !DateValidation(s)
  {
    assert IsDateShape(s);
    FormatValidationIff(s);
    DateFields(s);
    DateValidationIff(s);
  }

  /** The fields of a date-shaped string, digit by digit. */
  lemma DateFields(s: string)
    requires IsDateShape(s)
    ensures YearOf(s) == 1000 * DigitValue(s[0]) + 100 * DigitValue(s[1]) + 10 * DigitValue(s[2]) + DigitValue(s[3])
    ensures MonthOf(s) == 10 * DigitValue(s[5]) + DigitValue(s[6])
    ensures DayOf(s) == 10 * DigitValue(s[8]) + DigitValue(s[9])
  {
    FourDigits(s[0..4]);
    TwoDigits(s[5..7]);
    TwoDigits(s[8..10]);
  }

  /** A date with one-digit month and day fails the format check. */
  lemma UnpaddedDateRejected()
    ensures !DateFormatValidation("2021-2-5")
  {
    FormatValidationIff("2021-2-5");
  }

  /** 29 February exists in 2020, a year divisible by 4. */
  lemma LeapDayIn2020(t: string)
    requires t == "2020-02-29"
    ensures DateValidation(t)
  {
    assert IsDateShape(t);
    DateFields(t);
    assert YearOf(t) == 2020 && MonthOf(t) == 2 && DayOf(t) == 29;
    DateValidationIff(t);
  }

  /** 29 February does not exist in 1900, divisible by 100 but not by 400. */
  lemma NoLeapDayIn1900(u: string)
    requires u == "1900-02-29"
    ensures !DateValidation(u)
  {
    assert IsDateShape(u);
    DateFields(u);
    assert YearOf(u) == 1900 && MonthOf(u) == 2 && DayOf(u) == 29;
    DateValidationIff(u);
  }
}
