/**
 * Calendar dates in the `YYYY-MM-DD` form (the `full-date` form of section 5.6
 * of RFC 3339) that the pipeline writes with `strftime('%Y-%m-%d')` and reads
 * back with `pd.to_datetime`, and the proleptic Gregorian day arithmetic that
 * tenure is computed with.
 */
module Dates {
  import opened Wrappers

  datatype Date = Date(year: int, month: int, day: int)

  predicate IsLeapYear(y: int)
  {
    y % 4 == 0 && (y % 100 != 0 || y % 400 == 0)
  }

  function DaysInMonth(y: int, m: int): (n: int)
    requires 1 <= m <= 12
    ensures 28 <= n <= 31
  {
    if m == 2 then (if IsLeapYear(y) then 29 else 28)
    else if m == 4 || m == 6 || m == 9 || m == 11 then 30
    else 31
  }

  /** The dates a four-digit `YYYY-MM-DD` string can name (there is no year 0). */
  predicate IsValid(d: Date)
  {
    1 <= d.year <= 9999 && 1 <= d.month <= 12 && 1 <= d.day <= DaysInMonth(d.year, d.month)
  }

  type ValidDate = d: Date | IsValid(d) witness Date(1, 1, 1)

  function DaysInYear(y: int): int
  {
    if IsLeapYear(y) then 366 else 365
  }

  /** Days in the years 1 .. y - 1, in closed form. */
  function DaysBeforeYear(y: int): int
    requires y >= 1
  {
    var n := y - 1;
    n * 365 + n / 4 - n / 100 + n / 400
  }

  /** Days in the months 1 .. m - 1 of year y, from the cumulative table. */
  function DaysBeforeMonth(y: int, m: int): int
    requires 1 <= m <= 12
  {
    [0, 31, 59, 90, 120, 151, 181, 212, 243, 273, 304, 334][m - 1]
      + (if m > 2 && IsLeapYear(y) then 1 else 0)
  }

  /** The proleptic Gregorian day number; 0001-01-01 is day 1. */
  function DayNumber(d: ValidDate): int
  {
    DaysBeforeYear(d.year) + DaysBeforeMonth(d.year, d.month) + d.day
  }

  /** Chronological order: year, then month, then day. */
  predicate Before(a: Date, b: Date)
  {
    a.year < b.year
    || (a.year == b.year && (a.month < b.month || (a.month == b.month && a.day < b.day)))
  }

  /** The calendar's successor rule, an independent definition of "one day later". */
  function NextDay(d: ValidDate): Date
  {
    if d.day < DaysInMonth(d.year, d.month) then Date(d.year, d.month, d.day + 1)
    else if d.month < 12 then Date(d.year, d.month + 1, 1)
    else Date(d.year + 1, 1, 1)
  }

  lemma MonthStep(y: int, m: int)
    requires 1 <= m < 12
    ensures DaysBeforeMonth(y, m + 1) == DaysBeforeMonth(y, m) + DaysInMonth(y, m)
  {
  }

  lemma YearEnd(y: int)
    ensures DaysBeforeMonth(y, 12) + DaysInMonth(y, 12) == DaysInYear(y)
  {
  }

  /** The closed form counts exactly the leap years the calendar rule names. */
  lemma YearStep(y: int)
    requires y >= 1
    ensures DaysBeforeYear(y + 1) == DaysBeforeYear(y) + DaysInYear(y)
  {
    var n := y - 1;
    assert (n + 1) / 4 == n / 4 + (if y % 4 == 0 then 1 else 0);
    assert (n + 1) / 100 == n / 100 + (if y % 100 == 0 then 1 else 0);
    assert (n + 1) / 400 == n / 400 + (if y % 400 == 0 then 1 else 0);
  }

  /** The day number agrees with the successor rule: the next day is one more. */
  lemma NextDayIsOneMore(d: ValidDate)
    requires d != Date(9999, 12, 31)
    ensures IsValid(NextDay(d))
    ensures DayNumber(NextDay(d)) == DayNumber(d) + 1
  {
    if d.day < DaysInMonth(d.year, d.month) {
    } else if d.month < 12 {
      MonthStep(d.year, d.month);
    } else {
      YearEnd(d.year);
      YearStep(d.year);
    }
  }

  lemma {:induction false} MonthsMonotone(y: int, m1: int, m2: int)
    requires 1 <= m1 < m2 <= 12
    ensures DaysBeforeMonth(y, m1) + DaysInMonth(y, m1) <= DaysBeforeMonth(y, m2)
    decreases m2
  {
    if m2 > m1 + 1 {
      MonthsMonotone(y, m1, m2 - 1);
      MonthStep(y, m2 - 1);
    } else {
      MonthStep(y, m1);
    }
  }

  lemma {:induction false} YearsMonotone(y1: int, y2: int)
    requires 1 <= y1 < y2
    ensures DaysBeforeYear(y1) + DaysInYear(y1) <= DaysBeforeYear(y2)
    decreases y2
  {
    YearStep(y2 - 1);
    if y2 > y1 + 1 {
      YearsMonotone(y1, y2 - 1);
    }
  }

  /** A date's day number lies inside its own year. */
  lemma DayNumberInYear(d: ValidDate)
    ensures DaysBeforeYear(d.year) < DayNumber(d) <= DaysBeforeYear(d.year) + DaysInYear(d.year)
  {
    if d.month < 12 {
      MonthsMonotone(d.year, d.month, 12);
    }
    YearEnd(d.year);
  }

  lemma BeforeHasSmallerDayNumber(a: ValidDate, b: ValidDate)
    requires Before(a, b)
    ensures DayNumber(a) < DayNumber(b)
  {
    if a.year < b.year {
      DayNumberInYear(a);
      DayNumberInYear(b);
      YearsMonotone(a.year, b.year);
    } else if a.month < b.month {
      MonthsMonotone(a.year, a.month, b.month);
    }
  }

  /** Day numbers are ordered exactly as the dates are. */
  lemma DayNumberOrder(a: ValidDate, b: ValidDate)
    ensures Before(a, b) <==> DayNumber(a) < DayNumber(b)
    ensures a == b <==> DayNumber(a) == DayNumber(b)
  {
    if Before(a, b) {
      BeforeHasSmallerDayNumber(a, b);
    } else if Before(b, a) {
      BeforeHasSmallerDayNumber(b, a);
    }
  }

  // ---- The textual form ----

  predicate IsDigit(c: char)
  {
    '0' <= c <= '9'
  }

  predicate AllDigits(s: string)
  {
    forall k :: 0 <= k < |s| ==> IsDigit(s[k])
  }

  function DigitChar(n: int): (c: char)
    requires 0 <= n <= 9
    ensures IsDigit(c)
  {
    ('0' as int + n) as char
  }

  /** The decimal value of a string of digits. */
  function DigitsValue(s: string): nat
    requires AllDigits(s)
  {
    if |s| == 0 then 0
    else DigitsValue(s[..|s| - 1]) * 10 + (s[|s| - 1] as int - '0' as int)
  }

  function Pow10(n: nat): (p: nat)
    ensures p >= 1
  {
    if n == 0 then 1 else 10 * Pow10(n - 1)
  }

  /** The last `width` decimal digits of `n`, zero-padded on the left. */
  function Pad(n: nat, width: nat): (s: string)
    ensures |s| == width && AllDigits(s)
  {
    if width == 0 then [] else Pad(n / 10, width - 1) + [DigitChar(n % 10)]
  }

  /** `strftime('%Y-%m-%d')`. */
  function Format(d: ValidDate): (s: string)
    ensures |s| == 10
  {
    Pad(d.year, 4) + "-" + Pad(d.month, 2) + "-" + Pad(d.day, 2)
  }

  /** Strict `YYYY-MM-DD` parsing; anything else, or a day the calendar lacks, fails. */
  function Parse(s: string): Option<ValidDate>
  {
    if |s| == 10 && s[4] == '-' && s[7] == '-'
       && AllDigits(s[..4]) && AllDigits(s[5..7]) && AllDigits(s[8..])
    then
      var d := Date(DigitsValue(s[..4]), DigitsValue(s[5..7]), DigitsValue(s[8..]));
      if IsValid(d) then Some(d) else None
    else None
  }

  lemma {:induction false} PadValue(n: nat, width: nat)
    requires n < Pow10(width)
    ensures DigitsValue(Pad(n, width)) == n
  {
    if width > 0 {
      PadValue(n / 10, width - 1);
      var s := Pad(n, width);
      assert s[..|s| - 1] == Pad(n / 10, width - 1);
    }
  }

  lemma {:induction false} PadDigits(s: string)
    requires AllDigits(s)
    ensures Pad(DigitsValue(s), |s|) == s
  {
    if |s| > 0 {
      var init := s[..|s| - 1];
      PadDigits(init);
      var v := DigitsValue(init);
      var c := s[|s| - 1] as int - '0' as int;
      assert (v * 10 + c) / 10 == v;
      assert (v * 10 + c) % 10 == c;
      assert s == init + [s[|s| - 1]];
    }
  }

  /** Reading back what `strftime('%Y-%m-%d')` wrote recovers the date. */
  lemma ParseFormat(d: ValidDate)
    ensures Parse(Format(d)) == Some(d)
  {
    var s := Format(d);
    PadValue(d.year, 4);
    PadValue(d.month, 2);
    PadValue(d.day, 2);
    assert s[..4] == Pad(d.year, 4);
    assert s[5..7] == Pad(d.month, 2);
    assert s[8..] == Pad(d.day, 2);
  }

  /** A string that parses is the canonical text of its date: parsing is injective. */
  lemma FormatParse(s: string)
    requires Parse(s).Some?
    ensures Format(Parse(s).value) == s
  {
    PadDigits(s[..4]);
    PadDigits(s[5..7]);
    PadDigits(s[8..]);
    assert s == s[..4] + "-" + s[5..7] + "-" + s[8..];
  }
}
