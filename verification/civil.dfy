/**
 The proleptic Gregorian calendar over day numbers: converting a day number to
 its year, month and day of month and back. This is the calendar JavaScript
 `Date` and date-fns use (astronomical year numbering, so there is a year 0).
 */
module Civil {
  import opened Calendar

  datatype Date = Date(year: int, month: int, day: int)

  predicate IsLeapYear(y: int) {
    y % 4 == 0 && (y % 100 != 0 || y % 400 == 0)
  }

  function DaysInYear(y: int): int {
    if IsLeapYear(y) then 366 else 365
  }

  function DaysInMonth(y: int, m: int): int
    requires 1 <= m <= 12
  {
    if m == 2 then (if IsLeapYear(y) then 29 else 28)
    else if m == 4 || m == 6 || m == 9 || m == 11 then 30
    else 31
  }

  /** Days of year `y` that come before the first of month `m`
      (`m == 13` gives the length of the year). */
  function DaysBeforeMonth(y: int, m: int): int
    requires 1 <= m <= 13
  {
    var common :=
      if m == 1 then 0 else if m == 2 then 31 else if m == 3 then 59
      else if m == 4 then 90 else if m == 5 then 120 else if m == 6 then 151
      else if m == 7 then 181 else if m == 8 then 212 else if m == 9 then 243
      else if m == 10 then 273 else if m == 11 then 304 else if m == 12 then 334
      else 365;
    common + (if IsLeapYear(y) && m > 2 then 1 else 0)
  }

  lemma DaysBeforeMonthStep(y: int, m: int)
    requires 1 <= m <= 12
    ensures DaysBeforeMonth(y, m + 1) == DaysBeforeMonth(y, m) + DaysInMonth(y, m)
    ensures DaysBeforeMonth(y, 13) == DaysInYear(y)
  {
  }

  /** A month's days lie wholly before any later month. */
  lemma DaysBeforeMonthGap(y: int, a: int, b: int)
    requires 1 <= a < b <= 13
    ensures DaysBeforeMonth(y, b) >= DaysBeforeMonth(y, a) + DaysInMonth(y, a)
  {
  }

  /** A well-formed calendar date: month 1..12 and a day that month has. */
  predicate Valid(c: Date) {
    1 <= c.month <= 12 && 1 <= c.day <= DaysInMonth(c.year, c.month)
  }

  /** Day number of January 1st of year `y`. */
  function YearStart(y: int): Day
    decreases if y >= 1 then y - 1 else 1 - y
  {
    if y == 1 then 0
    else if y > 1 then YearStart(y - 1) + DaysInYear(y - 1)
    else YearStart(y + 1) - DaysInYear(y)
  }

  lemma YearStartStep(y: int)
    ensures YearStart(y + 1) == YearStart(y) + DaysInYear(y)
  {
  }

  /** A year's days lie wholly before any later year. */
  lemma {:induction false} YearStartGap(a: int, b: int)
    requires a < b
    ensures YearStart(b) >= YearStart(a) + DaysInYear(a)
    decreases b - a
  {
    YearStartStep(b - 1);
    if a < b - 1 {
      YearStartGap(a, b - 1);
    }
  }

  /** Closed form of `YearStart`: 365 days a year plus one per leap year since year 1. */
  lemma {:induction false} YearStartClosedForm(y: int)
    requires y >= 1
    ensures YearStart(y) == LeapDaysBefore(y)
    decreases y
  {
    if y > 1 {
      YearStartClosedForm(y - 1);
      YearStartStep(y - 1);
      LeapDaysStep(y - 1);
    }
  }

  /** 365 days for each year from 1 up to `y - 1`, plus one for each leap year among them. */
  function LeapDaysBefore(y: int): int {
    365 * (y - 1) + (y - 1) / 4 - (y - 1) / 100 + (y - 1) / 400
  }

  /** Moving from year `n` to year `n + 1` adds the length of year `n`. */
  lemma LeapDaysStep(n: int)
    ensures LeapDaysBefore(n + 1) == LeapDaysBefore(n) + DaysInYear(n)
  {
    DivStep4(n);
    DivStep100(n);
    DivStep400(n);
    if n % 400 == 0 {
      assert n == 100 * (4 * (n / 400));
    }
    if n % 100 == 0 {
      assert n == 4 * (25 * (n / 100));
    }
  }

  lemma DivStep4(n: int)
    ensures n / 4 - (n - 1) / 4 == if n % 4 == 0 then 1 else 0
  {
  }

  lemma DivStep100(n: int)
    ensures n / 100 - (n - 1) / 100 == if n % 100 == 0 then 1 else 0
  {
  }

  lemma DivStep400(n: int)
    ensures n / 400 - (n - 1) / 400 == if n % 400 == 0 then 1 else 0
  {
  }

  /** Day number of a calendar date. */
  function FromCivil(c: Date): Day
    requires Valid(c)
  {
    YearStart(c.year) + DaysBeforeMonth(c.year, c.month) + c.day - 1
  }

  /** Finds the year containing the day `offset` days after January 1st of
      year `y`, and that day's position within its year. */
  function LocateYear(y: int, offset: int): (r: (int, int))
    ensures 0 <= r.1 < DaysInYear(r.0)
    ensures YearStart(r.0) + r.1 == YearStart(y) + offset
    ensures offset >= 0 ==> r.0 >= y
    decreases if offset < 0 then 1 else 0, if offset < 0 then -offset else offset
  {
    if offset < 0 then
      YearStartStep(y - 1);
      LocateYear(y - 1, offset + DaysInYear(y - 1))
    else if offset >= DaysInYear(y) then
      YearStartStep(y);
      LocateYear(y + 1, offset - DaysInYear(y))
    else
      (y, offset)
  }

  /** Finds the month, at or after month `m`, holding the day `offset` days
      after the first of month `m` in year `y`, and its position in that month. */
  function LocateMonth(y: int, m: int, offset: int): (r: (int, int))
    requires 1 <= m <= 12
    requires 0 <= offset < DaysInYear(y) - DaysBeforeMonth(y, m)
    ensures m <= r.0 <= 12
    ensures 0 <= r.1 < DaysInMonth(y, r.0)
    ensures DaysBeforeMonth(y, r.0) + r.1 == DaysBeforeMonth(y, m) + offset
    decreases 12 - m
  {
    DaysBeforeMonthStep(y, m);
    if offset < DaysInMonth(y, m) then
      (m, offset)
    else
      LocateMonth(y, m + 1, offset - DaysInMonth(y, m))
  }

  /** The calendar date of a day number. */
  function ToCivil(d: Day): (c: Date)
    ensures Valid(c)
    ensures FromCivil(c) == d
    ensures d >= 0 <==> c.year >= 1
  {
    var (y, doy) := LocateYear(1, d);
    var (m, off) := LocateMonth(y, 1, doy);
    var c := Date(y, m, off + 1);
    assert d < 0 ==> y < 1 by {
      if d < 0 && y >= 1 {
        if y > 1 { YearStartGap(1, y); }
      }
    }
    c
  }

  /** Within one valid date, the day of the year is below the year's length. */
  lemma DayOfYearBound(c: Date)
    requires Valid(c)
    ensures 0 <= DaysBeforeMonth(c.year, c.month) + c.day - 1 < DaysInYear(c.year)
  {
    DaysBeforeMonthStep(c.year, c.month);
    if c.month < 12 {
      DaysBeforeMonthGap(c.year, c.month + 1, 13);
    }
  }

  /** Distinct valid dates have distinct day numbers. */
  lemma FromCivilInjective(a: Date, b: Date)
    requires Valid(a) && Valid(b)
    requires FromCivil(a) == FromCivil(b)
    ensures a == b
  {
    DayOfYearBound(a);
    DayOfYearBound(b);
    if a.year < b.year {
      YearStartGap(a.year, b.year);
    } else if b.year < a.year {
      YearStartGap(b.year, a.year);
    }
    assert a.year == b.year;
    if a.month < b.month {
      DaysBeforeMonthGap(a.year, a.month, b.month);
    } else if b.month < a.month {
      DaysBeforeMonthGap(a.year, b.month, a.month);
    }
  }

  /** Converting a valid date to its day number and back gives the same date. */
  lemma ToCivilOfFromCivil(c: Date)
    requires Valid(c)
    ensures ToCivil(FromCivil(c)) == c
  {
    FromCivilInjective(ToCivil(FromCivil(c)), c);
  }

  /** January 1st of year `y` (from year 1 on) is day `YearStart(y)`, in closed form. */
  lemma JanuaryFirst(y: int)
    requires y >= 1
    ensures FromCivil(Date(y, 1, 1)) == LeapDaysBefore(y)
  {
    YearStartClosedForm(y);
  }

  /** 1970-01-01, the Unix epoch, is day `UnixEpochDay`, a Thursday. */
  lemma UnixEpochIsThursday()
    ensures FromCivil(Date(1970, 1, 1)) == UnixEpochDay
    ensures Weekday(UnixEpochDay) == 3
  {
    JanuaryFirst(1970);
  }
}
