/**
 The `yyyy-MM-dd` rendering of a day that the dashboard sends to the
 scheduling service (date-fns `format(date, "yyyy-MM-dd")`), and a parser
 that inverts it.

 date-fns prints the `yyyy` token as the year of the era, zero-padded to at
 least four digits: a year `y <= 0` is printed as `1 - y`. Months and days of
 the month are zero-padded to two digits.
 */
module IsoFormat {
  import opened Wrappers
  import opened Calendar
  import opened Civil

  predicate IsDigit(ch: char) {
    '0' <= ch <= '9'
  }

  predicate AllDigits(s: string) {
    forall i :: 0 <= i < |s| ==> IsDigit(s[i])
  }

  function DigitChar(n: nat): (ch: char)
    requires n < 10
    ensures IsDigit(ch)
  {
    ('0' as int + n) as char
  }

  function DigitValue(ch: char): (n: nat)
    requires IsDigit(ch)
    ensures n < 10
  {
    ch as int - '0' as int
  }

  /** Decimal digits of `n`, most significant first, without leading zeros. */
  function Decimal(n: nat): (s: string)
    ensures 1 <= |s| && AllDigits(s)
    ensures n < 10 ==> |s| == 1
    ensures n < 100 ==> |s| <= 2
    decreases n
  {
    if n < 10 then [DigitChar(n)] else Decimal(n / 10) + [DigitChar(n % 10)]
  }

  function Zeros(k: nat): (s: string)
    ensures |s| == k && AllDigits(s)
  {
    seq(k, _ => '0')
  }

  /** Decimal digits of `n`, left-padded with zeros to at least `width` characters. */
  function ZeroPadded(n: nat, width: nat): (s: string)
    ensures |s| >= width && AllDigits(s)
  {
    var ds := Decimal(n);
    if |ds| < width then Zeros(width - |ds|) + ds else ds
  }

  /** The number a string of decimal digits denotes. */
  function ParseDecimal(s: string): nat
    requires AllDigits(s)
    decreases |s|
  {
    if |s| == 0 then 0 else ParseDecimal(s[..|s| - 1]) * 10 + DigitValue(s[|s| - 1])
  }

  lemma {:induction false} ParseDecimalOfDecimal(n: nat)
    ensures ParseDecimal(Decimal(n)) == n
    decreases n
  {
    if n >= 10 {
      var s := Decimal(n);
      assert s[..|s| - 1] == Decimal(n / 10);
      ParseDecimalOfDecimal(n / 10);
    }
  }

  lemma {:induction false} ParseDecimalOfZeros(k: nat)
    ensures ParseDecimal(Zeros(k)) == 0
  {
    if k > 0 {
      assert Zeros(k)[..k - 1] == Zeros(k - 1);
      ParseDecimalOfZeros(k - 1);
    }
  }

  /** Leading zeros do not change the number a digit string denotes. */
  lemma {:induction false} ParseDecimalLeadingZeros(k: nat, s: string)
    requires AllDigits(s)
    ensures ParseDecimal(Zeros(k) + s) == ParseDecimal(s)
    decreases |s|
  {
    if |s| == 0 {
      assert Zeros(k) + s == Zeros(k);
      ParseDecimalOfZeros(k);
    } else {
      var t := Zeros(k) + s;
      assert t[..|t| - 1] == Zeros(k) + s[..|s| - 1];
      ParseDecimalLeadingZeros(k, s[..|s| - 1]);
    }
  }

  /** Zero padding is undone by parsing. */
  lemma ParseDecimalOfZeroPadded(n: nat, width: nat)
    ensures ParseDecimal(ZeroPadded(n, width)) == n
  {
    var ds := Decimal(n);
    ParseDecimalOfDecimal(n);
    if |ds| < width {
      assert ZeroPadded(n, width) == Zeros(width - |ds|) + ds;
      ParseDecimalLeadingZeros(width - |ds|, ds);
    } else {
      assert ZeroPadded(n, width) == ds;
    }
  }

  /** The year date-fns prints for the `yyyy` token. */
  function EraYear(y: int): (e: nat)
    ensures y >= 1 ==> e == y
    ensures e >= 1
  {
    if y > 0 then y else 1 - y
  }

  /** `format(day, "yyyy-MM-dd")`: at least four year digits, a dash, two
      month digits, a dash and two digits for the day of the month. */
  function FormatIsoDate(d: Day): (s: string)
    ensures IsoShaped(s)
  {
    var c := ToCivil(d);
    PaddedToTwo(c.month);
    PaddedToTwo(c.day);
    FieldsShape(ZeroPadded(EraYear(c.year), 4), ZeroPadded(c.month, 2), ZeroPadded(c.day, 2));
    FormatFields(EraYear(c.year), c.month, c.day)
  }

  /** The `yyyy-MM-dd` layout `ParseIsoDate` reads. */
  predicate IsoShaped(s: string) {
    && |s| >= 10 && s[|s| - 6] == '-' && s[|s| - 3] == '-'
    && AllDigits(s[..|s| - 6]) && AllDigits(s[|s| - 5..|s| - 3]) && AllDigits(s[|s| - 2..])
  }

  /** A number below 100 padded to two digits takes exactly two characters. */
  lemma PaddedToTwo(n: nat)
    requires n < 100
    ensures |ZeroPadded(n, 2)| == 2
  {
  }

  /** Joining the fields with dashes gives the layout, and the fields can be cut back out. */
  lemma FieldsShape(yyyy: string, mm: string, dd: string)
    requires |yyyy| >= 4 && |mm| == 2 && |dd| == 2
    requires AllDigits(yyyy) && AllDigits(mm) && AllDigits(dd)
    ensures var s := yyyy + "-" + mm + "-" + dd;
      && IsoShaped(s)
      && s[..|s| - 6] == yyyy && s[|s| - 5..|s| - 3] == mm && s[|s| - 2..] == dd
  {
    var s := yyyy + "-" + mm + "-" + dd;
    assert s[|s| - 6] == '-' && s[|s| - 3] == '-';
    assert s[..|s| - 6] == yyyy;
    assert s[|s| - 5..|s| - 3] == mm;
    assert s[|s| - 2..] == dd;
  }

  /** The printed year, month and day, zero-padded and joined by dashes. */
  function FormatFields(year: nat, month: nat, day: nat): string {
    ZeroPadded(year, 4) + "-" + ZeroPadded(month, 2) + "-" + ZeroPadded(day, 2)
  }

  /** Reads a `yyyy-MM-dd` string (a year of four or more digits, from year 1 on)
      back into a day; `None` for anything that is not such a date. */
  function ParseIsoDate(s: string): (r: Option<Day>)
    ensures r.Some? ==> r.value >= 0
  {
    if |s| < 10 || s[|s| - 6] != '-' || s[|s| - 3] != '-' then None
    else
      var yyyy, mm, dd := s[..|s| - 6], s[|s| - 5..|s| - 3], s[|s| - 2..];
      if !(AllDigits(yyyy) && AllDigits(mm) && AllDigits(dd)) then None
      else DateOfFields(yyyy, mm, dd)
  }

  /** The day named by year, month and day-of-month digit strings, when they
      form a valid date from year 1 on. */
  function DateOfFields(yyyy: string, mm: string, dd: string): (r: Option<Day>)
    requires AllDigits(yyyy) && AllDigits(mm) && AllDigits(dd)
    ensures r.Some? ==> r.value >= 0
  {
    var c := Date(ParseDecimal(yyyy), ParseDecimal(mm), ParseDecimal(dd));
    if c.year >= 1 && Valid(c) then
      ToCivilOfFromCivil(c);
      Some(FromCivil(c))
    else None
  }

  /** A string assembled from a year of four or more digits and two-digit
      month and day is split back into those fields. */
  lemma ParseIsoDateOfFields(yyyy: string, mm: string, dd: string)
    requires |yyyy| >= 4 && |mm| == 2 && |dd| == 2
    requires AllDigits(yyyy) && AllDigits(mm) && AllDigits(dd)
    ensures ParseIsoDate(yyyy + "-" + mm + "-" + dd) == DateOfFields(yyyy, mm, dd)
  {
    FieldsShape(yyyy, mm, dd);
  }

  /** Parsing undoes formatting for every day from 0001-01-01 on. */
  lemma ParseFormatRoundTrip(d: Day)
    requires d >= 0
    ensures ParseIsoDate(FormatIsoDate(d)) == Some(d)
  {
    var c := ToCivil(d);
    var yyyy := ZeroPadded(EraYear(c.year), 4);
    var mm := ZeroPadded(c.month, 2);
    var dd := ZeroPadded(c.day, 2);
    assert FormatIsoDate(d) == yyyy + "-" + mm + "-" + dd;
    ParseIsoDateOfFields(yyyy, mm, dd);
    ParseDecimalOfZeroPadded(EraYear(c.year), 4);
    ParseDecimalOfZeroPadded(c.month, 2);
    ParseDecimalOfZeroPadded(c.day, 2);
  }

  /** Different days from 0001-01-01 on are rendered as different strings,
      so the rendering is a faithful key for a day. */
  lemma FormatInjective(a: Day, b: Day)
    requires a >= 0 && b >= 0
    requires FormatIsoDate(a) == FormatIsoDate(b)
    ensures a == b
  {
    ParseFormatRoundTrip(a);
    ParseFormatRoundTrip(b);
  }

  /** The bound in `FormatInjective` is needed: 0000-12-31 (day -1) and
      0001-12-31 (day 364) are both rendered "0001-12-31", since year 0 is
      printed as year 1 of the era before. */
  lemma FormatCollidesBeforeYearOne()
    ensures ToCivil(-1) == Date(0, 12, 31)
    ensures ToCivil(364) == Date(1, 12, 31)
    ensures FormatIsoDate(-1) == FormatIsoDate(364)
  {
    LastDaysOfYearsZeroAndOne();
    assert EraYear(0) == EraYear(1);
  }

  /** Day -1 is 0000-12-31 and day 364 is 0001-12-31. */
  lemma LastDaysOfYearsZeroAndOne()
    ensures ToCivil(-1) == Date(0, 12, 31)
    ensures ToCivil(364) == Date(1, 12, 31)
  {
    LastDayOfYearZero();
    LastDayOfYearOne();
  }

  lemma LastDayOfYearZero()
    ensures ToCivil(-1) == Date(0, 12, 31)
  {
    assert YearStart(0) == -366;
    assert FromCivil(Date(0, 12, 31)) == -1;
    ToCivilOfFromCivil(Date(0, 12, 31));
  }

  lemma LastDayOfYearOne()
    ensures ToCivil(364) == Date(1, 12, 31)
  {
    assert FromCivil(Date(1, 12, 31)) == 364;
    ToCivilOfFromCivil(Date(1, 12, 31));
  }
}
