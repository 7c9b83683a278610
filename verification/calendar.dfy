/**
 * Dates as the loan records use them: a date is its epoch day (1970-01-01 is
 * day 0, as LocalDate.toEpochDay counts), so plusDays is addition and
 * ChronoUnit.DAYS.between is subtraction. The text form is the ISO 8601
 * calendar date in extended format, YYYY-MM-DD (section 5.2.1.1 of ISO 8601),
 * in the proleptic Gregorian calendar, as DateTimeFormatter.ISO_LOCAL_DATE
 * prints it and, with its strict resolver, parses it.
 */
module Calendar {
  import opened Wrappers
  import opened Decimal

  predicate IsLeapYear(y: int)
  {
    y % 4 == 0 && (y % 100 != 0 || y % 400 == 0)
  }

  function YearLength(y: int): int
  {
    if IsLeapYear(y) then 366 else 365
  }

  function MonthLength(y: int, m: int): int
    requires 1 <= m <= 12
  {
    if m == 2 then (if IsLeapYear(y) then 29 else 28)
    else if m == 4 || m == 6 || m == 9 || m == 11 then 30
    else 31
  }

  /** The epoch day of January 1st of year y. */
  function YearStart(y: int): int
    decreases if y < 1970 then 1970 - y else y - 1970
  {
    if y == 1970 then 0
    else if y > 1970 then YearStart(y - 1) + YearLength(y - 1)
    else YearStart(y + 1) - YearLength(y)
  }

  lemma YearStartStep(y: int)
    ensures YearStart(y + 1) == YearStart(y) + YearLength(y)
  {
  }

  /** Days of year y before the first of month m (m == 13 stands for the next January 1st). */
  function DaysBeforeMonth(y: int, m: int): int
    requires 1 <= m <= 13
  {
    var leap := if IsLeapYear(y) then 1 else 0;
    if m == 1 then 0
    else if m == 2 then 31
    else
      leap + (if m == 3 then 59 else if m == 4 then 90 else if m == 5 then 120
              else if m == 6 then 151 else if m == 7 then 181 else if m == 8 then 212
              else if m == 9 then 243 else if m == 10 then 273 else if m == 11 then 304
              else if m == 12 then 334 else 365)
  }

  lemma DaysBeforeMonthStep(y: int, m: int)
    requires 1 <= m <= 12
    ensures DaysBeforeMonth(y, m + 1) == DaysBeforeMonth(y, m) + MonthLength(y, m)
    ensures DaysBeforeMonth(y, 13) == YearLength(y)
  {
  }

  /** A calendar date: LocalDate's year, month and day-of-month. */
  datatype Date = Date(year: int, month: int, day: int)

  predicate ValidDate(d: Date)
  {
    1 <= d.month <= 12 && 1 <= d.day <= MonthLength(d.year, d.month)
  }

  function EpochDay(d: Date): int
    requires 1 <= d.month <= 12
  {
    YearStart(d.year) + DaysBeforeMonth(d.year, d.month) + d.day - 1
  }

  function YearUpFrom(z: int, y: int): (r: int)
    requires YearStart(y) <= z
    ensures YearStart(r) <= z < YearStart(r + 1)
    decreases z - YearStart(y)
  {
    YearStartStep(y);
    if z < YearStart(y + 1) then y else YearUpFrom(z, y + 1)
  }

  function YearDownFrom(z: int, y: int): (r: int)
    requires z < YearStart(y + 1)
    ensures YearStart(r) <= z < YearStart(r + 1)
    decreases YearStart(y) - z
  {
    YearStartStep(y - 1);
    if YearStart(y) <= z then y else YearDownFrom(z, y - 1)
  }

  /** The year that epoch day z falls in. */
  function YearOf(z: int): (y: int)
    ensures YearStart(y) <= z < YearStart(y + 1)
  {
    if z >= 0 then YearUpFrom(z, 1970) else YearDownFrom(z, 1969)
  }

  function MonthFrom(y: int, dayOfYear: int, m: int): (r: int)
    requires 1 <= m <= 12
    requires DaysBeforeMonth(y, m) <= dayOfYear < YearLength(y)
    ensures m <= r <= 12
    ensures DaysBeforeMonth(y, r) <= dayOfYear < DaysBeforeMonth(y, r) + MonthLength(y, r)
    decreases 12 - m
  {
    DaysBeforeMonthStep(y, m);
    if dayOfYear < DaysBeforeMonth(y, m) + MonthLength(y, m) then m else MonthFrom(y, dayOfYear, m + 1)
  }

  /** LocalDate.ofEpochDay: the calendar date of epoch day z. */
  function DateOf(z: int): (d: Date)
    ensures ValidDate(d) && EpochDay(d) == z
    ensures d.year == YearOf(z)
  {
    var y := YearOf(z);
    YearStartStep(y);
    var m := MonthFrom(y, z - YearStart(y), 1);
    Date(y, m, z - YearStart(y) - DaysBeforeMonth(y, m) + 1)
  }

  /** The year field of ISO_LOCAL_DATE: four digits, a '+' beyond 9999, a '-' before year 0. */
  function YearText(y: int): (t: string)
    ensures DateChars(t)
  {
    if 0 <= y <= 9999 then ZeroPad(NatToDigits(y), 4)
    else if y > 9999 then "+" + NatToDigits(y)
    else "-" + ZeroPad(NatToDigits(-y), 4)
  }

  /** Only digits and signs: the characters ISO_LOCAL_DATE prints. */
  predicate DateChars(t: string)
  {
    forall i :: 0 <= i < |t| ==> IsDigit(t[i]) || t[i] == '-' || t[i] == '+'
  }

  lemma DateCharsAppend(a: string, b: string)
    requires DateChars(a) && DateChars(b)
    ensures DateChars(a + b)
  {
    forall i | 0 <= i < |a + b| ensures IsDigit((a + b)[i]) || (a + b)[i] == '-' || (a + b)[i] == '+' {
      if i < |a| {
        assert (a + b)[i] == a[i];
      } else {
        assert (a + b)[i] == b[i - |a|];
      }
    }
  }

  /** LocalDate.format(ISO_LOCAL_DATE) of epoch day z. */
  function FormatDate(z: int): (t: string)
    ensures DateChars(t)
  {
    var d := DateOf(z);
    var ys, ms, ds := YearText(d.year), ZeroPad(NatToDigits(d.month), 2), ZeroPad(NatToDigits(d.day), 2);
    DateCharsAppend(ys, "-");
    DateCharsAppend(ys + "-", ms);
    DateCharsAppend(ys + "-" + ms, "-");
    DateCharsAppend(ys + "-" + ms + "-", ds);
    ys + "-" + ms + "-" + ds
  }

  /**
   * LocalDate.parse(t, ISO_LOCAL_DATE) for four-digit years: exactly
   * YYYY-MM-DD naming a day that exists; None stands for DateTimeParseException.
   */
  function ParseDate(t: string): (r: Option<int>)
    ensures r.Some? ==> |t| == 10 && t[4] == '-' && t[7] == '-'
  {
    if |t| == 10 && t[4] == '-' && t[7] == '-'
       && AllDigits(t[..4]) && AllDigits(t[5..7]) && AllDigits(t[8..])
    then
      var d := Date(DigitsValue(t[..4]), DigitsValue(t[5..7]), DigitsValue(t[8..]));
      if 1 <= d.month <= 12 && 1 <= d.day <= MonthLength(d.year, d.month) then Some(EpochDay(d)) else None
    else None
  }

  lemma ZeroPadWidth(n: nat, width: nat)
    requires 0 < width && n < Pow10(width)
    ensures |ZeroPad(NatToDigits(n), width)| == width
  {
    NatToDigitsLength(n, width);
  }

  /** Where ParseDate finds its pieces in a `YYYY-MM-DD` text. */
  lemma DateSlices(ys: string, ms: string, ds: string)
    requires |ys| == 4 && |ms| == 2 && |ds| == 2
    ensures var t := ys + "-" + ms + "-" + ds;
      |t| == 10 && t[4] == '-' && t[7] == '-' && t[..4] == ys && t[5..7] == ms && t[8..] == ds
  {
    var t := ys + "-" + ms + "-" + ds;
    assert t[..4] == ys;
    assert t[5..7] == ms;
    assert t[8..] == ds;
  }

  /** Four, two and two digits naming an existing day parse to that day. */
  lemma ParseDigitGroups(ys: string, ms: string, ds: string)
    requires |ys| == 4 && |ms| == 2 && |ds| == 2
    requires AllDigits(ys) && AllDigits(ms) && AllDigits(ds)
    requires ValidDate(Date(DigitsValue(ys), DigitsValue(ms), DigitsValue(ds)))
    ensures ParseDate(ys + "-" + ms + "-" + ds) == Some(EpochDay(Date(DigitsValue(ys), DigitsValue(ms), DigitsValue(ds))))
  {
    DateSlices(ys, ms, ds);
  }

  /** Every date of years 0000 to 9999 is read back as the day it was written from. */
  lemma ParseFormatDate(z: int)
    requires 0 <= YearOf(z) <= 9999
    ensures ParseDate(FormatDate(z)) == Some(z)
  {
    var d := DateOf(z);
    var ys := ZeroPad(NatToDigits(d.year), 4);
    var ms := ZeroPad(NatToDigits(d.month), 2);
    var ds := ZeroPad(NatToDigits(d.day), 2);
    assert Pow10(2) == 100 && Pow10(4) == 10000 by {
      assert Pow10(1) == 10;
      assert Pow10(3) == 1000;
    }
    ZeroPadWidth(d.year, 4);
    ZeroPadWidth(d.month, 2);
    ZeroPadWidth(d.day, 2);
    assert YearText(d.year) == ys;
    assert FormatDate(z) == ys + "-" + ms + "-" + ds;
    assert Date(DigitsValue(ys), DigitsValue(ms), DigitsValue(ds)) == d;
    ParseDigitGroups(ys, ms, ds);
  }
}
