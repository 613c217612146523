/**
 * Proleptic Gregorian calendar dates as Python's `datetime.date` holds them:
 * leap years, month lengths, the next and previous day, Python's day ordinal
 * (`date.toordinal`), and the `YYYY-MM-DD` text form read by
 * `strptime(..., "%Y-%m-%d")` / `fromisoformat` and written by
 * `strftime("%Y-%m-%d")` / `isoformat`.
 */
module Calendar {
  import opened Wrappers
  import opened Text

  datatype Date = Date(year: int, month: int, day: int)

  /** `datetime.MINYEAR` and `datetime.MAXYEAR`. */
  const MinYear := 1
  const MaxYear := 9999

  predicate IsLeap(year: int)
  {
    year % 4 == 0 && (year % 100 != 0 || year % 400 == 0)
  }

  function DaysInMonth(year: int, month: int): (n: int)
    requires 1 <= month <= 12
    ensures 28 <= n <= 31
    ensures month == 2 ==> (n == 29 <==> IsLeap(year)) && (n == 28 <==> !IsLeap(year))
    ensures month != 2 ==> (n == 30 <==> month in {4, 6, 9, 11}) && (n == 31 <==> month !in {4, 6, 9, 11})
  {
    if month == 2 then (if IsLeap(year) then 29 else 28)
    else if month == 4 || month == 6 || month == 9 || month == 11 then 30
    else 31
  }

  /** A real month and a day that month has, in any year of the proleptic calendar. */
  predicate IsCalendarDate(d: Date)
  {
    1 <= d.month <= 12 && 1 <= d.day <= DaysInMonth(d.year, d.month)
  }

  /** A date Python's `date` can represent. */
  predicate ValidDate(d: Date)
  {
    MinYear <= d.year <= MaxYear && IsCalendarDate(d)
  }

  /** Chronological order of calendar dates. */
  predicate Before(a: Date, b: Date)
  {
    a.year < b.year
    || (a.year == b.year && (a.month < b.month || (a.month == b.month && a.day < b.day)))
  }

  /** The day after `d`, rolling over the month and the year. */
  function NextDay(d: Date): (n: Date)
    requires IsCalendarDate(d)
    ensures IsCalendarDate(n)
    ensures Before(d, n)
  {
    if d.day < DaysInMonth(d.year, d.month) then d.(day := d.day + 1)
    else if d.month < 12 then Date(d.year, d.month + 1, 1)
    else Date(d.year + 1, 1, 1)
  }

  /** The day before `d`, rolling back the month and the year. */
  function PrevDay(d: Date): (p: Date)
    requires IsCalendarDate(d)
    ensures IsCalendarDate(p)
    ensures Before(p, d)
  {
    if d.day > 1 then d.(day := d.day - 1)
    else if d.month > 1 then Date(d.year, d.month - 1, DaysInMonth(d.year, d.month - 1))
    else Date(d.year - 1, 12, 31)
  }

  /** No calendar date lies strictly between a date and the next one. */
  lemma NextDayIsSuccessor(d: Date, e: Date)
    requires IsCalendarDate(d) && IsCalendarDate(e)
    requires Before(d, e)
    ensures NextDay(d) == e || Before(NextDay(d), e)
  {
  }

  /** `NextDay` and `PrevDay` undo each other. */
  lemma NextPrevInverse(d: Date)
    requires IsCalendarDate(d)
    ensures PrevDay(NextDay(d)) == d
    ensures NextDay(PrevDay(d)) == d
  {
  }

  /** Only the last representable day has no representable successor. */
  lemma NextDayInRange(d: Date)
    requires ValidDate(d)
    ensures ValidDate(NextDay(d)) <==> d != Date(MaxYear, 12, 31)
  {
  }

  /** Only the first representable day has no representable predecessor. */
  lemma PrevDayInRange(d: Date)
    requires ValidDate(d)
    ensures ValidDate(PrevDay(d)) <==> d != Date(MinYear, 1, 1)
  {
  }

  /** The day after crosses into a leap day, a new month and a new year as the calendar does. */
  lemma NextDayExamples()
    ensures NextDay(Date(2024, 2, 28)) == Date(2024, 2, 29)
    ensures NextDay(Date(2023, 2, 28)) == Date(2023, 3, 1)
    ensures NextDay(Date(1900, 2, 28)) == Date(1900, 3, 1)
    ensures NextDay(Date(2000, 2, 28)) == Date(2000, 2, 29)
    ensures NextDay(Date(2024, 4, 30)) == Date(2024, 5, 1)
    ensures NextDay(Date(2024, 12, 31)) == Date(2025, 1, 1)
  {
    assert IsLeap(2024) && !IsLeap(2023) && !IsLeap(1900) && IsLeap(2000);
  }

  // ------------------------------------------------ Python's day ordinal

  /** Days in the years before `year` (Python's `_days_before_year`). */
  function DaysBeforeYear(year: int): int
    requires year >= 1
  {
    var y := year - 1;
    y * 365 + y / 4 - y / 100 + y / 400
  }

  /** Days in the months of `year` before `month` (Python's `_days_before_month`). */
  function DaysBeforeMonth(year: int, month: int): int
    requires 1 <= month <= 12
  {
    [0, 31, 59, 90, 120, 151, 181, 212, 243, 273, 304, 334][month - 1]
    + if month > 2 && IsLeap(year) then 1 else 0
  }

  /** `date.toordinal()`: 0001-01-01 is day 1. */
  function Ordinal(d: Date): int
    requires d.year >= 1 && IsCalendarDate(d)
  {
    DaysBeforeYear(d.year) + DaysBeforeMonth(d.year, d.month) + d.day
  }

  /** A year has 366 days when it is a leap year and 365 otherwise. */
  lemma DaysBeforeNextYear(year: int)
    requires year >= 1
    ensures DaysBeforeYear(year + 1) == DaysBeforeYear(year) + if IsLeap(year) then 366 else 365
  {
    var y := year - 1;
    assert year / 4 - y / 4 == if year % 4 == 0 then 1 else 0;
    assert year / 100 - y / 100 == if year % 100 == 0 then 1 else 0;
    assert year / 400 - y / 400 == if year % 400 == 0 then 1 else 0;
  }

  /**
   * `NextDay` agrees with Python's `date + timedelta(days=1)`, which adds one
   * to the ordinal and converts back.
   */
  lemma NextDayOrdinal(d: Date)
    requires d.year >= 1 && IsCalendarDate(d)
    ensures Ordinal(NextDay(d)) == Ordinal(d) + 1
  {
    if d.day == DaysInMonth(d.year, d.month) && d.month == 12 {
      DaysBeforeNextYear(d.year);
    }
  }

  /** `PrevDay` agrees with Python's `date - timedelta(days=1)`. */
  lemma PrevDayOrdinal(d: Date)
    requires d.year >= 1 && IsCalendarDate(d) && d != Date(1, 1, 1)
    ensures PrevDay(d).year >= 1
    ensures Ordinal(PrevDay(d)) == Ordinal(d) - 1
  {
    NextPrevInverse(d);
    NextDayOrdinal(PrevDay(d));
  }

  // ------------------------------------------------ YYYY-MM-DD text form

  /** `strftime("%Y-%m-%d")` / `date.isoformat()`. */
  function FormatDate(d: Date): (s: string)
    requires ValidDate(d)
    ensures |s| == 10 && s[4] == '-' && s[7] == '-'
  {
    PadDigits(d.year, 4) + "-" + PadDigits(d.month, 2) + "-" + PadDigits(d.day, 2)
  }

  /**
   * `strptime(s, "%Y-%m-%d")` restricted to two-digit months and days: exactly
   * `YYYY-MM-DD`, and a date that exists in a representable year; anything else
   * is the `ValueError` case.
   */
  function ParseDate(s: string): Option<Date>
  {
    if |s| == 10 && s[4] == '-' && s[7] == '-'
       && AllDigits(s[..4]) && AllDigits(s[5..7]) && AllDigits(s[8..])
    then
      var d := Date(DigitsValue(s[..4]), DigitsValue(s[5..7]), DigitsValue(s[8..]));
      if ValidDate(d) then Some(d) else None
    else None
  }

  /** Every representable date reads back from its text form. */
  lemma ParseFormatDate(d: Date)
    requires ValidDate(d)
    ensures ParseDate(FormatDate(d)) == Some(d)
  {
    var s := FormatDate(d);
    var ys, ms, ds := PadDigits(d.year, 4), PadDigits(d.month, 2), PadDigits(d.day, 2);
    assert s[..4] == ys && s[5..7] == ms && s[8..] == ds;
    ValueOfPadDigits(d.year, 4);
    ValueOfPadDigits(d.month, 2);
    ValueOfPadDigits(d.day, 2);
  }

  /** Every string that parses is the text form of what it parses to. */
  lemma FormatParseDate(s: string)
    requires ParseDate(s).Some?
    ensures FormatDate(ParseDate(s).value) == s
  {
    PadDigitsOfValue(s[..4]);
    PadDigitsOfValue(s[5..7]);
    PadDigitsOfValue(s[8..]);
    assert s == s[..4] + "-" + s[5..7] + "-" + s[8..];
  }
}
