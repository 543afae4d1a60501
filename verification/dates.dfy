/** The calendar arithmetic the jobs do with Python's `datetime.date`: the last day
    of the previous month (`today.replace(day=1) - timedelta(days=1)`), the same day
    a year earlier (`today.replace(year=today.year - 1)`), one month later
    (`today + relativedelta(months=1)`), and the `strftime("%Y-%m")` / `str(date)`
    renderings. Dates range over the proleptic Gregorian years 1 to 9999. */
module Dates {
  import opened Wrappers
  import Text

  datatype Date = Date(year: int, month: int, day: int)

  const MinYear: int := 1
  const MaxYear: int := 9999

  /** The two exceptions the arithmetic can raise. */
  datatype DateError =
    | OverflowError   // subtracting a `timedelta` left years 1..9999
    | ValueError      // `replace` got a year outside 1..9999 or a day its month lacks

  predicate IsLeapYear(y: int) {
    y % 4 == 0 && (y % 100 != 0 || y % 400 == 0)
  }

  function DaysInMonth(y: int, m: int): (n: int)
    requires 1 <= m <= 12
    ensures 28 <= n <= 31
  {
    if m == 2 then (if IsLeapYear(y) then 29 else 28)
    else if m == 4 || m == 6 || m == 9 || m == 11 then 30
    else 31
  }

  predicate ValidDate(d: Date) {
    && MinYear <= d.year <= MaxYear
    && 1 <= d.month <= 12
    && 1 <= d.day <= DaysInMonth(d.year, d.month)
  }

  /** The calendar successor of a date: an independent reference for the
      subtraction of one day below. */
  function NextDay(d: Date): Date
    requires ValidDate(d)
  {
    if d.day < DaysInMonth(d.year, d.month) then Date(d.year, d.month, d.day + 1)
    else if d.month < 12 then Date(d.year, d.month + 1, 1)
    else Date(d.year + 1, 1, 1)
  }

  /** `today.replace(day=1) - timedelta(days=1)`: step back from the first of the
      month. Only 1 January of year 1 has no predecessor. */
  function LastDayOfPreviousMonth(today: Date): (r: Result<Date, DateError>)
    requires ValidDate(today)
    ensures r.Failure? <==> today.year == MinYear && today.month == 1
    ensures r.Success? ==> ValidDate(r.value) && NextDay(r.value) == Date(today.year, today.month, 1)
  {
    if today.month > 1 then Success(Date(today.year, today.month - 1, DaysInMonth(today.year, today.month - 1)))
    else if today.year > MinYear then Success(Date(today.year - 1, 12, 31))
    else Failure(OverflowError)
  }

  /** A year divisible by four is followed, not preceded, by three common years. */
  lemma LeapYearPrecededByCommonYear(y: int)
    requires IsLeapYear(y)
    ensures !IsLeapYear(y - 1)
  {
  }

  /** `today.replace(year=today.year - 1)`: the same month and day a year earlier.
      Python raises for year 1 and for 29 February, whose previous year is never a
      leap year. */
  function SameDayLastYear(today: Date): (r: Result<Date, DateError>)
    requires ValidDate(today)
    ensures r.Failure? <==> today.year == MinYear || (today.month == 2 && today.day == 29)
    ensures r.Success? ==> ValidDate(r.value)
    ensures r.Success? ==> r.value.year == today.year - 1 && r.value.month == today.month && r.value.day == today.day
  {
    if today.year - 1 < MinYear then Failure(ValueError)
    else if today.day > DaysInMonth(today.year - 1, today.month) then
      assert today.month == 2 && today.day == 29;
      Failure(ValueError)
    else
      assert !(today.month == 2 && today.day == 29) by {
        if today.month == 2 && today.day == 29 {
          LeapYearPrecededByCommonYear(today.year);
        }
      }
      Success(Date(today.year - 1, today.month, today.day))
  }

  /** `today + relativedelta(months=1)`: next month, with the day clipped to that
      month's length; December rolls over into January of the next year. From
      December 9999 the final `date.replace` raises `ValueError`. */
  function OneMonthLater(today: Date): (r: Result<Date, DateError>)
    requires ValidDate(today)
    ensures r.Failure? <==> today.year == MaxYear && today.month == 12
    ensures r.Failure? ==> r.error == ValueError
    ensures r.Success? ==> ValidDate(r.value) && r.value.day <= today.day
    ensures r.Success? && today.month < 12 ==> r.value.year == today.year && r.value.month == today.month + 1
    ensures r.Success? && today.month == 12 ==> r.value.year == today.year + 1 && r.value.month == 1
    ensures r.Success? ==> var last := DaysInMonth(r.value.year, r.value.month);
              r.value.day == if today.day <= last then today.day else last
  {
    var (y, m) := if today.month == 12 then (today.year + 1, 1) else (today.year, today.month + 1);
    if y > MaxYear then Failure(ValueError)
    else
      var last := DaysInMonth(y, m);
      Success(Date(y, m, if today.day <= last then today.day else last))
  }

  /** `strftime("%Y-%m")`: four-digit year, dash, two-digit month. */
  function FormatYearMonth(year: nat, month: nat): string
  {
    Text.ZeroPad(year, 4) + "-" + Text.ZeroPad(month, 2)
  }

  /** `str(date)`, the ISO form `YYYY-MM-DD`. */
  function IsoFormat(d: Date): string
    requires ValidDate(d)
  {
    FormatYearMonth(d.year, d.month) + "-" + Text.ZeroPad(d.day, 2)
  }

  /** Reads a `YYYY-MM` text back into its year and month. */
  function ParseYearMonth(s: string): Option<(nat, nat)>
  {
    if |s| == 7 && s[4] == '-' && (forall i :: 0 <= i < 7 && i != 4 ==> Text.IsDigit(s[i])) then
      Some((Text.DigitsValue(s[..4]), Text.DigitsValue(s[5..])))
    else None
  }

  /** Numbers below `10^k` need at most `k` digits. */
  lemma NatToStringLength(n: nat)
    ensures n < 10 ==> |Text.NatToString(n)| == 1
    ensures n < 100 ==> |Text.NatToString(n)| <= 2
    ensures n < 10000 ==> |Text.NatToString(n)| <= 4
  {
    if n >= 10 {
      NatToStringLength(n / 10);
    }
  }

  /** Every year and month in range is rendered into seven characters that read
      back as the same pair; in particular two different months never share a
      `YYYY-MM` prefix. */
  lemma FormatYearMonthRoundTrip(year: nat, month: nat)
    requires MinYear <= year <= MaxYear && 1 <= month <= 12
    ensures |FormatYearMonth(year, month)| == 7
    ensures ParseYearMonth(FormatYearMonth(year, month)) == Some((year, month))
  {
    NatToStringLength(year);
    NatToStringLength(month);
    var y := Text.ZeroPad(year, 4);
    var m := Text.ZeroPad(month, 2);
    var s := FormatYearMonth(year, month);
    assert s[..4] == y;
    assert s[5..] == m;
    Text.ZeroPadValue(year, 4);
    Text.ZeroPadValue(month, 2);
  }
}
