// Date utilities of src/utils/index.ts: weekday of a birthday in a chosen
// year, age as a year difference, strict "YYYY-MM-DD" validation, the leap
// year rule and month lengths. Where the source builds a JavaScript `Date`,
// the model goes through EcmaDate.

module Utils {
  import opened Text
  import EcmaDate

  /** `/^\d{4}-\d{2}-\d{2}$/`: four ASCII digits, '-', two digits, '-', two digits, nothing more. */
  predicate MatchesDatePattern(s: string)
  {
    && |s| == 10
    && IsDigit(s[0]) && IsDigit(s[1]) && IsDigit(s[2]) && IsDigit(s[3])
    && s[4] == '-'
    && IsDigit(s[5]) && IsDigit(s[6])
    && s[7] == '-'
    && IsDigit(s[8]) && IsDigit(s[9])
  }

  // The three numbers `s.split("-").map(Number)` yields for a string of that shape.

  function YearPart(s: string): (y: nat)
    requires MatchesDatePattern(s)
    ensures y < 10000
  {
    DigitValue(s[0]) * 1000 + DigitValue(s[1]) * 100 + DigitValue(s[2]) * 10 + DigitValue(s[3])
  }

  function MonthPart(s: string): (m: nat)
    requires MatchesDatePattern(s)
    ensures m < 100
  {
    DigitValue(s[5]) * 10 + DigitValue(s[6])
  }

  function DayPart(s: string): (d: nat)
    requires MatchesDatePattern(s)
    ensures d < 100
  {
    DigitValue(s[8]) * 10 + DigitValue(s[9])
  }

  /** "YYYY-MM-DD" with zero padding: the spelling the pattern accepts. */
  function FormatIsoDate(y: nat, m: nat, d: nat): (s: string)
    requires y < 10000 && m < 100 && d < 100
    ensures MatchesDatePattern(s)
    ensures YearPart(s) == y && MonthPart(s) == m && DayPart(s) == d
  {
    SplitDigit(y);
    SplitDigit(y / 10);
    SplitDigit(y / 10 / 10);
    SplitDigit(m);
    SplitDigit(d);
    [DigitChar(y / 10 / 10 / 10), DigitChar(y / 10 / 10 % 10), DigitChar(y / 10 % 10), DigitChar(y % 10), '-',
     DigitChar(m / 10), DigitChar(m % 10), '-',
     DigitChar(d / 10), DigitChar(d % 10)]
  }

  /** Every string of the pattern is the formatting of the numbers read from it. */
  lemma FormatIsoDateOfParts(s: string)
    requires MatchesDatePattern(s)
    ensures FormatIsoDate(YearPart(s), MonthPart(s), DayPart(s)) == s
  {
    var y, m, d := YearPart(s), MonthPart(s), DayPart(s);
    var a, b, c, e := DigitValue(s[0]), DigitValue(s[1]), DigitValue(s[2]), DigitValue(s[3]);
    assert y == (a * 100 + b * 10 + c) * 10 + e;
    AppendDigit(a * 100 + b * 10 + c, e);
    assert a * 100 + b * 10 + c == (a * 10 + b) * 10 + c;
    AppendDigit(a * 10 + b, c);
    AppendDigit(a, b);
    assert y / 10 / 10 / 10 == a && y / 10 / 10 % 10 == b && y / 10 % 10 == c && y % 10 == e;
    AppendDigit(DigitValue(s[5]), DigitValue(s[6]));
    AppendDigit(DigitValue(s[8]), DigitValue(s[9]));
    DigitCharOfValue(s[0]);
    DigitCharOfValue(s[1]);
    DigitCharOfValue(s[2]);
    DigitCharOfValue(s[3]);
    DigitCharOfValue(s[5]);
    DigitCharOfValue(s[6]);
    DigitCharOfValue(s[8]);
    DigitCharOfValue(s[9]);
    assert s == [s[0], s[1], s[2], s[3], '-', s[5], s[6], '-', s[8], s[9]];
  }

  lemma SplitDigit(n: nat)
    ensures n == n / 10 * 10 + n % 10 && n % 10 < 10
  {
  }

  lemma AppendDigit(q: nat, r: nat)
    requires r < 10
    ensures (q * 10 + r) / 10 == q && (q * 10 + r) % 10 == r
  {
  }

  /** getDayOfWeek: weekday, Monday = 0, of the birthday's month and day placed in `year`. */
  function GetDayOfWeek(birthday: string, year: int): (r: int)
    requires MatchesDatePattern(birthday)
    ensures 0 <= r <= 6
  {
    (EcmaDate.ConstructedWeekDay(year, MonthPart(birthday) - 1, DayPart(birthday)) + 6) % 7
  }

  /** calculateAge: the target year minus the birthday's four-digit year, month and day ignored. */
  function CalculateAge(birthday: string, year: int): int
    requires MatchesDatePattern(birthday)
  {
    year - YearPart(birthday)
  }

  /** isValidDateFormat: the pattern, the three range checks, then the `Date` round trip. */
  function IsValidDateFormat(s: string): bool
  {
    if !MatchesDatePattern(s) then false
    else
      var y, m, d := YearPart(s), MonthPart(s), DayPart(s);
      if y < 1000 || y > 9999 then false
      else if m < 1 || m > 12 then false
      else if d < 1 || d > 31 then false
      else
        var f := EcmaDate.ConstructedFields(y, m - 1, d);
        f.year == y && f.month == m - 1 && f.date == d
  }

  /** isLeapYear. */
  predicate IsLeapYear(year: int)
  {
    (year % 4 == 0 && year % 100 != 0) || year % 400 == 0
  }

  /** getDaysInMonth as written: the date of `new Date(year, month, 0)`, the last day of the
      month before the 0-based `month`, that is, of the 1-based `month`. */
  function GetDaysInMonth(year: int, month: int): (n: int)
    ensures 28 <= n <= 31
  {
    EcmaDate.ConstructedFields(year, month, 0).date
  }

  /** Gregorian length of the 1-based `month` of `year`, February by IsLeapYear. */
  function DaysInMonth(year: int, month: int): (n: int)
    requires 1 <= month <= 12
    ensures month == 2 ==> (n == 29 <==> IsLeapYear(year)) && (n == 28 || n == 29)
    ensures month in {4, 6, 9, 11} ==> n == 30
    ensures month in {1, 3, 5, 7, 8, 10, 12} ==> n == 31
  {
    if month == 2 then (if IsLeapYear(year) then 29 else 28)
    else if month == 4 || month == 6 || month == 9 || month == 11 then 30
    else 31
  }

  // ---------------------------------------------------------------------------
  // Leap years and month lengths

  /** The app's leap rule is the one the `Date` object uses. */
  lemma IsLeapYearMatchesDate(year: int)
    ensures IsLeapYear(year) <==> EcmaDate.InLeapYear(year)
  {
  }

  lemma IsLeapYearExamples()
    ensures IsLeapYear(2000) && IsLeapYear(2004) && IsLeapYear(2024) && IsLeapYear(1600)
    ensures !IsLeapYear(1900) && !IsLeapYear(1700) && !IsLeapYear(1800) && !IsLeapYear(2100) && !IsLeapYear(2001)
  {
  }

  /** The calendar table is the `Date` object's month length, month shifted to 0-based. */
  lemma DaysInMonthIsMonthLength(year: int, month: int)
    requires 1 <= month <= 12
    ensures DaysInMonth(year, month) == EcmaDate.MonthLength(year, month - 1)
  {
    IsLeapYearMatchesDate(year);
  }

  /** The last day of the previous month is what day 0 of a month settles to. */
  lemma DayZeroIsPreviousMonthEnd(y: int, mn: int)
    requires 0 <= mn < 12
    ensures var (py, pm) := if mn == 0 then (y - 1, 11) else (y, mn - 1);
      EcmaDate.Settle(y, mn, 0) == EcmaDate.Fields(py, pm, EcmaDate.MonthLength(py, pm))
  {
  }

  /** getDaysInMonth for a month 1..12 is the month's length in the year the `Date`
      constructor actually uses (1900 + year for a year 0..99). */
  lemma GetDaysInMonthTable(year: int, month: int)
    requires 1 <= month <= 12
    ensures GetDaysInMonth(year, month) == DaysInMonth(EcmaDate.ConstructorYear(year), month)
  {
    var y := EcmaDate.ConstructorYear(year);
    if month == 12 {
      assert month / 12 == 1 && month % 12 == 0;
      DayZeroIsPreviousMonthEnd(y + 1, 0);
    } else {
      assert month / 12 == 0 && month % 12 == month;
      DayZeroIsPreviousMonthEnd(y, month);
    }
    DaysInMonthIsMonthLength(y, month);
  }

  /** For every year except 0, getDaysInMonth is the Gregorian month length. */
  lemma GetDaysInMonthCorrect(year: int, month: int)
    requires 1 <= month <= 12 && year != 0
    ensures GetDaysInMonth(year, month) == DaysInMonth(year, month)
  {
    GetDaysInMonthTable(year, month);
  }

  /** Year 0 is a leap year by isLeapYear, but getDaysInMonth(0, 2) asks about February 1900. */
  lemma GetDaysInMonthYearZero()
    ensures IsLeapYear(0) && DaysInMonth(0, 2) == 29
    ensures GetDaysInMonth(0, 2) == 28
  {
    GetDaysInMonthTable(0, 2);
  }

  lemma GetDaysInMonthLongMonths()
    ensures GetDaysInMonth(2024, 1) == 31 && GetDaysInMonth(2024, 3) == 31 && GetDaysInMonth(2024, 5) == 31
    ensures GetDaysInMonth(2024, 7) == 31 && GetDaysInMonth(2024, 8) == 31 && GetDaysInMonth(2024, 10) == 31
    ensures GetDaysInMonth(2024, 12) == 31
  {
    GetDaysInMonthTable(2024, 1);
    GetDaysInMonthTable(2024, 3);
    GetDaysInMonthTable(2024, 5);
    GetDaysInMonthTable(2024, 7);
    GetDaysInMonthTable(2024, 8);
    GetDaysInMonthTable(2024, 10);
    GetDaysInMonthTable(2024, 12);
  }

  lemma GetDaysInMonthShortMonths()
    ensures GetDaysInMonth(2024, 4) == 30 && GetDaysInMonth(2024, 6) == 30
    ensures GetDaysInMonth(2024, 9) == 30 && GetDaysInMonth(2024, 11) == 30
  {
    GetDaysInMonthTable(2024, 4);
    GetDaysInMonthTable(2024, 6);
    GetDaysInMonthTable(2024, 9);
    GetDaysInMonthTable(2024, 11);
  }

  lemma GetDaysInMonthLeapFebruaries()
    ensures GetDaysInMonth(2024, 2) == 29 && GetDaysInMonth(2000, 2) == 29 && GetDaysInMonth(2004, 2) == 29
  {
    GetDaysInMonthTable(2024, 2);
    GetDaysInMonthTable(2000, 2);
    GetDaysInMonthTable(2004, 2);
  }

  lemma GetDaysInMonthCommonFebruaries()
    ensures GetDaysInMonth(2023, 2) == 28 && GetDaysInMonth(1900, 2) == 28 && GetDaysInMonth(2001, 2) == 28
  {
    GetDaysInMonthTable(2023, 2);
    GetDaysInMonthTable(1900, 2);
    GetDaysInMonthTable(2001, 2);
  }

  // ---------------------------------------------------------------------------
  // Date validation

  /** The `Date` round trip of isValidDateFormat succeeds exactly for days the month has. */
  lemma DateRoundTrip(y: int, m: int, d: int)
    requires !(0 <= y <= 99) && 1 <= m <= 12 && 1 <= d
    ensures EcmaDate.ConstructedFields(y, m - 1, d) == EcmaDate.Fields(y, m - 1, d) <==> d <= DaysInMonth(y, m)
  {
    assert (m - 1) / 12 == 0 && (m - 1) % 12 == m - 1;
    var f := EcmaDate.ConstructedFields(y, m - 1, d);
    assert f == EcmaDate.Settle(y, m - 1, d);
    DaysInMonthIsMonthLength(y, m);
  }

  /** isValidDateFormat accepts exactly the pattern with a year 1000..9999, a month 1..12 and
      a day the month has. */
  lemma IsValidDateFormatIff(s: string)
    ensures IsValidDateFormat(s) <==>
      && MatchesDatePattern(s)
      && 1000 <= YearPart(s) <= 9999
      && 1 <= MonthPart(s) <= 12
      && 1 <= DayPart(s) <= DaysInMonth(YearPart(s), MonthPart(s))
  {
    if MatchesDatePattern(s) && 1000 <= YearPart(s) <= 9999 && 1 <= MonthPart(s) <= 12 && 1 <= DayPart(s) {
      DateRoundTrip(YearPart(s), MonthPart(s), DayPart(s));
    }
  }

  /** The same, for a date given by its numbers. */
  lemma IsValidFormattedDate(y: nat, m: nat, d: nat)
    requires y < 10000 && m < 100 && d < 100
    ensures IsValidDateFormat(FormatIsoDate(y, m, d)) <==> 1000 <= y && 1 <= m <= 12 && 1 <= d <= DaysInMonth(y, m)
  {
    IsValidDateFormatIff(FormatIsoDate(y, m, d));
  }

  lemma IsValidDateFormatRejectsShape()
    ensures !IsValidDateFormat("24-01-01") && !IsValidDateFormat("2024-1-1") && !IsValidDateFormat("2024/01/01")
    ensures !IsValidDateFormat("01-01-2024") && !IsValidDateFormat("2024-01") && !IsValidDateFormat("")
    ensures !IsValidDateFormat("999-01-01") && !IsValidDateFormat("not-a-date")
  {
  }

  lemma IsValidDateFormatRejectsRange()
    ensures !IsValidDateFormat("2024-13-01") && !IsValidDateFormat("2024-00-01")
    ensures !IsValidDateFormat("2024-01-32") && !IsValidDateFormat("2024-01-00")
  {
    IsValidDateFormatIff("2024-13-01");
    IsValidDateFormatIff("2024-00-01");
    IsValidDateFormatIff("2024-01-32");
    IsValidDateFormatIff("2024-01-00");
  }

  lemma IsValidDateFormatRejectsMissingDays()
    ensures !IsValidDateFormat("2024-02-30") && !IsValidDateFormat("2024-04-31")
  {
  }

  lemma IsValidDateFormatRejectsCenturyLeapDays()
    ensures !IsValidDateFormat("1900-02-29") && !IsValidDateFormat("2100-02-29")
  {
  }

  lemma IsValidDateFormatRejectsCommonLeapDay()
    ensures !IsValidDateFormat("2001-02-29")
  {
  }

  lemma IsValidDateFormatAcceptsLeapDay2004()
    ensures IsValidDateFormat("2004-02-29")
  {
  }

  lemma IsValidDateFormatAcceptsLeapDay2024()
    ensures IsValidDateFormat("2024-02-29")
  {
  }

  lemma IsValidDateFormatAcceptsCenturyLeapDay()
    ensures IsValidDateFormat("2000-02-29")
  {
  }

  lemma IsValidDateFormatAcceptsBounds()
    ensures IsValidDateFormat("1000-01-01") && IsValidDateFormat("9999-12-31")
  {
  }

  lemma IsValidDateFormatAcceptsOrdinaryDays()
    ensures IsValidDateFormat("1990-12-31") && IsValidDateFormat("2024-01-01")
  {
  }

  // ---------------------------------------------------------------------------
  // Weekdays

  /** getDayOfWeek is the Monday-based weekday of `new Date(year, month - 1, day)`. */
  lemma GetDayOfWeekIsDayNumber(b: string, year: int, m: int, d: int)
    requires MatchesDatePattern(b) && MonthPart(b) == m && DayPart(b) == d
    ensures GetDayOfWeek(b, year) == (EcmaDate.ConstructedWeekDay(year, m - 1, d) + 6) % 7
  {
  }

  /**
   * getDayOfWeek is the Monday-based weekday (0 = Monday .. 6 = Sunday) of the calendar date the
   * `Date` object holds, the one `getFullYear`, `getMonth` and `getDate` read back.
   */
  lemma GetDayOfWeekIsWeekdayOfDate(b: string, year: int)
    requires MatchesDatePattern(b)
    ensures var f := EcmaDate.ConstructedFields(year, MonthPart(b) - 1, DayPart(b));
      GetDayOfWeek(b, year) == (EcmaDate.WeekDay(EcmaDate.DayOf(f)) + 6) % 7
  {
    EcmaDate.ConstructedFieldsDay(year, MonthPart(b) - 1, DayPart(b));
  }

  /** Only the birthday's month and day matter; its year is discarded. */
  lemma GetDayOfWeekIgnoresBirthYear(b1: string, b2: string, year: int)
    requires MatchesDatePattern(b1) && MatchesDatePattern(b2)
    requires b1[4..] == b2[4..]
    ensures GetDayOfWeek(b1, year) == GetDayOfWeek(b2, year)
  {
    assert b1[5] == b1[4..][1] == b2[5] && b1[6] == b1[4..][2] == b2[6];
    assert b1[8] == b1[4..][4] == b2[8] && b1[9] == b1[4..][5] == b2[9];
    assert MonthPart(b1) == MonthPart(b2) && DayPart(b1) == DayPart(b2);
    GetDayOfWeekIsDayNumber(b1, year, MonthPart(b1), DayPart(b1));
    GetDayOfWeekIsDayNumber(b2, year, MonthPart(b1), DayPart(b1));
  }

  /** Feb 29 placed in a year without one is read back as March 1 and falls on March 1's weekday. */
  lemma LeapDayRollsOver(feb29: string, mar1: string, year: int)
    requires MatchesDatePattern(feb29) && MonthPart(feb29) == 2 && DayPart(feb29) == 29
    requires MatchesDatePattern(mar1) && MonthPart(mar1) == 3 && DayPart(mar1) == 1
    requires !IsLeapYear(EcmaDate.ConstructorYear(year))
    ensures EcmaDate.ConstructedFields(year, 1, 29) == EcmaDate.Fields(EcmaDate.ConstructorYear(year), 2, 1)
    ensures GetDayOfWeek(feb29, year) == GetDayOfWeek(mar1, year)
  {
    IsLeapYearMatchesDate(EcmaDate.ConstructorYear(year));
    EcmaDate.LeapDayOutsideLeapYear(year);
  }

  /** Turning a Sunday-based weekday into a Monday-based one commutes with moving on k days. */
  lemma MondayBasedShift(w: int, k: int)
    requires 0 <= w < 7 && 0 <= k < 7
    ensures ((w + k) % 7 + 6) % 7 == ((w + 6) % 7 + k) % 7
  {
  }

  /** From one year to the next a birthday's weekday moves on by one day, or by two when a
      February 29 lies in between. */
  lemma GetDayOfWeekNextYear(b: string, year: int)
    requires MatchesDatePattern(b) && 1 <= MonthPart(b) <= 12
    requires EcmaDate.ConstructorYear(year) == year && EcmaDate.ConstructorYear(year + 1) == year + 1
    ensures var leapDayBetween := if MonthPart(b) <= 2 then IsLeapYear(year) else IsLeapYear(year + 1);
      GetDayOfWeek(b, year + 1) == (GetDayOfWeek(b, year) + (if leapDayBetween then 2 else 1)) % 7
  {
    var mn, d := MonthPart(b) - 1, DayPart(b);
    var w := EcmaDate.ConstructedWeekDay(year, mn, d);
    EcmaDate.ConstructedWeekDayNextYear(year, mn, d);
    IsLeapYearMatchesDate(year);
    IsLeapYearMatchesDate(year + 1);
    MondayBasedShift(w, if (if mn < 2 then IsLeapYear(year) else IsLeapYear(year + 1)) then 2 else 1);
  }

  /** The next day of the month falls on the next weekday. */
  lemma GetDayOfWeekNextDay(b: string, next: string, year: int)
    requires MatchesDatePattern(b) && MatchesDatePattern(next)
    requires MonthPart(next) == MonthPart(b) && DayPart(next) == DayPart(b) + 1
    ensures GetDayOfWeek(next, year) == (GetDayOfWeek(b, year) + 1) % 7
  {
    var w := EcmaDate.ConstructedWeekDay(year, MonthPart(b) - 1, DayPart(b));
    EcmaDate.ConstructedWeekDayNextDate(year, MonthPart(b) - 1, DayPart(b));
    MondayBasedShift(w, 1);
  }

  // The weekday test vectors, for a birthday in any year with the given month and day.

  lemma GetDayOfWeekJanuaryFirst(b: string)
    requires MatchesDatePattern(b) && MonthPart(b) == 1 && DayPart(b) == 1
    ensures GetDayOfWeek(b, 2024) == 0 && GetDayOfWeek(b, 2000) == 5
  {
    GetDayOfWeekIsDayNumber(b, 2024, 1, 1);
    GetDayOfWeekIsDayNumber(b, 2000, 1, 1);
  }

  /** The first seven days of 2024 run Monday to Sunday. */
  lemma GetDayOfWeekFirstWeekOf2024(b: string)
    requires MatchesDatePattern(b) && MonthPart(b) == 1 && 1 <= DayPart(b) <= 7
    ensures GetDayOfWeek(b, 2024) == DayPart(b) - 1
  {
    GetDayOfWeekIsDayNumber(b, 2024, 1, DayPart(b));
    assert EcmaDate.DayFromYear(2024) == 19723;
  }

  lemma GetDayOfWeekJanuarySeventh(b: string)
    requires MatchesDatePattern(b) && MonthPart(b) == 1 && DayPart(b) == 7
    ensures GetDayOfWeek(b, 2024) == 6
  {
    GetDayOfWeekIsDayNumber(b, 2024, 1, 7);
  }

  lemma GetDayOfWeekNewYearsEve(b: string)
    requires MatchesDatePattern(b) && MonthPart(b) == 12 && DayPart(b) == 31
    ensures GetDayOfWeek(b, 1999) == 4
  {
    GetDayOfWeekIsDayNumber(b, 1999, 12, 31);
  }

  lemma GetDayOfWeekLeapDay2000(b: string)
    requires MatchesDatePattern(b) && MonthPart(b) == 2 && DayPart(b) == 29
    ensures GetDayOfWeek(b, 2000) == 1
  {
    GetDayOfWeekIsDayNumber(b, 2000, 2, 29);
  }

  lemma GetDayOfWeekLeapDay2004(b: string)
    requires MatchesDatePattern(b) && MonthPart(b) == 2 && DayPart(b) == 29
    ensures GetDayOfWeek(b, 2004) == 6
  {
    GetDayOfWeekIsDayNumber(b, 2004, 2, 29);
  }

  lemma GetDayOfWeekLeapDay2024(b: string)
    requires MatchesDatePattern(b) && MonthPart(b) == 2 && DayPart(b) == 29
    ensures GetDayOfWeek(b, 2024) == 3
  {
    GetDayOfWeekIsDayNumber(b, 2024, 2, 29);
  }

  lemma GetDayOfWeekLeapDay2028(b: string)
    requires MatchesDatePattern(b) && MonthPart(b) == 2 && DayPart(b) == 29
    ensures GetDayOfWeek(b, 2028) == 1
  {
    GetDayOfWeekIsDayNumber(b, 2028, 2, 29);
  }

  /** In 2023, a year without February 29, that birthday is read as March 1, a Wednesday. */
  lemma GetDayOfWeekLeapDayIn2023(b: string)
    requires MatchesDatePattern(b) && MonthPart(b) == 2 && DayPart(b) == 29
    ensures GetDayOfWeek(b, 2023) == 2
  {
    GetDayOfWeekIsDayNumber(b, 2023, 2, 29);
  }

  lemma GetDayOfWeekMidJune2020(b: string)
    requires MatchesDatePattern(b) && MonthPart(b) == 6 && DayPart(b) == 15
    ensures GetDayOfWeek(b, 2020) == 0
  {
    GetDayOfWeekIsDayNumber(b, 2020, 6, 15);
  }

  lemma GetDayOfWeekMidJune2021(b: string)
    requires MatchesDatePattern(b) && MonthPart(b) == 6 && DayPart(b) == 15
    ensures GetDayOfWeek(b, 2021) == 1
  {
    GetDayOfWeekIsDayNumber(b, 2021, 6, 15);
  }

  lemma GetDayOfWeekMidJune2022(b: string)
    requires MatchesDatePattern(b) && MonthPart(b) == 6 && DayPart(b) == 15
    ensures GetDayOfWeek(b, 2022) == 2
  {
    GetDayOfWeekIsDayNumber(b, 2022, 6, 15);
  }

  /** New Year's Day and New Year's Eve of 2024 fall on different weekdays. */
  lemma GetDayOfWeekYearEnds(first: string, last: string)
    requires MatchesDatePattern(first) && MonthPart(first) == 1 && DayPart(first) == 1
    requires MatchesDatePattern(last) && MonthPart(last) == 12 && DayPart(last) == 31
    ensures GetDayOfWeek(first, 2024) == 0 && GetDayOfWeek(last, 2024) == 1
  {
    GetDayOfWeekIsDayNumber(first, 2024, 1, 1);
    GetDayOfWeekIsDayNumber(last, 2024, 12, 31);
  }

  // ---------------------------------------------------------------------------
  // Ages

  /** calculateAge of a formatted birthday: the year difference, whatever the month and day. */
  lemma CalculateAgeOfFormatted(y: nat, m: nat, d: nat, year: int)
    requires y < 10000 && m < 100 && d < 100
    ensures CalculateAge(FormatIsoDate(y, m, d), year) == year - y
  {
  }

  /** One year later, everybody is one year older. */
  lemma CalculateAgeNextYear(b: string, year: int)
    requires MatchesDatePattern(b)
    ensures CalculateAge(b, year + 1) == CalculateAge(b, year) + 1
  {
  }

  lemma CalculateAgeExamples()
    ensures CalculateAge("1990-06-15", 2024) == 34 && CalculateAge("2000-01-01", 2024) == 24
    ensures CalculateAge("1985-12-25", 2024) == 39 && CalculateAge("2024-06-15", 2024) == 0
    ensures CalculateAge("2030-06-15", 2024) == -6 && CalculateAge("2000-02-29", 2024) == 24
    ensures CalculateAge("1996-02-29", 2024) == 28
  {
  }
}
