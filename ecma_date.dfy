// The part of the ECMAScript `Date` object that the utilities rely on,
// written as integer arithmetic on day numbers, after the abstract operations
// of section 21.4.1 of ECMA-262 (15th edition, 2024), cited by name:
// `new Date(year, month, date)` builds a day number with MakeDay, after
// MakeFullYear maps a year 0..99 to 1900..1999; `getDay` is WeekDay;
// `getFullYear`, `getMonth` and `getDate` read the calendar fields of that
// day back (YearFromTime, MonthFromTime, DateFromTime).
// Day 0 is 1 January 1970; months are 0-based, as in the object.

module EcmaDate {

  /** Day number of 1 January of year `y` (DayFromYear). */
  function DayFromYear(y: int): int
  {
    365 * (y - 1970) + (y - 1969) / 4 - (y - 1901) / 100 + (y - 1601) / 400
  }

  /** DaysInYear(y) is 366 exactly for these years. */
  predicate InLeapYear(y: int)
  {
    y % 4 == 0 && (y % 100 != 0 || y % 400 == 0)
  }

  function DaysInYear(y: int): (n: int)
    ensures n == 365 || n == 366
  {
    if InLeapYear(y) then 366 else 365
  }

  /** Number of days in the 0-based month `mn` of year `y`. */
  function MonthLength(y: int, mn: int): (n: int)
    requires 0 <= mn < 12
    ensures 28 <= n <= 31
  {
    if mn == 1 then (if InLeapYear(y) then 29 else 28)
    else if mn == 3 || mn == 5 || mn == 8 || mn == 10 then 30
    else 31
  }

  /** Days of year `y` before the first of month `mn` (the thresholds of MonthFromTime). */
  function DaysBeforeMonth(y: int, mn: int): int
    requires 0 <= mn < 12
  {
    if mn == 0 then 0
    else if mn == 1 then 31
    else [59, 90, 120, 151, 181, 212, 243, 273, 304, 334][mn - 2] + (if InLeapYear(y) then 1 else 0)
  }

  /** The number of multiples of 4 counted by DayFromYear grows by one exactly at a multiple of 4. */
  lemma LeapCountStep4(y: int)
    ensures (y - 1968) / 4 - (y - 1969) / 4 == if y % 4 == 0 then 1 else 0
  {
    var a := y - 1969;
    assert a + 1 == 4 * ((a + 1) / 4) + (a + 1) % 4;
    assert a == 4 * (a / 4) + a % 4;
    assert y == 4 * (y / 4) + y % 4;
    assert (y - 1968) % 4 == y % 4 by {
      assert y - 1968 == 4 * (y / 4 - 492) + y % 4;
    }
  }

  lemma LeapCountStep100(y: int)
    ensures (y - 1900) / 100 - (y - 1901) / 100 == if y % 100 == 0 then 1 else 0
  {
    var a := y - 1901;
    assert a + 1 == 100 * ((a + 1) / 100) + (a + 1) % 100;
    assert a == 100 * (a / 100) + a % 100;
    assert y == 100 * (y / 100) + y % 100;
    assert (y - 1900) % 100 == y % 100 by {
      assert y - 1900 == 100 * (y / 100 - 19) + y % 100;
    }
  }

  lemma LeapCountStep400(y: int)
    ensures (y - 1600) / 400 - (y - 1601) / 400 == if y % 400 == 0 then 1 else 0
  {
    var a := y - 1601;
    assert a + 1 == 400 * ((a + 1) / 400) + (a + 1) % 400;
    assert a == 400 * (a / 400) + a % 400;
    assert y == 400 * (y / 400) + y % 400;
    assert (y - 1600) % 400 == y % 400 by {
      assert y - 1600 == 400 * (y / 400 - 4) + y % 400;
    }
  }

  /** A multiple of 400 is a multiple of 100, and a multiple of 100 is a multiple of 4. */
  lemma DivisibilityChain(y: int)
    ensures y % 100 == 0 ==> y % 4 == 0
    ensures y % 400 == 0 ==> y % 100 == 0
  {
    if y % 100 == 0 {
      assert y == 4 * (25 * (y / 100));
    }
    if y % 400 == 0 {
      assert y == 100 * (4 * (y / 400));
    }
  }

  /** Consecutive years are DaysInYear apart. */
  lemma DayFromYearStep(y: int)
    ensures DayFromYear(y + 1) == DayFromYear(y) + DaysInYear(y)
  {
    LeapCountStep4(y);
    LeapCountStep100(y);
    LeapCountStep400(y);
    DivisibilityChain(y);
  }

  lemma {:induction false} DayFromYearMonotone(a: int, b: int)
    requires a <= b
    ensures DayFromYear(a) + 365 * (b - a) <= DayFromYear(b)
    decreases b - a
  {
    if a < b {
      DayFromYearMonotone(a, b - 1);
      DayFromYearStep(b - 1);
    }
  }

  /** Consecutive months are MonthLength apart, and the months fill the year. */
  lemma DaysBeforeMonthStep(y: int, mn: int)
    requires 0 <= mn < 12
    ensures mn < 11 ==> DaysBeforeMonth(y, mn + 1) == DaysBeforeMonth(y, mn) + MonthLength(y, mn)
    ensures mn == 11 ==> DaysBeforeMonth(y, mn) + MonthLength(y, mn) == DaysInYear(y)
  {
  }

  /** MakeDay(year, month, date): day number of `date` in month `month` of `year`; month and
      date may lie outside their ranges and are carried into the year and month. */
  function MakeDay(year: int, month: int, date: int): int
  {
    // The first branch is the second with month / 12 == 0 and month % 12 == month written out.
    if 0 <= month < 12 then DayFromYear(year) + DaysBeforeMonth(year, month) + date - 1
    else DayFromYear(year + month / 12) + DaysBeforeMonth(year + month / 12, month % 12) + date - 1
  }

  /** For a month already in 0..11, MakeDay is the day of those fields. */
  lemma MakeDayInRange(y: int, mn: int, date: int)
    requires 0 <= mn < 12
    ensures MakeDay(y, mn, date) == DayOf(Fields(y, mn, date))
  {
  }

  /** The same month and date one year later: a whole year later, counted over the February
      of the year the date lies in. */
  lemma MakeDayNextYear(y: int, mn: int, date: int)
    requires 0 <= mn < 12
    ensures MakeDay(y + 1, mn, date) == MakeDay(y, mn, date) + (if mn < 2 then DaysInYear(y) else DaysInYear(y + 1))
  {
    MakeDayInRange(y, mn, date);
    MakeDayInRange(y + 1, mn, date);
    DayFromYearStep(y);
  }

  /** The year the multi-argument `Date` constructor uses: 0..99 stand for 1900..1999. */
  function ConstructorYear(year: int): (y: int)
    ensures 0 <= year <= 99 ==> y == 1900 + year
    ensures !(0 <= year <= 99) ==> y == year
  {
    if 0 <= year <= 99 then 1900 + year else year
  }

  /** WeekDay: 0 = Sunday .. 6 = Saturday; day 0 (1 January 1970) was a Thursday. */
  function WeekDay(day: int): (w: int)
    ensures 0 <= w < 7
  {
    (day + 4) % 7
  }

  lemma WeekDayAdd(day: int, k: int)
    ensures WeekDay(day + k) == (WeekDay(day) + k) % 7
  {
  }

  /** Calendar fields as the getters return them: full year, 0-based month, day of month. */
  datatype Fields = Fields(year: int, month: int, date: int)

  predicate IsCanonical(f: Fields)
  {
    0 <= f.month < 12 && 1 <= f.date <= MonthLength(f.year, f.month)
  }

  function DayOf(f: Fields): int
    requires 0 <= f.month < 12
  {
    DayFromYear(f.year) + DaysBeforeMonth(f.year, f.month) + f.date - 1
  }

  /** The normalisation of MakeDay, step by step: a date past the end of its month rolls
      into the next month, a date below 1 into the previous one, until it fits. */
  function Settle(y: int, mn: int, date: int): (f: Fields)
    requires 0 <= mn < 12
    ensures IsCanonical(f)
    decreases if date < 1 then 1 else 0, if date < 1 then -date else date
  {
    if date < 1 then
      if mn == 0 then Settle(y - 1, 11, date + MonthLength(y - 1, 11))
      else Settle(y, mn - 1, date + MonthLength(y, mn - 1))
    else if date > MonthLength(y, mn) then
      if mn == 11 then Settle(y + 1, 0, date - MonthLength(y, mn))
      else Settle(y, mn + 1, date - MonthLength(y, mn))
    else
      Fields(y, mn, date)
  }

  /** Settling never changes the day that is named. */
  lemma {:induction false} SettleKeepsDay(y: int, mn: int, date: int)
    requires 0 <= mn < 12
    ensures DayOf(Settle(y, mn, date)) == DayOf(Fields(y, mn, date))
    decreases if date < 1 then 1 else 0, if date < 1 then -date else date, 1
  {
    if date < 1 {
      SettleBackKeepsDay(y, mn, date);
    } else if date > MonthLength(y, mn) {
      SettleForwardKeepsDay(y, mn, date);
    }
  }

  lemma {:induction false} SettleBackKeepsDay(y: int, mn: int, date: int)
    requires 0 <= mn < 12 && date < 1
    ensures DayOf(Settle(y, mn, date)) == DayOf(Fields(y, mn, date))
    decreases 1, -date, 0
  {
    StepBack(y, mn, date);
    if mn == 0 {
      SettleKeepsDay(y - 1, 11, date + MonthLength(y - 1, 11));
    } else {
      SettleKeepsDay(y, mn - 1, date + MonthLength(y, mn - 1));
    }
  }

  lemma {:induction false} SettleForwardKeepsDay(y: int, mn: int, date: int)
    requires 0 <= mn < 12 && date > MonthLength(y, mn)
    ensures DayOf(Settle(y, mn, date)) == DayOf(Fields(y, mn, date))
    decreases 0, date, 0
  {
    StepForward(y, mn, date);
    if mn == 11 {
      SettleKeepsDay(y + 1, 0, date - MonthLength(y, mn));
    } else {
      SettleKeepsDay(y, mn + 1, date - MonthLength(y, mn));
    }
  }

  /** Moving a date into the previous month, counted from that month's start, names the same day. */
  lemma StepBack(y: int, mn: int, date: int)
    requires 0 <= mn < 12
    ensures mn == 0 ==> DayOf(Fields(y - 1, 11, date + MonthLength(y - 1, 11))) == DayOf(Fields(y, mn, date))
    ensures mn > 0 ==> DayOf(Fields(y, mn - 1, date + MonthLength(y, mn - 1))) == DayOf(Fields(y, mn, date))
  {
    if mn == 0 {
      DayFromYearStep(y - 1);
      DaysBeforeMonthStep(y - 1, 11);
    } else {
      DaysBeforeMonthStep(y, mn - 1);
    }
  }

  /** Moving a date into the next month, counted from that month's start, names the same day. */
  lemma StepForward(y: int, mn: int, date: int)
    requires 0 <= mn < 12
    ensures mn == 11 ==> DayOf(Fields(y + 1, 0, date - MonthLength(y, mn))) == DayOf(Fields(y, mn, date))
    ensures mn < 11 ==> DayOf(Fields(y, mn + 1, date - MonthLength(y, mn))) == DayOf(Fields(y, mn, date))
  {
    DaysBeforeMonthStep(y, mn);
    if mn == 11 {
      DayFromYearStep(y);
    }
  }

  /** What `getFullYear()`, `getMonth()` and `getDate()` return for `new Date(year, month, date)`. */
  function ConstructedFields(year: int, month: int, date: int): (f: Fields)
    ensures IsCanonical(f)
  {
    if 0 <= month < 12 then Settle(ConstructorYear(year), month, date)
    else Settle(ConstructorYear(year) + month / 12, month % 12, date)
  }

  /** Those fields name the day MakeDay computes. */
  lemma ConstructedFieldsDay(year: int, month: int, date: int)
    ensures DayOf(ConstructedFields(year, month, date)) == MakeDay(ConstructorYear(year), month, date)
  {
    var y := ConstructorYear(year);
    if 0 <= month < 12 {
      SettleKeepsDay(y, month, date);
      assert MakeDay(y, month, date) == DayOf(Fields(y, month, date));
    } else {
      var y2, m2 := y + month / 12, month % 12;
      SettleKeepsDay(y2, m2, date);
      assert ConstructedFields(year, month, date) == Settle(y2, m2, date);
      assert MakeDay(y, month, date) == DayOf(Fields(y2, m2, date));
    }
  }

  /** What `getDay()` returns for `new Date(year, month, date)`. */
  function ConstructedWeekDay(year: int, month: int, date: int): (w: int)
    ensures 0 <= w < 7
  {
    WeekDay(MakeDay(ConstructorYear(year), month, date))
  }

  /** One date later is one weekday later, whatever the month and date. */
  lemma ConstructedWeekDayNextDate(year: int, month: int, date: int)
    ensures ConstructedWeekDay(year, month, date + 1) == (ConstructedWeekDay(year, month, date) + 1) % 7
  {
    WeekDayAdd(MakeDay(ConstructorYear(year), month, date), 1);
  }

  /** The same month and date a year later lies a whole year of days later: one weekday on,
      or two when the February 29 of a leap year lies in between. */
  lemma ConstructedWeekDayNextYear(year: int, mn: int, date: int)
    requires 0 <= mn < 12
    requires ConstructorYear(year) == year && ConstructorYear(year + 1) == year + 1
    ensures var leapDayBetween := if mn < 2 then InLeapYear(year) else InLeapYear(year + 1);
      ConstructedWeekDay(year + 1, mn, date) == (ConstructedWeekDay(year, mn, date) + (if leapDayBetween then 2 else 1)) % 7
  {
    var day := MakeDay(year, mn, date);
    var y := if mn < 2 then year else year + 1;
    MakeDayNextYear(year, mn, date);
    assert MakeDay(year + 1, mn, date) == day + DaysInYear(y);
    WeekDayOneYearOn(day, y);
  }

  lemma WeekDayOneYearOn(day: int, y: int)
    ensures WeekDay(day + DaysInYear(y)) == (WeekDay(day) + (if InLeapYear(y) then 2 else 1)) % 7
  {
  }

  /** In a year without February 29, `new Date(year, 1, 29)` is March 1. */
  lemma LeapDayOutsideLeapYear(year: int)
    requires !InLeapYear(ConstructorYear(year))
    ensures ConstructedFields(year, 1, 29) == Fields(ConstructorYear(year), 2, 1)
    ensures ConstructedWeekDay(year, 1, 29) == ConstructedWeekDay(year, 2, 1)
  {
    var y := ConstructorYear(year);
    assert MonthLength(y, 1) == 28;
    assert Settle(y, 2, 1) == Fields(y, 2, 1);
    assert Settle(y, 1, 29) == Settle(y, 2, 1);
    assert DaysBeforeMonth(y, 2) == 59;
  }

  /** A canonical day lies inside its year. */
  lemma CanonicalWithinYear(f: Fields)
    requires IsCanonical(f)
    ensures DayFromYear(f.year) <= DayOf(f) < DayFromYear(f.year + 1)
  {
    DayFromYearStep(f.year);
    DaysBeforeMonthStep(f.year, f.month);
    if f.month < 11 {
      DaysBeforeMonthWithinYear(f.year, f.month + 1);
    }
  }

  lemma DaysBeforeMonthWithinYear(y: int, mn: int)
    requires 0 <= mn < 12
    ensures DaysBeforeMonth(y, mn) <= DaysBeforeMonth(y, 11) && DaysBeforeMonth(y, 11) + 31 == DaysInYear(y)
  {
  }

  /** A day number has exactly one canonical spelling, so ConstructedFields returns the
      fields YearFromTime, MonthFromTime and DateFromTime define. */
  lemma CanonicalUnique(f: Fields, g: Fields)
    requires IsCanonical(f) && IsCanonical(g)
    requires DayOf(f) == DayOf(g)
    ensures f == g
  {
    CanonicalSameYear(f, g);
    SameYearUnique(f, g);
  }

  /** Two canonical spellings of one day lie in the same year. */
  lemma CanonicalSameYear(f: Fields, g: Fields)
    requires IsCanonical(f) && IsCanonical(g)
    requires DayOf(f) == DayOf(g)
    ensures f.year == g.year
  {
    CanonicalNotEarlier(f, g);
    CanonicalNotEarlier(g, f);
  }

  lemma CanonicalNotEarlier(f: Fields, g: Fields)
    requires IsCanonical(f) && IsCanonical(g)
    requires DayOf(f) == DayOf(g)
    ensures g.year <= f.year
  {
    if f.year < g.year {
      CanonicalWithinYear(f);
      CanonicalWithinYear(g);
      YearEndsBeforeLaterYear(f.year, g.year);
      assert false;
    }
  }

  /** Every day of year `a` comes before the first day of a later year `b`. */
  lemma YearEndsBeforeLaterYear(a: int, b: int)
    requires a < b
    ensures DayFromYear(a + 1) <= DayFromYear(b)
  {
    DayFromYearMonotone(a + 1, b);
  }

  lemma SameYearUnique(f: Fields, g: Fields)
    requires IsCanonical(f) && IsCanonical(g) && f.year == g.year
    requires DaysBeforeMonth(f.year, f.month) + f.date == DaysBeforeMonth(g.year, g.month) + g.date
    ensures f == g
  {
  }
}
