/**
 * The part of JavaScript's `Date` the license page relies on, in local time:
 * day numbers from ECMAScript's DayFromYear and MakeDay (section 21.4.1 of
 * ECMA-262), time values in milliseconds, and the `setMonth` / `setFullYear`
 * adjustments, whose out-of-range day of month carries into the next month.
 */
module Calendar {

  const MsPerDay: int := 86400000

  /** A day of the (proleptic Gregorian) calendar; `month` runs 1..12 as in "d/m/y". */
  datatype Date = Date(year: int, month: int, day: int)

  predicate IsLeapYear(y: int)
  {
    y % 4 == 0 && (y % 100 != 0 || y % 400 == 0)
  }

  function DaysInYear(y: int): int
  {
    if IsLeapYear(y) then 366 else 365
  }

  /** Days in month `m` (1..12) of year `y`. */
  function DaysInMonth(y: int, m: int): (n: int)
    requires 1 <= m <= 12
    ensures 28 <= n <= 31
    ensures n == 29 <==> m == 2 && IsLeapYear(y)
  {
    if m == 2 then (if IsLeapYear(y) then 29 else 28)
    else if m == 4 || m == 6 || m == 9 || m == 11 then 30
    else 31
  }

  predicate IsValidDate(d: Date)
  {
    1 <= d.month <= 12 && 1 <= d.day <= DaysInMonth(d.year, d.month)
  }

  /** A date that exists in the calendar. */
  type CalendarDate = d: Date | IsValidDate(d) witness Date(1970, 1, 1)

  /** Milliseconds since local midnight. */
  type MsOfDay = n: int | 0 <= n < MsPerDay

  /** A local date and time of day: the value `new Date()` reads from the clock. */
  datatype DateTime = DateTime(date: CalendarDate, ms: MsOfDay)

  /** ECMAScript DayFromYear: days from 1 January 1970 to 1 January of `y`. */
  function DayFromYear(y: int): int
  {
    365 * (y - 1970) + (y - 1969) / 4 - (y - 1901) / 100 + (y - 1601) / 400
  }

  /** Days from 1 January to the first of month `m0` (0-based, as `Date` months are). */
  function DaysBeforeMonth(y: int, m0: int): int
    requires 0 <= m0 <= 11
  {
    (if m0 == 0 then 0
     else if m0 == 1 then 31
     else if m0 == 2 then 59
     else if m0 == 3 then 90
     else if m0 == 4 then 120
     else if m0 == 5 then 151
     else if m0 == 6 then 181
     else if m0 == 7 then 212
     else if m0 == 8 then 243
     else if m0 == 9 then 273
     else if m0 == 10 then 304
     else 334)
    + (if m0 >= 2 && IsLeapYear(y) then 1 else 0)
  }

  /** The day number of the first day of month `m0` (0..11) of year `y`. */
  function MonthStart(y: int, m0: int): int
    requires 0 <= m0 <= 11
  {
    DayFromYear(y) + DaysBeforeMonth(y, m0)
  }

  /**
   * ECMAScript MakeDay(year, month, date): the day number of the given day,
   * where `month` (0-based) and `date` may lie outside their ranges and carry
   * over. Dafny's `/` and `%` by a positive constant are floor division and a
   * non-negative remainder, as the standard's floor and modulo.
   */
  function MakeDay(year: int, month: int, date: int): int
  {
    MonthStart(year + month / 12, month % 12) + date - 1
  }

  /** The day number of a calendar date (MakeDay without carry; see MakeDayOfDate). */
  function DayNumber(d: CalendarDate): int
  {
    MonthStart(d.year, d.month - 1) + d.day - 1
  }

  /** `new Date(year, month - 1, day)`: local midnight of `d`, as a time value. */
  function Midnight(d: CalendarDate): int
  {
    DayNumber(d) * MsPerDay
  }

  /** The time value of a local date and time. */
  function TimeValue(t: DateTime): int
  {
    DayNumber(t.date) * MsPerDay + t.ms
  }

  /** `setMonth(getMonth() + k)` applied to local midnight of `d`. */
  function MidnightPlusMonths(d: CalendarDate, k: int): int
  {
    MakeDay(d.year, d.month - 1 + k, d.day) * MsPerDay
  }

  /** `setFullYear(getFullYear() + 1)` applied to `t`: same month, day and time of day. */
  function PlusOneYear(t: DateTime): int
  {
    MakeDay(t.date.year + 1, t.date.month - 1, t.date.day) * MsPerDay + t.ms
  }

  /** `setFullYear(getFullYear() + 1)` applied to local midnight of `d`. */
  function MidnightPlusOneYear(d: CalendarDate): int
  {
    MakeDay(d.year + 1, d.month - 1, d.day) * MsPerDay
  }

  // ---------------------------------------------------------------------
  // Arithmetic of the day count

  /** MakeDay with a month inside the year involves no carry. */
  lemma MakeDayInYear(y: int, m0: int, date: int)
    requires 0 <= m0 <= 11
    ensures MakeDay(y, m0, date) == MonthStart(y, m0) + date - 1
  {
    assert m0 / 12 == 0 && m0 % 12 == m0;
  }

  /** MakeDay with a month in the following year carries one year. */
  lemma MakeDayNextYear(y: int, m0: int, date: int)
    requires 12 <= m0 <= 23
    ensures MakeDay(y, m0, date) == MonthStart(y + 1, m0 - 12) + date - 1
  {
    assert m0 / 12 == 1 && m0 % 12 == m0 - 12;
  }

  /** `new Date(year, month - 1, day)` of a calendar date is its day number. */
  lemma MakeDayOfDate(d: CalendarDate)
    ensures MakeDay(d.year, d.month - 1, d.day) == DayNumber(d)
  {
    var m0 := d.month - 1;
    MakeDayInYear(d.year, m0, d.day);
    assert DayNumber(d) == MonthStart(d.year, m0) + d.day - 1;
  }

  // The leap-year counts in DayFromYear step up exactly at multiples of 4, 100 and 400.
  lemma LeapCountStep4(y: int)
    ensures (y - 1968) / 4 - (y - 1969) / 4 == if y % 4 == 0 then 1 else 0
  {
  }

  lemma LeapCountStep100(y: int)
    ensures (y - 1900) / 100 - (y - 1901) / 100 == if y % 100 == 0 then 1 else 0
  {
  }

  lemma LeapCountStep400(y: int)
    ensures (y - 1600) / 400 - (y - 1601) / 400 == if y % 400 == 0 then 1 else 0
  {
  }

  /** A multiple of 400 is a multiple of 100. */
  lemma Divisible400(y: int)
    ensures y % 400 == 0 ==> y % 100 == 0
  {
    var q, r := y / 400, y % 400;
    assert y == 400 * q + r;
    if r == 0 {
      assert y == 100 * (4 * q) + 0;
    }
  }

  /** A multiple of 100 is a multiple of 4. */
  lemma Divisible100(y: int)
    ensures y % 100 == 0 ==> y % 4 == 0
  {
    var q, r := y / 100, y % 100;
    assert y == 100 * q + r;
    if r == 0 {
      assert y == 4 * (25 * q) + 0;
    }
  }

  /** Consecutive years start DaysInYear days apart. */
  lemma DayFromYearStep(y: int)
    ensures DayFromYear(y + 1) == DayFromYear(y) + DaysInYear(y)
  {
    var a4, b4 := (y - 1968) / 4, (y - 1969) / 4;
    var a100, b100 := (y - 1900) / 100, (y - 1901) / 100;
    var a400, b400 := (y - 1600) / 400, (y - 1601) / 400;
    LeapCountStep4(y);
    LeapCountStep100(y);
    LeapCountStep400(y);
    Divisible400(y);
    Divisible100(y);
    assert DayFromYear(y + 1) == 365 * (y - 1969) + a4 - a100 + a400;
    assert DayFromYear(y) == 365 * (y - 1970) + b4 - b100 + b400;
  }

  lemma {:induction false} DayFromYearMonotone(y1: int, y2: int)
    requires y1 <= y2
    ensures DayFromYear(y1) + 365 * (y2 - y1) <= DayFromYear(y2)
    decreases y2 - y1
  {
    if y1 < y2 {
      DayFromYearStep(y2 - 1);
      DayFromYearMonotone(y1, y2 - 1);
    }
  }

  /** Month `m0` (0-based) ends where the next month, or the next year, begins. */
  lemma MonthEnd(y: int, m0: int)
    requires 0 <= m0 <= 11
    ensures m0 < 11 ==> MonthStart(y, m0) + DaysInMonth(y, m0 + 1) == MonthStart(y, m0 + 1)
    ensures m0 == 11 ==> MonthStart(y, m0) + DaysInMonth(y, m0 + 1) == DayFromYear(y + 1)
  {
    if m0 == 11 {
      DayFromYearStep(y);
    }
  }

  /** Months later in the year start later. */
  lemma MonthStartMonotone(y: int, a: int, b: int)
    requires 0 <= a <= b <= 11
    ensures MonthStart(y, a) + 28 * (b - a) <= MonthStart(y, b)
  {
  }

  /** Strictly earlier in the calendar. */
  predicate EarlierDate(a: Date, b: Date)
  {
    a.year < b.year || (a.year == b.year && (a.month < b.month || (a.month == b.month && a.day < b.day)))
  }

  /** Every day of year `y` comes before 1 January of any later year. */
  lemma InYearBeforeLaterYear(y: int, m0: int, day: int, y2: int)
    requires 0 <= m0 <= 11 && day <= DaysInMonth(y, m0 + 1) && y < y2
    ensures MonthStart(y, m0) + day - 1 < DayFromYear(y2)
  {
    MonthEnd(y, m0);
    if m0 < 11 {
      MonthStartMonotone(y, m0 + 1, 11);
      MonthEnd(y, 11);
    }
    DayFromYearMonotone(y + 1, y2);
  }

  lemma DayNumberStrictlyMonotone(a: CalendarDate, b: CalendarDate)
    ensures EarlierDate(a, b) ==> DayNumber(a) < DayNumber(b)
  {
    var y1, m1, d1, y2, m2, d2 := a.year, a.month - 1, a.day, b.year, b.month - 1, b.day;
    DayCountStrictlyMonotone(y1, m1, d1, y2, m2, d2);
    assert DayNumber(a) == MonthStart(y1, m1) + d1 - 1;
    assert DayNumber(b) == MonthStart(y2, m2) + d2 - 1;
    assert EarlierDate(a, b) == EarlierDate(Date(y1, m1 + 1, d1), Date(y2, m2 + 1, d2));
  }

  /** DayNumberStrictlyMonotone on the fields of the two dates. */
  lemma DayCountStrictlyMonotone(y1: int, m1: int, d1: int, y2: int, m2: int, d2: int)
    requires 0 <= m1 <= 11 && d1 <= DaysInMonth(y1, m1 + 1)
    requires 0 <= m2 <= 11 && 1 <= d2
    ensures EarlierDate(Date(y1, m1 + 1, d1), Date(y2, m2 + 1, d2)) ==> MonthStart(y1, m1) + d1 - 1 < MonthStart(y2, m2) + d2 - 1
  {
    if y1 < y2 {
      InYearBeforeLaterYear(y1, m1, d1, y2);
      MonthStartMonotone(y2, 0, m2);
    } else if y1 == y2 && m1 < m2 {
      InMonthBeforeLaterMonth(y1, m1, d1, m2);
    }
  }

  /** Every day of month `m0` comes before the first of any later month of the year. */
  lemma InMonthBeforeLaterMonth(y: int, m0: int, day: int, m2: int)
    requires 0 <= m0 < m2 <= 11 && day <= DaysInMonth(y, m0 + 1)
    ensures MonthStart(y, m0) + day - 1 < MonthStart(y, m2)
  {
    MonthEnd(y, m0);
    MonthStartMonotone(y, m0 + 1, m2);
  }

  /** Day numbers order dates as the calendar does. */
  lemma DayNumberOrder(a: CalendarDate, b: CalendarDate)
    ensures DayNumber(a) < DayNumber(b) <==> EarlierDate(a, b)
  {
    DayNumberStrictlyMonotone(a, b);
    DayNumberStrictlyMonotone(b, a);
  }

  /** The day number determines the date. */
  lemma DayNumberInjective(a: CalendarDate, b: CalendarDate)
    ensures DayNumber(a) == DayNumber(b) ==> a == b
  {
    DayNumberStrictlyMonotone(a, b);
    DayNumberStrictlyMonotone(b, a);
  }

  /** Two calendar months after a date lie 59 to 62 days later. */
  lemma TwoMonthsLength(d: CalendarDate)
    ensures 59 <= MakeDay(d.year, d.month - 1 + 2, d.day) - DayNumber(d) <= 62
  {
    var y, m0 := d.year, d.month - 1;
    assert DayNumber(d) == MonthStart(y, m0) + d.day - 1;
    TwoMonthsFrom(y, m0, d.day);
  }

  lemma TwoMonthsFrom(y: int, m0: int, day: int)
    requires 0 <= m0 <= 11
    ensures 59 <= MakeDay(y, m0 + 2, day) - (MonthStart(y, m0) + day - 1) <= 62
  {
    if m0 <= 9 {
      TwoMonthsInYear(y, m0, day);
    } else if m0 == 10 {
      TwoMonthsFromNovember(y, m0, day);
    } else {
      TwoMonthsFromDecember(y, m0, day);
    }
  }

  lemma TwoMonthsInYear(y: int, m0: int, day: int)
    requires 0 <= m0 <= 9
    ensures 59 <= MakeDay(y, m0 + 2, day) - (MonthStart(y, m0) + day - 1) <= 62
  {
    MakeDayInYear(y, m0 + 2, day);
    TwoMonthStarts(y, m0);
  }

  lemma TwoMonthsFromNovember(y: int, m0: int, day: int)
    requires m0 == 10
    ensures MakeDay(y, m0 + 2, day) - (MonthStart(y, m0) + day - 1) == 61
  {
    MakeDayNextYear(y, 12, day);
    NovemberToJanuary(y);
  }

  lemma TwoMonthsFromDecember(y: int, m0: int, day: int)
    requires m0 == 11
    ensures MakeDay(y, m0 + 2, day) - (MonthStart(y, m0) + day - 1) == 62
  {
    MakeDayNextYear(y, 13, day);
    DecemberToFebruary(y);
  }

  lemma TwoMonthStarts(y: int, m0: int)
    requires 0 <= m0 <= 9
    ensures 59 <= MonthStart(y, m0 + 2) - MonthStart(y, m0) <= 62
  {
  }

  lemma NovemberToJanuary(y: int)
    ensures MonthStart(y + 1, 0) - MonthStart(y, 10) == 61
  {
    MonthEnd(y, 11);
  }

  lemma DecemberToFebruary(y: int)
    ensures MonthStart(y + 1, 1) - MonthStart(y, 11) == 62
  {
    MonthEnd(y, 11);
  }

  /** One year after a date lies 365 or 366 days later. */
  lemma OneYearLength(d: CalendarDate)
    ensures 365 <= MakeDay(d.year + 1, d.month - 1, d.day) - DayNumber(d) <= 366
  {
    var y, m0 := d.year, d.month - 1;
    OneYearFrom(y, m0, d.day);
    assert DayNumber(d) == MonthStart(y, m0) + d.day - 1;
  }

  /** OneYearLength on the fields of the date. */
  lemma OneYearFrom(y: int, m0: int, day: int)
    requires 0 <= m0 <= 11
    ensures 365 <= MakeDay(y + 1, m0, day) - (MonthStart(y, m0) + day - 1) <= 366
  {
    MakeDayInYear(y + 1, m0, day);
    DayFromYearStep(y);
    LeapYearsApart(y);
    LeapDayShift(y, m0);
  }

  /** Two consecutive years are never both leap years. */
  lemma LeapYearsApart(y: int)
    ensures !(IsLeapYear(y) && IsLeapYear(y + 1))
  {
    LeapCountStep4(y + 1);
  }

  /** Across one year, the start of a month moves only by the leap days either year adds. */
  lemma LeapDayShift(y: int, m0: int)
    requires 0 <= m0 <= 11
    ensures DaysBeforeMonth(y + 1, m0) - DaysBeforeMonth(y, m0)
      == if m0 < 2 then 0 else (if IsLeapYear(y + 1) then 1 else 0) - (if IsLeapYear(y) then 1 else 0)
  {
  }

  /** The day number of the same month and day one year on, before any carry. */
  function Anniversary(d: CalendarDate): int
  {
    MonthStart(d.year + 1, d.month - 1) + d.day - 1
  }

  lemma MakeDayAnniversary(d: CalendarDate)
    ensures MakeDay(d.year + 1, d.month - 1, d.day) == Anniversary(d)
  {
    var y, m0 := d.year + 1, d.month - 1;
    MakeDayInYear(y, m0, d.day);
    assert Anniversary(d) == MonthStart(y, m0) + d.day - 1;
  }

  lemma AnniversaryBeforeLaterYear(a: CalendarDate, b: CalendarDate)
    requires a.year < b.year
    ensures Anniversary(a) <= Anniversary(b)
  {
    var ya, ma, yb, mb := a.year + 1, a.month - 1, b.year + 1, b.month - 1;
    LeapDayBound(a.year, a.month);
    BeforeLaterYear(ya, ma, a.day, yb);
    MonthStartMonotone(yb, 0, mb);
    assert Anniversary(a) == MonthStart(ya, ma) + a.day - 1;
    assert Anniversary(b) == MonthStart(yb, mb) + b.day - 1;
  }

  /** A month is at most one day longer than the same month a year on. */
  lemma LeapDayBound(y: int, m: int)
    requires 1 <= m <= 12
    ensures DaysInMonth(y, m) <= DaysInMonth(y + 1, m) + 1
  {
  }

  /**
   * A day of year `y`, even one past the end of its month, comes no later
   * than 1 January of a later year.
   */
  lemma BeforeLaterYear(y: int, m0: int, day: int, y2: int)
    requires 0 <= m0 <= 11 && day <= DaysInMonth(y, m0 + 1) + 1 && y < y2
    ensures MonthStart(y, m0) + day - 1 <= DayFromYear(y2)
  {
    MonthEnd(y, m0);
    if m0 < 11 {
      MonthStartMonotone(y, m0 + 1, 11);
      MonthEnd(y, 11);
    }
    DayFromYearMonotone(y + 1, y2);
  }

  lemma AnniversaryBeforeLaterMonth(a: CalendarDate, b: CalendarDate)
    requires a.year == b.year && a.month < b.month
    ensures Anniversary(a) <= Anniversary(b)
  {
    LeapDayBound(a.year, a.month);
    BeforeLaterMonth(a.year + 1, a.month - 1, a.day, b.month - 1);
  }

  /** A day of month `m0`, even one past its end, comes no later than the first of a later month. */
  lemma BeforeLaterMonth(y: int, m0: int, day: int, m2: int)
    requires 0 <= m0 < m2 <= 11 && day <= DaysInMonth(y, m0 + 1) + 1
    ensures MonthStart(y, m0) + day - 1 <= MonthStart(y, m2)
  {
    MonthEnd(y, m0);
    MonthStartMonotone(y, m0 + 1, m2);
  }

  /** A later (or equal) date is still no earlier a year on, even when 29 February carries into March. */
  lemma PlusOneYearMonotone(a: CalendarDate, b: CalendarDate)
    requires DayNumber(a) <= DayNumber(b)
    ensures MakeDay(a.year + 1, a.month - 1, a.day) <= MakeDay(b.year + 1, b.month - 1, b.day)
  {
    AnniversaryMonotone(a, b);
    MakeDayAnniversary(a);
    MakeDayAnniversary(b);
  }

  /** The same month and day one year on keep the order of the dates. */
  lemma AnniversaryMonotone(a: CalendarDate, b: CalendarDate)
    requires DayNumber(a) <= DayNumber(b)
    ensures Anniversary(a) <= Anniversary(b)
  {
    DayNumberStrictlyMonotone(b, a);
    if a.year < b.year {
      AnniversaryBeforeLaterYear(a, b);
    } else if a.month < b.month {
      AnniversaryBeforeLaterMonth(a, b);
    }
  }

  /** Comparing time values is comparing day, then time of day. */
  lemma TimeOrder(d1: int, m1: MsOfDay, d2: int, m2: MsOfDay)
    ensures d1 * MsPerDay + m1 < d2 * MsPerDay + m2 <==> d1 < d2 || (d1 == d2 && m1 < m2)
  {
    if d1 < d2 {
      assert d1 * MsPerDay + m1 < (d1 + 1) * MsPerDay <= d2 * MsPerDay;
    } else if d1 > d2 {
      assert d2 * MsPerDay + m2 < (d2 + 1) * MsPerDay <= d1 * MsPerDay;
    }
  }
}
