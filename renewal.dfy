/**
 * The new expiry a renewal asks for (`handleRedo` in the licenses page): a
 * lapsed license gets one year from the moment of renewal, a current one
 * gets one year on top of its expiry date.
 */
module Renewal {
  import opened Calendar

  /** The license has lapsed: the clock reads later than local midnight of its expiry date. */
  predicate Lapsed(current: CalendarDate, now: DateTime)
  {
    TimeValue(now) > Midnight(current)
  }

  /** `newExpiryDate`, as a time value. */
  function RenewedExpiry(current: CalendarDate, now: DateTime): int
  {
    if Lapsed(current, now) then PlusOneYear(now) else MidnightPlusOneYear(current)
  }

  /** The renewal of a lapsed license, as a day number and the time of day of the renewal. */
  lemma LapsedShape(now: DateTime)
    ensures PlusOneYear(now) == MakeDay(now.date.year + 1, now.date.month - 1, now.date.day) * MsPerDay + now.ms
    ensures 365 <= MakeDay(now.date.year + 1, now.date.month - 1, now.date.day) - DayNumber(now.date) <= 366
  {
    OneYearLength(now.date);
  }

  /** The renewal of a current license, as a day number at midnight. */
  lemma CurrentShape(current: CalendarDate)
    ensures MidnightPlusOneYear(current) == MakeDay(current.year + 1, current.month - 1, current.day) * MsPerDay
    ensures 365 <= MakeDay(current.year + 1, current.month - 1, current.day) - DayNumber(current) <= 366
  {
    OneYearLength(current);
  }

  lemma TimeOfDay(n: int, ms: MsOfDay)
    ensures (n * MsPerDay + ms) % MsPerDay == ms
  {
  }

  /** One year on keeps the time of day. */
  lemma PlusOneYearTimeOfDay(t: DateTime)
    ensures PlusOneYear(t) % MsPerDay == t.ms
  {
    TimeOfDay(MakeDay(t.date.year + 1, t.date.month - 1, t.date.day), t.ms);
  }

  /** One year on from midnight is midnight. */
  lemma MidnightPlusOneYearTimeOfDay(d: CalendarDate)
    ensures MidnightPlusOneYear(d) % MsPerDay == 0
  {
    TimeOfDay(MakeDay(d.year + 1, d.month - 1, d.day), 0);
  }

  /** A lapsed license's renewal keeps the time of day of the renewal; a current one's is at midnight. */
  lemma RenewedTimeOfDay(current: CalendarDate, now: DateTime)
    ensures RenewedExpiry(current, now) % MsPerDay == if Lapsed(current, now) then now.ms else 0
  {
    if Lapsed(current, now) {
      PlusOneYearTimeOfDay(now);
    } else {
      MidnightPlusOneYearTimeOfDay(current);
    }
  }

  /** The renewed expiry is always strictly later than the moment of renewal. */
  lemma RenewedAfterNow(current: CalendarDate, now: DateTime)
    ensures RenewedExpiry(current, now) > TimeValue(now)
  {
    var lapsedDay := MakeDay(now.date.year + 1, now.date.month - 1, now.date.day);
    var currentDay := MakeDay(current.year + 1, current.month - 1, current.day);
    LapsedShape(now);
    CurrentShape(current);
    assert lapsedDay * MsPerDay + now.ms > DayNumber(now.date) * MsPerDay + now.ms;
    assert currentDay * MsPerDay > DayNumber(current) * MsPerDay;
  }

  /** A lapsed license's day of renewal is no earlier than its expiry date. */
  lemma LapsedDay(current: CalendarDate, now: DateTime)
    ensures Lapsed(current, now) ==> DayNumber(current) <= DayNumber(now.date)
  {
    TimeOrder(DayNumber(now.date), now.ms, DayNumber(current), 0);
  }

  /** One year on from a later day is later, whatever the times of day. */
  lemma PlusOneYearLater(current: CalendarDate, now: DateTime)
    requires DayNumber(current) <= DayNumber(now.date)
    ensures MidnightPlusOneYear(current) <= PlusOneYear(now)
  {
    PlusOneYearMonotone(current, now.date);
    LapsedShape(now);
    CurrentShape(current);
    ScaleDays(MakeDay(current.year + 1, current.month - 1, current.day), MakeDay(now.date.year + 1, now.date.month - 1, now.date.day), now.ms);
  }

  /** Midnight of an earlier or equal day is no later than any time of a later day. */
  lemma ScaleDays(d1: int, d2: int, ms: MsOfDay)
    ensures d1 <= d2 ==> d1 * MsPerDay <= d2 * MsPerDay + ms
  {
  }

  /** Renewing never yields less than one year on top of the current expiry date. */
  lemma RenewedNotBeforeExpiryPlusYear(current: CalendarDate, now: DateTime)
    ensures RenewedExpiry(current, now) >= MidnightPlusOneYear(current)
  {
    LapsedDay(current, now);
    if Lapsed(current, now) {
      PlusOneYearLater(current, now);
    }
  }

  /** The later of the two starting points: the renewal moment and the current expiry. */
  function RenewalBase(current: CalendarDate, now: DateTime): int
  {
    if TimeValue(now) > Midnight(current) then TimeValue(now) else Midnight(current)
  }

  /** The renewal adds one calendar year, 365 or 366 days, to the later starting point. */
  lemma RenewalAddsOneYear(current: CalendarDate, now: DateTime)
    ensures 365 * MsPerDay <= RenewedExpiry(current, now) - RenewalBase(current, now) <= 366 * MsPerDay
  {
    var lapsedDay := MakeDay(now.date.year + 1, now.date.month - 1, now.date.day);
    var currentDay := MakeDay(current.year + 1, current.month - 1, current.day);
    LapsedShape(now);
    CurrentShape(current);
    assert TimeValue(now) == DayNumber(now.date) * MsPerDay + now.ms;
    assert Midnight(current) == DayNumber(current) * MsPerDay;
  }

  // ---------------------------------------------------------------------
  // Worked examples.

  lemma YearStarts()
    ensures DayFromYear(2023) == 19358 && DayFromYear(2024) == 19723
    ensures DayFromYear(2025) == 20089 && DayFromYear(2026) == 20454
  {
  }

  /** A current license expiring 1/6/2025, renewed on 1/1/2024, now expires 1/6/2026. */
  lemma ExampleCurrent()
    ensures RenewedExpiry(Date(2025, 6, 1), DateTime(Date(2024, 1, 1), 36000000)) == Midnight(Date(2026, 6, 1))
  {
    YearStarts();
    assert MakeDay(2026, 5, 1) == MonthStart(2026, 5);
  }

  /** A license that expired 1/6/2023, renewed on 1/1/2024 at 10:00, now expires 1/1/2025 at 10:00. */
  lemma ExampleLapsed()
    ensures RenewedExpiry(Date(2023, 6, 1), DateTime(Date(2024, 1, 1), 36000000))
         == TimeValue(DateTime(Date(2025, 1, 1), 36000000))
  {
    YearStarts();
    assert MakeDay(2025, 0, 1) == MonthStart(2025, 0);
  }

  /** `setFullYear` carries: a lapsed renewal on 29/2/2024 runs to 1/3/2025. */
  lemma ExampleLeapDay()
    ensures RenewedExpiry(Date(2024, 1, 1), DateTime(Date(2024, 2, 29), 0)) == Midnight(Date(2025, 3, 1))
  {
    YearStarts();
    assert MakeDay(2025, 1, 29) == MonthStart(2025, 1) + 28;
  }
}
