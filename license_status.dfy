/**
 * The status a license is shown with (`getStatusLabel` in the licenses
 * page): a first-match decision list over the current time, the expiry date
 * (local midnight), the end of a two-calendar-month grace window, and the
 * device name.
 */
module LicenseStatus {
  import opened Calendar

  datatype Option<T> = None | Some(value: T)

  datatype Status = Expired | Probation | Active | NotActive

  /** The text the page shows, and compares when sorting on the status column. */
  function Label(s: Status): string
  {
    match s
    case Expired => "Expired"
    case Probation => "Probation"
    case Active => "Active"
    case NotActive => "Not Active"
  }

  lemma LabelInjective(s: Status, t: Status)
    ensures Label(s) == Label(t) ==> s == t
  {
  }

  /** A device name other than the placeholders "N/A" and "none". */
  predicate HasDevice(deviceName: string)
  {
    deviceName != "N/A" && deviceName != "none"
  }

  /**
   * `license.deviceName || "N/A"`: a missing (null or undefined) or empty
   * device name is stored as "N/A".
   */
  function StoredDeviceName(raw: Option<string>): (name: string)
    ensures name != ""
    ensures !HasDevice(name) <==> raw == None || raw == Some("") || raw == Some("N/A") || raw == Some("none")
  {
    match raw
    case None => "N/A"
    case Some(s) => if s == "" then "N/A" else s
  }

  /** `expiryPlusTwoMonths`: local midnight two calendar months after the expiry date. */
  function GraceEnd(expiry: CalendarDate): int
  {
    MidnightPlusMonths(expiry, 2)
  }

  /** The grace window is at least 59 and at most 62 days long. */
  lemma GraceWindow(expiry: CalendarDate)
    ensures Midnight(expiry) + 59 * MsPerDay <= GraceEnd(expiry) <= Midnight(expiry) + 62 * MsPerDay
  {
    TwoMonthsLength(expiry);
  }

  /** `getStatusLabel(expiryDate, deviceName).label`, with the clock reading `now`. */
  function StatusOf(expiry: CalendarDate, deviceName: string, now: DateTime): Status
  {
    var current := TimeValue(now);
    if current > GraceEnd(expiry) then Expired
    else if current > Midnight(expiry) then Probation
    else if HasDevice(deviceName) then Active
    else NotActive
  }

  /**
   * The four statuses partition time into three windows: up to and including
   * expiry midnight, after it up to and including the grace end, and after
   * the grace end. Both comparisons are strict, so each boundary instant
   * belongs to the earlier window.
   */
  lemma StatusWindows(expiry: CalendarDate, deviceName: string, now: DateTime)
    ensures StatusOf(expiry, deviceName, now) == Expired <==> TimeValue(now) > GraceEnd(expiry)
    ensures StatusOf(expiry, deviceName, now) == Probation <==> Midnight(expiry) < TimeValue(now) <= GraceEnd(expiry)
    ensures StatusOf(expiry, deviceName, now) == Active <==> TimeValue(now) <= Midnight(expiry) && HasDevice(deviceName)
    ensures StatusOf(expiry, deviceName, now) == NotActive <==> TimeValue(now) <= Midnight(expiry) && !HasDevice(deviceName)
  {
    GraceWindow(expiry);
  }

  /** An expired license is more than 59 days past its expiry date. */
  lemma ExpiredIsWellPastExpiry(expiry: CalendarDate, deviceName: string, now: DateTime)
    requires StatusOf(expiry, deviceName, now) == Expired
    ensures TimeValue(now) > Midnight(expiry) + 59 * MsPerDay
  {
    GraceWindow(expiry);
  }

  /** "Active" and "Not Active" occur only up to expiry midnight, and the device decides between them. */
  lemma ActiveOnlyUntilExpiry(expiry: CalendarDate, deviceName: string, now: DateTime)
    ensures StatusOf(expiry, deviceName, now) in {Active, NotActive} <==> TimeValue(now) <= Midnight(expiry)
    ensures StatusOf(expiry, deviceName, now) == Active ==> HasDevice(deviceName)
  {
    GraceWindow(expiry);
  }

  /** A license stored without a device name is never "Active". */
  lemma MissingDeviceNeverActive(expiry: CalendarDate, raw: Option<string>, now: DateTime)
    requires raw == None || raw == Some("")
    ensures StatusOf(expiry, StoredDeviceName(raw), now) != Active
    ensures TimeValue(now) <= Midnight(expiry) ==> StatusOf(expiry, StoredDeviceName(raw), now) == NotActive
  {
    assert !HasDevice(StoredDeviceName(raw));
    StatusWindows(expiry, StoredDeviceName(raw), now);
  }

  /** Position of a status along the life of a license. */
  function Stage(s: Status): nat
  {
    match s
    case Active => 0
    case NotActive => 0
    case Probation => 1
    case Expired => 2
  }

  /** As time passes a license only moves forward: (Not) Active, then Probation, then Expired. */
  lemma StatusMonotoneInTime(expiry: CalendarDate, deviceName: string, earlier: DateTime, later: DateTime)
    requires TimeValue(earlier) <= TimeValue(later)
    ensures Stage(StatusOf(expiry, deviceName, earlier)) <= Stage(StatusOf(expiry, deviceName, later))
    ensures Stage(StatusOf(expiry, deviceName, earlier)) == 0 && Stage(StatusOf(expiry, deviceName, later)) == 0
      ==> StatusOf(expiry, deviceName, earlier) == StatusOf(expiry, deviceName, later)
  {
    GraceWindow(expiry);
  }

  /**
   * Expiry is local midnight and the clock has milliseconds, so on the
   * expiry day itself the license is "Active"/"Not Active" only at exactly
   * 00:00:00.000 and in "Probation" from the next millisecond on.
   */
  lemma ExpiryDay(expiry: CalendarDate, deviceName: string, now: DateTime)
    requires now.date == expiry
    ensures now.ms == 0 ==> StatusOf(expiry, deviceName, now) == (if HasDevice(deviceName) then Active else NotActive)
    ensures now.ms > 0 ==> StatusOf(expiry, deviceName, now) == Probation
  {
    GraceWindow(expiry);
  }

  // ---------------------------------------------------------------------
  // Worked examples: expiry 15/1/2024 (day 19737), grace end 15/3/2024 00:00
  // (day 19797).

  lemma DaysOf2024()
    ensures DayFromYear(2024) == 19723
    ensures DayNumber(Date(2024, 1, 10)) == 19732
    ensures DayNumber(Date(2024, 1, 15)) == 19737
    ensures DayNumber(Date(2024, 1, 20)) == 19742
    ensures DayNumber(Date(2024, 3, 15)) == 19797
    ensures DayNumber(Date(2024, 3, 16)) == 19798
    ensures GraceEnd(Date(2024, 1, 15)) == 19797 * MsPerDay
  {
    assert IsLeapYear(2024);
    assert MakeDay(2024, 2, 15) == MonthStart(2024, 2) + 14;
  }

  lemma ExamplesBeforeExpiry()
    ensures StatusOf(Date(2024, 1, 15), "iPad-1", DateTime(Date(2024, 1, 10), 43200000)) == Active
    ensures StatusOf(Date(2024, 1, 15), "N/A", DateTime(Date(2024, 1, 10), 43200000)) == NotActive
  {
    DaysOf2024();
  }

  /** After the expiry date the device no longer matters. */
  lemma ExamplesAfterExpiry(deviceName: string)
    ensures StatusOf(Date(2024, 1, 15), deviceName, DateTime(Date(2024, 1, 20), 0)) == Probation
    ensures StatusOf(Date(2024, 1, 15), deviceName, DateTime(Date(2024, 3, 15), 0)) == Probation
    ensures StatusOf(Date(2024, 1, 15), deviceName, DateTime(Date(2024, 3, 15), 1)) == Expired
    ensures StatusOf(Date(2024, 1, 15), deviceName, DateTime(Date(2024, 3, 16), 0)) == Expired
  {
    DaysOf2024();
  }

  /** `setMonth` carries: two months after 31 December 2023 is "31 February", i.e. 2 March 2024. */
  lemma GraceEndCarries()
    ensures GraceEnd(Date(2023, 12, 31)) == Midnight(Date(2024, 3, 2))
  {
    assert MakeDay(2023, 13, 31) == MonthStart(2024, 1) + 30;
  }
}
