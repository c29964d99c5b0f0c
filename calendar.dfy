/**
 * Naive and timezone-aware datetimes, as Python's `datetime` represents them,
 * and the calendar rules its constructor enforces.
 */
module Calendar {

  /** A naive datetime: the six fields `strptime` fills in. */
  datatype DateTime = DateTime(year: int, month: int, day: int, hour: int, minute: int, second: int)

  /**
   * A datetime value as the program hands it around: `Aware` is what
   * `timezone.localize` produces (the naive fields plus the configured zone
   * name; the UTC offset the zone database assigns is not modelled), `Naive` is
   * a raw `datetime.fromtimestamp` value that was never localized.
   */
  datatype Stamp = Aware(local: DateTime, zone: string) | Naive(local: DateTime)

  /** Gregorian leap-year rule. */
  predicate IsLeapYear(year: int)
  {
    year % 4 == 0 && (year % 100 != 0 || year % 400 == 0)
  }

  function DaysInMonth(year: int, month: int): (n: int)
    requires 1 <= month <= 12
    ensures 28 <= n <= 31
    ensures n == 29 <==> month == 2 && IsLeapYear(year)
    ensures n == 28 <==> month == 2 && !IsLeapYear(year)
  {
    if month == 2 then (if IsLeapYear(year) then 29 else 28)
    else if month == 4 || month == 6 || month == 9 || month == 11 then 30
    else 31
  }

  /**
   * The ranges Python's `datetime` constructor accepts: years 1 to 9999, the
   * day within the month's length, seconds 0 to 59 (no leap second).
   */
  predicate ValidDateTime(d: DateTime)
  {
    1 <= d.year <= 9999 &&
    1 <= d.month <= 12 &&
    1 <= d.day <= DaysInMonth(d.year, d.month) &&
    0 <= d.hour <= 23 &&
    0 <= d.minute <= 59 &&
    0 <= d.second <= 59
  }
}
