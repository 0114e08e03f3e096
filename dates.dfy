/**
 * Record dates. The service stores `record_date` as text and compares it
 * through SQLite's `date()`, which for a well-formed `YYYY-MM-DD` string gives
 * the same text back; the comparison is then chronological. Only such
 * well-formed dates (`CalendarDate`) are part of this model.
 */
module Dates {

  /** A date as written `YYYY-MM-DD`: a year, a month and a day. */
  datatype Date = Date(year: nat, month: nat, day: nat)

  /** A Gregorian leap year. */
  predicate LeapYear(year: nat) {
    year % 4 == 0 && (year % 100 != 0 || year % 400 == 0)
  }

  /** The number of days of `month` in `year`. */
  function DaysInMonth(year: nat, month: nat): (n: nat)
    requires 1 <= month <= 12
    ensures 28 <= n <= 31
  {
    if month == 2 then (if LeapYear(year) then 29 else 28)
    else if month == 4 || month == 6 || month == 9 || month == 11 then 30
    else 31
  }

  /**
   * A date SQLite's `date()` returns unchanged: a four-digit year, a month
   * from 1 to 12 and a day within that month.
   */
  predicate ValidDate(d: Date) {
    && d.year <= 9999
    && 1 <= d.month <= 12
    && 1 <= d.day <= DaysInMonth(d.year, d.month)
  }

  /**
   * Texts SQLite's `date()` would rewrite or reject are not calendar dates:
   * an overflowing day (it normalises 2024-02-30 to 2024-03-01) and a
   * thirteenth month (it yields NULL).
   */
  lemma OutOfCalendar()
    ensures !ValidDate(Date(2024, 2, 30)) && !ValidDate(Date(2024, 13, 1))
    ensures ValidDate(Date(2024, 2, 29)) && !ValidDate(Date(2023, 2, 29))
  {
    assert LeapYear(2024) && !LeapYear(2023);
  }

  /** A well-formed calendar date. */
  type CalendarDate = d: Date | ValidDate(d) witness Date(1970, 1, 1)

  /** `a` is strictly earlier than `b`. */
  predicate Before(a: CalendarDate, b: CalendarDate) {
    a.year < b.year
    || (a.year == b.year && (a.month < b.month || (a.month == b.month && a.day < b.day)))
  }

  /** `a <= b` chronologically: the comparison SQLite makes on `date(...)` values. */
  predicate NotAfter(a: CalendarDate, b: CalendarDate) {
    Before(a, b) || a == b
  }
}
