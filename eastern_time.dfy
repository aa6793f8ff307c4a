/** Wall-clock time in the America/New_York zone, the zone in which puzzles unlock.
    The Go code reads the clock and converts it with `time.Now().In(est)`; here that
    reading is an explicit civil date-time value. */
module EasternTime {

  const December := 12

  /** A civil date and time of day, as `time.Time` reports it in Eastern time. */
  datatype DateTime = DateTime(year: int, month: int, day: int,
                               hour: int, minute: int, second: int, nanosecond: int)

  predicate IsLeapYear(year: int) {
    year % 4 == 0 && (year % 100 != 0 || year % 400 == 0)
  }

  function DaysInMonth(year: int, month: int): (n: int)
    requires 1 <= month <= 12
    ensures 28 <= n <= 31
  {
    if month == 2 then (if IsLeapYear(year) then 29 else 28)
    else if month == 4 || month == 6 || month == 9 || month == 11 then 30
    else 31
  }

  /** What every `time.Time` value satisfies once split into civil fields. */
  predicate ValidDate(t: DateTime) {
    1 <= t.month <= 12 && 1 <= t.day <= DaysInMonth(t.year, t.month) &&
    0 <= t.hour < 24 && 0 <= t.minute < 60 && 0 <= t.second < 60 &&
    0 <= t.nanosecond < 1_000_000_000
  }

  /** `time.Date(year, month, day, 0, 0, 0, 0, est)` for an in-range month and day. */
  function Midnight(year: int, month: int, day: int): DateTime {
    DateTime(year, month, day, 0, 0, 0, 0)
  }

  /** `a.Before(b)`: `a` is strictly earlier than `b`, compared field by field. */
  predicate Before(a: DateTime, b: DateTime) {
    if a.year != b.year then a.year < b.year
    else if a.month != b.month then a.month < b.month
    else if a.day != b.day then a.day < b.day
    else if a.hour != b.hour then a.hour < b.hour
    else if a.minute != b.minute then a.minute < b.minute
    else if a.second != b.second then a.second < b.second
    else a.nanosecond < b.nanosecond
  }

  /** "Not before" is transitive: a moment at or after `b`, where `b` is at or after
      `a`, is at or after `a`. */
  lemma NotBeforeTransitive(a: DateTime, b: DateTime, c: DateTime)
    requires !Before(b, a) && !Before(c, b)
    ensures !Before(c, a)
  {
  }

  /** A valid time is before midnight of a date exactly when its own date is earlier. */
  lemma BeforeMidnight(t: DateTime, year: int, month: int, day: int)
    requires ValidDate(t)
    ensures Before(t, Midnight(year, month, day)) <==>
              t.year < year || (t.year == year && (t.month < month || (t.month == month && t.day < day)))
  {
  }
}
