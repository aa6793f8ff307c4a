/** The command line's default year and day (aoc.go), computed from the current
    Eastern time. */
module Defaults {
  import opened EasternTime
  import opened PuzzleDates

  /** `getYear`: the year of the most recent December. */
  function GetYear(now: DateTime): (year: int)
    ensures year <= now.year
    ensures year == now.year <==> now.month == December
    ensures year != now.year ==> year == now.year - 1
  {
    if now.month == December then now.year else now.year - 1
  }

  /** `getDayOfDecember`: today while the puzzles of December are being released,
      the last puzzle day at any other time. */
  function GetDayOfDecember(now: DateTime): (day: int)
    ensures day <= LastPuzzleDay
    ensures ValidDate(now) ==> FirstPuzzleDay <= day
    ensures day == now.day || day == LastPuzzleDay
    ensures now.month != December ==> day == LastPuzzleDay
    ensures now.month == December && now.day <= LastPuzzleDay ==> day == now.day
  {
    if now.month == December && now.day <= 25 then now.day else 25
  }

  /** The default (year, day) pair names a puzzle that has already unlocked, whenever
      the default year is one in which puzzles were published. */
  lemma DefaultsRetrievable(now: DateTime)
    requires ValidDate(now)
    requires GetYear(now) >= FirstPuzzleYear
    ensures VerifyDay(GetYear(now), GetDayOfDecember(now), now)
  {
  }

  /** The defaults are computed from one clock reading and checked against a later
      one; they remain retrievable. */
  lemma DefaultsRetrievableLater(now: DateTime, later: DateTime)
    requires ValidDate(now)
    requires GetYear(now) >= FirstPuzzleYear
    requires !Before(later, now)
    ensures VerifyDay(GetYear(now), GetDayOfDecember(now), later)
  {
  }
}
