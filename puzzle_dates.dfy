/** Which puzzles exist and when they unlock: `verifyDay` and the constants of
    client/client.go. */
module PuzzleDates {
  import opened EasternTime

  const FirstPuzzleYear := 2015
  const FirstPuzzleDay := 1
  const LastPuzzleDay := 25

  /** Puzzle `day` of `year` unlocks at midnight Eastern on December `day`. */
  function UnlockTime(year: int, day: int): DateTime {
    Midnight(year, December, day)
  }

  /** `verifyDay(year, day)` with the clock reading `now`. The result is true exactly
      when the puzzle is in the published range and has already unlocked; the clause
      `year > now.year` of the source never decides the outcome on its own. */
  function VerifyDay(year: int, day: int, now: DateTime): (ok: bool)
    ensures ok <==> FirstPuzzleYear <= year && FirstPuzzleDay <= day <= LastPuzzleDay &&
                    !Before(now, UnlockTime(year, day))
  {
    !(year < FirstPuzzleYear ||
      year > now.year ||
      day > LastPuzzleDay ||
      day < FirstPuzzleDay ||
      Before(now, UnlockTime(year, day)))
  }

  /** The `year > now.year` test is implied by the unlock-time test. */
  lemma YearClauseImplied(year: int, day: int, now: DateTime)
    requires !Before(now, UnlockTime(year, day))
    ensures year <= now.year
  {
  }

  /** Once a puzzle is retrievable it stays retrievable at every later moment. */
  lemma VerifyDayMonotone(year: int, day: int, now: DateTime, later: DateTime)
    requires VerifyDay(year, day, now)
    requires !Before(later, now)
    ensures VerifyDay(year, day, later)
  {
  }
}
