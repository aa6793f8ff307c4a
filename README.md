# aoc client core in Dafny

A model of the core of `aoc`, a command-line client for Advent of Code written in Go.
The client checks that a puzzle (a year and a day) has been released, finds the
session token, fetches the calendar, puzzle and input pages lazily, keeps the
`<main>` fragment of each page, saves pages to files under an overwrite policy and
submits answers. The clock, the network, the disk, the environment variable and the
user's configuration directory are inputs of the model:

- the current time is one Eastern-time civil `DateTime` value (`EasternTime`);
- the site is a `Web.Server` object that records every request in `log` and
  answers the request that arrives after `n` others with `respond(request, n)`;
- the disk is a `Files.Disk` object holding a `FileSystem` value: the content of
  every file plus the paths at which `os.Stat`, `os.ReadFile` or `os.Create` fail;
- `AOC_SESSION` is passed as its value (empty when unset) and `os.UserConfigDir`
  as an optional directory.

Modules follow the source: `PuzzleDates` (`verifyDay` and its constants),
`Defaults` (the default year and day of aoc.go), `Fragment` (`parseBody`),
`Session` (the source order of `getSession`), `SavePolicy` (`saveFile`) and
`Client` (the `AocClient` class with its pointer fields as `Option` fields and its
methods as Dafny methods that update them). `Wrappers` and `Errors` hold `Option`,
`Result` and the error kinds.

Behaviour of the code worth knowing, which the model keeps as written:

- `parseBody` starts its fragment at the first `<main>`, and the greedy `.*` runs it
  to the LAST `</main>` after that tag.
- A token read from a file is used as it is, even when empty; only the environment
  variable is tested for being non-empty.
- `ShowInput` and `SaveInput` test `puzzle` instead of `input`, so they fetch the
  input again on every call while the puzzle is absent, and dereference a nil
  `input` when the puzzle is present and the input is not (`ShowPuzzleThenInput`
  shows the sequence). The model reports that panic as `Err(NilDereference)`.
- When the session cannot be resolved and `NewAocClient` got a nil session path,
  formatting its error message dereferences that nil path; the model gives
  `Err(NilDereference)` there too.
- `NewAocClient` always sets `overwrite` to false, and the command line's
  `--overwrite` flag is never passed to the client. The model keeps the overwrite
  branch of `saveFile` reachable through the class constructor.

## Model

| member | source | states |
|---|---|---|
| `PuzzleDates.VerifyDay` | client/client.go:263-271 | true exactly when 2015 <= year, 1 <= day <= 25 and `now` is not before midnight Eastern of December `day`, `year`; false whenever the year or day is out of range |
| `PuzzleDates.YearClauseImplied` | client/client.go:266-270 | the `year > now.Year()` clause is implied by the unlock-time clause |
| `PuzzleDates.VerifyDayMonotone` | client/client.go:263-271 | once retrievable, a puzzle stays retrievable at every later moment |
| `EasternTime.NotBeforeTransitive` | client/client.go:270 | "not before" on clock readings is transitive |
| `EasternTime.BeforeMidnight` | client/client.go:265-270 | a valid time is before midnight of a date exactly when its own date is earlier |
| `Defaults.GetYear` | aoc.go:72-78 | the default year is the current year exactly in December, the previous year otherwise, never later than now |
| `Defaults.GetDayOfDecember` | aoc.go:80-86 | the default day is today's day in December up to the 25th and 25 at every other time; it is at most 25 and at least 1 for a valid date |
| `Defaults.DefaultsRetrievable` | aoc.go:72-86 | the default (year, day) pair passes `verifyDay` for the same clock reading whenever the default year is at least 2015 |
| `Defaults.DefaultsRetrievableLater` | aoc.go:38-42 | the defaults, computed from one clock reading, still pass `verifyDay` at any later reading |
| `Fragment.FindFirst` | client/client.go:251-253 | returns the first case-insensitive occurrence of a tag at or after a position, or none when there is none |
| `Fragment.FindLast` | client/client.go:251-253 | returns the last occurrence of a tag beginning in a range, or none when there is none |
| `Fragment.MainSpan` | client/client.go:251-257 | a span exists exactly when some `<main>` is followed by a `</main>`, and it runs from the first `<main>` to the end of the last `</main>` |
| `Fragment.ParseBody` | client/client.go:250-261 | with a match, the result is the body slice the pattern selects; without one, the whole body |
| `Fragment.MainMatchUnique` | client/client.go:251-253 | at most one region satisfies the leftmost-first, greedy description |
| `Fragment.ParseBodySelects` | client/client.go:251-257 | any region satisfying the description is the one returned |
| `Fragment.ParseBodyIdempotent` | client/client.go:250-261 | extracting the fragment of a fragment gives it back unchanged |
| `Fragment.ParseBodyIsSlice` | client/client.go:250-261 | the result is always a contiguous piece of the body |
| `Fragment.ParseBodyExample` | client/client.go:250-261 | `<html><main>X</main></html>` yields exactly `<main>X</main>` |
| `Fragment.ParseBodyIgnoresCase` | client/client.go:251 | `<MAIN>` and `</Main>` are recognised, and text after the last closing tag is dropped |
| `Files.FileSystem.ReadFile` | client/client.go:168 | a read succeeds exactly for an existing readable file and yields its content; a missing file is `FileNotFound`, an unreadable one `ReadFailed` |
| `Files.FileSystem.WriteFile` | client/client.go:240-248 | a write fails only when the file cannot be created and then changes nothing; otherwise the file holds exactly the content and nothing else changes |
| `Files.Disk.WriteToFile` | client/client.go:240-248 | the disk afterwards is the written file system |
| `Web.Outcome` | client/client.go:232-237 | a request succeeds exactly on status 200 and then yields the body's `<main>` fragment, a slice of the body that is its own fragment; any other status is an `HttpStatus` error; no answer is `RequestFailed` |
| `Web.Server.Exchange` | client/client.go:222-238 | the request is appended to the log and its outcome is the server's answer to it |
| `Session.ReadProbe` | client/client.go:168-173 | reading a named token file always decides the search: the file's content when the read succeeds, the read error otherwise |
| `Session.ConfigProbe` | client/client.go:179-206 | no configuration directory is an error; a file that `os.Stat` does not find is skipped; a found file yields its content or ends the search with its read error |
| `Session.Probes` | client/client.go:164-206 | the four sources in order: the explicit path (read only when given and non-empty), a non-empty `AOC_SESSION`, the legacy dotfile, the configuration file |
| `Session.ResolveSession` | client/client.go:164-208 | `getSession` fails only with a read error, a missing configuration directory or not-found; the last two only without an explicit path and with `AOC_SESSION` empty, and not-found only when neither configuration file exists |
| `Session.FirstHit` | client/client.go:164-208 | a token comes from a source that found one; an error other than not-found comes from a source that failed; when no source answers the result is `SessionNotFound` |
| `Session.FirstHitAt` | client/client.go:164-208 | the first source that answers decides, whatever the later ones hold |
| `Session.ExplicitPathOnly` | client/client.go:166-174 | a non-empty explicit path is the only source consulted: the result is that file's content or its read error, independent of the environment and the configuration directory |
| `Session.EnvironmentSecond` | client/client.go:175-178 | without an explicit path, a non-empty `AOC_SESSION` is the token |
| `Session.ConfigFilesLast` | client/client.go:179-207 | otherwise a missing configuration directory is an error, the legacy dotfile is read before the configuration file, an unreadable existing file ends the search, and with neither file the result is not-found |
| `Session.TokenOrigin` | client/client.go:164-208 | a resolved token is the explicit file's content, the non-empty environment value, or one of the two configuration files' content |
| `SavePolicy.SaveOutcome` | client/client.go:144-162 | without overwrite an existing file is refused with `FileExists` and a failing stat with `StatFailed`; a save succeeds exactly when allowed and creatable, then holds exactly the content; an allowed save to a path that cannot be created is `WriteFailed`; a failed save changes nothing |
| `SavePolicy.SaveCreatesAbsentFile` | client/client.go:150-154 | saving to an absent, creatable path succeeds and leaves exactly the content there |
| `SavePolicy.SaveKeepsExistingFile` | client/client.go:149-159 | without overwrite an existing file is never changed |
| `Client.EagerFetch` | client/client.go:283-291 | the greedy fetch yields the puzzle and input pages when both requests succeed; otherwise the puzzle's error, or the input's error after the puzzle arrived |
| `Client.EagerRequests` | client/client.go:283-291 | the greedy fetch asks for the puzzle first, and for the input second exactly when the puzzle arrived |
| `Client.AocClient.constructor` | client/client.go:275-279 | a new client holds its year, day and overwrite flag and nothing else |
| `Client.AocClient.New` | client/client.go:273-296 | an unreleased date fails with `DayUnavailable` before any source or request; a session failure is returned (a panic for a nil path); without greedy the client has no pages and no request is made; with greedy the puzzle then the input are fetched and stored, the first failure returned; a new client never overwrites |
| `Client.AocClient.FetchPuzzleAndInput` | client/client.go:283-291 | the puzzle is requested first and the input only after the puzzle arrived; each page is stored on success |
| `Client.AocClient.GetSession` | client/client.go:164-208 | the error is the resolver's error, and the token is set exactly when none is returned |
| `Client.AocClient.GetCalendar` | client/client.go:114-122 | one calendar request; the calendar is replaced only on success; no other field changes |
| `Client.AocClient.GetPuzzle` | client/client.go:124-132 | one puzzle request; the puzzle is replaced only on success; no other field changes |
| `Client.AocClient.GetInput` | client/client.go:134-142 | one input request; the input is replaced only on success; no other field changes |
| `Client.AocClient.ShowCalendar` | client/client.go:38-47 | a present calendar is shown without a request; an absent one is fetched once and shown on success |
| `Client.AocClient.ShowPuzzle` | client/client.go:49-58 | a present puzzle is shown without a request; an absent one is fetched once and shown on success |
| `Client.AocClient.ShowInput` | client/client.go:69-77 | the input is fetched whenever the puzzle is absent; with the puzzle present nothing is fetched and an absent input is a nil dereference |
| `Client.AocClient.SavePuzzle` | client/client.go:60-67 | the puzzle is fetched only if absent, then saved under the save policy; a failed fetch leaves the disk as it was |
| `Client.AocClient.SaveInput` | client/client.go:79-86 | the same test of the puzzle as ShowInput, then the input is saved under the save policy |
| `Client.AocClient.SaveFile` | client/client.go:144-162 | the error and the disk afterwards are those of the save policy |
| `Client.AocClient.SubmitAnswer` | client/client.go:88-112 | a part other than "1" or "2" fails with `InvalidPart` and sends nothing; otherwise one POST to the puzzle page with the part and answer, and its outcome is returned |
| `Client.ShowPuzzleTwice` | client/client.go:49-58 | two calls fetch the puzzle at most once and show the same content once the first succeeded |
| `Client.ShowInputTwice` | client/client.go:69-77 | while the puzzle is absent, two calls send two input requests |
| `Client.ShowPuzzleThenInput` | client/client.go:49-77 | after a successful ShowPuzzle on a client without pages, ShowInput dereferences the absent input |

## Left out

- HTTP plumbing: `clientBuilder`, the cookie jar, `http.NewRequest`, `url.JoinPath`
  and the URL-encoded form body are replaced by the `Server` oracle and the
  `Target`/`Request` values; requests carry the session token instead of a cookie.
- Web.Outcome: a body that cannot be read after a 200 answer (`io.ReadAll` failing) is
  not distinguished from a request that could not be sent; both are `NoReply`.
- Rendering: `html2text`, `wordwrap` and `fmt.Println`; the Show methods return the
  content that would be rendered.
- Real file-system calls: a write that fails after the file was created (truncated
  content) is not modelled; only a failing `os.Create` is. The race between the
  existence check and the write is not modelled.
- `os.Getenv` and `os.UserConfigDir` are parameters; the two calls to
  `os.UserConfigDir` are assumed to return the same answer. `filepath.Join` is a
  plain join with "/" and does not clean paths.
- Time zones: `time.LoadLocation`, daylight saving and `time.Date` normalisation.
  `now` is one Eastern civil time; comparing civil fields agrees with comparing
  instants for every comparison with a December midnight (`EasternTime.BeforeMidnight`
  states the comparison for a valid reading, `EasternTime.NotBeforeTransitive` that
  the order chains across readings). The two clock reads of
  `verifyDay` are one value; `Defaults.DefaultsRetrievableLater` covers the earlier
  read of aoc.go.
- The `regexp` engine: `parseBody` is a direct search for the two tags with ASCII
  case folding, which agrees with Unicode simple folding for the letters of
  `main`. The body is a sequence of characters, not bytes, so invalid UTF-8 is not
  modelled.
- Nil `filePath`, `part` and `answer` pointers: those parameters are plain strings.
- Command-line parsing and `main`'s dispatch, error-message wording and wrapping, and
  the debug `println` of `getSession`.
