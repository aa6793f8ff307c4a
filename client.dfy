/** The `AocClient` of client/client.go: one puzzle (a year and a day), the session
    token, and the calendar, puzzle and input pages, each fetched lazily and kept
    once a fetch succeeds. The network is a `Server`, the disk a `Disk`; the clock,
    the environment variable and the configuration directory are parameters. */
module Client {
  import opened Wrappers
  import opened Errors
  import opened EasternTime
  import opened PuzzleDates
  import opened Files
  import opened Web
  import opened Session
  import opened SavePolicy

  /** The error half of an outcome. */
  function ErrorOf(r: Result<string, Error>): (e: Option<Error>)
    ensures e.None? <==> r.Ok?
  {
    if r.Ok? then None else Some(r.error)
  }

  /** The greedy fetch of a new client, as values: the puzzle and the input, or the
      first error, when the server answers the `n`-th request next. */
  function EagerFetch(puzzleReq: Request, inputReq: Request, respond: (Request, nat) -> Reply, n: nat)
    : (r: Result<(string, string), Error>)
    ensures r.Ok? <==> Outcome(respond(puzzleReq, n)).Ok? && Outcome(respond(inputReq, n + 1)).Ok?
    ensures Outcome(respond(puzzleReq, n)).Err? ==> r == Err(Outcome(respond(puzzleReq, n)).error)
    ensures Outcome(respond(puzzleReq, n)).Ok? && Outcome(respond(inputReq, n + 1)).Err? ==>
              r == Err(Outcome(respond(inputReq, n + 1)).error)
    ensures r.Ok? ==> r.value == (Outcome(respond(puzzleReq, n)).value, Outcome(respond(inputReq, n + 1)).value)
  {
    match Outcome(respond(puzzleReq, n))
    case Err(e) => Err(e)
    case Ok(puzzle) =>
      match Outcome(respond(inputReq, n + 1))
      case Err(e) => Err(e)
      case Ok(input) => Ok((puzzle, input))
  }

  /** The requests the greedy fetch sends: the input is asked for only once the
      puzzle has arrived. */
  function EagerRequests(puzzleReq: Request, inputReq: Request, respond: (Request, nat) -> Reply, n: nat)
    : (reqs: seq<Request>)
    ensures 1 <= |reqs| <= 2 && reqs[0] == puzzleReq
    ensures |reqs| == 2 <==> Outcome(respond(puzzleReq, n)).Ok?
    ensures |reqs| == 2 ==> reqs[1] == inputReq
  {
    if Outcome(respond(puzzleReq, n)).Ok? then [puzzleReq, inputReq] else [puzzleReq]
  }

  class AocClient {
    const year: int
    const day: int
    const overwrite: bool
    var session: Option<string>
    var calendar: Option<string>
    var puzzle: Option<string>
    var input: Option<string>

    /** A client handed out by `New`: a published puzzle and a session token. */
    ghost predicate Valid()
      reads this
    {
      session.Some? &&
      FirstPuzzleYear <= year && FirstPuzzleDay <= day <= LastPuzzleDay
    }

    /** The `AocClient{year, day, overwrite}` literal: nothing fetched yet. */
    constructor (year: int, day: int, overwrite: bool)
      ensures this.year == year && this.day == day && this.overwrite == overwrite
      ensures session.None? && calendar.None? && puzzle.None? && input.None?
    {
      this.year, this.day, this.overwrite := year, day, overwrite;
      session, calendar, puzzle, input := None, None, None, None;
    }

    function CalendarRequest(): Request
      reads this
      requires Valid()
    {
      Get(CalendarPage(year), session.value)
    }

    function PuzzleRequest(): Request
      reads this
      requires Valid()
    {
      Get(PuzzlePage(year, day), session.value)
    }

    function InputRequest(): Request
      reads this
      requires Valid()
    {
      Get(InputPage(year, day), session.value)
    }

    /** `NewAocClient`: check the date, resolve the session, and, when `greedy`, fetch
        the puzzle and then the input. Nothing is consulted after the first failure.
        When the session cannot be resolved and no session path was passed at all,
        building the error message dereferences the nil path. */
    static method New(year: int, day: int, sessionPath: Option<string>, greedy: bool,
                      now: DateTime, envSession: string, configDir: Option<string>,
                      disk: Disk, net: Server)
      returns (res: Result<AocClient, Error>)
      modifies net
      ensures !VerifyDay(year, day, now) ==> res == Err(DayUnavailable) && net.log == old(net.log)
      ensures var s := ResolveSession(sessionPath, envSession, configDir, disk.fs);
        VerifyDay(year, day, now) && s.Err? ==>
          res == Err(if sessionPath.None? then NilDereference else s.error) && net.log == old(net.log)
      ensures res.Ok? ==>
        VerifyDay(year, day, now) &&
        fresh(res.value) && res.value.Valid() &&
        res.value.year == year && res.value.day == day && !res.value.overwrite &&
        res.value.session == Some(ResolveSession(sessionPath, envSession, configDir, disk.fs).value) &&
        res.value.calendar.None?
      ensures VerifyDay(year, day, now) && ResolveSession(sessionPath, envSession, configDir, disk.fs).Ok? &&
              !greedy ==>
        res.Ok? && res.value.puzzle.None? && res.value.input.None? && net.log == old(net.log)
      ensures var s := ResolveSession(sessionPath, envSession, configDir, disk.fs);
        VerifyDay(year, day, now) && s.Ok? && greedy ==>
          var puzzleReq := Get(PuzzlePage(year, day), s.value);
          var inputReq := Get(InputPage(year, day), s.value);
          var e := EagerFetch(puzzleReq, inputReq, net.respond, |old(net.log)|);
          net.log == old(net.log) + EagerRequests(puzzleReq, inputReq, net.respond, |old(net.log)|) &&
          (e.Err? ==> res == Err(e.error)) &&
          (e.Ok? ==> res.Ok? && res.value.puzzle == Some(e.value.0) && res.value.input == Some(e.value.1))
    {
      if !VerifyDay(year, day, now) {
        return Err(DayUnavailable);
      }
      var client := new AocClient(year, day, false);
      var err := client.GetSession(sessionPath, envSession, configDir, disk);
      if err.Some? {
        if sessionPath.None? {
          return Err(NilDereference);
        }
        return Err(err.value);
      }
      if greedy {
        err := client.FetchPuzzleAndInput(net);
        if err.Some? {
          return Err(err.value);
        }
      }
      return Ok(client);
    }

    /** The `greedy` step of `NewAocClient`: fetch the puzzle, then the input,
        stopping at the first failure. */
    method FetchPuzzleAndInput(net: Server) returns (err: Option<Error>)
      requires Valid()
      modifies this`puzzle, this`input, net
      ensures var p := old(net.NextOutcome(PuzzleRequest()));
        if p.Err? then
          err == Some(p.error) && net.log == old(net.log) + [PuzzleRequest()] &&
          puzzle == old(puzzle) && input == old(input)
        else
          var i := Outcome(net.respond(InputRequest(), |old(net.log)| + 1));
          net.log == old(net.log) + [PuzzleRequest(), InputRequest()] &&
          puzzle == Some(p.value) && err == ErrorOf(i) &&
          input == (if i.Ok? then Some(i.value) else old(input))
      ensures var e := EagerFetch(PuzzleRequest(), InputRequest(), net.respond, |old(net.log)|);
        net.log == old(net.log) + EagerRequests(PuzzleRequest(), InputRequest(), net.respond, |old(net.log)|) &&
        (e.Err? ==> err == Some(e.error)) &&
        (e.Ok? ==> err.None? && puzzle == Some(e.value.0) && input == Some(e.value.1))
    {
      err := GetPuzzle(net);
      if err.Some? {
        return;
      }
      err := GetInput(net);
    }

    /** `getSession`: set the token from the first source that answers; on an error
        the token is left as it was. */
    method GetSession(sessionPath: Option<string>, envSession: string, configDir: Option<string>,
                      disk: Disk)
      returns (err: Option<Error>)
      modifies this`session
      ensures var r := ResolveSession(sessionPath, envSession, configDir, disk.fs);
        err == ErrorOf(r) && session == (if r.Ok? then Some(r.value) else old(session))
    {
      if HasExplicitPath(sessionPath) {
        ExplicitPathOnly(sessionPath, envSession, envSession, configDir, configDir, disk.fs);
        var read := disk.fs.ReadFile(sessionPath.value);
        if read.Ok? {
          session := Some(read.value);
        }
        return ErrorOf(read);
      }
      if envSession != "" {
        EnvironmentSecond(sessionPath, envSession, configDir, disk.fs);
        session := Some(envSession);
        return None;
      }
      ConfigFilesLast(sessionPath, configDir, disk.fs);
      if configDir.None? {
        return Some(NoConfigDir);
      }
      var homePath := JoinPath(configDir.value, LegacyFileName);
      if disk.fs.Stat(homePath) == Exists {
        var read := disk.fs.ReadFile(homePath);
        if read.Ok? {
          session := Some(read.value);
        }
        return ErrorOf(read);
      }
      var configPath := JoinPath(configDir.value, ConfigFileName);
      if disk.fs.Stat(configPath) == Exists {
        var read := disk.fs.ReadFile(configPath);
        if read.Ok? {
          session := Some(read.value);
        }
        return ErrorOf(read);
      }
      return Some(SessionNotFound);
    }

    /** `getCalendar`: fetch the calendar page; keep it only on success. */
    method GetCalendar(net: Server) returns (err: Option<Error>)
      requires Valid()
      modifies this`calendar, net
      ensures net.log == old(net.log) + [CalendarRequest()]
      ensures var r := old(net.NextOutcome(CalendarRequest()));
        err == ErrorOf(r) && calendar == (if r.Ok? then Some(r.value) else old(calendar))
    {
      var r := net.Exchange(CalendarRequest());
      if r.Ok? {
        calendar := Some(r.value);
      }
      err := ErrorOf(r);
    }

    /** `getPuzzle`: fetch the puzzle page; keep it only on success. */
    method GetPuzzle(net: Server) returns (err: Option<Error>)
      requires Valid()
      modifies this`puzzle, net
      ensures net.log == old(net.log) + [PuzzleRequest()]
      ensures var r := old(net.NextOutcome(PuzzleRequest()));
        err == ErrorOf(r) && puzzle == (if r.Ok? then Some(r.value) else old(puzzle))
    {
      var r := net.Exchange(PuzzleRequest());
      if r.Ok? {
        puzzle := Some(r.value);
      }
      err := ErrorOf(r);
    }

    /** `getInput`: fetch the input page; keep it only on success. */
    method GetInput(net: Server) returns (err: Option<Error>)
      requires Valid()
      modifies this`input, net
      ensures net.log == old(net.log) + [InputRequest()]
      ensures var r := old(net.NextOutcome(InputRequest()));
        err == ErrorOf(r) && input == (if r.Ok? then Some(r.value) else old(input))
    {
      var r := net.Exchange(InputRequest());
      if r.Ok? {
        input := Some(r.value);
      }
      err := ErrorOf(r);
    }

    /** `ShowCalendar`: the calendar handed to the renderer, fetched only if absent. */
    method ShowCalendar(net: Server) returns (r: Result<string, Error>)
      requires Valid()
      modifies this`calendar, net
      ensures r.Ok? ==> calendar == Some(r.value)
      ensures old(calendar).Some? ==> net.log == old(net.log) && calendar == old(calendar) && r.Ok?
      ensures old(calendar).None? ==>
        net.log == old(net.log) + [CalendarRequest()] && r == old(net.NextOutcome(CalendarRequest()))
      ensures r.Err? ==> calendar.None?
    {
      if calendar.None? {
        var err := GetCalendar(net);
        if err.Some? {
          return Err(err.value);
        }
      }
      return Ok(calendar.value);
    }

    /** `ShowPuzzle`: the puzzle handed to the renderer, fetched only if absent. */
    method ShowPuzzle(net: Server) returns (r: Result<string, Error>)
      requires Valid()
      modifies this`puzzle, net
      ensures r.Ok? ==> puzzle == Some(r.value)
      ensures old(puzzle).Some? ==> net.log == old(net.log) && puzzle == old(puzzle) && r.Ok?
      ensures old(puzzle).None? ==>
        net.log == old(net.log) + [PuzzleRequest()] && r == old(net.NextOutcome(PuzzleRequest()))
      ensures r.Err? ==> puzzle.None?
    {
      if puzzle.None? {
        var err := GetPuzzle(net);
        if err.Some? {
          return Err(err.value);
        }
      }
      return Ok(puzzle.value);
    }

    /** `ShowInput`, as written: it tests `puzzle`, not `input`, before fetching. While
        the puzzle is absent every call fetches the input again; once the puzzle is
        present nothing is fetched, and an absent input is dereferenced. */
    method ShowInput(net: Server) returns (r: Result<string, Error>)
      requires Valid()
      modifies this`input, net
      ensures old(puzzle).None? ==>
        net.log == old(net.log) + [InputRequest()] && r == old(net.NextOutcome(InputRequest())) &&
        input == (if r.Ok? then Some(r.value) else old(input))
      ensures old(puzzle).Some? ==>
        net.log == old(net.log) && input == old(input) &&
        r == (if input.Some? then Ok(input.value) else Err(NilDereference))
    {
      if puzzle.None? {
        var err := GetInput(net);
        if err.Some? {
          return Err(err.value);
        }
      }
      if input.None? {
        return Err(NilDereference);
      }
      return Ok(input.value);
    }

    /** `SavePuzzle`: fetch the puzzle if absent, then save it under the save policy. */
    method SavePuzzle(path: string, disk: Disk, net: Server) returns (err: Option<Error>)
      requires Valid()
      modifies this`puzzle, net, disk
      ensures old(puzzle).Some? ==>
        net.log == old(net.log) && puzzle == old(puzzle) &&
        (err, disk.fs) == SaveOutcome(overwrite, old(disk.fs), path, puzzle.value)
      ensures old(puzzle).None? ==>
        net.log == old(net.log) + [PuzzleRequest()] &&
        var r := old(net.NextOutcome(PuzzleRequest()));
        if r.Ok? then puzzle == Some(r.value) &&
                      (err, disk.fs) == SaveOutcome(overwrite, old(disk.fs), path, r.value)
        else puzzle.None? && err == Some(r.error) && disk.fs == old(disk.fs)
    {
      if puzzle.None? {
        var e := GetPuzzle(net);
        if e.Some? {
          return e;
        }
      }
      err := SaveFile(path, puzzle.value, disk);
    }

    /** `SaveInput`, as written: the same test of `puzzle` as `ShowInput`. */
    method SaveInput(path: string, disk: Disk, net: Server) returns (err: Option<Error>)
      requires Valid()
      modifies this`input, net, disk
      ensures old(puzzle).None? ==>
        net.log == old(net.log) + [InputRequest()] &&
        var r := old(net.NextOutcome(InputRequest()));
        if r.Ok? then input == Some(r.value) &&
                      (err, disk.fs) == SaveOutcome(overwrite, old(disk.fs), path, r.value)
        else input == old(input) && err == Some(r.error) && disk.fs == old(disk.fs)
      ensures old(puzzle).Some? ==>
        net.log == old(net.log) && input == old(input) &&
        if input.Some? then (err, disk.fs) == SaveOutcome(overwrite, old(disk.fs), path, input.value)
        else err == Some(NilDereference) && disk.fs == old(disk.fs)
    {
      if puzzle.None? {
        var e := GetInput(net);
        if e.Some? {
          return e;
        }
      }
      if input.None? {
        return Some(NilDereference);
      }
      err := SaveFile(path, input.value, disk);
    }

    /** `saveFile`: write `content` to `path` under the save policy; the existence
        check and the write are separate steps. */
    method SaveFile(path: string, content: string, disk: Disk) returns (err: Option<Error>)
      modifies disk
      ensures (err, disk.fs) == SaveOutcome(overwrite, old(disk.fs), path, content)
    {
      if overwrite {
        err := disk.WriteToFile(path, content);
      } else {
        var stat := disk.fs.Stat(path);
        match stat
        case NotExist =>
          err := disk.WriteToFile(path, content);
        case Exists =>
          err := Some(FileExists);
        case StatError =>
          err := Some(StatFailed);
      }
    }

    /** `SubmitAnswer`: a part other than "1" or "2" is refused before any request;
        otherwise the answer is posted to the puzzle page. */
    method SubmitAnswer(part: string, answer: string, net: Server) returns (r: Result<string, Error>)
      requires Valid()
      modifies net
      ensures !(part == "1" || part == "2") ==> r == Err(InvalidPart) && net.log == old(net.log)
      ensures part == "1" || part == "2" ==>
        var req := Post(PuzzlePage(year, day), session.value, part, answer);
        net.log == old(net.log) + [req] && r == old(net.NextOutcome(req))
    {
      if !(part == "1" || part == "2") {
        return Err(InvalidPart);
      }
      r := net.Exchange(Post(PuzzlePage(year, day), session.value, part, answer));
    }
  }

  /** Showing the puzzle twice fetches it at most once, and the second call shows
      what the first one did once that one succeeded. */
  method ShowPuzzleTwice(client: AocClient, net: Server)
    returns (first: Result<string, Error>, second: Result<string, Error>)
    requires client.Valid()
    modifies client`puzzle, client`input, net
    ensures first.Ok? ==> second == first && |net.log| <= |old(net.log)| + 1
    ensures old(client.puzzle).Some? ==> net.log == old(net.log)
    ensures old(client.puzzle).None? && first.Ok? ==> net.log == old(net.log) + [client.PuzzleRequest()]
  {
    first := client.ShowPuzzle(net);
    second := client.ShowPuzzle(net);
  }

  /** While the puzzle is absent, every `ShowInput` fetches the input again. */
  method ShowInputTwice(client: AocClient, net: Server)
    returns (first: Result<string, Error>, second: Result<string, Error>)
    requires client.Valid() && client.puzzle.None?
    modifies client`puzzle, client`input, net
    ensures net.log == old(net.log) + [client.InputRequest(), client.InputRequest()]
  {
    first := client.ShowInput(net);
    second := client.ShowInput(net);
  }

  /** On a client built without `greedy`, showing the puzzle and then the input
      fetches the puzzle only and dereferences the absent input. */
  method ShowPuzzleThenInput(client: AocClient, net: Server)
    returns (shown: Result<string, Error>, crashed: Result<string, Error>)
    requires client.Valid() && client.puzzle.None? && client.input.None?
    modifies client`puzzle, client`input, net
    ensures shown.Ok? ==> crashed == Err(NilDereference) && net.log == old(net.log) + [client.PuzzleRequest()]
  {
    shown := client.ShowPuzzle(net);
    crashed := client.ShowInput(net);
  }
}
