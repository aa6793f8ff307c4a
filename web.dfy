/** The puzzle site as seen through `httpGet` and the POST of `SubmitAnswer`: a
    server that answers each request with a status and a body. The server is an
    oracle; what it answers may depend on the request and on how many requests came
    before it, and every request is recorded. */
module Web {
  import opened Wrappers
  import opened Errors
  import opened Fragment

  const StatusOK := 200

  /** The pages the client asks for: `/{year}`, `/{year}/day/{day}` and
      `/{year}/day/{day}/input`. */
  datatype Target = CalendarPage(year: int) | PuzzlePage(year: int, day: int) | InputPage(year: int, day: int)

  /** A request carries the `session` cookie; a POST carries the form fields. */
  datatype Request =
    | Get(target: Target, session: string)
    | Post(target: Target, session: string, part: string, answer: string)

  /** What came back: a status code with the body, or nothing usable at all (the
      request could not be sent, or its body could not be read). */
  datatype Reply = Reply(status: int, body: string) | NoReply

  /** The result of a request: on status 200 the body's `<main>` fragment, otherwise
      an error. The fragment is a piece of the body and is its own fragment. */
  function Outcome(reply: Reply): (r: Result<string, Error>)
    ensures r.Ok? <==> reply.Reply? && reply.status == StatusOK
    ensures r.Ok? ==> r.value == ParseBody(reply.body)
    ensures reply.NoReply? ==> r == Err(RequestFailed)
    ensures r.Ok? ==> ParseBody(r.value) == r.value
    ensures r.Ok? ==> exists lo, hi :: 0 <= lo <= hi <= |reply.body| && r.value == reply.body[lo..hi]
    ensures reply.Reply? && reply.status != StatusOK ==> r == Err(HttpStatus(reply.status))
  {
    match reply
    case NoReply => Err(RequestFailed)
    case Reply(status, body) =>
      if status == StatusOK then
        ParseBodyIdempotent(body);
        ParseBodyIsSlice(body);
        Ok(ParseBody(body))
      else Err(HttpStatus(status))
  }

  class Server {
    /** Every request received so far, oldest first. */
    var log: seq<Request>
    /** The reply to a request that arrives when `n` requests came before it. */
    const respond: (Request, nat) -> Reply

    constructor (respond: (Request, nat) -> Reply)
      ensures log == [] && this.respond == respond
    {
      log := [];
      this.respond := respond;
    }

    /** The outcome the next request `req` would have. */
    ghost function NextOutcome(req: Request): Result<string, Error>
      reads this
    {
      Outcome(respond(req, |log|))
    }

    /** Deliver one request and read its outcome (`httpGet`, or the POST). */
    method Exchange(req: Request) returns (r: Result<string, Error>)
      modifies this
      ensures log == old(log) + [req]
      ensures r == old(NextOutcome(req))
    {
      r := Outcome(respond(req, |log|));
      log := log + [req];
    }
  }
}
