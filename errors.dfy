/** The kinds of failure the client reports. Go wraps each error with the failing
    operation's name and parameters; the model keeps only the kind. */
module Errors {

  datatype Error =
    | DayUnavailable        // NewAocClient: the (year, day) puzzle is not retrievable
    | SessionNotFound       // getSession: no source supplied a token
    | NoConfigDir           // os.UserConfigDir failed
    | FileNotFound          // os.ReadFile on a path that does not exist
    | ReadFailed            // os.ReadFile on a path that exists but cannot be read
    | FileExists            // saveFile refused to replace an existing file
    | StatFailed            // saveFile: os.Stat failed for a reason other than "not exist"
    | WriteFailed           // writeToFile: the file could not be created
    | HttpStatus(code: int) // the server answered with a status other than 200
    | RequestFailed         // the request could not be sent or its body could not be read
    | InvalidPart           // SubmitAnswer: part is neither "1" nor "2"
    | NilDereference        // a Go runtime panic: a nil pointer was dereferenced
}
