/** The local file system as the client sees it through `os.Stat`, `os.ReadFile`
    and `writeToFile`: the content of every existing file plus the paths at which
    each of those calls fails. */
module Files {
  import opened Wrappers
  import opened Errors

  /** How `os.Stat` answers: no error, an error satisfying `os.IsNotExist`, or
      another error. */
  datatype StatResult = Exists | NotExist | StatError

  datatype FileSystem = FileSystem(
    files: map<string, string>,   // content of every existing file
    unreadable: set<string>,      // existing files that os.ReadFile cannot read
    unstatable: set<string>,      // paths where os.Stat fails other than by absence
    uncreatable: set<string>)     // paths where os.Create fails
  {
    function Stat(path: string): StatResult {
      if path in unstatable then StatError
      else if path in files then Exists
      else NotExist
    }

    /** `os.ReadFile`. */
    function ReadFile(path: string): (r: Result<string, Error>)
      ensures r.Ok? <==> path in files && path !in unreadable
      ensures r.Ok? ==> r.value == files[path]
      ensures path !in files ==> r == Err(FileNotFound)
      ensures path in files && path in unreadable ==> r == Err(ReadFailed)
    {
      if path !in files then Err(FileNotFound)
      else if path in unreadable then Err(ReadFailed)
      else Ok(files[path])
    }

    /** `writeToFile`: create or truncate the file and write `content` to it. Only a
        failure to create the file is modelled; it leaves the file system as it was. */
    function WriteFile(path: string, content: string): (r: (Option<Error>, FileSystem))
      ensures r.0.None? <==> path !in uncreatable
      ensures r.0.Some? ==> r.0.value == WriteFailed && r.1 == this
      ensures r.0.None? ==> r.1.files == files[path := content] &&
                            r.1 == this.(files := r.1.files)
    {
      if path in uncreatable then (Some(WriteFailed), this)
      else (None, this.(files := files[path := content]))
    }
  }

  /** The disk the process writes to. */
  class Disk {
    var fs: FileSystem

    constructor (fs: FileSystem)
      ensures this.fs == fs
    {
      this.fs := fs;
    }

    method WriteToFile(path: string, content: string) returns (err: Option<Error>)
      modifies this
      ensures (err, fs) == old(fs.WriteFile(path, content))
    {
      var (e, after) := fs.WriteFile(path, content);
      err, fs := e, after;
    }
  }
}
