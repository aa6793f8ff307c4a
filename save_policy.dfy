/** `saveFile`: when the client may write fetched content to a path. */
module SavePolicy {
  import opened Wrappers
  import opened Errors
  import opened Files

  /** The error `saveFile` returns and the file system afterwards. Without
      `overwrite`, an existing file is never replaced and a failing `os.Stat` stops
      the save; with it, the content is written whether or not the file exists. */
  function SaveOutcome(overwrite: bool, fs: FileSystem, path: string, content: string)
    : (r: (Option<Error>, FileSystem))
    ensures r.0.None? <==> (overwrite || fs.Stat(path) == NotExist) && path !in fs.uncreatable
    ensures r.0 == Some(FileExists) <==> !overwrite && fs.Stat(path) == Exists
    ensures r.0 == Some(StatFailed) <==> !overwrite && fs.Stat(path) == StatError
    ensures (overwrite || fs.Stat(path) == NotExist) && path in fs.uncreatable ==> r.0 == Some(WriteFailed)
    ensures r.0.None? ==> r.1.files == fs.files[path := content] && r.1 == fs.(files := r.1.files)
    ensures r.0.Some? ==> r.1 == fs
  {
    if overwrite then fs.WriteFile(path, content)
    else
      match fs.Stat(path)
      case NotExist => fs.WriteFile(path, content)
      case Exists => (Some(FileExists), fs)
      case StatError => (Some(StatFailed), fs)
  }

  /** Saving to a path that does not exist leaves exactly `content` there, unless the
      file cannot be created. */
  lemma SaveCreatesAbsentFile(overwrite: bool, fs: FileSystem, path: string, content: string)
    requires path !in fs.files && path !in fs.unstatable && path !in fs.uncreatable
    ensures var (err, after) := SaveOutcome(overwrite, fs, path, content);
            err.None? && path in after.files && after.files[path] == content
  {
  }

  /** Without `overwrite`, saving never changes an existing file. */
  lemma SaveKeepsExistingFile(fs: FileSystem, path: string, content: string)
    requires path in fs.files
    ensures SaveOutcome(false, fs, path, content).1.files[path] == fs.files[path]
  {
  }
}
