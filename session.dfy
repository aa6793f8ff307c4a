/** Where `getSession` finds the session token. Four sources are tried in a fixed
    order and the first one that answers decides: a token, or an error that ends the
    search. */
module Session {
  import opened Wrappers
  import opened Errors
  import opened Files

  /** File names looked up in the user's configuration directory. */
  const LegacyFileName := ".adventofcode.session"
  const ConfigFileName := "adventofcode.session"

  /** `filepath.Join` of a directory and a plain file name. */
  function JoinPath(dir: string, name: string): string {
    dir + "/" + name
  }

  /** What one source yields: a token, nothing (try the next source), or an error
      that ends the search. */
  datatype Probe = Found(token: string) | Missing | Fatal(error: Error)

  /** The caller named a session file: a non-nil, non-empty path. */
  predicate HasExplicitPath(sessionPath: Option<string>) {
    sessionPath.Some? && sessionPath.value != ""
  }

  /** Reading a file that must supply the token: its content or its read error. */
  function ReadProbe(fs: FileSystem, path: string): (p: Probe)
    ensures p != Missing
    ensures fs.ReadFile(path).Ok? <==> p.Found?
    ensures p.Found? ==> p.token == fs.files[path]
    ensures fs.ReadFile(path).Err? ==> p == Fatal(fs.ReadFile(path).error)
  {
    match fs.ReadFile(path)
    case Ok(text) => Found(text)
    case Err(e) => Fatal(e)
  }

  /** A token file in the configuration directory: skipped unless `os.Stat` finds
      it, read once found; no configuration directory is an error. */
  function ConfigProbe(fs: FileSystem, configDir: Option<string>, name: string): (p: Probe)
    ensures configDir.None? ==> p == Fatal(NoConfigDir)
    ensures configDir.Some? ==> (p == Missing <==> fs.Stat(JoinPath(configDir.value, name)) != Exists)
    ensures p.Found? ==> configDir.Some? && fs.ReadFile(JoinPath(configDir.value, name)) == Ok(p.token)
    ensures configDir.Some? && p.Fatal? ==> fs.ReadFile(JoinPath(configDir.value, name)) == Err(p.error)
  {
    match configDir
    case None => Fatal(NoConfigDir)
    case Some(dir) =>
      var path := JoinPath(dir, name);
      if fs.Stat(path) == Exists then ReadProbe(fs, path) else Missing
  }

  /** The sources in priority order: the explicit path, the value of the
      `AOC_SESSION` environment variable (empty when unset), the legacy dotfile,
      the configuration file. `configDir` is what `os.UserConfigDir` returns. */
  function Probes(sessionPath: Option<string>, envSession: string, configDir: Option<string>,
                  fs: FileSystem): (ps: seq<Probe>)
    ensures |ps| == 4
    ensures ps[0] != Missing <==> HasExplicitPath(sessionPath)
    ensures HasExplicitPath(sessionPath) ==> ps[0] == ReadProbe(fs, sessionPath.value)
    ensures ps[1] != Missing <==> envSession != ""
    ensures ps[1] != Missing ==> ps[1] == Found(envSession)
    ensures ps[2] == ConfigProbe(fs, configDir, LegacyFileName)
    ensures ps[3] == ConfigProbe(fs, configDir, ConfigFileName)
  {
    [ if HasExplicitPath(sessionPath) then ReadProbe(fs, sessionPath.value) else Missing,
      if envSession != "" then Found(envSession) else Missing,
      ConfigProbe(fs, configDir, LegacyFileName),
      ConfigProbe(fs, configDir, ConfigFileName) ]
  }

  /** The first source that answers decides; if none does, no token was found. */
  function FirstHit(ps: seq<Probe>): (r: Result<string, Error>)
    ensures r.Ok? ==> Found(r.value) in ps
    ensures r.Err? && r.error != SessionNotFound ==> Fatal(r.error) in ps
    ensures (forall i :: 0 <= i < |ps| ==> ps[i] == Missing) ==> r == Err(SessionNotFound)
  {
    if ps == [] then Err(SessionNotFound)
    else
      match ps[0]
      case Found(token) => Ok(token)
      case Fatal(e) => Err(e)
      case Missing =>
        assert forall i :: 0 <= i < |ps| - 1 ==> ps[1..][i] == ps[i + 1];
        FirstHit(ps[1..])
  }

  /** The session token `getSession` settles on, or the error it returns. */
  function ResolveSession(sessionPath: Option<string>, envSession: string,
                          configDir: Option<string>, fs: FileSystem): (r: Result<string, Error>)
    ensures r.Err? ==> r.error in {FileNotFound, ReadFailed, NoConfigDir, SessionNotFound}
    ensures r.Err? && r.error in {NoConfigDir, SessionNotFound} ==>
              !HasExplicitPath(sessionPath) && envSession == ""
    ensures r == Err(SessionNotFound) ==>
              configDir.Some? &&
              fs.Stat(JoinPath(configDir.value, LegacyFileName)) != Exists &&
              fs.Stat(JoinPath(configDir.value, ConfigFileName)) != Exists
  {
    var ps := Probes(sessionPath, envSession, configDir, fs);
    if ps[0] != Missing then FirstHitAt(ps, 0); FirstHit(ps)
    else if ps[1] != Missing then FirstHitAt(ps, 1); FirstHit(ps)
    else if ps[2] != Missing then FirstHitAt(ps, 2); FirstHit(ps)
    else if ps[3] != Missing then FirstHitAt(ps, 3); FirstHit(ps)
    else FirstHit(ps)
  }

  /** The first source that answers is the one that decides. */
  lemma {:induction false} FirstHitAt(ps: seq<Probe>, i: nat)
    requires i < |ps| && ps[i] != Missing
    requires forall k :: 0 <= k < i ==> ps[k] == Missing
    ensures ps[i].Found? ==> FirstHit(ps) == Ok(ps[i].token)
    ensures ps[i].Fatal? ==> FirstHit(ps) == Err(ps[i].error)
  {
    if i > 0 {
      FirstHitAt(ps[1..], i - 1);
    }
  }

  /** A non-empty explicit path is the only source consulted: the environment and
      the configuration directory do not matter, and a read error is returned as is. */
  lemma ExplicitPathOnly(sessionPath: Option<string>, envSession: string, envSession': string,
                         configDir: Option<string>, configDir': Option<string>, fs: FileSystem)
    requires HasExplicitPath(sessionPath)
    ensures ResolveSession(sessionPath, envSession, configDir, fs) == fs.ReadFile(sessionPath.value)
    ensures ResolveSession(sessionPath, envSession, configDir, fs) ==
            ResolveSession(sessionPath, envSession', configDir', fs)
  {
  }

  /** Without an explicit path, a non-empty `AOC_SESSION` is the token, whatever the
      configuration directory holds. */
  lemma EnvironmentSecond(sessionPath: Option<string>, envSession: string,
                          configDir: Option<string>, fs: FileSystem)
    requires !HasExplicitPath(sessionPath) && envSession != ""
    ensures ResolveSession(sessionPath, envSession, configDir, fs) == Ok(envSession)
  {
    FirstHitAt(Probes(sessionPath, envSession, configDir, fs), 1);
  }

  /** Otherwise the legacy dotfile is tried before the configuration file; a file
      that exists but cannot be read ends the search with its error. */
  lemma ConfigFilesLast(sessionPath: Option<string>, configDir: Option<string>, fs: FileSystem)
    requires !HasExplicitPath(sessionPath)
    ensures ResolveSession(sessionPath, "", configDir, fs) ==
      match configDir
      case None => Err(NoConfigDir)
      case Some(dir) =>
        if fs.Stat(JoinPath(dir, LegacyFileName)) == Exists then fs.ReadFile(JoinPath(dir, LegacyFileName))
        else if fs.Stat(JoinPath(dir, ConfigFileName)) == Exists then fs.ReadFile(JoinPath(dir, ConfigFileName))
        else Err(SessionNotFound)
  {
    var ps := Probes(sessionPath, "", configDir, fs);
    if ps[2] != Missing {
      FirstHitAt(ps, 2);
    } else if ps[3] != Missing {
      FirstHitAt(ps, 3);
    }
  }

  /** A token always comes from one of the four sources; only the environment
      variable is guaranteed non-empty, the files are taken as they are. */
  lemma TokenOrigin(sessionPath: Option<string>, envSession: string,
                    configDir: Option<string>, fs: FileSystem)
    requires ResolveSession(sessionPath, envSession, configDir, fs).Ok?
    ensures var token := ResolveSession(sessionPath, envSession, configDir, fs).value;
      (HasExplicitPath(sessionPath) && fs.ReadFile(sessionPath.value) == Ok(token)) ||
      (envSession != "" && token == envSession) ||
      (configDir.Some? && fs.ReadFile(JoinPath(configDir.value, LegacyFileName)) == Ok(token)) ||
      (configDir.Some? && fs.ReadFile(JoinPath(configDir.value, ConfigFileName)) == Ok(token))
  {
  }
}
