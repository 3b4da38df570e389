/** The server's builder of an ssh command, and whether the client's screen lets through what it builds. */
module SshBuild {
  import opened Wrappers
  import opened KnownHosts
  import opened SshArgv

  datatype Config = Config(host: string, user: string, port: int, keyPath: string, jump: bool)

  datatype BuildError = NoAddress | ThroughAJump | BadSshHost | BadSshUser | BadSshPort | BadKey | BadKnownHostsPath | NoKnownHostsFile

  /** checkPath: as the client's, but the empty path passes. */
  predicate PathOk(p: string) {
    p == "" || SshPathOk(p)
  }

  predicate FileBuilds(f: string) {
    PathOk(f) && KnownHostsPathOk(f)
  }

  /** A path with a space is quoted. */
  function Quoted(f: string): File {
    File(f, ' ' in f || '\t' in f)
  }

  function FilesFor(paths: seq<string>): (files: seq<File>)
    ensures |files| == |paths| && forall i :: 0 <= i < |files| ==> files[i] == Quoted(paths[i])
  {
    if paths == [] then [] else FilesFor(paths[..|paths| - 1]) + [Quoted(paths[|paths| - 1])]
  }

  function WhenSet(s: string): Option<string> {
    if s == "" then None else Some(s)
  }

  function CommandFor(c: Config, paths: seq<string>): Command {
    Command("ssh", if c.port == 0 then 22 else c.port, WhenSet(c.keyPath), FilesFor(paths), WhenSet(c.user), c.host)
  }

  predicate ConfigOk(c: Config) {
    && !c.jump && HostOk(c.host) && (c.user != "" ==> UserOk(c.user)) && 0 <= c.port <= 65535
    && (c.keyPath != "" ==> KeyOk(c.keyPath))
  }

  predicate Buildable(c: Config, paths: seq<string>) {
    ConfigOk(c) && paths != [] && forall i :: 0 <= i < |paths| ==> FileBuilds(paths[i])
  }

  /** strings.Join(parts, " "). */
  function Joined(parts: seq<string>): string {
    if parts == [] then "" else if |parts| == 1 then parts[0] else parts[0] + " " + Joined(parts[1..])
  }

  function Texts(files: seq<File>): (r: seq<string>)
    ensures |r| == |files| && forall i :: 0 <= i < |r| ==> r[i] == Text(files[i])
  {
    if files == [] then [] else [Text(files[0])] + Texts(files[1..])
  }

  lemma {:induction false} JoinedIsListing(files: seq<File>)
    ensures Joined(Texts(files)) == Listing(files)
  {
    if |files| > 1 {
      JoinedIsListing(files[1..]);
      assert Texts(files)[1..] == Texts(files[1..]);
    }
  }

  method BuildFiles(knownHosts: seq<string>) returns (r: Result<seq<string>, BuildError>)
    ensures r.Ok? <==> knownHosts != [] && forall i :: 0 <= i < |knownHosts| ==> FileBuilds(knownHosts[i])
    ensures r.Ok? ==> r.value == Texts(FilesFor(knownHosts))
  {
    var files: seq<string> := [];
    for i := 0 to |knownHosts|
      invariant |files| == i && forall k :: 0 <= k < i ==> FileBuilds(knownHosts[k]) && files[k] == Text(Quoted(knownHosts[k]))
    {
      var f := knownHosts[i];
      if !PathOk(f) {
        return Err(BadKnownHostsPath);
      }
      var same := CheckKnownHostsPath(f);
      if same.Err? {
        return Err(BadKnownHostsPath);
      }
      if ' ' in f || '\t' in f {
        f := ['"'] + f + ['"'];
      }
      files := files + [f];
    }
    if |files| == 0 {
      return Err(NoKnownHostsFile);
    }
    r := Ok(files);
  }

  /** What sshArgv refuses about an address, other than its known_hosts files. */
  method CheckConfig(c: Config) returns (bad: Option<BuildError>)
    ensures bad.None? <==> ConfigOk(c)
  {
    if c.jump {
      return Some(ThroughAJump);
    }
    if !HostOk(c.host) {
      return Some(BadSshHost);
    }
    if c.user != "" && !UserOk(c.user) {
      return Some(BadSshUser);
    }
    var port := if c.port == 0 then 22 else c.port;
    if port < 1 || port > 65535 {
      return Some(BadSshPort);
    }
    if c.keyPath != "" && !KeyOk(c.keyPath) {
      return Some(BadKey);
    }
    bad := None;
  }

  /** The argv of a checked address. */
  method Assemble(c: Config, files: seq<string>) returns (argv: seq<string>)
    requires c.port >= 0
    ensures argv == Head("ssh", if c.port == 0 then 22 else c.port) + FromKey(WhenSet(c.keyPath), Joined(files), WhenSet(c.user), c.host)
  {
    ghost var head, key, opts, user := Head("ssh", if c.port == 0 then 22 else c.port), Optional("-i", WhenSet(c.keyPath)), Options(Joined(files)), Optional("-l", WhenSet(c.user));
    argv := Head("ssh", if c.port == 0 then 22 else c.port);
    if c.keyPath != "" {
      argv := argv + ["-i", c.keyPath];
    }
    assert argv == head + key;
    argv := argv + Options(Joined(files));
    assert argv == head + key + opts;
    if c.user != "" {
      argv := argv + ["-l", c.user];
    }
    assert argv == head + key + opts + user;
    argv := argv + ["--", c.host];
  }

  /** sshArgv. */
  method Build(target: Option<Config>, knownHosts: seq<string>) returns (r: Result<seq<string>, BuildError>)
    ensures r.Ok? <==> target.Some? && Buildable(target.value, knownHosts)
    ensures r.Ok? ==> r.value == Printed(CommandFor(target.value, knownHosts))
  {
    if target.None? {
      return Err(NoAddress);
    }
    var bad := CheckConfig(target.value);
    if bad.Some? {
      return Err(bad.value);
    }
    var files := BuildFiles(knownHosts);
    if files.Err? {
      return Err(files.error);
    }
    JoinedIsListing(FilesFor(knownHosts));
    var argv := Assemble(target.value, files.value);
    r := Ok(argv);
  }

  /** Whatever the screen accepts from "ssh" with paths quoted only where they have a space, the server builds. */
  lemma BuildsWhatIsAccepted(c: Command)
    requires Valid(c) && c.program == "ssh" && forall i :: 0 <= i < |c.files| ==> (c.files[i].quoted <==> ' ' in c.files[i].path)
    ensures var config := Config(c.host, if c.user.Some? then c.user.value else "", c.port, if c.key.Some? then c.key.value else "", false);
            Buildable(config, Paths(c.files)) && CommandFor(config, Paths(c.files)) == c
  {
    var paths := Paths(c.files);
    forall i | 0 <= i < |paths| ensures FileBuilds(paths[i]) && Quoted(paths[i]) == c.files[i] {
      assert FileOk(c.files[i]);
    }
  }

  lemma BuiltFileOk(f: string)
    requires FileBuilds(f)
    ensures FileOk(Quoted(f)) <==> f != ""
  {
  }

  /** An empty path anywhere leaves a list that does not parse. */
  lemma {:induction false} BlankSpoilsTheList(files: seq<File>, k: nat)
    requires k < |files| && files[k] == File("", false)
    requires forall i :: 0 <= i < |files| ==> FileOk(files[i]) || files[i] == File("", false)
    ensures Parse(Listing(files)).None?
  {
    if |files| > 1 {
      if files[0] == File("", false) {
        assert Text(files[0]) + " " == " ";
      } else {
        BlankSpoilsTheList(files[1..], k - 1);
        FileThenBadList(files[0], Listing(files[1..]));
      }
    }
  }

  lemma FileThenBadList(f: File, list: string)
    requires FileOk(f) && Parse(list).None?
    ensures Parse(Text(f) + " " + list).None?
  {
    var rest := " " + list;
    TokenOfText(f, rest);
    assert Text(f) + " " + list == Text(f) + rest;
    assert rest[1..] == list;
  }

  /** What the server builds the client accepts, exactly when no known_hosts path is empty; and then ssh reads those very paths. */
  lemma BuiltIsAcceptedExactly(c: Config, paths: seq<string>)
    requires Buildable(c, paths)
    ensures Accepts(Printed(CommandFor(c, paths))) <==> "" !in paths
    ensures "" !in paths ==> Words(Listing(FilesFor(paths))) == Some(paths)
  {
    var cmd, files := CommandFor(c, paths), FilesFor(paths);
    SshIsAProgram();
    forall i | 0 <= i < |paths| ensures FileOk(files[i]) <==> paths[i] != "" {
      BuiltFileOk(paths[i]);
    }
    if "" in paths {
      var k :| 0 <= k < |paths| && paths[k] == "";
      BlankSpoilsTheList(files, k);
      if Accepts(Printed(cmd)) {
        var d := AcceptedIsPrinted(Printed(cmd));
        PartsAreTold(cmd, d);
        ListingIsParsed(d.files);
      }
    } else {
      PrintedIsAccepted(cmd);
      SshReadsWhatWasChecked(files);
      assert Paths(files) == paths;
    }
  }

  /** Built for a list of one empty path, the command is not accepted. */
  lemma EmptyPathIsRefused(c: Config)
    requires Buildable(c, [""])
    ensures !Accepts(Printed(CommandFor(c, [""])))
  {
    BuiltIsAcceptedExactly(c, [""]);
  }
}
