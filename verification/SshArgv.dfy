/**
 The screen for an ssh command a server sent, and the server's builder of one.
 The command is read token by token; what is accepted is exactly what printing
 a valid command gives.
 */
module SshArgv {
  import opened Wrappers
  import opened Decimal
  import opened KnownHosts

  const STRICT := "StrictHostKeyChecking=yes"
  const KNOWN_HOSTS := "UserKnownHostsFile="
  const GLOBAL := "GlobalKnownHostsFile=none"
  const JUMP := "ProxyJump=none"
  const PROXY := "ProxyCommand=none"

  datatype Refused =
    | LineBreak
    | EmptyCommand
    | NotSsh
    | Expected(token: string)
    | EndsEarly
    | BadPort
    | BadKeyPath
    | NoKnownHosts
    | BadKnownHosts(why: Refusal)
    | BadUser
    | BadHost
    | TooLong

  /** The commands the screen is for. */
  datatype Command = Command(program: string, port: int, key: Option<string>, files: seq<File>, user: Option<string>, host: string)

  function Optional(flag: string, value: Option<string>): seq<string> {
    match value
    case None => []
    case Some(v) => [flag, v]
  }

  function Options(list: string): (r: seq<string>)
    ensures |r| == 10
  {
    ["-o", STRICT, "-o", KNOWN_HOSTS + list, "-o", GLOBAL, "-o", JUMP, "-o", PROXY]
  }

  function UserAndHost(user: Option<string>, host: string): seq<string> {
    Optional("-l", user) + ["--", host]
  }

  function FromOptions(list: string, user: Option<string>, host: string): seq<string> {
    Options(list) + UserAndHost(user, host)
  }

  function FromKey(key: Option<string>, list: string, user: Option<string>, host: string): seq<string> {
    Optional("-i", key) + FromOptions(list, user, host)
  }

  function Head(program: string, port: nat): (r: seq<string>)
    ensures |r| == 3
  {
    [program, "-p", Itoa(port)]
  }

  /** The documented shape. */
  function Printed(c: Command): seq<string>
    requires c.port >= 0
  {
    Head(c.program, c.port) + FromKey(c.key, Listing(c.files), c.user, c.host)
  }

  predicate OneLine(s: string) {
    forall i :: 0 <= i < |s| ==> s[i] != '\n' && s[i] != '\r' && s[i] != '\0'
  }

  function WithoutTrailing(path: string, c: char): string {
    if path != "" && path[|path| - 1] == c then WithoutTrailing(path[..|path| - 1], c) else path
  }

  function AfterLast(path: string, c: char): string {
    if path == "" || path[|path| - 1] == c then "" else AfterLast(path[..|path| - 1], c) + [path[|path| - 1]]
  }

  /** filepath.Base, where '/' separates. */
  function Base(path: string): string {
    if path == "" then "."
    else
      var last := AfterLast(WithoutTrailing(path, '/'), '/');
      if last == "" then "/" else last
  }

  predicate ProgramOk(s: string) {
    OneLine(s) && (Base(s) == "ssh" || Base(s) == "ssh.exe")
  }

  predicate PortOk(n: int) {
    1 <= n <= 65535
  }

  predicate KeyOk(path: string) {
    SshPathOk(path) && '"' !in path && '\'' !in path
  }

  predicate NameChar(c: char, host: bool) {
    'a' <= c <= 'z' || 'A' <= c <= 'Z' || '0' <= c <= '9' || c == '.' || c == '-' || c == '_' || (host && c == ':')
  }

  predicate PlainName(s: string, host: bool) {
    s != "" && s[0] != '-' && forall i :: 0 <= i < |s| ==> NameChar(s[i], host)
  }

  predicate UserOk(s: string) {
    PlainName(s, false) && |s| <= 64
  }

  predicate HostOk(s: string) {
    PlainName(s, true) && |s| <= 253
  }

  predicate FilesOk(files: seq<File>) {
    files != [] && forall i :: 0 <= i < |files| ==> FileOk(files[i])
  }

  predicate Valid(c: Command) {
    && ProgramOk(c.program) && PortOk(c.port) && FilesOk(c.files) && HostOk(c.host)
    && (c.key.Some? ==> KeyOk(c.key.value))
    && (c.user.Some? ==> UserOk(c.user.value))
  }

  // The reader.

  function PlainPort(s: string): Option<int> {
    match Atoi(s)
    case Some(n) => if PortOk(n) && Itoa(n) == s then Some(n) else None
    case None => None
  }

  class ArgvReader {
    const argv: seq<string>
    var i: nat

    constructor (argv: seq<string>)
      ensures this.argv == argv && i == 0
    {
      this.argv := argv;
      i := 0;
    }

    function Peek(): (s: string)
      reads this
      ensures i < |argv| ==> s == argv[i]
      ensures i >= |argv| ==> s == ""
    {
      if i < |argv| then argv[i] else ""
    }

    method Flag(want: string) returns (r: Result<(), Refused>)
      modifies this
      ensures r.Ok? <==> old(i) < |argv| && argv[old(i)] == want
      ensures i == if r.Ok? then old(i) + 1 else old(i)
    {
      if Peek() != want || i >= |argv| {
        return Err(Expected(want));
      }
      i := i + 1;
      r := Ok(());
    }

    method Next() returns (r: Result<string, Refused>)
      modifies this
      ensures r == if old(i) < |argv| then Ok(argv[old(i)]) else Err(EndsEarly)
      ensures i == if r.Ok? then old(i) + 1 else old(i)
    {
      if i >= |argv| {
        return Err(EndsEarly);
      }
      i := i + 1;
      r := Ok(argv[i - 1]);
    }

    /** "-o", then exactly want. */
    method Option(want: string) returns (r: Result<(), Refused>)
      modifies this
      ensures r.Ok? <==> OptionAt(argv, old(i), want)
      ensures r.Ok? ==> i == old(i) + 2
    {
      r := Flag("-o");
      if r.Err? {
        return;
      }
      var v := Next();
      if v.Err? {
        return Err(v.error);
      }
      if v.value != want {
        return Err(Expected(want));
      }
      r := Ok(());
    }
  }

  predicate OptionAt(argv: seq<string>, i: nat, want: string) {
    i + 1 < |argv| && argv[i] == "-o" && argv[i + 1] == want
  }

  predicate ListAt(argv: seq<string>, i: nat) {
    i + 1 < |argv| && argv[i] == "-o" && KNOWN_HOSTS <= argv[i + 1] && Parse(argv[i + 1][|KNOWN_HOSTS|..]).Some?
  }

  predicate OptionsAt(argv: seq<string>, i: nat) {
    && OptionAt(argv, i, STRICT) && ListAt(argv, i + 2) && OptionAt(argv, i + 4, GLOBAL)
    && OptionAt(argv, i + 6, JUMP) && OptionAt(argv, i + 8, PROXY)
  }

  predicate At(argv: seq<string>, i: nat, token: string) {
    i < |argv| && argv[i] == token
  }

  predicate DestinationAt(argv: seq<string>, i: nat) {
    i + 2 == |argv| && argv[i] == "--" && HostOk(argv[i + 1])
  }

  predicate UserAt(argv: seq<string>, i: nat) {
    if At(argv, i, "-l") then i + 1 < |argv| && UserOk(argv[i + 1]) && DestinationAt(argv, i + 2) else DestinationAt(argv, i)
  }

  predicate RestAt(argv: seq<string>, i: nat) {
    OptionsAt(argv, i) && UserAt(argv, i + 10)
  }

  predicate KeyAt(argv: seq<string>, i: nat) {
    if At(argv, i, "-i") then i + 1 < |argv| && KeyOk(argv[i + 1]) && RestAt(argv, i + 2) else RestAt(argv, i)
  }

  predicate OneLiners(argv: seq<string>) {
    forall k :: 0 <= k < |argv| ==> OneLine(argv[k])
  }

  /** The whole reading, position by position. */
  predicate Accepts(argv: seq<string>) {
    && OneLiners(argv) && |argv| > 2 && ProgramOk(argv[0]) && argv[1] == "-p" && PlainPort(argv[2]).Some?
    && KeyAt(argv, 3)
  }

  method CheckList(p: ArgvReader) returns (r: Result<(), Refused>)
    modifies p
    ensures r.Ok? <==> ListAt(p.argv, old(p.i))
    ensures r.Ok? ==> p.i == old(p.i) + 2
  {
    r := p.Flag("-o");
    if r.Err? {
      return;
    }
    var kh := p.Next();
    if kh.Err? {
      return Err(kh.error);
    }
    if !(KNOWN_HOSTS <= kh.value) {
      return Err(NoKnownHosts);
    }
    var list := CheckKnownHostsList(kh.value[|KNOWN_HOSTS|..]);
    r := if list.Err? then Err(BadKnownHosts(list.error)) else Ok(());
  }

  method CheckOptions(p: ArgvReader) returns (r: Result<(), Refused>)
    modifies p
    ensures r.Ok? <==> OptionsAt(p.argv, old(p.i))
    ensures r.Ok? ==> p.i == old(p.i) + 10
  {
    r := p.Option(STRICT);
    if r.Err? {
      return;
    }
    r := CheckList(p);
    if r.Err? {
      return;
    }
    r := p.Option(GLOBAL);
    if r.Err? {
      return;
    }
    r := p.Option(JUMP);
    if r.Err? {
      return;
    }
    r := p.Option(PROXY);
  }

  /** An optional flag and its value. */
  method OptionalAt(p: ArgvReader, flag: string) returns (r: Result<Option<string>, Refused>)
    requires flag != ""
    modifies p
    ensures At(p.argv, old(p.i), flag) ==> r == if old(p.i) + 1 < |p.argv| then Ok(Some(p.argv[old(p.i) + 1])) else Err(EndsEarly)
    ensures !At(p.argv, old(p.i), flag) ==> r == Ok(None)
    ensures r.Ok? ==> p.i == if r.value.Some? then old(p.i) + 2 else old(p.i)
  {
    if p.Peek() != flag {
      return Ok(None);
    }
    p.i := p.i + 1;
    var v := p.Next();
    if v.Err? {
      return Err(v.error);
    }
    r := Ok(Some(v.value));
  }

  method CheckDestination(p: ArgvReader) returns (r: Result<(), Refused>)
    modifies p
    ensures r.Ok? <==> DestinationAt(p.argv, old(p.i))
  {
    r := p.Flag("--");
    if r.Err? {
      return;
    }
    var host := p.Next();
    if host.Err? {
      return Err(host.error);
    }
    if !HostOk(host.value) {
      return Err(BadHost);
    }
    r := if p.i != |p.argv| then Err(TooLong) else Ok(());
  }

  method CheckProgram(p: ArgvReader) returns (r: Result<(), Refused>)
    requires p.i == 0 && OneLiners(p.argv)
    modifies p
    ensures r.Ok? <==> |p.argv| > 2 && ProgramOk(p.argv[0]) && p.argv[1] == "-p" && PlainPort(p.argv[2]).Some?
    ensures r.Ok? ==> p.i == 3
  {
    if |p.argv| == 0 {
      return Err(EmptyCommand);
    }
    if !ProgramOk(p.argv[0]) {
      return Err(NotSsh);
    }
    p.i := 1;
    r := p.Flag("-p");
    if r.Err? {
      return;
    }
    var port := p.Next();
    if port.Err? {
      return Err(port.error);
    }
    r := if PlainPort(port.value).None? then Err(BadPort) else Ok(());
  }

  method CheckSSHArgv(argv: seq<string>) returns (r: Result<(), Refused>)
    ensures r.Ok? <==> Accepts(argv)
  {
    for k := 0 to |argv|
      invariant forall j :: 0 <= j < k ==> OneLine(argv[j])
    {
      if !OneLine(argv[k]) {
        return Err(LineBreak);
      }
    }
    var p := new ArgvReader(argv);
    r := CheckProgram(p);
    if r.Ok? {
      r := CheckFromKey(p);
    }
  }

  method CheckFromKey(p: ArgvReader) returns (r: Result<(), Refused>)
    modifies p
    ensures r.Ok? <==> KeyAt(p.argv, old(p.i))
  {
    var key := OptionalAt(p, "-i");
    if key.Err? {
      return Err(key.error);
    }
    if key.value.Some? && !KeyOk(key.value.value) {
      return Err(BadKeyPath);
    }
    r := CheckFromOptions(p);
  }

  method CheckFromOptions(p: ArgvReader) returns (r: Result<(), Refused>)
    modifies p
    ensures r.Ok? <==> RestAt(p.argv, old(p.i))
  {
    r := CheckOptions(p);
    if r.Err? {
      return;
    }
    var user := OptionalAt(p, "-l");
    if user.Err? {
      return Err(user.error);
    }
    if user.value.Some? && !UserOk(user.value.value) {
      return Err(BadUser);
    }
    r := CheckDestination(p);
  }

  // What is accepted.

  lemma ReadDestination(argv: seq<string>, i: nat) returns (host: string)
    requires DestinationAt(argv, i)
    ensures HostOk(host) && argv[i..] == ["--", host]
  {
    host := argv[i + 1];
  }

  lemma ReadUser(argv: seq<string>, i: nat) returns (user: Option<string>, host: string)
    requires UserAt(argv, i)
    ensures i <= |argv| && HostOk(host) && (user.Some? ==> UserOk(user.value)) && argv[i..] == UserAndHost(user, host)
  {
    if At(argv, i, "-l") {
      host := ReadDestination(argv, i + 2);
      user := Some(argv[i + 1]);
      assert argv[i..] == [argv[i], argv[i + 1]] + argv[i + 2..];
    } else {
      host := ReadDestination(argv, i);
      user := None;
    }
  }

  lemma ReadOptions(argv: seq<string>, i: nat) returns (list: string)
    requires OptionsAt(argv, i)
    ensures i + 10 <= |argv| && argv[i..i + 10] == Options(list) && Parse(list).Some?
  {
    list := argv[i + 3][|KNOWN_HOSTS|..];
    assert argv[i + 3] == KNOWN_HOSTS + list;
  }

  lemma ReadRest(argv: seq<string>, i: nat) returns (list: string, user: Option<string>, host: string)
    requires RestAt(argv, i)
    ensures i <= |argv| && HostOk(host) && (user.Some? ==> UserOk(user.value)) && Parse(list).Some?
    ensures argv[i..] == FromOptions(list, user, host)
  {
    list := ReadOptions(argv, i);
    user, host := ReadUser(argv, i + 10);
    assert argv[i..] == argv[i..i + 10] + argv[i + 10..];
  }

  /** Every command accepted is a printed one. */
  lemma AcceptedIsPrinted(argv: seq<string>) returns (c: Command)
    requires Accepts(argv)
    ensures Valid(c) && Printed(c) == argv
  {
    var key, list, user, host := ReadKey(argv);
    var files := ReadFiles(list);
    var port := PlainPort(argv[2]).value;
    c := Command(argv[0], port, key, files, user, host);
    HeadAndRest(argv, port, FromKey(key, list, user, host));
  }

  lemma HeadAndRest(argv: seq<string>, port: nat, rest: seq<string>)
    requires |argv| > 2 && argv[1] == "-p" && argv[2] == Itoa(port) && argv[3..] == rest
    ensures Head(argv[0], port) + rest == argv
  {
    assert argv == argv[..3] + argv[3..];
    assert argv[..3] == Head(argv[0], port);
  }

  lemma ReadFiles(list: string) returns (files: seq<File>)
    requires Parse(list).Some?
    ensures FilesOk(files) && Listing(files) == list
  {
    ParsedIsListing(list);
    files := Parse(list).value;
  }

  lemma TwoThenRest(argv: seq<string>, i: nat)
    requires i + 1 < |argv|
    ensures argv[i..] == [argv[i], argv[i + 1]] + argv[i + 2..]
  {
  }

  lemma ReadKey(argv: seq<string>) returns (key: Option<string>, list: string, user: Option<string>, host: string)
    requires KeyAt(argv, 3)
    ensures 3 <= |argv| && HostOk(host) && (user.Some? ==> UserOk(user.value)) && (key.Some? ==> KeyOk(key.value)) && Parse(list).Some?
    ensures argv[3..] == FromKey(key, list, user, host)
  {
    if At(argv, 3, "-i") {
      list, user, host := ReadRest(argv, 5);
      key := Some(argv[4]);
      TwoThenRest(argv, 3);
      assert FromKey(key, list, user, host) == [argv[3], argv[4]] + FromOptions(list, user, host);
    } else {
      list, user, host := ReadRest(argv, 3);
      key := None;
    }
  }

  lemma FitDestination(argv: seq<string>, i: nat, host: string)
    requires i <= |argv| && argv[i..] == ["--", host] && HostOk(host)
    ensures DestinationAt(argv, i)
  {
    assert argv[i] == argv[i..][0] && argv[i + 1] == argv[i..][1];
  }

  lemma FitUser(argv: seq<string>, i: nat, user: Option<string>, host: string)
    requires i <= |argv| && argv[i..] == UserAndHost(user, host) && HostOk(host) && (user.Some? ==> UserOk(user.value))
    ensures UserAt(argv, i)
  {
    assert argv[i] == argv[i..][0] && argv[i + 1] == argv[i..][1];
    if user.Some? {
      assert UserAndHost(user, host)[2..] == ["--", host];
      FitDestination(argv, i + 2, host);
    } else {
      assert UserAndHost(user, host) == ["--", host];
      FitDestination(argv, i, host);
    }
  }

  lemma FitOptions(argv: seq<string>, i: nat, list: string)
    requires i + 10 <= |argv| && argv[i..i + 10] == Options(list) && Parse(list).Some?
    ensures OptionsAt(argv, i)
  {
    var ten := argv[i..i + 10];
    assert ten[0] == argv[i] && ten[1] == argv[i + 1] && ten[2] == argv[i + 2] && ten[3] == argv[i + 3] && ten[4] == argv[i + 4];
    assert ten[5] == argv[i + 5] && ten[6] == argv[i + 6] && ten[7] == argv[i + 7] && ten[8] == argv[i + 8] && ten[9] == argv[i + 9];
    assert ten[3][|KNOWN_HOSTS|..] == list;
  }

  lemma FitRest(argv: seq<string>, i: nat, list: string, user: Option<string>, host: string)
    requires i <= |argv| && argv[i..] == FromOptions(list, user, host) && Parse(list).Some?
    requires HostOk(host) && (user.Some? ==> UserOk(user.value))
    ensures RestAt(argv, i)
  {
    assert argv[i..i + 10] == argv[i..][..10] == Options(list);
    FitOptions(argv, i, list);
    FitUser(argv, i + 10, user, host);
  }

  lemma FitKey(argv: seq<string>, key: Option<string>, list: string, user: Option<string>, host: string)
    requires 3 <= |argv| && argv[3..] == FromKey(key, list, user, host) && Parse(list).Some?
    requires HostOk(host) && (user.Some? ==> UserOk(user.value)) && (key.Some? ==> KeyOk(key.value))
    ensures KeyAt(argv, 3)
  {
    var tail := FromKey(key, list, user, host);
    assert argv[3] == argv[3..][0] == tail[0] && argv[4] == argv[3..][1] == tail[1];
    if key.Some? {
      assert tail[2..] == FromOptions(list, user, host);
      FitRest(argv, 5, list, user, host);
    } else {
      assert tail == FromOptions(list, user, host);
      FitRest(argv, 3, list, user, host);
    }
  }

  lemma PortPrints(n: int)
    requires PortOk(n)
    ensures PlainPort(Itoa(n)) == Some(n)
  {
    AtoiOfItoa(n);
  }

  lemma {:induction false} ListIsOneLine(files: seq<File>)
    requires forall i :: 0 <= i < |files| ==> FileOk(files[i])
    ensures OneLine(Listing(files))
  {
    if |files| > 1 {
      ListIsOneLine(files[1..]);
    }
  }

  lemma OneLinersConcat(a: seq<string>, b: seq<string>)
    requires OneLiners(a) && OneLiners(b)
    ensures OneLiners(a + b)
  {
  }

  lemma OptionsAreOneLine(list: string)
    requires OneLine(list)
    ensures OneLiners(Options(list))
  {
    FixedAreOneLine();
    assert OneLine(KNOWN_HOSTS + list);
    OneLinersConcat(["-o", STRICT, "-o", KNOWN_HOSTS + list], ["-o", GLOBAL, "-o", JUMP, "-o", PROXY]);
  }

  lemma FixedAreOneLine()
    ensures OneLine("-o") && OneLine(STRICT) && OneLine(KNOWN_HOSTS) && OneLine(GLOBAL) && OneLine(JUMP) && OneLine(PROXY)
  {
  }

  lemma OptionalIsOneLine(flag: string, value: Option<string>)
    requires OneLine(flag) && (value.Some? ==> OneLine(value.value))
    ensures OneLiners(Optional(flag, value))
  {
  }

  lemma PrintedIsOneLine(c: Command)
    requires Valid(c)
    ensures OneLiners(Printed(c))
  {
    ListIsOneLine(c.files);
    OptionsAreOneLine(Listing(c.files));
    OptionalIsOneLine("-l", c.user);
    OptionalIsOneLine("-i", c.key);
    OneLinersConcat(Optional("-l", c.user), ["--", c.host]);
    OneLinersConcat(Options(Listing(c.files)), UserAndHost(c.user, c.host));
    OneLinersConcat(Optional("-i", c.key), FromOptions(Listing(c.files), c.user, c.host));
    OneLinersConcat(Head(c.program, c.port), FromKey(c.key, Listing(c.files), c.user, c.host));
  }

  /** Every printed command is accepted. */
  lemma PrintedIsAccepted(c: Command)
    requires Valid(c)
    ensures Accepts(Printed(c))
  {
    var argv := Printed(c);
    PortPrints(c.port);
    PrintedIsOneLine(c);
    ListingIsParsed(c.files);
    assert argv[3..] == FromKey(c.key, Listing(c.files), c.user, c.host);
    FitKey(argv, c.key, Listing(c.files), c.user, c.host);
  }

  lemma SameOptional(flag: string, a: Option<string>, x: seq<string>, b: Option<string>, y: seq<string>)
    requires Optional(flag, a) + x == Optional(flag, b) + y && x != [] && y != [] && x[0] == y[0] != flag
    ensures a == b && x == y
  {
    var l, r := Optional(flag, a) + x, Optional(flag, b) + y;
    assert l[0] == r[0] && a.Some? == b.Some?;
    if a.Some? {
      assert l[1] == r[1] && x == l[2..] && y == r[2..];
    } else {
      assert x == l && y == r;
    }
  }

  lemma SameOptions(a: string, x: seq<string>, b: string, y: seq<string>)
    requires Options(a) + x == Options(b) + y
    ensures a == b && x == y
  {
    var l, r := Options(a) + x, Options(b) + y;
    assert Options(a)[3] == l[3] == r[3] == Options(b)[3];
    assert a == (KNOWN_HOSTS + a)[|KNOWN_HOSTS|..] && b == (KNOWN_HOSTS + b)[|KNOWN_HOSTS|..];
    assert x == l[10..] && y == r[10..];
  }

  /** A command's tokens tell its parts. */
  lemma PartsAreTold(c: Command, d: Command)
    requires c.port >= 0 && d.port >= 0 && Printed(c) == Printed(d)
    ensures c.(files := d.files) == d && Listing(c.files) == Listing(d.files)
  {
    var l, r := Printed(c), Printed(d);
    assert l[0] == r[0] && l[2] == r[2];
    ItoaInjective(c.port, d.port);
    assert FromKey(c.key, Listing(c.files), c.user, c.host) == l[3..];
    assert FromKey(d.key, Listing(d.files), d.user, d.host) == r[3..];
    SameOptional("-i", c.key, FromOptions(Listing(c.files), c.user, c.host), d.key, FromOptions(Listing(d.files), d.user, d.host));
    SameOptions(Listing(c.files), UserAndHost(c.user, c.host), Listing(d.files), UserAndHost(d.user, d.host));
    SameOptional("-l", c.user, ["--", c.host], d.user, ["--", d.host]);
    assert ["--", c.host][1] == ["--", d.host][1];
  }

  /** The screen accepts exactly the printed commands, and each is one command only. */
  lemma AcceptedExactly(argv: seq<string>)
    ensures Accepts(argv) <==> exists c :: Valid(c) && Printed(c) == argv
    ensures forall c, d :: Valid(c) && Valid(d) && Printed(c) == argv && Printed(d) == argv ==> c == d
  {
    if Accepts(argv) {
      var c := AcceptedIsPrinted(argv);
    }
    forall c | Valid(c) && Printed(c) == argv ensures Accepts(argv) {
      PrintedIsAccepted(c);
    }
    forall c, d | Valid(c) && Valid(d) && Printed(c) == argv && Printed(d) == argv ensures c == d {
      PartsAreTold(c, d);
      ListingIsParsed(c.files);
      ListingIsParsed(d.files);
    }
  }

  ghost predicate Sets(argv: seq<string>, want: string) {
    exists i :: 3 <= i < |argv| - 2 && argv[i] == "-o" && argv[i + 1] == want
  }

  /** So what an accepted command can be made to do is bounded: it pins the host key, goes through no proxy, and names one plain destination. */
  lemma AcceptedIsPlain(argv: seq<string>)
    requires Accepts(argv)
    ensures var n := |argv|;
            && n >= 15 && argv[n - 2] == "--" && 1 <= |argv[n - 1]| <= 253 && argv[n - 1][0] != '-'
            && (forall c :: c in argv[n - 1] ==> 'a' <= c <= 'z' || 'A' <= c <= 'Z' || '0' <= c <= '9' || c in ".-_:")
            && argv[1] == "-p" && (exists port :: 1 <= port <= 65535 && argv[2] == Itoa(port))
            && Sets(argv, "StrictHostKeyChecking=yes") && Sets(argv, "GlobalKnownHostsFile=none")
            && Sets(argv, "ProxyJump=none") && Sets(argv, "ProxyCommand=none")
            && (forall k :: 0 <= k < n ==> '\n' !in argv[k] && '\r' !in argv[k] && '\0' !in argv[k])
  {
    var i := if At(argv, 3, "-i") then 5 else 3;
    assert OptionsAt(argv, i) && UserAt(argv, i + 10);
    var port := PlainPort(argv[2]).value;
    assert argv[2] == Itoa(port);
    assert argv[i] == "-o" && argv[i + 1] == "StrictHostKeyChecking=yes";
    assert argv[i + 4] == "-o" && argv[i + 4 + 1] == "GlobalKnownHostsFile=none";
    assert argv[i + 6] == "-o" && argv[i + 6 + 1] == "ProxyJump=none";
    assert argv[i + 8] == "-o" && argv[i + 8 + 1] == "ProxyCommand=none";
    PlainDestination(argv[|argv| - 1]);
  }

  lemma PlainDestination(host: string)
    requires HostOk(host)
    ensures forall c :: c in host ==> 'a' <= c <= 'z' || 'A' <= c <= 'Z' || '0' <= c <= '9' || c in ".-_:"
  {
    forall c | c in host ensures 'a' <= c <= 'z' || 'A' <= c <= 'Z' || '0' <= c <= '9' || c in ".-_:" {
      var i :| 0 <= i < |host| && host[i] == c;
      assert NameChar(host[i], true);
      var marks := ".-_:";
      assert marks[0] == '.' && marks[1] == '-' && marks[2] == '_' && marks[3] == ':';
    }
  }

  lemma {:induction false} NothingAfter(s: string, c: char)
    requires c !in s
    ensures AfterLast(s, c) == s && WithoutTrailing(s, c) == s
  {
    if s != "" {
      NothingAfter(s[..|s| - 1], c);
    }
  }

  lemma {:induction false} AfterTheLast(dir: string, name: string, c: char)
    requires c !in name
    ensures AfterLast(dir + [c] + name, c) == name
  {
    var s := dir + [c] + name;
    if name == "" {
      assert s[|s| - 1] == c;
    } else {
      assert s[..|s| - 1] == dir + [c] + name[..|name| - 1];
      AfterTheLast(dir, name[..|name| - 1], c);
    }
  }

  /** A program's name is what follows the last '/' of its path, wherever it is. */
  lemma BaseExactly(dir: string, name: string)
    requires name != "" && '/' !in name
    ensures Base(name) == name && Base(dir + ['/'] + name) == name
  {
    NothingAfter(name, '/');
    AfterTheLast(dir, name, '/');
    var s := dir + ['/'] + name;
    assert s[|s| - 1] == name[|name| - 1] != '/';
  }

  lemma SshIsAProgram()
    ensures ProgramOk("ssh")
  {
    NothingAfter("ssh", '/');
  }
}
