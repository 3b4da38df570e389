/** Logins typed as user@host[:port], the addresses shown for them, and the ssh commands built from them. */
module Login {
  import opened Wrappers
  import opened Decimal
  import opened KnownHosts
  import opened SshArgv
  import opened Strings

  datatype View = View(host: string, user: string, keyPath: string, hostKeyFile: string, port: int, jump: Option<View>)

  datatype LoginError =
    | NoUserOrHost
    | BadLoginUser
    | UnbalancedBrackets
    | NotIPv6
    | TextAfterBrackets
    | EmptyPort
    | NeedsBrackets
    | EmptyHost
    | BadLoginHost
    | BadLoginPort

  function Count(s: string, c: char): (n: nat)
    ensures n == 0 <==> c !in s
  {
    if s == "" then 0 else Count(s[1..], c) + if s[0] == c then 1 else 0
  }

  /** strings.LastIndex of one character, -1 for absence. */
  function LastIndex(s: string, c: char): (n: int)
    ensures -1 <= n < |s| && (n >= 0 ==> s[n] == c) && forall i :: n < i < |s| ==> s[i] != c
  {
    if s == "" then -1 else if s[|s| - 1] == c then |s| - 1 else LastIndex(s[..|s| - 1], c)
  }

  /** A host and the text of a port, "" for none. */
  function ParseHost(rest: string, ip6: string -> bool): Result<(string, string), LoginError> {
    if rest != "" && rest[0] == '[' then
      var end := IndexByte(rest, ']');
      if end == |rest| || Count(rest, '[') != 1 || Count(rest, ']') != 1 then Err(UnbalancedBrackets)
      else
        var host, after := rest[1..end], rest[end + 1..];
        if !ip6(host) || ':' !in host || !PlainName(host, true) then Err(NotIPv6)
        else if after == "" then Ok((host, ""))
        else if after[0] != ':' then Err(TextAfterBrackets)
        else if after[1..] == "" then Err(EmptyPort)
        else Ok((host, after[1..]))
    else if '[' in rest || ']' in rest then Err(UnbalancedBrackets)
    else
      var i := IndexByte(rest, ':');
      if i < |rest| && Count(rest, ':') > 1 then Err(NeedsBrackets)
      else if i < |rest| && rest[i + 1..] == "" then Err(EmptyPort)
      else
        var host := rest[..i];
        if host == "" then Err(EmptyHost)
        else if ':' in host || !PlainName(host, false) || |host| > 253 then Err(BadLoginHost)
        else Ok((host, if i < |rest| then rest[i + 1..] else ""))
  }

  /** ParseLogin. ip6 says which texts net.ParseIP reads as an IPv6 address and not an IPv4 one. */
  function ParseLogin(s: string, ip6: string -> bool): Result<View, LoginError> {
    var at := LastIndex(s, '@');
    if at <= 0 || at == |s| - 1 then Err(NoUserOrHost)
    else if !UserOk(s[..at]) then Err(BadLoginUser)
    else match ParseHost(s[at + 1..], ip6)
      case Err(e) => Err(e)
      case Ok((host, portText)) => WithPort(s[..at], host, portText)
  }

  function WithPort(user: string, host: string, portText: string): Result<View, LoginError> {
    if portText == "" then Ok(View(host, user, "", "", 0, None))
    else match PlainPort(portText)
      case None => Err(BadLoginPort)
      case Some(port) => Ok(View(host, user, "", "", port, None))
  }

  /** net.JoinHostPort. */
  function JoinHostPort(host: string, port: string): string {
    if ':' in host || '%' in host then "[" + host + "]:" + port else host + ":" + port
  }

  function PortOrDefault(port: int): int {
    if port == 0 then 22 else port
  }

  /** SSHView.Address. */
  function Address(v: View): string {
    var s := v.user + "@" + JoinHostPort(v.host, Signed(PortOrDefault(v.port)));
    match v.jump
    case None => s
    case Some(j) => s + " via " + Address(j)
  }

  // What is accepted.

  predicate LoginHost(host: string, ip6: string -> bool) {
    if ':' in host then ip6(host) && PlainName(host, true) else PlainName(host, false) && |host| <= 253
  }

  /** A view that can be typed: a plain user, a host, and a port if one is given. */
  predicate Typable(v: View, ip6: string -> bool) {
    UserOk(v.user) && LoginHost(v.host, ip6) && 0 <= v.port <= 65535 && v == View(v.host, v.user, "", "", v.port, None)
  }

  function HostText(host: string): string {
    if ':' in host then "[" + host + "]" else host
  }

  function PortText(port: nat): string {
    if port == 0 then "" else ":" + Itoa(port)
  }

  /** How such a view is typed. */
  function Typed(v: View): string
    requires v.port >= 0
  {
    v.user + "@" + (HostText(v.host) + PortText(v.port))
  }

  lemma LastIndexAfter(a: string, c: char, b: string)
    requires c !in b
    ensures LastIndex(a + [c] + b, c) == |a|
  {
    NoneAfter(a, c, b);
  }

  lemma NoneAfter(a: string, c: char, b: string)
    requires c !in b
    ensures var s := a + [c] + b; |s| > |a| && s[|a|] == c && forall i :: |a| < i < |s| ==> s[i] != c
  {
    var s := a + [c] + b;
    assert forall i :: |a| < i < |s| ==> s[i] == b[i - |a| - 1];
  }

  lemma {:induction false} CountConcat(a: string, b: string, c: char)
    ensures Count(a + b, c) == Count(a, c) + Count(b, c)
  {
    if a == "" {
      assert a + b == b;
    } else {
      CountConcat(a[1..], b, c);
      assert (a + b)[1..] == a[1..] + b;
    }
  }

  lemma BracketsCount(host: string, tail: string)
    requires '[' !in host && ']' !in host && '[' !in tail && ']' !in tail
    ensures Count("[" + host + "]" + tail, '[') == 1 && Count("[" + host + "]" + tail, ']') == 1
    ensures IndexByte("[" + host + "]" + tail, ']') == |host| + 1
  {
    CountConcat("[" + host + "]", tail, '[');
    CountConcat("[" + host + "]", tail, ']');
    CountConcat("[" + host, "]", '[');
    CountConcat("[" + host, "]", ']');
    CountConcat("[", host, '[');
    CountConcat("[", host, ']');
    IndexAfter("[" + host, ']', tail);
    assert "[" + host + [']'] + tail == "[" + host + "]" + tail;
  }

  lemma BracketedIsRead(host: string, portText: string, ip6: string -> bool)
    requires ':' in host && ip6(host) && PlainName(host, true) && '[' !in portText && ']' !in portText
    ensures portText != "" ==> ParseHost("[" + host + "]" + (":" + portText), ip6) == Ok((host, portText))
    ensures ParseHost("[" + host + "]", ip6) == Ok((host, ""))
  {
    forall tail | tail == "" || tail == ":" + portText
      ensures ParseHost("[" + host + "]" + tail, ip6) ==
              if tail == "" then Ok((host, "")) else if portText == "" then Err(EmptyPort) else Ok((host, portText))
    {
      var rest := "[" + host + "]" + tail;
      BracketsCount(host, tail);
      assert rest[0] == '[' && rest[1..|host| + 1] == host && rest[|host| + 2..] == tail;
      if tail != "" {
        assert tail[1..] == portText;
      }
    }
    assert "[" + host + "]" + "" == "[" + host + "]";
  }

  lemma PlainHostIsRead(host: string, portText: string, ip6: string -> bool)
    requires PlainName(host, false) && |host| <= 253 && '[' !in portText && ']' !in portText && ':' !in portText
    ensures portText != "" ==> ParseHost(host + (":" + portText), ip6) == Ok((host, portText))
    ensures ParseHost(host, ip6) == Ok((host, ""))
  {
    assert ':' !in host && '[' !in host && ']' !in host;
    IndexAbsent(host, ':');
    assert host[..|host|] == host;
    if portText != "" {
      HostBeforePort(host, portText, ip6);
    }
  }

  lemma HostBeforePort(host: string, portText: string, ip6: string -> bool)
    requires PlainName(host, false) && |host| <= 253 && portText != "" && '[' !in portText && ']' !in portText && ':' !in portText
    ensures ParseHost(host + (":" + portText), ip6) == Ok((host, portText))
  {
    assert ':' !in host && '[' !in host && ']' !in host;
    IndexAbsent(host, ':');
    var rest := host + (":" + portText);
    assert rest == host + [':'] + portText;
    IndexAfter(host, ':', portText);
    assert Count(rest, ':') == 1 by {
      CountConcat(host, ":" + portText, ':');
      CountConcat(":", portText, ':');
    }
    assert rest[..|host|] == host && rest[|host| + 1..] == portText;
  }

  lemma HostIsRead(v: View, ip6: string -> bool)
    requires Typable(v, ip6)
    ensures ParseHost(HostText(v.host) + PortText(v.port), ip6) == Ok((v.host, if v.port == 0 then "" else Itoa(v.port)))
  {
    var portText := Itoa(v.port);
    assert HostText(v.host) + "" == HostText(v.host);
    if ':' in v.host {
      BracketedIsRead(v.host, portText, ip6);
    } else {
      PlainHostIsRead(v.host, portText, ip6);
    }
  }

  /** A view typed as it should be is read back. */
  lemma TypedIsParsed(v: View, ip6: string -> bool)
    requires Typable(v, ip6)
    ensures ParseLogin(Typed(v), ip6) == Ok(v)
  {
    var s, rest := Typed(v), HostText(v.host) + PortText(v.port);
    LastIndexAfter(v.user, '@', rest);
    assert s == v.user + ['@'] + rest;
    assert s[..|v.user|] == v.user && s[|v.user| + 1..] == rest;
    HostIsRead(v, ip6);
    assert rest != "" by {
      assert HostText(v.host) != "";
    }
    if v.port > 0 {
      PortPrints(v.port);
    }
  }

  lemma SplitAt(s: string, i: nat)
    requires i < |s|
    ensures s == s[..i] + ([s[i]] + s[i + 1..]) && s == s[..i] + [s[i]] + s[i + 1..]
  {
  }

  lemma ReadBracketed(rest: string, ip6: string -> bool)
    requires ParseHost(rest, ip6).Ok? && rest[0] == '['
    ensures var (host, portText) := ParseHost(rest, ip6).value;
            LoginHost(host, ip6) && rest == HostText(host) + if portText == "" then "" else ":" + portText
  {
    var end := IndexByte(rest, ']');
    Bracketed(rest, end);
    var after := rest[end + 1..];
    assert after != "" ==> after == ":" + after[1..];
  }

  lemma Bracketed(rest: string, end: nat)
    requires 0 < end < |rest| && rest[0] == '[' && rest[end] == ']'
    ensures rest == "[" + rest[1..end] + "]" + rest[end + 1..]
  {
  }

  lemma HostReadIsTyped(rest: string, ip6: string -> bool)
    requires ParseHost(rest, ip6).Ok?
    ensures var (host, portText) := ParseHost(rest, ip6).value;
            LoginHost(host, ip6) && rest == HostText(host) + if portText == "" then "" else ":" + portText
  {
    if rest[0] == '[' {
      ReadBracketed(rest, ip6);
    }
  }

  lemma ParsedIsTyped(s: string, ip6: string -> bool)
    requires ParseLogin(s, ip6).Ok?
    ensures var v := ParseLogin(s, ip6).value; Typable(v, ip6) && Typed(v) == s
  {
    var at := LastIndex(s, '@');
    var (host, portText) := ParseHost(s[at + 1..], ip6).value;
    HostReadIsTyped(s[at + 1..], ip6);
    PortReadIsTyped(s[..at], host, portText);
    SplitAt(s, at);
  }

  lemma PortReadIsTyped(user: string, host: string, portText: string)
    requires WithPort(user, host, portText).Ok?
    ensures var v := WithPort(user, host, portText).value;
            && 0 <= v.port <= 65535 && v == View(host, user, "", "", v.port, None)
            && PortText(v.port) == if portText == "" then "" else ":" + portText
  {
  }

  /** The logins accepted are exactly the typable views, each typed in one way. */
  lemma LoginsExactly(s: string, v: View, ip6: string -> bool)
    ensures ParseLogin(s, ip6) == Ok(v) <==> Typable(v, ip6) && Typed(v) == s
  {
    if ParseLogin(s, ip6).Ok? {
      ParsedIsTyped(s, ip6);
    }
    if Typable(v, ip6) && Typed(v) == s {
      TypedIsParsed(v, ip6);
    }
  }

  /** A login's address reads back as that login, its port no longer left out. */
  lemma AddressRoundTrip(s: string, ip6: string -> bool)
    requires ParseLogin(s, ip6).Ok?
    ensures var v := ParseLogin(s, ip6).value; ParseLogin(Address(v), ip6) == Ok(v.(port := if v.port == 0 then 22 else v.port))
  {
    ParsedIsTyped(s, ip6);
    var v := ParseLogin(s, ip6).value;
    var shown := v.(port := PortOrDefault(v.port));
    AddressIsTyped(v, ip6);
    TypedIsParsed(shown, ip6);
  }

  lemma AddressIsTyped(v: View, ip6: string -> bool)
    requires Typable(v, ip6)
    ensures Address(v) == Typed(v.(port := PortOrDefault(v.port)))
  {
    var port := PortOrDefault(v.port);
    assert '%' !in v.host;
    assert JoinHostPort(v.host, Itoa(port)) == HostText(v.host) + (":" + Itoa(port));
  }

  /** An address through a jump host is for people only: it never parses as a login. */
  lemma JumpAddressIsNoLogin(v: View, ip6: string -> bool)
    requires v.jump.Some?
    ensures ParseLogin(Address(v), ip6).Err?
  {
    var near := v.user + "@" + JoinHostPort(v.host, Signed(PortOrDefault(v.port)));
    var far := Address(v.jump.value);
    AtInAddress(v.jump.value);
    ViaThenAt(near, far);
    SpaceBeforeAt(near + " via " + far, |near|, ip6);
  }

  lemma AtInAddress(v: View)
    ensures '@' in Address(v)
  {
    assert Address(v)[|v.user|] == '@';
  }

  lemma SpaceBeforeAt(s: string, k: nat, ip6: string -> bool)
    requires k < LastIndex(s, '@') && s[k] == ' '
    ensures ParseLogin(s, ip6).Err?
  {
    assert s[..LastIndex(s, '@')][k] == ' ';
  }

  lemma ViaThenAt(near: string, far: string)
    requires '@' in far
    ensures var s := near + " via " + far; |near| < LastIndex(s, '@') && s[|near|] == ' '
  {
    var s := near + " via " + far;
    var i :| 0 <= i < |far| && far[i] == '@';
    assert s[|near| + 5 + i] == '@';
  }

  /** The ssh command printed for a parsed login is one that CheckSSHArgv accepts. */
  lemma LoginReachesScreen(s: string, files: seq<File>, ip6: string -> bool)
    requires ParseLogin(s, ip6).Ok? && FilesOk(files)
    requires forall h: string :: ip6(h) ==> |h| <= 253
    ensures var v := ParseLogin(s, ip6).value;
            Accepts(Printed(Command("ssh", if v.port == 0 then 22 else v.port, None, files, Some(v.user), v.host)))
  {
    ParsedIsTyped(s, ip6);
    var v := ParseLogin(s, ip6).value;
    assert HostOk(v.host);
    SshIsAProgram();
    PrintedIsAccepted(Command("ssh", PortOrDefault(v.port), None, files, Some(v.user), v.host));
  }
}
