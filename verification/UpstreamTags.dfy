/**
 The readable middle of a generated upstream id: who the endpoint is and over
 what protocol. What net/url reads in a text and what Unicode says a letter's
 lower case is are parameters.
 */
module UpstreamTags {
  import opened Decimal
  import opened Spaces
  import opened Strings
  import opened Wrappers

  /** What net/url reads: a scheme and a host name, or nothing. */
  datatype Parsed = Parsed(scheme: string, host: string)

  datatype Reader = Reader(parse: string -> Option<Parsed>, lower: char -> char)

  predicate Bracket(c: char) {
    c == '[' || c == ']'
  }

  /** strings.Trim(s, "[]"). */
  function TrimBrackets(s: string): string {
    if s != "" && Bracket(s[0]) then TrimBrackets(s[1..])
    else if s != "" && Bracket(s[|s| - 1]) then TrimBrackets(s[..|s| - 1])
    else s
  }

  /** The brackets at either end go, and no others. */
  lemma {:induction false} TrimBracketsExactly(s: string) returns (a: string, b: string)
    ensures Brackets(a) && Brackets(b) && s == a + TrimBrackets(s) + b
    ensures TrimBrackets(s) != "" ==> !Bracket(TrimBrackets(s)[0]) && !Bracket(TrimBrackets(s)[|TrimBrackets(s)| - 1])
  {
    a, b := "", "";
    if s != "" && Bracket(s[0]) {
      a, b := TrimBracketsExactly(s[1..]);
      a := [s[0]] + a;
      assert s == [s[0]] + s[1..];
    } else if s != "" && Bracket(s[|s| - 1]) {
      a, b := TrimBracketsExactly(s[..|s| - 1]);
      b := b + [s[|s| - 1]];
      assert s == s[..|s| - 1] + [s[|s| - 1]];
    }
  }

  ghost predicate Brackets(s: string) {
    forall i :: 0 <= i < |s| ==> Bracket(s[i])
  }

  predicate LabelChar(c: char) {
    'a' <= c <= 'z' || IsDigit(c)
  }

  function NonEmpty(parts: seq<string>): seq<string> {
    if parts == [] then []
    else NonEmpty(parts[..|parts| - 1]) + if parts[|parts| - 1] == "" then [] else [parts[|parts| - 1]]
  }

  /** The letters and digits of s in lower case. */
  function Sanitised(s: string, lower: char -> char): (r: string)
    ensures forall i :: 0 <= i < |r| ==> LabelChar(r[i])
  {
    if s == "" then ""
    else Sanitised(s[..|s| - 1], lower) + if LabelChar(lower(s[|s| - 1])) then [lower(s[|s| - 1])] else []
  }

  function Label(host: string, lower: char -> char): string {
    var parts := NonEmpty(SplitOn(TrimBrackets(host), '.'));
    if |parts| < 2 then ""
    else
      var out := Sanitised(parts[|parts| - 2], lower);
      if AllDigits(out) then "" else out
  }

  /** registrableLabel. */
  method RegistrableLabel(host: string, lower: char -> char) returns (name: string)
    ensures name == Label(host, lower)
    ensures name == "" || Names(name)
  {
    var pieces := SplitOn(TrimBrackets(host), '.');
    var parts: seq<string> := [];
    for i := 0 to |pieces|
      invariant parts == NonEmpty(pieces[..i])
    {
      assert pieces[..i + 1][..i] == pieces[..i];
      if pieces[i] != "" {
        parts := parts + [pieces[i]];
      }
    }
    assert pieces[..|pieces|] == pieces;
    if |parts| < 2 {
      return "";
    }
    var part := parts[|parts| - 2];
    var out: string := "";
    for i := 0 to |part|
      invariant out == Sanitised(part[..i], lower)
    {
      assert part[..i + 1][..i] == part[..i];
      var r := lower(part[i]);
      if LabelChar(r) {
        out := out + [r];
      }
    }
    assert part[..|part|] == part;
    name := if out == "" || AllDigits(out) then "" else out;
  }

  lemma {:induction false} SplitSnoc(a: string, c: char, b: string)
    requires c !in b
    ensures SplitOn(a + [c] + b, c) == SplitOn(a, c) + [b]
    decreases |a|
  {
    var s, i := a + [c] + b, IndexByte(a, c);
    if i == |a| {
      IndexAfter(a, c, b);
      IndexAbsent(b, c);
      assert s[..|a|] == a && s[|a| + 1..] == b;
    } else {
      assert a == a[..i] + [c] + a[i + 1..];
      assert s == a[..i] + [c] + (a[i + 1..] + [c] + b);
      IndexAfter(a[..i], c, a[i + 1..] + [c] + b);
      assert s[..i] == a[..i] && s[i + 1..] == a[i + 1..] + [c] + b;
      SplitSnoc(a[i + 1..], c, b);
      Regroup([a[..i]], SplitOn(a[i + 1..], c), [b]);
    }
  }

  lemma NonEmptySnoc(parts: seq<string>, p: string)
    requires p != ""
    ensures NonEmpty(parts + [p]) == NonEmpty(parts) + [p]
  {
    assert (parts + [p])[..|parts|] == parts;
  }

  /** Whatever comes before: of a host that ends in two parts after a dot, the label is the first of the two. */
  lemma LabelExactly(prefix: string, part: string, last: string, lower: char -> char)
    requires part != "" && last != "" && '.' !in part && '.' !in last
    requires var host := prefix + ['.'] + part + ['.'] + last; TrimBrackets(host) == host
    ensures Label(prefix + ['.'] + part + ['.'] + last, lower) == if AllDigits(Sanitised(part, lower)) then "" else Sanitised(part, lower)
  {
    var before := SplitOn(prefix, '.');
    SplitSnoc(prefix + ['.'] + part, '.', last);
    SplitSnoc(prefix, '.', part);
    NonEmptySnoc(before + [part], last);
    NonEmptySnoc(before, part);
  }

  /** The label's letters and digits, character by character: each lowered, and kept if it then is one. */
  lemma SanitisedChar(s: string, c: char, lower: char -> char)
    ensures Sanitised("", lower) == ""
    ensures Sanitised(s + [c], lower) == Sanitised(s, lower) + if 'a' <= lower(c) <= 'z' || '0' <= lower(c) <= '9' then [lower(c)] else []
  {
    assert (s + [c])[..|s|] == s;
  }

  /** A name of letters and digits, not of digits alone. */
  predicate Names(s: string) {
    !AllDigits(s) && forall i :: 0 <= i < |s| ==> LabelChar(s[i])
  }

  datatype Protocol = Http | Ws

  function Text(p: Protocol): string {
    if p.Ws? then "ws" else "http"
  }

  function Lower(s: string, lower: char -> char): string {
    seq(|s|, i requires 0 <= i < |s| => lower(s[i]))
  }

  function ProtocolOf(endpoint: string, r: Reader): Protocol {
    match r.parse(TrimSpace(endpoint))
    case None => Http
    case Some(u) => if Lower(u.scheme, r.lower) == "ws" || Lower(u.scheme, r.lower) == "wss" then Ws else Http
  }

  function Who(endpoint: string, local: bool, r: Reader): string {
    if local then "local"
    else match r.parse(TrimSpace(endpoint))
      case None => "rpc"
      case Some(u) => if Label(u.host, r.lower) != "" then Label(u.host, r.lower) else "rpc"
  }

  /** upstreamTag. */
  function UpstreamTag(endpoint: string, local: bool, r: Reader): string {
    Who(endpoint, local, r) + "-" + Text(ProtocolOf(endpoint, r))
  }

  /** What a tag says: "local" for one of this machine, else the label of the host or "rpc"; and "ws" exactly for the two schemes over web sockets. */
  lemma TagExactly(endpoint: string, local: bool, r: Reader)
    ensures var read := r.parse(TrimSpace(endpoint));
            && (local ==> Who(endpoint, local, r) == "local")
            && (!local && read.Some? && Label(read.value.host, r.lower) != "" ==> Who(endpoint, local, r) == Label(read.value.host, r.lower))
            && (!local && (read.None? || Label(read.value.host, r.lower) == "") ==> Who(endpoint, local, r) == "rpc")
            && (ProtocolOf(endpoint, r) == Ws <==> read.Some? && Lower(read.value.scheme, r.lower) in {"ws", "wss"})
            && UpstreamTag(endpoint, local, r) == Who(endpoint, local, r) + if ProtocolOf(endpoint, r) == Ws then "-ws" else "-http"
  {
    assert "-" + "ws" == "-ws" && "-" + "http" == "-http";
    var who := Who(endpoint, local, r);
    assert who + "-" + Text(ProtocolOf(endpoint, r)) == who + ("-" + Text(ProtocolOf(endpoint, r)));
  }

  /** However a URL is read, a tag is a name, a dash and a protocol. */
  lemma WhoNames(endpoint: string, local: bool, r: Reader)
    ensures Names(Who(endpoint, local, r))
  {
    assert "local"[0] == 'l' && "rpc"[0] == 'r';
  }
}
