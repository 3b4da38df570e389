/**
 The UserKnownHostsFile value of an ssh command a server sent: which lists this
 machine accepts, and what ssh's own splitter then reads in them. Strings are bytes.
 */
module KnownHosts {
  import opened Strings
  import opened Wrappers

  datatype Refusal =
    | NoFile
    | UnterminatedQuote
    | BadQuotedPath
    | BadBarePath
    | MalformedList
    | NotAPath
    | ReadDifferently

  predicate Control(c: char) {
    c as int < 0x20 || c as int == 0x7F
  }

  /** What ssh would neither expand nor reinterpret. */
  predicate SshPathOk(s: string) {
    s != "" && s[0] != '-' && s[0] != '~'
    && forall i :: 0 <= i < |s| ==> !Control(s[i]) && s[i] != '%' && s[i] != '$'
  }

  /** Whether the splitter would take the backslash at i for an escape. */
  predicate EscapesAt(p: string, i: nat)
    requires i < |p|
  {
    p[i] == '\\' && (i == |p| - 1 || p[i + 1] == '\\' || p[i + 1] == ' ')
  }

  /** A path the splitter reads as it stands. */
  predicate KnownHostsPathOk(p: string) {
    '\'' !in p && '"' !in p && forall i :: 0 <= i < |p| ==> !EscapesAt(p, i)
  }

  method CheckKnownHostsPath(p: string) returns (r: Result<(), Refusal>)
    ensures r == if KnownHostsPathOk(p) then Ok(()) else Err(ReadDifferently)
  {
    if '\'' in p || '"' in p {
      return Err(ReadDifferently);
    }
    for i := 0 to |p|
      invariant forall k :: 0 <= k < i ==> !EscapesAt(p, k)
    {
      if p[i] != '\\' {
        continue;
      }
      if i == |p| - 1 || p[i + 1] == '\\' || p[i + 1] == ' ' {
        assert EscapesAt(p, i);
        return Err(ReadDifferently);
      }
    }
    r := Ok(());
  }

  /** One file of a list: its path, and whether it stands in quotes. */
  datatype File = File(path: string, quoted: bool)

  predicate FileOk(f: File) {
    SshPathOk(f.path) && KnownHostsPathOk(f.path) && (f.quoted || ' ' !in f.path)
  }

  function Text(f: File): string {
    if f.quoted then ['"'] + f.path + ['"'] else f.path
  }

  /** Files as a list is written: single spaces between them. */
  function Listing(files: seq<File>): string {
    if files == [] then ""
    else if |files| == 1 then Text(files[0])
    else Text(files[0]) + " " + Listing(files[1..])
  }

  /** The first file of a list, and what follows it. */
  function Token(v: string): (r: Result<(File, string), Refusal>)
    requires v != ""
    ensures r.Ok? ==> |r.value.1| <= |v|
  {
    if v[0] == '"' then
      var end := IndexByte(v[1..], '"');
      if end == |v| - 1 then Err(UnterminatedQuote)
      else
        var path := v[1..][..end];
        if '\t' in path || (path != "" && path[|path| - 1] == '\\') then Err(BadQuotedPath) else Ok((File(path, true), v[1..][end + 1..]))
    else
      var end := IndexByte(v, ' ');
      if '\t' in v[..end] || '"' in v[..end] then Err(BadBarePath) else Ok((File(v[..end], false), v[end..]))
  }

  /** The files of a list, if it is acceptable. */
  function Parse(v: string): Option<seq<File>>
    decreases |v|
  {
    if v == "" then None
    else match Token(v)
      case Err(_) => None
      case Ok((f, rest)) =>
        if rest == "" then if FileOk(f) then Some([f]) else None
        else if rest[0] != ' ' || |rest| == 1 || !FileOk(f) then None
        else match Parse(rest[1..])
          case None => None
          case Some(more) => Some([f] + more)
  }

  /** Each file of an acceptable list: a path that is no option and no home, with nothing in it that is expanded or quotes. */
  lemma ParsedIsPlain(v: string, i: nat)
    requires Parse(v).Some? && i < |Parse(v).value|
    ensures var f := Parse(v).value[i];
            && f.path != "" && f.path[0] != '-' && f.path[0] != '~' && (' ' in f.path ==> f.quoted)
            && forall c :: c in f.path ==> c as int >= 0x20 && c as int != 0x7F && c != '%' && c != '$' && c != '"' && c != '\''
  {
    ParsedIsListing(v);
    var path := Parse(v).value[i].path;
    assert FileOk(Parse(v).value[i]);
    forall c | c in path ensures c as int >= 0x20 && c as int != 0x7F && c != '%' && c != '$' {
      var k :| 0 <= k < |path| && path[k] == c;
      assert !Control(path[k]);
    }
  }

  method CheckKnownHostsList(list: string) returns (r: Result<(), Refusal>)
    ensures r.Ok? <==> Parse(list).Some?
  {
    var v := list;
    if v == "" {
      return Err(NoFile);
    }
    while v != ""
      invariant Parse(list).Some? <==> v == "" || Parse(v).Some?
      decreases |v|
    {
      var path: string, rest: string;
      ghost var quoted := v[0] == '"';
      if v[0] == '"' {
        var end := IndexByte(v[1..], '"');
        if end == |v| - 1 {
          return Err(UnterminatedQuote);
        }
        path, rest := v[1..][..end], v[1..][end + 1..];
        if '\t' in path || (path != "" && path[|path| - 1] == '\\') {
          return Err(BadQuotedPath);
        }
      } else {
        var end := IndexByte(v, ' ');
        path, rest := v[..end], v[end..];
        if '\t' in path || '"' in path {
          return Err(BadBarePath);
        }
      }
      assert Token(v) == Ok((File(path, quoted), rest));
      TokenIsText(v);
      if rest != "" {
        if rest[0] != ' ' || |rest| == 1 {
          return Err(MalformedList);
        }
        rest := rest[1..];
      }
      if !SshPathOk(path) {
        return Err(NotAPath);
      }
      var same := CheckKnownHostsPath(path);
      if same.Err? {
        return same;
      }
      v := rest;
    }
    r := Ok(());
  }

  /** What a token was read from. */
  lemma TokenIsText(v: string)
    requires v != "" && Token(v).Ok?
    ensures var (f, rest) := Token(v).value; v == Text(f) + rest && (f.quoted || ' ' !in f.path)
  {
    if v[0] == '"' {
      var end := IndexByte(v[1..], '"');
      assert v == ['"'] + v[1..][..end] + ['"'] + v[1..][end + 1..];
    }
  }

  /** Reading back one file and what follows it. */
  lemma TokenOfText(f: File, rest: string)
    requires FileOk(f) && (rest == "" || rest[0] == ' ')
    ensures Text(f) + rest != "" && Token(Text(f) + rest) == Ok((f, rest))
  {
    if f.quoted {
      QuotedIsRead(f, rest);
    } else {
      PlainIsRead(f, rest);
    }
  }

  lemma QuotedIsRead(f: File, rest: string)
    requires FileOk(f) && f.quoted
    ensures Token(Text(f) + rest) == Ok((f, rest))
  {
    var v := Text(f) + rest;
    assert v[1..] == f.path + ['"'] + rest;
    IndexAfter(f.path, '"', rest);
    assert v[1..][..|f.path|] == f.path && v[1..][|f.path| + 1..] == rest;
    if f.path[|f.path| - 1] == '\\' {
      assert EscapesAt(f.path, |f.path| - 1);
    }
  }

  lemma PlainIsRead(f: File, rest: string)
    requires FileOk(f) && !f.quoted && (rest == "" || rest[0] == ' ')
    ensures Token(Text(f) + rest) == Ok((f, rest))
  {
    var v := Text(f) + rest;
    assert v[0] == f.path[0];
    FirstSpace(f.path, rest);
    assert v[..|f.path|] == f.path && v[|f.path|..] == rest;
  }

  lemma FirstSpace(path: string, rest: string)
    requires ' ' !in path && (rest == "" || rest[0] == ' ')
    ensures IndexByte(path + rest, ' ') == |path|
  {
    if rest == "" {
      assert path + rest == path;
      IndexAbsent(path, ' ');
    } else {
      assert path + rest == path + [' '] + rest[1..];
      IndexAfter(path, ' ', rest[1..]);
    }
  }

  /** What is accepted is a listing of acceptable files. */
  lemma {:induction false} ParsedIsListing(v: string)
    requires Parse(v).Some?
    ensures var files := Parse(v).value; files != [] && Listing(files) == v && forall i :: 0 <= i < |files| ==> FileOk(files[i])
    decreases |v|
  {
    var (f, rest) := Token(v).value;
    FirstFile(v);
    if rest == "" {
      ListingCons(f, []);
      assert [f] + [] == [f];
    } else {
      ParsedIsListing(rest[1..]);
      ListingCons(f, Parse(rest[1..]).value);
    }
  }

  /** A list that parses is its first file, and what is left parses too. */
  lemma FirstFile(v: string)
    requires Parse(v).Some?
    ensures v != "" && Token(v).Ok?
    ensures var (f, rest) := Token(v).value;
            && FileOk(f) && v == Text(f) + rest
            && if rest == "" then Parse(v) == Some([f])
               else rest == " " + rest[1..] && |rest| <= |v| && Parse(rest[1..]).Some? && Parse(v) == Some([f] + Parse(rest[1..]).value)
  {
    TokenIsText(v);
    var (f, rest) := Token(v).value;
    if rest != "" {
      assert rest == [rest[0]] + rest[1..];
    }
  }

  lemma ListingCons(f: File, more: seq<File>)
    ensures Listing([f] + more) == Text(f) + if more == [] then "" else " " + Listing(more)
  {
    var files := [f] + more;
    assert files[0] == f && files[1..] == more;
    assert Text(f) + "" == Text(f);
    assert Text(f) + " " + Listing(more) == Text(f) + (" " + Listing(more));
  }

  /** Every listing of acceptable files is accepted, and read back as those files. */
  lemma {:induction false} ListingIsParsed(files: seq<File>)
    requires files != [] && forall i :: 0 <= i < |files| ==> FileOk(files[i])
    ensures Parse(Listing(files)) == Some(files)
  {
    if |files| == 1 {
      TokenOfText(files[0], "");
      assert Text(files[0]) + "" == Text(files[0]);
      assert files == [files[0]];
    } else {
      ListingIsParsed(files[1..]);
      FileThenList(files[0], Listing(files[1..]));
      assert files == [files[0]] + files[1..];
    }
  }

  lemma FileThenList(f: File, list: string)
    requires FileOk(f) && Parse(list).Some?
    ensures Parse(Text(f) + " " + list) == Some([f] + Parse(list).value)
  {
    var rest := " " + list;
    TokenOfText(f, rest);
    assert Text(f) + " " + list == Text(f) + rest;
    assert rest[1..] == list;
  }

  /** The screen accepts exactly the listings of acceptable files, each in one way only. */
  lemma AcceptedExactly(v: string, files: seq<File>)
    ensures Parse(v) == Some(files) <==> files != [] && v == Listing(files) && forall i :: 0 <= i < |files| ==> FileOk(files[i])
  {
    if Parse(v).Some? {
      ParsedIsListing(v);
    }
    if files != [] && v == Listing(files) && forall i :: 0 <= i < |files| ==> FileOk(files[i]) {
      ListingIsParsed(files);
    }
  }

  // ssh's own splitter, as the source describes it: quotes of either kind group, and a backslash
  // before a backslash, a quote or, outside quotes, a space stands for that character.

  predicate Blank(c: char) {
    c == ' ' || c == '\t'
  }

  predicate QuoteChar(c: char) {
    c == '"' || c == '\''
  }

  function Push(c: char, r: Option<(string, string)>): Option<(string, string)> {
    match r
    case None => None
    case Some((w, rest)) => Some(([c] + w, rest))
  }

  /** The rest of a word, within a quote or not, and what follows it; None when a quote is never closed. */
  function Word(s: string, quote: Option<char>): (r: Option<(string, string)>)
    ensures r.Some? ==> |r.value.1| <= |s|
    ensures r.Some? && s != "" && !Blank(s[0]) ==> |r.value.1| < |s|
  {
    if s == "" then if quote.None? then Some(("", "")) else None
    else if s[0] == '\\' then
      if |s| > 1 && (QuoteChar(s[1]) || s[1] == '\\' || (quote.None? && s[1] == ' ')) then Push(s[1], Word(s[2..], quote))
      else Push(s[0], Word(s[1..], quote))
    else if quote.None? && Blank(s[0]) then Some(("", s))
    else if quote.None? && QuoteChar(s[0]) then Word(s[1..], Some(s[0]))
    else if quote == Some(s[0]) then Word(s[1..], None)
    else Push(s[0], Word(s[1..], quote))
  }

  function Words(s: string): Option<seq<string>>
    decreases |s|
  {
    if s == "" then Some([])
    else if Blank(s[0]) then Words(s[1..])
    else match Word(s, None)
      case None => None
      case Some((w, rest)) =>
        match Words(rest)
        case None => None
        case Some(more) => Some([w] + more)
  }

  /** The splitter copies an acceptable path, in quotes or out of them. */
  lemma {:induction false} PathIsCopied(path: string, tail: string, quote: Option<char>)
    requires KnownHostsPathOk(path) && '\t' !in path && (quote == Some('"') || (quote.None? && ' ' !in path))
    requires path == "" || path[|path| - 1] != '\\'
    requires Word(tail, quote).Some?
    ensures Word(path + tail, quote) == Some((path + Word(tail, quote).value.0, Word(tail, quote).value.1))
  {
    if path == "" {
      var w := Word(tail, quote).value.0;
      assert path + tail == tail && path + w == w;
    } else {
      var more := path[1..];
      assert (path + tail)[1..] == more + tail;
      forall i | 0 <= i < |more| ensures !EscapesAt(more, i) {
        assert !EscapesAt(path, i + 1);
      }
      PathIsCopied(more, tail, quote);
      assert !EscapesAt(path, 0);
      assert path == [path[0]] + more;
      assert [path[0]] + (more + Word(tail, quote).value.0) == path + Word(tail, quote).value.0;
      if path[0] == '\\' {
        assert (path + tail)[1] == path[1];
      }
    }
  }

  lemma FileIsOneWord(f: File, rest: string)
    requires FileOk(f) && (rest == "" || rest[0] == ' ')
    ensures Word(Text(f) + rest, None) == Some((f.path, rest))
  {
    assert !EscapesAt(f.path, |f.path| - 1);
    if f.quoted {
      var tail := ['"'] + rest;
      assert tail[1..] == rest;
      assert Word(rest, None) == Some(("", rest));
      assert Word(tail, Some('"')) == Some(("", rest));
      PathIsCopied(f.path, tail, Some('"'));
      var all := Text(f) + rest;
      assert all[1..] == f.path + tail;
      assert f.path + "" == f.path;
    } else {
      PathIsCopied(f.path, rest, None);
      assert f.path + "" == f.path;
    }
  }

  function Paths(files: seq<File>): (r: seq<string>)
    ensures |r| == |files| && forall i :: 0 <= i < |r| ==> r[i] == files[i].path
  {
    if files == [] then [] else [files[0].path] + Paths(files[1..])
  }

  /** On every accepted list, ssh reads the very paths that were checked: none split, joined or changed. */
  lemma {:induction false} SshReadsWhatWasChecked(files: seq<File>)
    requires forall i :: 0 <= i < |files| ==> FileOk(files[i])
    ensures Words(Listing(files)) == Some(Paths(files))
  {
    if files != [] {
      var rest := if |files| == 1 then "" else " " + Listing(files[1..]);
      assert Listing(files) == Text(files[0]) + rest;
      FileIsOneWord(files[0], rest);
      SshReadsWhatWasChecked(files[1..]);
      if |files| > 1 {
        assert rest[1..] == Listing(files[1..]);
        assert Words(rest) == Words(rest[1..]);
      }
    }
  }
}
