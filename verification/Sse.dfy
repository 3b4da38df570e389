/**
 Reading a server-sent event stream. Lines end in a newline, with a carriage
 return before it dropped; an event is what its fields say once a blank line
 follows, and an event the stream never finished is not one.
 */
module Sse {
  import opened Spaces
  import opened Newlines
  import opened Strings

  datatype Event = Event(name: string, data: string)

  /** What parsing has gathered of the event it is in, and the events before it. */
  datatype State = State(name: string, data: string, has: bool, events: seq<Event>)

  const START := State("", "", false, [])

  function DropCR(s: string): string {
    if s != "" && s[|s| - 1] == '\r' then s[..|s| - 1] else s
  }

  /** One line as it is read: the scanner drops a carriage return, and the parser another. */
  function Clean(s: string): string {
    DropCR(DropCR(s))
  }

  const EVENT := "event:"
  const DATA := "data:"

  function WithoutSpace(s: string): string {
    if s != "" && s[0] == ' ' then s[1..] else s
  }

  function Field(s: State, line: string): State {
    if ":" <= line then s
    else if EVENT <= line then s.(name := TrimSpace(line[|EVENT|..]))
    else if DATA <= line then
      s.(data := (if s.has then s.data + "\n" else s.data) + WithoutSpace(line[|DATA|..]), has := true)
    else s
  }

  /** What one line does. */
  function Step(s: State, line: string): State {
    if line == "" then State("", "", false, if s.has then s.events + [Event(s.name, s.data)] else s.events)
    else Field(s, line)
  }

  /** The lines of a text; what follows the last newline is one too, unless it is empty. */
  function Lines(s: string): seq<string> {
    if s == "" then []
    else
      var i := IndexByte(s, '\n');
      if i == |s| then [Clean(s)] else [Clean(s[..i])] + Lines(s[i + 1..])
  }

  function Run(s: State, lines: seq<string>): State
    decreases |lines|
  {
    if lines == [] then s else Run(Step(s, lines[0]), lines[1..])
  }

  function Parse(text: string): seq<Event> {
    Run(START, Lines(text)).events
  }

  method ParseSSE(text: string) returns (events: seq<Event>)
    ensures events == Parse(text)
  {
    var name, data, has := "", "", false;
    events := [];
    var rest := text;
    while rest != ""
      invariant Run(State(name, data, has, events), Lines(rest)) == Run(START, Lines(text))
      decreases |rest|
    {
      var line, next := ScanLine(rest);
      RunFirst(State(name, data, has, events), line, Lines(next));
      name, data, has, events := TakeLine(name, data, has, events, line);
      rest := next;
    }
  }

  /** The scanner's next line, and what follows it. */
  method ScanLine(text: string) returns (line: string, next: string)
    requires text != ""
    ensures |next| < |text| && Lines(text) == [line] + Lines(next)
  {
    var i := IndexByte(text, '\n');
    if i == |text| {
      return Clean(text), "";
    }
    FirstLine(text, i);
    return Clean(text[..i]), text[i + 1..];
  }

  /** One turn of the loop. */
  method TakeLine(name0: string, data0: string, has0: bool, events0: seq<Event>, line: string)
    returns (name: string, data: string, has: bool, events: seq<Event>)
    ensures State(name, data, has, events) == Step(State(name0, data0, has0, events0), line)
  {
    name, data, has, events := name0, data0, has0, events0;
    if line == "" {
      if has {
        events := events + [Event(name, data)];
      }
      name, data, has := "", "", false;
    } else if ":" <= line {
    } else if EVENT <= line {
      name := TrimSpace(line[|EVENT|..]);
    } else if DATA <= line {
      if has {
        data := data + "\n";
      }
      data := data + WithoutSpace(line[|DATA|..]);
      has := true;
    }
  }

  // What the lines say, block by block.

  /** The lines after the last blank one. */
  function Pending(lines: seq<string>): seq<string> {
    if lines == [] || lines[|lines| - 1] == "" then [] else Pending(lines[..|lines| - 1]) + [lines[|lines| - 1]]
  }

  /** What the last line of a block that names the event says; nothing without one. */
  function NameIn(block: seq<string>): string {
    if block == [] then ""
    else if "event:" <= block[|block| - 1] then TrimSpace(block[|block| - 1][6..])
    else NameIn(block[..|block| - 1])
  }

  /** The values of a block's data lines, one leading space dropped from each. */
  function DataIn(block: seq<string>): seq<string> {
    if block == [] then []
    else
      var last := block[|block| - 1];
      DataIn(block[..|block| - 1]) + if "data:" <= last then [if last[5..] != "" && last[5] == ' ' then last[6..] else last[5..]] else []
  }

  /** An event for each blank line that ends a block with data: its name, and its data lines joined. */
  function EventsIn(lines: seq<string>): seq<Event> {
    if lines == [] then []
    else
      var init, block := lines[..|lines| - 1], Pending(lines[..|lines| - 1]);
      EventsIn(init) + if lines[|lines| - 1] == "" && DataIn(block) != [] then [Event(NameIn(block), Join(DataIn(block)))] else []
  }

  /** What the parser holds after these lines. */
  function Held(lines: seq<string>): State {
    var block := Pending(lines);
    State(NameIn(block), Join(DataIn(block)), DataIn(block) != [], EventsIn(lines))
  }

  lemma StepHolds(lines: seq<string>, line: string)
    ensures Step(Held(lines), line) == Held(lines + [line])
  {
    var block := Pending(lines);
    assert (lines + [line])[..|lines|] == lines;
    if line != "" {
      assert (block + [line])[..|block|] == block;
      Marks(line);
      assert EventsIn(lines + [line]) == EventsIn(lines) + [] == EventsIn(lines);
      if "data:" <= line {
        var w := WithoutSpace(line[5..]);
        assert line[5..] != "" ==> line[5..][1..] == line[6..];
        assert DataIn(block + [line]) == DataIn(block) + [w];
        JoinSnoc(DataIn(block), w);
        assert "" + w == w;
      } else {
        assert DataIn(block + [line]) == DataIn(block) + [] == DataIn(block);
      }
    }
  }

  lemma Marks(line: string)
    ensures ":" <= line ==> !("event:" <= line) && !("data:" <= line)
    ensures "event:" <= line ==> !("data:" <= line)
  {
    if ":" <= line {
      assert line[0] == ':' && "event:"[0] == 'e' && "data:"[0] == 'd';
    }
    if "event:" <= line {
      assert line[0] == 'e' && "data:"[0] == 'd';
    }
  }

  lemma {:induction false} RunHolds(lines: seq<string>)
    ensures Run(START, lines) == Held(lines)
  {
    if lines != [] {
      var init, last := lines[..|lines| - 1], lines[|lines| - 1];
      RunHolds(init);
      StepHolds(init, last);
      RunConcat(START, init, [last]);
      assert lines == init + [last];
      assert Run(Held(init), [last]) == Step(Held(init), last);
    }
  }

  /** So what is parsed of a text are the events its lines hold. */
  lemma ParseExactly(text: string)
    ensures Parse(text) == EventsIn(Lines(text))
  {
    RunHolds(Lines(text));
  }

  // Lines

  lemma RunFirst(s: State, line: string, lines: seq<string>)
    ensures Run(s, [line] + lines) == Run(Step(s, line), lines)
  {
    assert ([line] + lines)[1..] == lines;
  }

  lemma {:induction false} RunConcat(s: State, a: seq<string>, b: seq<string>)
    ensures Run(s, a + b) == Run(Run(s, a), b)
    decreases |a|
  {
    if a == [] {
      assert a + b == b;
    } else {
      RunConcat(Step(s, a[0]), a[1..], b);
      assert (a + b)[1..] == a[1..] + b;
    }
  }

  predicate Ended(text: string) {
    text == "" || text[|text| - 1] == '\n'
  }

  /** Text after ended text adds its own lines. */
  lemma {:induction false} LinesConcat(a: string, b: string)
    requires Ended(a)
    ensures Lines(a + b) == Lines(a) + Lines(b)
    decreases |a|
  {
    if a == "" {
      assert a + b == b;
    } else {
      var i := IndexByte(a, '\n');
      FirstNewline(a, b);
      SplitConcat(a, b, i);
      LinesConcat(a[i + 1..], b);
      FirstLine(a, i);
      FirstLine(a + b, i);
      Regroup([Clean(a[..i])], Lines(a[i + 1..]), Lines(b));
    }
  }

  lemma FirstLine(s: string, i: nat)
    requires i == IndexByte(s, '\n') < |s|
    ensures Lines(s) == [Clean(s[..i])] + Lines(s[i + 1..])
  {
  }

  lemma SplitConcat(a: string, b: string, i: nat)
    requires i < |a|
    ensures (a + b)[..i] == a[..i] && (a + b)[i + 1..] == a[i + 1..] + b
  {
  }

  lemma FirstNewline(a: string, b: string)
    requires a != "" && Ended(a)
    ensures IndexByte(a, '\n') < |a| && IndexByte(a + b, '\n') == IndexByte(a, '\n')
  {
    var i := IndexByte(a, '\n');
    assert a[|a| - 1] == '\n';
    assert forall k :: 0 <= k < |a| ==> (a + b)[k] == a[k];
    assert (a + b)[i] == a[i];
  }

  lemma OneLine(line: string)
    requires '\n' !in line
    ensures Lines(line + "\n") == [Clean(line)]
    ensures line != "" ==> Lines(line) == [Clean(line)]
  {
    IndexAfter(line, '\n', "");
    IndexAbsent(line, '\n');
    var text := line + "\n";
    assert line + ['\n'] + "" == text && text[..|line|] == line && text[|line| + 1..] == "";
  }

  // What comments do.

  /** A comment line between any two lines changes nothing. */
  lemma CommentsAreSkipped(before: string, comment: string, after: string)
    requires Ended(before) && '\n' !in comment
    ensures Parse(before + (":" + comment + "\n" + after)) == Parse(before + after)
  {
    var line := ":" + comment;
    LinesConcat(before, after);
    RunConcat(START, Lines(before), Lines(after));
    LinesConcat(before, line + "\n" + after);
    LineThen(line, after);
    RunConcat(START, Lines(before), [Clean(line)] + Lines(after));
    RunFirst(Run(START, Lines(before)), Clean(line), Lines(after));
  }

  lemma LineThen(line: string, after: string)
    requires '\n' !in line
    ensures Lines(line + "\n" + after) == [Clean(line)] + Lines(after)
  {
    LinesConcat(line + "\n", after);
    OneLine(line);
  }

  // Printing and parsing

  function PrintData(lines: seq<string>): string {
    if lines == [] then "" else PrintData(lines[..|lines| - 1]) + (DATA + " " + lines[|lines| - 1] + "\n")
  }

  function Print(e: Event): string {
    (if e.name == "" then "" else EVENT + " " + e.name + "\n") + PrintData(Split(e.data)) + "\n"
  }

  function Texts(events: seq<Event>): (texts: seq<string>)
    ensures |texts| == |events| && forall i :: 0 <= i < |texts| ==> texts[i] == Print(events[i])
  {
    if events == [] then [] else Texts(events[..|events| - 1]) + [Print(events[|events| - 1])]
  }

  function Concat(texts: seq<string>): string {
    if texts == [] then "" else Concat(texts[..|texts| - 1]) + texts[|texts| - 1]
  }

  function PrintAll(events: seq<Event>): string {
    Concat(Texts(events))
  }

  predicate EndsInCR(s: string) {
    s != "" && s[|s| - 1] == '\r'
  }

  /** An event that survives being written down: a trimmed one-line name, and data whose lines do not end in a carriage return. */
  predicate Printable(e: Event) {
    && TrimSpace(e.name) == e.name && '\n' !in e.name
    && forall i :: 0 <= i < |Split(e.data)| ==> !EndsInCR(Split(e.data)[i])
  }

  lemma LineAdded(s: State, text: string, line: string)
    requires Ended(text) && '\n' !in line && !EndsInCR(line)
    ensures Run(s, Lines(text + (line + "\n"))) == Step(Run(s, Lines(text)), line)
    ensures Ended(text + (line + "\n"))
  {
    LinesConcat(text, line + "\n");
    OneLine(line);
    RunConcat(s, Lines(text), [line]);
  }

  lemma DataStep(s: State, d: string)
    ensures Step(s, DATA + " " + d) == s.(data := (if s.has then s.data + "\n" else s.data) + d, has := true)
  {
    var line := DATA + " " + d;
    assert line[0] == 'd';
    assert line[|DATA|..] == " " + d;
    assert (" " + d)[1..] == d;
  }

  lemma {:induction false} DataIsRead(s: State, lines: seq<string>)
    requires !s.has && s.data == "" && Whole(lines) && forall i :: 0 <= i < |lines| ==> !EndsInCR(lines[i])
    ensures Ended(PrintData(lines))
    ensures Run(s, Lines(PrintData(lines))) == if lines == [] then s else s.(data := Join(lines), has := true)
  {
    if lines != [] {
      var init, last := lines[..|lines| - 1], lines[|lines| - 1];
      DataIsRead(s, init);
      OneMoreData(s, PrintData(init), last);
      assert lines == init + [last];
      JoinSnoc(init, last);
      assert "" + last == last;
    }
  }

  lemma OneMoreData(s: State, text: string, d: string)
    requires Ended(text) && '\n' !in d && !EndsInCR(d)
    ensures Ended(text + (DATA + " " + d + "\n"))
    ensures var t := Run(s, Lines(text));
            Run(s, Lines(text + (DATA + " " + d + "\n"))) == t.(data := (if t.has then t.data + "\n" else t.data) + d, has := true)
  {
    DataLineIsLine(d);
    LineAdded(s, text, DATA + " " + d);
    DataStep(Run(s, Lines(text)), d);
  }

  lemma DataLineIsLine(d: string)
    requires '\n' !in d && !EndsInCR(d)
    ensures '\n' !in DATA + " " + d && !EndsInCR(DATA + " " + d)
  {
    if d != "" {
      assert (DATA + " " + d)[|DATA| + |d|] == d[|d| - 1];
    }
  }

  lemma NameStep(s: State, name: string)
    requires TrimSpace(name) == name && name != ""
    ensures Step(s, EVENT + " " + name) == s.(name := name) && !EndsInCR(EVENT + " " + name)
  {
    var line, rest := EVENT + " " + name, " " + name;
    assert line[0] == 'e' && line[|line| - 1] == name[|name| - 1];
    assert line[|EVENT|..] == rest;
    assert rest[|rest| - 1] == name[|name| - 1] && rest[..|rest|] == rest && rest[1..] == name;
    assert LeadLen(rest) == 1;
  }

  lemma EventIsRead(s: State, e: Event)
    requires Printable(e) && s == State("", "", false, s.events)
    ensures Ended(Print(e)) && Run(s, Lines(Print(e))) == State("", "", false, s.events + [e])
  {
    var head := if e.name == "" then "" else EVENT + " " + e.name + "\n";
    var named := s.(name := e.name);
    if e.name != "" {
      NameStep(s, e.name);
      OneLine(EVENT + " " + e.name);
      assert Lines(head) == [EVENT + " " + e.name];
    }
    assert Run(s, Lines(head)) == named;
    SplitIsWhole(e.data);
    JoinOfSplit(e.data);
    var data := PrintData(Split(e.data));
    DataIsRead(named, Split(e.data));
    LinesConcat(head, data);
    RunConcat(s, Lines(head), Lines(data));
    EndedConcat(head, data);
    LineAdded(s, head + data, "");
    assert "" + "\n" == "\n";
  }

  lemma EndedConcat(a: string, b: string)
    requires Ended(a) && Ended(b)
    ensures Ended(a + b)
  {
  }

  /** Whether text, read between events, is the event e. */
  ghost predicate Reads(text: string, e: Event) {
    Ended(text) && forall before :: Run(State("", "", false, before), Lines(text)) == State("", "", false, before + [e])
  }

  lemma PrintedReads(e: Event)
    requires Printable(e)
    ensures Reads(Print(e), e)
  {
    forall before ensures Run(State("", "", false, before), Lines(Print(e))) == State("", "", false, before + [e]) {
      EventIsRead(State("", "", false, before), e);
    }
    EventIsRead(START, e);
  }

  /** Whether text, read from the start, is these events and ends between events. */
  predicate Holds(text: string, events: seq<Event>) {
    Ended(text) && Run(START, Lines(text)) == State("", "", false, events)
  }

  lemma {:induction false} AllAreRead(texts: seq<string>, events: seq<Event>)
    requires |texts| == |events| && forall i :: 0 <= i < |texts| ==> Reads(texts[i], events[i])
    ensures Holds(Concat(texts), events)
  {
    if events != [] {
      var n := |events| - 1;
      AllAreRead(texts[..n], events[..n]);
      OneMoreRead(Concat(texts[..n]), events[..n], texts[n], events[n]);
      assert events[..n] + [events[n]] == events;
    }
  }

  lemma OneMoreRead(before: string, events: seq<Event>, text: string, e: Event)
    requires Holds(before, events) && Reads(text, e)
    ensures Holds(before + text, events + [e])
  {
    LinesConcat(before, text);
    RunConcat(START, Lines(before), Lines(text));
    EndedConcat(before, text);
  }

  /** Events written down and parsed are the events. */
  lemma ParseOfPrint(events: seq<Event>)
    requires forall i :: 0 <= i < |events| ==> Printable(events[i])
    ensures Parse(PrintAll(events)) == events
  {
    forall i | 0 <= i < |events| ensures Reads(Texts(events)[i], events[i]) {
      PrintedReads(events[i]);
    }
    AllAreRead(Texts(events), events);
  }

  // Streams cut short

  /** Where the last line that has ended, ends. */
  function LastEnd(text: string): (n: nat)
    ensures n <= |text| && Ended(text[..n]) && '\n' !in text[n..]
  {
    if Ended(text) then |text| else LastEnd(text[..|text| - 1])
  }

  lemma {:induction false} EventsGrow(s: State, lines: seq<string>)
    ensures s.events <= Run(s, lines).events
    decreases |lines|
  {
    if lines != [] {
      EventsGrow(Step(s, lines[0]), lines[1..]);
    }
  }

  /** What a cut of the stream has read before its last, unfinished line. */
  function Before(text: string): State {
    Run(START, Lines(text[..LastEnd(text)]))
  }

  /** Whether the cut left an unfinished line of nothing but carriage returns where an event was pending: it is taken for a blank line. */
  predicate Premature(text: string) {
    var fragment := text[LastEnd(text)..];
    fragment != "" && Clean(fragment) == "" && Before(text).has
  }

  lemma CleanIsBlank(fragment: string)
    ensures fragment != "" && Clean(fragment) == "" <==> fragment == "\r" || fragment == "\r\r"
  {
    if fragment == "\r\r" {
      assert fragment[..1] == "\r";
    }
  }

  /** A cut stream parses to what was whole, unless it was cut prematurely. */
  lemma CutParses(text: string)
    ensures Parse(text) == Before(text).events + if Premature(text) then [Event(Before(text).name, Before(text).data)] else []
  {
    var whole, fragment := text[..LastEnd(text)], text[LastEnd(text)..];
    assert text == whole + fragment;
    LinesConcat(whole, fragment);
    RunConcat(START, Lines(whole), Lines(fragment));
    if fragment != "" {
      OneLine(fragment);
      RunOne(Before(text), Clean(fragment));
      StepEmits(Before(text), Clean(fragment));
    }
  }

  lemma RunOne(s: State, line: string)
    ensures Run(s, [line]) == Step(s, line)
  {
    assert [line][1..] == [];
  }

  lemma StepEmits(s: State, line: string)
    ensures Step(s, line).events == if line == "" && s.has then s.events + [Event(s.name, s.data)] else s.events
  {
  }

  lemma ContinuedParses(text: string, more: string)
    ensures Before(text).events <= Parse(text + more)
  {
    var whole, fragment := text[..LastEnd(text)], text[LastEnd(text)..] + more;
    assert text + more == whole + fragment;
    LinesConcat(whole, fragment);
    RunConcat(START, Lines(whole), Lines(fragment));
    EventsGrow(Before(text), Lines(fragment));
  }

  lemma PrematureIsTakenBack(text: string)
    requires Premature(text)
    ensures Parse(text + "x") == Before(text).events
  {
    var whole, fragment := text[..LastEnd(text)], text[LastEnd(text)..];
    var line := fragment + "x";
    assert text + "x" == whole + line;
    LinesConcat(whole, line);
    RunConcat(START, Lines(whole), Lines(line));
    OneLine(line);
    CleanIsBlank(fragment);
    assert line[0] == '\r' && line[|line| - 1] == 'x';
  }

  /** However the stream goes on, what was parsed of its beginning stands: exactly when the cut was not premature. */
  lemma PrefixesStandExactly(text: string)
    ensures (forall more :: Parse(text) <= Parse(text + more)) <==> !Premature(text)
  {
    CutParses(text);
    if Premature(text) {
      PrematureIsTakenBack(text);
      assert |Parse(text)| > |Parse(text + "x")|;
    } else {
      forall more ensures Parse(text) <= Parse(text + more) {
        ContinuedParses(text, more);
      }
    }
  }

  /** A data line, and a carriage return that the stream was cut after: parsed as an event, and taken back if the line goes on. */
  lemma CutAfterReturn(d: string)
    requires '\n' !in d && !EndsInCR(d)
    ensures var text := DATA + " " + d + "\n" + "\r"; Parse(text) == [Event("", d)] && Parse(text + "x") == []
  {
    var whole := DATA + " " + d + "\n";
    OneMoreData(START, "", d);
    assert "" + whole == whole && "" + d == d;
    CutIsFragment(whole);
    CleanIsBlank("\r");
    CutParses(whole + "\r");
    PrematureIsTakenBack(whole + "\r");
  }

  lemma CutIsFragment(whole: string)
    requires Ended(whole)
    ensures var text := whole + "\r"; LastEnd(text) == |whole| && text[..LastEnd(text)] == whole && text[LastEnd(text)..] == "\r"
  {
    var text := whole + "\r";
    assert text[..|text| - 1] == whole;
  }
}
