/**
 Merging one public key into an authorized_keys file: its line brought to the
 current form, later copies dropped, every other line left alone.
 */
module TransportKey {
  import opened Spaces
  import opened Newlines
  import opened Strings

  // Lines that carry the key. has stands for carrying it: a line's fields decide, as LineHasKey says.

  /** Whether typ and blob are adjacent fields. */
  predicate Adjacent(fields: seq<string>, typ: string, blob: string) {
    exists i :: 1 <= i < |fields| && fields[i] == blob && fields[i - 1] == typ
  }

  method LineHasKey(line: string, typ: string, blob: string) returns (r: bool)
    ensures r == Adjacent(Fields(line), typ, blob)
  {
    var f := Fields(line);
    var i := 1;
    while i < |f|
      invariant 1 <= i
      invariant forall k :: 1 <= k < i && k < |f| ==> f[k] != blob || f[k - 1] != typ
    {
      if f[i] == blob && f[i - 1] == typ {
        return true;
      }
      i := i + 1;
    }
    r := false;
  }

  predicate AnyHas(lines: seq<string>, has: string -> bool) {
    exists i :: 0 <= i < |lines| && has(lines[i])
  }

  /** The first line with the key brought to the wanted form, later ones dropped. */
  function Folded(lines: seq<string>, has: string -> bool, want: string): seq<string> {
    if lines == [] then []
    else
      var init, last := lines[..|lines| - 1], lines[|lines| - 1];
      Folded(init, has, want) + if !has(last) then [last] else if AnyHas(init, has) then [] else [want]
  }

  /** Whether the key's only line ends the file without a newline. */
  predicate OnlyAtEnd(lines: seq<string>, has: string -> bool) {
    lines != [] && has(lines[|lines| - 1]) && !AnyHas(lines[..|lines| - 1], has)
  }

  /** What the first i lines become; a key line that ends the file is given its newline. */
  function FoldedTo(lines: seq<string>, i: nat, has: string -> bool, want: string): seq<string>
    requires i <= |lines|
  {
    if i == |lines| && OnlyAtEnd(lines, has) then Folded(lines[..i], has, want) + [""] else Folded(lines[..i], has, want)
  }

  /** The lines of the merged file. */
  function Merged(lines: seq<string>, has: string -> bool, want: string): seq<string> {
    if AnyHas(lines, has) then FoldedTo(lines, |lines|, has, want) else TrimBlank(lines) + [want, ""]
  }

  /** lines without the empty ones at the end. */
  function TrimBlank(lines: seq<string>): seq<string> {
    if lines != [] && lines[|lines| - 1] == "" then TrimBlank(lines[..|lines| - 1]) else lines
  }

  /** strings.TrimRight(s, "\n"). */
  function TrimNewlines(s: string): string {
    if s != "" && s[|s| - 1] == '\n' then TrimNewlines(s[..|s| - 1]) else s
  }

  function Has(key: string): string -> bool
    requires |Fields(key)| >= 2
  {
    line => Adjacent(Fields(line), Fields(key)[0], Fields(key)[1])
  }

  lemma AnyHasSnoc(lines: seq<string>, l: string, has: string -> bool)
    ensures AnyHas(lines + [l], has) <==> AnyHas(lines, has) || has(l)
  {
    var more := lines + [l];
    assert more[|lines|] == l && forall i :: 0 <= i < |lines| ==> more[i] == lines[i];
  }

  lemma {:induction false} FoldedShrinks(lines: seq<string>, has: string -> bool, want: string)
    ensures |Folded(lines, has, want)| <= |lines|
  {
    if lines != [] {
      FoldedShrinks(lines[..|lines| - 1], has, want);
    }
  }

  lemma {:induction false} FoldedWithout(lines: seq<string>, has: string -> bool, want: string)
    requires !AnyHas(lines, has)
    ensures Folded(lines, has, want) == lines
  {
    if lines != [] {
      var init := lines[..|lines| - 1];
      assert lines == init + [lines[|lines| - 1]];
      AnyHasSnoc(init, lines[|lines| - 1], has);
      FoldedWithout(init, has, want);
    }
  }

  lemma SnocDiffers(a: seq<string>, x: string, b: seq<string>, y: string)
    ensures a + [x] == b + [y] <==> a == b && x == y
    ensures |a| <= |b| ==> a != b + [y]
  {
    if a + [x] == b + [y] {
      assert a == (a + [x])[..|a|] && b == (b + [y])[..|b|];
      assert x == (a + [x])[|a|] && y == (b + [y])[|b|];
    }
  }

  /** The loop of mergeTransportKey. */
  method MergeLines(lines: seq<string>, typ: string, blob: string, want: string, ghost has: string -> bool)
    returns (out: seq<string>, found: bool, changed: bool)
    requires lines != [] && forall l :: has(l) == Adjacent(Fields(l), typ, blob)
    ensures found == AnyHas(lines, has) && out == FoldedTo(lines, |lines|, has, want) && changed == (out != lines)
  {
    out, found, changed := [], false, false;
    for i := 0 to |lines|
      invariant found == AnyHas(lines[..i], has) && out == FoldedTo(lines, i, has, want) && changed == (out != lines[..i])
    {
      out, found, changed := MergeLine(lines, i, typ, blob, want, has, out, found, changed);
    }
    assert lines[..|lines|] == lines;
  }

  /** What one more line does to the merged lines, and whether they still are the lines read. */
  lemma TurnExactly(lines: seq<string>, i: nat, has: string -> bool, want: string)
    requires i < |lines|
    ensures var (l, found) := (lines[i], AnyHas(lines[..i], has));
            var (before, after) := (FoldedTo(lines, i, has, want), FoldedTo(lines, i + 1, has, want));
            && (AnyHas(lines[..i + 1], has) <==> found || has(l))
            && after == (if !has(l) then before + [l] else if found then before else if i < |lines| - 1 then before + [want] else before + [want] + [""])
            && (after == lines[..i + 1] <==> before == lines[..i] && (has(l) ==> !found && l == want && i < |lines| - 1))
  {
    var p, l := lines[..i], lines[i];
    assert lines[..i + 1] == p + [l];
    AnyHasSnoc(p, l, has);
    FoldedShrinks(p, has, want);
    SnocDiffers(Folded(p, has, want), if has(l) then want else l, p, l);
    if i == |lines| - 1 {
      assert lines[..i + 1] == lines;
    }
    if !AnyHas(p, has) {
      FoldedWithout(p, has, want);
    }
  }

  /** One turn of the loop. */
  method MergeLine(lines: seq<string>, i: nat, typ: string, blob: string, want: string, ghost has: string -> bool, out0: seq<string>, found0: bool, changed0: bool)
    returns (out: seq<string>, found: bool, changed: bool)
    requires i < |lines| && forall l :: has(l) == Adjacent(Fields(l), typ, blob)
    requires found0 == AnyHas(lines[..i], has) && out0 == FoldedTo(lines, i, has, want) && changed0 == (out0 != lines[..i])
    ensures found == AnyHas(lines[..i + 1], has) && out == FoldedTo(lines, i + 1, has, want) && changed == (out != lines[..i + 1])
  {
    var l := lines[i];
    out, found, changed := out0, found0, changed0;
    TurnExactly(lines, i, has, want);
    var mine := LineHasKey(l, typ, blob);
    if !mine {
      out := out + [l];
      return;
    }
    if found {
      changed := true;
      return;
    }
    found := true;
    if l != want {
      changed := true;
    }
    out := out + [want];
    if i == |lines| - 1 {
      out := out + [""];
      changed := true;
    }
  }

  function MergedText(s: string, has: string -> bool, want: string): string {
    Join(Merged(Split(s), has, want))
  }

  /**
   mergeTransportKey. Line at is the only one that carries the key, and it is the
   options, a space and the key. The lines before it are the file's; after it come
   the file's other lines, in order.
   */
  method MergeTransportKey(authorizedKeys: string, options: string, key: string) returns (merged: string, changed: bool, ghost at: nat)
    requires |Fields(key)| >= 2 && '\n' !in key && '\n' !in options
    ensures merged == MergedText(authorizedKeys, Has(key), Line(options, key))
    ensures changed <==> merged != authorizedKeys
    ensures at < |Split(merged)| && Split(merged)[at] == options + " " + key
    ensures forall m :: 0 <= m < |Split(merged)| ==> (Adjacent(Fields(Split(merged)[m]), Fields(key)[0], Fields(key)[1]) <==> m == at)
    ensures var lines := Split(authorizedKeys);
            && at <= |lines| && Split(merged)[..at] == lines[..at]
            && (forall m :: 0 <= m < at ==> !Adjacent(Fields(lines[m]), Fields(key)[0], Fields(key)[1]))
            && (if at < |lines| && Adjacent(Fields(lines[at]), Fields(key)[0], Fields(key)[1])
                then Split(merged)[at + 1..] == Others(lines[at + 1..], Has(key)) + if at == |lines| - 1 then [""] else []
                else Split(merged)[at + 1..] == [""] && (at > 0 ==> lines[at - 1] != "") && forall m :: at <= m < |lines| ==> lines[m] == "")
  {
    var want := Line(options, key);
    var f := Fields(key);
    var lines := Split(authorizedKeys);
    var out, found;
    out, found, changed := MergeLines(lines, f[0], f[1], want, Has(key));
    KeyIsWanted(options, key);
    ChangedExactly(authorizedKeys, Has(key), want);
    at := WhereItStands(authorizedKeys, Has(key), want);
    StandsForKey(Split(authorizedKeys), Split(MergedText(authorizedKeys, Has(key), want)), options, key, at);
    if found {
      merged := Join(out);
      return;
    }
    AppendedText(authorizedKeys, Has(key), want);
    merged := TrimNewlines(authorizedKeys);
    if merged != "" {
      merged := merged + "\n";
    }
    merged := merged + want + "\n";
    changed := true;
  }

  function Line(options: string, key: string): string {
    options + " " + key
  }

  /** Fields either side of a space are the fields of the whole. */
  lemma {:induction false} FieldsConcat(a: string, b: string)
    ensures Fields(a + " " + b) == Fields(a) + Fields(b)
    decreases |a|
  {
    var s := a + " " + b;
    if a == "" {
      assert s[1..] == b;
    } else if IsSpace(a[0]) {
      FieldsConcat(a[1..], b);
      assert s[1..] == a[1..] + " " + b;
    } else {
      var n := WordLen(a);
      WordLenConcat(a, " " + b);
      Regroup(a, " ", b);
      FieldsConcat(a[n..], b);
      assert s[..n] == a[..n];
      assert s[n..] == a[n..] + " " + b;
      assert Fields(s) == [s[..n]] + Fields(s[n..]);
    }
  }

  lemma {:induction false} WordLenConcat(a: string, b: string)
    requires b != "" && IsSpace(b[0])
    ensures WordLen(a + b) == WordLen(a)
  {
    if a == "" {
      assert a + b == b;
    } else {
      WordLenConcat(a[1..], b);
      assert (a + b)[1..] == a[1..] + b;
    }
  }

  lemma WantedHasKey(options: string, key: string)
    requires |Fields(key)| >= 2
    ensures Has(key)(Line(options, key))
  {
    FieldsConcat(options, key);
    var f, i := Fields(Line(options, key)), |Fields(options)| + 1;
    assert f[i] == Fields(key)[1] && f[i - 1] == Fields(key)[0];
  }

  lemma {:induction false} TrimBlankIsWhole(lines: seq<string>)
    requires Whole(lines)
    ensures Whole(TrimBlank(lines))
  {
    if lines != [] && lines[|lines| - 1] == "" {
      TrimBlankIsWhole(lines[..|lines| - 1]);
    }
  }

  lemma {:induction false} FoldedIsWhole(lines: seq<string>, has: string -> bool, want: string)
    requires Whole(lines) && '\n' !in want
    ensures Whole(Folded(lines, has, want))
  {
    if lines != [] {
      FoldedIsWhole(lines[..|lines| - 1], has, want);
    }
  }

  // What the merge leaves in the file. The wanted line carries the key and the empty line does not.

  ghost predicate Wanted(has: string -> bool, want: string) {
    has(want) && !has("") && '\n' !in want
  }

  /** The lines that carry the key. */
  function Keys(lines: seq<string>, has: string -> bool): (r: seq<string>)
    ensures r == [] <==> !AnyHas(lines, has)
  {
    if lines == [] then []
    else
      var init, last := lines[..|lines| - 1], lines[|lines| - 1];
      AnyHasSnoc(init, last, has);
      assert lines == init + [last];
      Keys(init, has) + if has(last) then [last] else []
  }

  /** The other lines. */
  function Others(lines: seq<string>, has: string -> bool): seq<string> {
    if lines == [] then []
    else Others(lines[..|lines| - 1], has) + if has(lines[|lines| - 1]) then [] else [lines[|lines| - 1]]
  }

  lemma KeysSnoc(lines: seq<string>, l: string, has: string -> bool)
    ensures Keys(lines + [l], has) == Keys(lines, has) + if has(l) then [l] else []
    ensures Others(lines + [l], has) == Others(lines, has) + if has(l) then [] else [l]
  {
    assert (lines + [l])[..|lines|] == lines;
  }

  lemma {:induction false} FoldedLines(lines: seq<string>, has: string -> bool, want: string)
    requires has(want)
    ensures Keys(Folded(lines, has, want), has) == if AnyHas(lines, has) then [want] else []
    ensures Others(Folded(lines, has, want), has) == Others(lines, has)
  {
    if lines != [] {
      var init, last := lines[..|lines| - 1], lines[|lines| - 1];
      var before := Folded(init, has, want);
      assert lines == init + [last];
      FoldedLines(init, has, want);
      AnyHasSnoc(init, last, has);
      KeysSnoc(init, last, has);
      if !has(last) {
        KeysSnoc(before, last, has);
      } else if AnyHas(init, has) {
        assert Folded(lines, has, want) == before;
      } else {
        KeysSnoc(before, want, has);
      }
    }
  }

  lemma {:induction false} OthersWithout(lines: seq<string>, has: string -> bool)
    requires !AnyHas(lines, has)
    ensures Others(lines, has) == lines
  {
    if lines != [] {
      var init, last := lines[..|lines| - 1], lines[|lines| - 1];
      assert lines == init + [last];
      AnyHasSnoc(init, last, has);
      OthersWithout(init, has);
    }
  }

  lemma {:induction false} TrimBlankWithout(lines: seq<string>, has: string -> bool)
    requires !AnyHas(lines, has)
    ensures !AnyHas(TrimBlank(lines), has)
  {
    if lines != [] && lines[|lines| - 1] == "" {
      TrimBlankWithout(lines[..|lines| - 1], has);
    }
  }

  /** One line carries the key, and it is the wanted one; every other line is there, in order, as it was. */
  lemma OneKeyLine(lines: seq<string>, has: string -> bool, want: string)
    requires Wanted(has, want)
    ensures Keys(Merged(lines, has, want), has) == [want]
    ensures Others(Merged(lines, has, want), has) ==
            if !AnyHas(lines, has) then TrimBlank(lines) + [""]
            else if OnlyAtEnd(lines, has) then Others(lines, has) + [""]
            else Others(lines, has)
  {
    if AnyHas(lines, has) {
      FoldedToEnd(lines, has, want);
    } else {
      TrimBlankWithout(lines, has);
      AppendedLines(TrimBlank(lines), has, want);
    }
  }

  lemma FoldedToEnd(lines: seq<string>, has: string -> bool, want: string)
    requires Wanted(has, want) && AnyHas(lines, has)
    ensures Keys(FoldedTo(lines, |lines|, has, want), has) == [want]
    ensures Others(FoldedTo(lines, |lines|, has, want), has) == if OnlyAtEnd(lines, has) then Others(lines, has) + [""] else Others(lines, has)
  {
    var out := Folded(lines, has, want);
    assert lines[..|lines|] == lines;
    FoldedLines(lines, has, want);
    if OnlyAtEnd(lines, has) {
      KeysSnoc(out, "", has);
    } else {
      assert FoldedTo(lines, |lines|, has, want) == out;
    }
  }

  lemma AppendedLines(lines: seq<string>, has: string -> bool, want: string)
    requires Wanted(has, want) && !AnyHas(lines, has)
    ensures Keys(lines + [want, ""], has) == [want]
    ensures Others(lines + [want, ""], has) == lines + [""]
  {
    OthersWithout(lines, has);
    KeysSnoc(lines, want, has);
    KeysSnoc(lines + [want], "", has);
    TwoMore(lines, want, "");
    assert Keys(lines, has) == [];
  }

  lemma TwoMore(lines: seq<string>, a: string, b: string)
    ensures lines + [a, b] == lines + [a] + [b]
  {
  }

  /** The merged text has the merged lines. */
  lemma MergedLines(s: string, has: string -> bool, want: string)
    requires Wanted(has, want)
    ensures Split(MergedText(s, has, want)) == Merged(Split(s), has, want)
  {
    var lines := Split(s);
    SplitIsWhole(s);
    TrimBlankIsWhole(lines);
    FoldedIsWhole(lines, has, want);
    OneKeyLine(lines, has, want);
    var merged := Merged(lines, has, want);
    assert Whole(merged) by {
      assert lines[..|lines|] == lines;
    }
    SplitOfJoin(merged);
  }

  /** The text changes exactly when its lines do, and always when the key was not there. */
  lemma ChangedExactly(s: string, has: string -> bool, want: string)
    requires Wanted(has, want)
    ensures MergedText(s, has, want) == s <==> Merged(Split(s), has, want) == Split(s)
    ensures !AnyHas(Split(s), has) ==> MergedText(s, has, want) != s
  {
    MergedLines(s, has, want);
    JoinOfSplit(s);
    OneKeyLine(Split(s), has, want);
  }

  lemma {:induction false} SplitTrimmed(s: string)
    ensures Split(TrimNewlines(s)) == if TrimBlank(Split(s)) == [] then [""] else TrimBlank(Split(s))
    ensures TrimNewlines(s) == "" <==> TrimBlank(Split(s)) == []
  {
    if s != "" && s[|s| - 1] == '\n' {
      var before := Split(s[..|s| - 1]);
      SplitTrimmed(s[..|s| - 1]);
      assert (before + [""])[..|before|] == before;
    } else {
      JoinOfSplit(s);
      if s == "" {
        assert [""][..0] == [];
      } else {
        assert Split(s)[|Split(s)| - 1] != "";
      }
    }
  }

  /** A key that was not there is appended on a line of its own, after the last line with text. */
  lemma AppendedText(s: string, has: string -> bool, want: string)
    requires !AnyHas(Split(s), has)
    ensures MergedText(s, has, want) == (if TrimNewlines(s) == "" then "" else TrimNewlines(s) + "\n") + want + "\n"
  {
    SplitTrimmed(s);
    JoinOfSplit(TrimNewlines(s));
    JoinTwo(TrimBlank(Split(s)), want);
  }

  lemma JoinTwo(lines: seq<string>, want: string)
    ensures Join(lines + [want, ""]) == (if lines == [] then "" else Join(lines) + "\n") + want + "\n"
  {
    assert lines + [want, ""] == lines + [want] + [""];
    JoinSnoc(lines, want);
    JoinSnoc(lines + [want], "");
    var ended := Join(lines + [want]) + "\n";
    assert ended + "" == ended;
    assert "" + want == want;
  }

  // Where the key stands.

  /** at is where the wanted line stands among the merged lines, the lines before it being as they were. */
  ghost predicate StandsAt(lines: seq<string>, merged: seq<string>, has: string -> bool, want: string, at: nat) {
    && at < |merged| && at <= |lines| && merged[at] == want && merged[..at] == lines[..at]
    && (forall m :: 0 <= m < |merged| ==> (has(merged[m]) <==> m == at))
    && (forall m :: 0 <= m < at ==> !has(lines[m]))
    && (if at < |lines| && has(lines[at])
        then merged[at + 1..] == Others(lines[at + 1..], has) + if at == |lines| - 1 then [""] else []
        else merged[at + 1..] == [""] && (at > 0 ==> lines[at - 1] != "") && forall m :: at <= m < |lines| ==> lines[m] == "")
  }

  lemma StandsForKey(lines: seq<string>, merged: seq<string>, options: string, key: string, at: nat)
    requires |Fields(key)| >= 2 && StandsAt(lines, merged, Has(key), Line(options, key), at)
    ensures merged[at] == options + " " + key
    ensures forall m :: 0 <= m < |merged| ==> (Adjacent(Fields(merged[m]), Fields(key)[0], Fields(key)[1]) <==> m == at)
    ensures forall m :: 0 <= m < at ==> !Adjacent(Fields(lines[m]), Fields(key)[0], Fields(key)[1])
    ensures at < |lines| ==> (Has(key)(lines[at]) <==> Adjacent(Fields(lines[at]), Fields(key)[0], Fields(key)[1]))
  {
    forall l: string ensures Has(key)(l) == Adjacent(Fields(l), Fields(key)[0], Fields(key)[1]) {
    }
    assert forall m :: 0 <= m < |merged| ==> Has(key)(merged[m]) == Adjacent(Fields(merged[m]), Fields(key)[0], Fields(key)[1]);
    assert forall m :: 0 <= m < at ==> Has(key)(lines[m]) == Adjacent(Fields(lines[m]), Fields(key)[0], Fields(key)[1]);
  }

  lemma WhereItStands(s: string, has: string -> bool, want: string) returns (at: nat)
    requires Wanted(has, want)
    ensures StandsAt(Split(s), Split(MergedText(s, has, want)), has, want, at)
  {
    var lines := Split(s);
    MergedLines(s, has, want);
    if AnyHas(lines, has) {
      at := FirstKey(lines, has);
      FoldedAround(lines, at, has, want);
      StandsFirst(lines, at, has, want);
    } else {
      at := |TrimBlank(lines)|;
      StandsLast(lines, has, want);
    }
  }

  lemma FirstKey(lines: seq<string>, has: string -> bool) returns (at: nat)
    requires AnyHas(lines, has)
    ensures at < |lines| && has(lines[at]) && !AnyHas(lines[..at], has)
  {
    at := 0;
    while !has(lines[at])
      invariant at < |lines| && forall i :: 0 <= i < at ==> !has(lines[i])
      invariant exists i :: at <= i < |lines| && has(lines[i])
      decreases |lines| - at
    {
      at := at + 1;
    }
  }

  lemma {:induction false} FoldedAround(lines: seq<string>, at: nat, has: string -> bool, want: string)
    requires at < |lines| && has(lines[at]) && !AnyHas(lines[..at], has)
    ensures Folded(lines, has, want) == lines[..at] + [want] + Others(lines[at + 1..], has)
  {
    var init, last := lines[..|lines| - 1], lines[|lines| - 1];
    if at == |lines| - 1 {
      FoldedWithout(init, has, want);
      assert Others(lines[at + 1..], has) == [];
    } else {
      assert init[..at] == lines[..at];
      FoldedAround(init, at, has, want);
      assert has(init[at]);
      assert lines[at + 1..] == init[at + 1..] + [last];
      KeysSnoc(init[at + 1..], last, has);
      Regroup(lines[..at] + [want], Others(init[at + 1..], has), if has(last) then [] else [last]);
    }
  }

  lemma {:induction false} OthersHaveNone(lines: seq<string>, has: string -> bool)
    ensures forall i :: 0 <= i < |Others(lines, has)| ==> !has(Others(lines, has)[i])
  {
    if lines != [] {
      OthersHaveNone(lines[..|lines| - 1], has);
    }
  }

  lemma StandsFirst(lines: seq<string>, at: nat, has: string -> bool, want: string)
    requires Wanted(has, want) && at < |lines| && has(lines[at]) && !AnyHas(lines[..at], has)
    requires Folded(lines, has, want) == lines[..at] + [want] + Others(lines[at + 1..], has)
    ensures StandsAt(lines, Merged(lines, has, want), has, want, at)
  {
    var rest := Others(lines[at + 1..], has);
    OthersHaveNone(lines[at + 1..], has);
    assert lines[..|lines|] == lines;
    if at == |lines| - 1 {
      assert OnlyAtEnd(lines, has) && rest == [];
      assert Merged(lines, has, want) == lines[..at] + [want] + [""];
    } else {
      assert lines[..|lines| - 1][at] == lines[at];
      assert !OnlyAtEnd(lines, has);
      assert Merged(lines, has, want) == lines[..at] + [want] + rest;
    }
    assert forall m :: 0 <= m < at ==> lines[..at][m] == lines[m];
  }

  lemma StandsLast(lines: seq<string>, has: string -> bool, want: string)
    requires Wanted(has, want) && !AnyHas(lines, has)
    ensures StandsAt(lines, Merged(lines, has, want), has, want, |TrimBlank(lines)|)
  {
    TrimBlankExactly(lines);
    var kept := TrimBlank(lines);
    assert forall m :: 0 <= m < |kept| ==> kept[m] == lines[m];
  }

  /** What TrimBlank leaves is a beginning that does not end in an empty line, and the rest are empty. */
  lemma {:induction false} TrimBlankExactly(lines: seq<string>)
    ensures var n := |TrimBlank(lines)|;
            && n <= |lines| && TrimBlank(lines) == lines[..n] && (n > 0 ==> lines[n - 1] != "")
            && forall m :: n <= m < |lines| ==> lines[m] == ""
  {
    if lines != [] && lines[|lines| - 1] == "" {
      TrimBlankExactly(lines[..|lines| - 1]);
    }
  }

  /** at lists, in order, where the lines that do not carry the key stand, and others are those lines. */
  ghost predicate ListsOthers(lines: seq<string>, has: string -> bool, others: seq<string>, at: seq<nat>) {
    && |at| == |others| && (forall j, k :: 0 <= j < k < |at| ==> at[j] < at[k])
    && (forall j :: 0 <= j < |at| ==> at[j] < |lines| && !has(lines[at[j]]) && others[j] == lines[at[j]])
    && forall i :: 0 <= i < |lines| && !has(lines[i]) ==> exists j :: 0 <= j < |at| && at[j] == i
  }

  lemma {:induction false} OthersExactly(lines: seq<string>, has: string -> bool) returns (at: seq<nat>)
    ensures ListsOthers(lines, has, Others(lines, has), at)
  {
    if lines == [] {
      return [];
    }
    var init, last := lines[..|lines| - 1], lines[|lines| - 1];
    var before := OthersExactly(init, has);
    ListsOneMore(init, last, has, Others(init, has), before);
    assert lines == init + [last];
    return if has(last) then before else before + [|init|];
  }

  lemma ListsOneMore(lines: seq<string>, l: string, has: string -> bool, others: seq<string>, at: seq<nat>)
    requires ListsOthers(lines, has, others, at)
    ensures if has(l) then ListsOthers(lines + [l], has, others, at) else ListsOthers(lines + [l], has, others + [l], at + [|lines|])
  {
    var more, longer := lines + [l], at + [|lines|];
    forall i | 0 <= i < |lines| && !has(lines[i]) ensures exists j :: 0 <= j < |at| && at[j] == i && longer[j] == i {
      var j :| 0 <= j < |at| && at[j] == i;
      assert longer[j] == i;
    }
    assert longer[|at|] == |lines| && more[|lines|] == l;
  }

  // Merging again.

  lemma {:induction false} FixedWhenOne(lines: seq<string>, has: string -> bool, want: string)
    requires Keys(lines, has) == [want]
    ensures Folded(lines, has, want) == lines
  {
    var init, last := lines[..|lines| - 1], lines[|lines| - 1];
    assert lines == init + [last];
    if has(last) {
      assert |Keys(init, has)| == 0;
      FoldedWithout(init, has, want);
    } else {
      FixedWhenOne(init, has, want);
    }
  }

  /** Every line after a key line is one too. */
  predicate KeysToTheEnd(lines: seq<string>, has: string -> bool) {
    forall i, j :: 0 <= i < j < |lines| && has(lines[i]) ==> has(lines[j])
  }

  /** A file that ends, without a newline, in two or more lines for the key, with no line for it before those. */
  predicate Ragged(lines: seq<string>, has: string -> bool) {
    AnyHas(lines, has) && !OnlyAtEnd(lines, has) && KeysToTheEnd(lines, has)
  }

  lemma {:induction false} FoldedEnd(lines: seq<string>, has: string -> bool, want: string)
    requires AnyHas(lines, has) && has(want)
    ensures var out := Folded(lines, has, want); out != [] && (has(out[|out| - 1]) <==> KeysToTheEnd(lines, has))
  {
    var init, last := lines[..|lines| - 1], lines[|lines| - 1];
    assert lines == init + [last];
    AnyHasSnoc(init, last, has);
    assert forall i :: 0 <= i < |init| ==> init[i] == lines[i];
    EndsInKeys(lines, has);
    if has(last) && AnyHas(init, has) {
      FoldedEnd(init, has, want);
    }
  }

  lemma EndsInKeys(lines: seq<string>, has: string -> bool)
    requires AnyHas(lines, has)
    ensures var (init, last) := (lines[..|lines| - 1], lines[|lines| - 1]);
            KeysToTheEnd(lines, has) <==> has(last) && (AnyHas(init, has) ==> KeysToTheEnd(init, has))
  {
    var init, last := lines[..|lines| - 1], lines[|lines| - 1];
    assert forall i :: 0 <= i < |init| ==> init[i] == lines[i];
    if !has(last) {
      var i :| 0 <= i < |lines| && has(lines[i]);
      assert has(lines[i]) && !has(lines[|init|]);
    }
  }

  lemma MergedOnce(lines: seq<string>, has: string -> bool, want: string)
    requires Wanted(has, want) && Keys(lines, has) == [want]
    ensures Merged(lines, has, want) == lines + if has(lines[|lines| - 1]) then [""] else []
  {
    assert lines[..|lines|] == lines;
    FixedWhenOne(lines, has, want);
  }

  lemma SecondMergeOfLines(lines: seq<string>, has: string -> bool, want: string)
    requires Wanted(has, want)
    ensures var once := Merged(lines, has, want);
            var twice := Merged(once, has, want);
            && (twice == once <==> !Ragged(lines, has))
            && Merged(twice, has, want) == twice
  {
    var once := Merged(lines, has, want);
    var twice := Merged(once, has, want);
    OneKeyLine(lines, has, want);
    OneKeyLine(once, has, want);
    MergedOnce(once, has, want);
    EndsWithKey(lines, has, want);
    ThirdMerge(once, has, want);
  }

  /** One wanted line is all a merge needs: then it at most ends that line, and the next changes nothing. */
  lemma ThirdMerge(once: seq<string>, has: string -> bool, want: string)
    requires Wanted(has, want) && Keys(once, has) == [want] && Keys(Merged(once, has, want), has) == [want]
    ensures Merged(Merged(once, has, want), has, want) == Merged(once, has, want)
  {
    MergedOnce(once, has, want);
    MergedOnce(Merged(once, has, want), has, want);
  }

  /** The merged lines end in the key's line exactly when the file was ragged. */
  lemma EndsWithKey(lines: seq<string>, has: string -> bool, want: string)
    requires Wanted(has, want)
    ensures var once := Merged(lines, has, want); once != [] && (has(once[|once| - 1]) <==> Ragged(lines, has))
  {
    assert lines[..|lines|] == lines;
    if AnyHas(lines, has) {
      FoldedEnd(lines, has, want);
    }
  }

  /** A second merge changes nothing, exactly unless the file was ragged; a third never does. */
  lemma SecondMergeExactly(s: string, has: string -> bool, want: string)
    requires Wanted(has, want)
    ensures var once := MergedText(s, has, want);
            var twice := MergedText(once, has, want);
            && (twice == once <==> !Ragged(Split(s), has))
            && MergedText(twice, has, want) == twice
  {
    var once := Merged(Split(s), has, want);
    var twice := Merged(once, has, want);
    SecondMergeOfLines(Split(s), has, want);
    MergedLines(s, has, want);
    MergedLines(Join(once), has, want);
    ChangedExactly(Join(once), has, want);
    ChangedExactly(Join(twice), has, want);
  }

  /** So on an empty file, or one whose last line is ended, one merge is enough. */
  lemma OneMergeIsEnough(s: string, has: string -> bool, want: string)
    requires Wanted(has, want) && (s == "" || s[|s| - 1] == '\n')
    ensures MergedText(MergedText(s, has, want), has, want) == MergedText(s, has, want)
  {
    var lines := Split(s);
    assert lines[|lines| - 1] == "";
    if AnyHas(lines, has) {
      var i :| 0 <= i < |lines| && has(lines[i]);
      assert i < |lines| - 1;
    }
    SecondMergeExactly(s, has, want);
  }

  /** The key's line twice, the second unterminated: the first merge drops it and the second adds a newline. */
  lemma RaggedFileTakesTwoMerges(has: string -> bool, want: string)
    requires Wanted(has, want)
    ensures var once := MergedText(want + "\n" + want, has, want); MergedText(once, has, want) != once
  {
    SplitExtends("", want);
    assert "" + want == want;
    SplitAppend(want, want);
    assert Split(want + "\n" + want) == [want, want];
    RaggedTwice(want, has);
    SecondMergeExactly(want + "\n" + want, has, want);
  }

  lemma RaggedTwice(want: string, has: string -> bool)
    requires has(want)
    ensures Ragged([want, want], has)
  {
    assert [want, want][..1][0] == want;
  }

  /** What the key's own lines satisfy: the merge is about them. */
  lemma KeyIsWanted(options: string, key: string)
    requires |Fields(key)| >= 2 && '\n' !in key && '\n' !in options
    ensures Wanted(Has(key), Line(options, key))
  {
    WantedHasKey(options, key);
  }
}
