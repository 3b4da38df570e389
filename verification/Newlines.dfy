/** Text as lines: strings.Split and strings.Join over the newline. */
module Newlines {
  import opened Strings

  /** strings.Split(s, "\n"). */
  function Split(s: string): (lines: seq<string>)
    ensures |lines| >= 1
  {
    if s == "" then [""]
    else
      var before := Split(s[..|s| - 1]);
      if s[|s| - 1] == '\n' then before + [""] else before[..|before| - 1] + [before[|before| - 1] + [s[|s| - 1]]]
  }

  /** strings.Join(lines, "\n"). */
  function Join(lines: seq<string>): string {
    if lines == [] then ""
    else if |lines| == 1 then lines[0]
    else Join(lines[..|lines| - 1]) + "\n" + lines[|lines| - 1]
  }

  predicate Whole(lines: seq<string>) {
    forall i :: 0 <= i < |lines| ==> '\n' !in lines[i]
  }

  lemma {:induction false} SplitIsWhole(s: string)
    ensures Whole(Split(s))
  {
    if s != "" {
      SplitIsWhole(s[..|s| - 1]);
    }
  }

  lemma {:induction false} JoinOfSplit(s: string)
    ensures Join(Split(s)) == s
  {
    if s != "" {
      var init, c := s[..|s| - 1], s[|s| - 1];
      var before := Split(init);
      JoinOfSplit(init);
      assert s == init + [c];
      if c == '\n' {
        assert (before + [""])[..|before|] == before;
        assert init + "\n" + "" == s;
      }
    }
  }

  lemma JoinSnoc(lines: seq<string>, line: string)
    ensures Join(lines + [line]) == if lines == [] then line else Join(lines) + "\n" + line
  {
    assert (lines + [line])[..|lines|] == lines;
  }

  /** One more piece without a newline extends the last line. */
  lemma {:induction false} SplitExtends(s: string, t: string)
    requires '\n' !in t
    ensures Split(s + t) == Split(s)[..|Split(s)| - 1] + [Split(s)[|Split(s)| - 1] + t]
  {
    if t == "" {
      assert s + t == s;
      assert Split(s)[|Split(s)| - 1] + t == Split(s)[|Split(s)| - 1];
    } else {
      var u, c := t[..|t| - 1], t[|t| - 1];
      SplitExtends(s, u);
      assert s + t == (s + u) + [c] && t == u + [c];
      SplitSnoc(s + u, c);
      Regroup(Split(s)[|Split(s)| - 1], u, [c]);
    }
  }

  lemma SplitSnoc(s: string, c: char)
    requires c != '\n'
    ensures Split(s + [c]) == Split(s)[..|Split(s)| - 1] + [Split(s)[|Split(s)| - 1] + [c]]
  {
    assert (s + [c])[..|s|] == s;
  }

  /** A newline and a line after it add that line. */
  lemma SplitAppend(s: string, line: string)
    requires '\n' !in line
    ensures Split(s + "\n" + line) == Split(s) + [line]
  {
    var t := s + "\n";
    assert t[..|t| - 1] == s;
    SplitExtends(t, line);
    assert "" + line == line;
  }

  lemma {:induction false} SplitOfJoin(lines: seq<string>)
    requires lines != [] && Whole(lines)
    ensures Split(Join(lines)) == lines
  {
    var n := |lines| - 1;
    assert lines == lines[..n] + [lines[n]];
    JoinSnoc(lines[..n], lines[n]);
    if n == 0 {
      SplitExtends("", lines[0]);
      assert "" + lines[0] == lines[0];
    } else {
      SplitOfJoin(lines[..n]);
      SplitAppend(Join(lines[..n]), lines[n]);
    }
  }
}
