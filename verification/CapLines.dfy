/** Capping a log excerpt to what an explanation request may carry. Lines are bytes, as Utf8 holds them. */
module CapLines {
  import opened Utf8

  const MAX_LINES := 80
  const MAX_BYTES := 8192

  const DOTS := "\U{E2}\U{80}\U{A6}"
  const CUT := "[truncated]"

  /** " …[truncated]… " */
  function Marker(): (m: string)
    ensures |m| == 19
  {
    " " + DOTS + CUT + DOTS + " "
  }

  method RuneStartAtOrBefore(s: string, at: nat) returns (i: nat)
    requires at <= |s|
    ensures i == AtOrBefore(s, at)
  {
    i := at;
    while i > 0 && i < |s| && !RuneStart(s[i])
      invariant i <= at && AtOrBefore(s, i) == AtOrBefore(s, at)
    {
      i := i - 1;
    }
  }

  method RuneStartAtOrAfter(s: string, at: nat) returns (i: nat)
    requires at <= |s|
    ensures i == AtOrAfter(s, at)
  {
    i := at;
    while i < |s| && !RuneStart(s[i])
      invariant at <= i <= |s| && AtOrAfter(s, i) == AtOrAfter(s, at)
    {
      i := i + 1;
    }
  }

  /** Whether out is s with its middle, bytes h to t, cut out and marked. */
  predicate MiddleCut(out: string, s: string, h: nat, t: nat) {
    h < t <= |s| && out == s[..h] + Marker() + s[t..]
  }

  ghost predicate CutDown(out: string, s: string) {
    exists h: nat, t: nat :: MiddleCut(out, s, h, t)
  }

  /** s with the bytes from h to t replaced by the marker. */
  function Marked(s: string, h: nat, t: nat): (out: string)
    requires h < t <= |s|
    ensures |out| == h + 19 + |s| - t && MiddleCut(out, s, h, t)
  {
    s[..h] + Marker() + s[t..]
  }

  /**
   At most limit bytes: the text itself when it fits, otherwise its two ends around the marker. Valid text
   stays valid, and no more than six bytes of the limit go unused for it.
   */
  method TruncateMiddle(s: string, limit: nat) returns (out: string, ghost h: nat, ghost t: nat)
    ensures |out| <= limit
    ensures |s| <= limit ==> out == s
    ensures |s| > limit > 19 ==> MiddleCut(out, s, h, t) && (Valid(s) ==> |out| + 6 >= limit)
    ensures |s| > limit && limit <= 19 ==> out <= s && (Valid(s) ==> |out| + 3 >= limit)
    ensures Valid(s) ==> Valid(out)
  {
    h, t := 0, 0;
    if |s| <= limit {
      return s, h, t;
    }
    if limit <= 19 {
      var i := RuneStartAtOrBefore(s, limit);
      if Valid(s) {
        CutsAreValid(s, limit);
      }
      return s[..i], h, t;
    }
    var keep := limit - 19;
    var headEnd := RuneStartAtOrBefore(s, keep / 2);
    var tailStart := RuneStartAtOrAfter(s, |s| - (keep - headEnd));
    h, t := headEnd, tailStart;
    out := Marked(s, headEnd, tailStart);
    if Valid(s) {
      EndsAreValid(s, keep / 2, |s| - (keep - headEnd));
    }
  }

  lemma EndsAreValid(s: string, i: nat, j: nat)
    requires Valid(s) && i <= |s| && j <= |s|
    ensures AtOrBefore(s, i) < AtOrAfter(s, j) ==> Valid(Marked(s, AtOrBefore(s, i), AtOrAfter(s, j)))
    ensures AtOrBefore(s, i) + 3 >= i && AtOrAfter(s, j) <= j + 3
  {
    CutsAreValid(s, i);
    CutsAreValid(s, j);
    if AtOrBefore(s, i) < AtOrAfter(s, j) {
      MarkedIsValid(s, AtOrBefore(s, i), AtOrAfter(s, j));
    }
  }

  lemma MarkedIsValid(s: string, h: nat, t: nat)
    requires h < t <= |s| && Valid(s[..h]) && Valid(s[t..])
    ensures Valid(Marked(s, h, t))
  {
    MarkerIsValid();
    ValidConcat(s[..h], Marker());
    ValidConcat(s[..h] + Marker(), s[t..]);
  }

  lemma MarkerIsValid()
    ensures Valid(Marker())
  {
    AsciiIsValid(" ");
    AsciiIsValid(CUT);
    assert RuneLen(DOTS) == 3 && Valid(DOTS[3..]);
    ValidConcat(" ", DOTS);
    ValidConcat(" " + DOTS, CUT);
    ValidConcat(" " + DOTS + CUT, DOTS);
    ValidConcat(" " + DOTS + CUT + DOTS, " ");
  }

  /** What lines take up, each with its newline. */
  function Bytes(lines: seq<string>): nat {
    if lines == [] then 0 else |lines[0]| + 1 + Bytes(lines[1..])
  }

  lemma {:induction false} BytesSnoc(lines: seq<string>, l: string)
    ensures Bytes(lines + [l]) == Bytes(lines) + |l| + 1
  {
    if lines == [] {
      assert lines + [l] == [l];
    } else {
      BytesSnoc(lines[1..], l);
      assert (lines + [l])[1..] == lines[1..] + [l];
    }
  }

  lemma BytesOfOne(l: string)
    ensures Bytes([l]) == |l| + 1
  {
    assert [l][1..] == [];
  }

  lemma {:induction false} FewerBytes(lines: seq<string>, k: nat)
    requires k <= |lines|
    ensures Bytes(lines[k..]) <= Bytes(lines)
  {
    if k > 0 {
      FewerBytes(lines[1..], k - 1);
      assert lines[1..][k - 1..] == lines[k..];
    }
  }

  predicate Fits(lines: seq<string>) {
    |lines| <= MAX_LINES && Bytes(lines) <= MAX_BYTES
  }

  /** Whole lines dropped from the oldest on, until the rest fits. */
  method DropOldest(lines: seq<string>) returns (kept: seq<string>, ghost dropped: nat)
    ensures dropped <= |lines| && kept == lines[dropped..] && Bytes(kept) <= MAX_BYTES
    ensures forall k :: 0 <= k < dropped ==> Bytes(lines[k..]) > MAX_BYTES
  {
    var total := 0;
    for i := 0 to |lines|
      invariant total == Bytes(lines[..i])
    {
      BytesSnoc(lines[..i], lines[i]);
      assert lines[..i + 1] == lines[..i] + [lines[i]];
      total := total + |lines[i]| + 1;
    }
    assert lines[..|lines|] == lines;
    kept, dropped := lines, 0;
    while total > MAX_BYTES && |kept| > 0
      invariant dropped <= |lines| && kept == lines[dropped..] && total == Bytes(kept)
      invariant forall k :: 0 <= k < dropped ==> Bytes(lines[k..]) > MAX_BYTES
    {
      total := total - (|kept[0]| + 1);
      kept := kept[1..];
      dropped := dropped + 1;
    }
  }

  /**
   The longest run of newest lines that fits; or, when not even the newest does, that one line cut down,
   so that some line is left whenever there was one.
   */
  method Cap(lines: seq<string>) returns (out: seq<string>, ghost from: nat)
    ensures Fits(out) && (lines != [] ==> out != [])
    ensures lines == [] || |lines[|lines| - 1]| < MAX_BYTES ==>
              from <= |lines| && out == lines[from..] && forall k :: 0 <= k < from ==> !Fits(lines[k..])
    ensures lines != [] && |lines[|lines| - 1]| >= MAX_BYTES ==>
              |out| == 1 && CutDown(out[0], lines[|lines| - 1]) && (Valid(lines[|lines| - 1]) ==> |out[0]| + 7 >= MAX_BYTES)
    ensures (forall i :: 0 <= i < |lines| ==> Valid(lines[i])) ==> forall i :: 0 <= i < |out| ==> Valid(out[i])
  {
    from := 0;
    var kept := lines;
    if |kept| > MAX_LINES {
      from := |kept| - MAX_LINES;
      kept := kept[|kept| - MAX_LINES..];
    }
    if |kept| > 0 && |kept[|kept| - 1]| + 1 > MAX_BYTES {
      var cut, h, t := TruncateMiddle(kept[|kept| - 1], MAX_BYTES - 1);
      assert kept[|kept| - 1] == lines[|lines| - 1];
      BytesOfOne(cut);
      return [cut], from;
    }
    ghost var dropped;
    out, dropped := DropOldest(kept);
    forall k | 0 <= k < from + dropped ensures !Fits(lines[k..]) {
      if k >= from {
        assert lines[k..] == kept[k - from..];
      }
    }
    if lines != [] {
      assert [kept[|kept| - 1]] == kept[|kept| - 1..];
      BytesOfOne(kept[|kept| - 1]);
    }
    from := from + dropped;
  }
}
