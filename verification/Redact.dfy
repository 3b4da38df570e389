/**
 Redacting a log excerpt within its budgets. What redaction makes of one line is
 a parameter; how lines are cut, counted, dropped and reported is modelled.
 Lines are bytes, as Utf8 holds them.
 */
module Redact {
  import opened Word
  import opened Decimal
  import opened Utf8

  const MAX_LINE_BYTES := 4096
  const MAX_LINES := 2000
  const MAX_RAW_LINE_BYTES := 32768

  const TRUNCATED := " ...[truncated]"

  /** What redaction makes of a line once it has seen others: placeholders are numbered over the whole call. */
  type Redaction = (seq<string>, string) -> string

  /** maxTotalBytes and maxWorkBytes, what redaction does, and which lines are exempt from the budgets. */
  datatype Rules = Rules(total: nat, work: nat, redact: Redaction, exempt: string -> bool)

  function SourceRules(redact: Redaction): Rules {
    Rules(131072, 131072, redact, l => IsOmitted(l))
  }

  predicate TokenByte(c: char) {
    'a' <= c <= 'z' || 'A' <= c <= 'Z' || '0' <= c <= '9' || c == '_' || c == '-' || c == '.' || c == '~' || c == '+' || c == '/'
  }

  /** Where the run of token bytes that ends at i begins. */
  function TokenRun(l: string, i: nat): (r: nat)
    requires i <= |l|
    ensures r <= i && (r == 0 || !TokenByte(l[r - 1])) && forall k :: r <= k < i ==> TokenByte(l[k])
  {
    if i > 0 && TokenByte(l[i - 1]) then TokenRun(l, i - 1) else i
  }

  /** strings.LastIndexByte, from lo to hi; hi for absence. */
  function LastSpace(l: string, lo: nat, hi: nat): (r: nat)
    requires lo <= hi <= |l|
    ensures lo <= r <= hi && (r < hi ==> l[r] == ' ')
  {
    if lo == hi then hi
    else if l[hi - 1] == ' ' then hi - 1
    else
      var r := LastSpace(l, lo, hi - 1);
      if r == hi - 1 then hi else r
  }

  /** Where hardCut cuts. */
  function HardCutAt(l: string): (cut: nat)
    requires |l| > MAX_RAW_LINE_BYTES
    ensures cut <= MAX_RAW_LINE_BYTES - 15
  {
    var cut := AtOrBefore(l, MAX_RAW_LINE_BYTES - 15);
    if cut - TokenRun(l, cut) >= 8 then TokenRun(l, cut) else cut
  }

  function HardCut(l: string): (r: string)
    ensures |r| <= MAX_RAW_LINE_BYTES
  {
    if |l| <= MAX_RAW_LINE_BYTES then l else l[..HardCutAt(l)] + TRUNCATED
  }

  function Window(cut: nat): nat {
    if cut < 64 then 0 else cut - 64
  }

  function ClipAt(l: string): (cut: nat)
    requires |l| > MAX_LINE_BYTES
    ensures cut <= MAX_LINE_BYTES - 15
  {
    var cut := AtOrBefore(l, MAX_LINE_BYTES - 15);
    LastSpace(l, Window(cut), cut)
  }

  function Clip(l: string): (r: string)
    ensures |r| <= MAX_LINE_BYTES
  {
    if |l| <= MAX_LINE_BYTES then l else l[..ClipAt(l)] + TRUNCATED
  }

  method HardCutLine(l: string) returns (r: string)
    ensures r == HardCut(l)
  {
    if |l| <= MAX_RAW_LINE_BYTES {
      return l;
    }
    var cut := MAX_RAW_LINE_BYTES - |TRUNCATED|;
    while cut > 0 && !RuneStart(l[cut])
      invariant 0 <= cut <= MAX_RAW_LINE_BYTES - 15 && AtOrBefore(l, cut) == AtOrBefore(l, MAX_RAW_LINE_BYTES - 15)
    {
      cut := cut - 1;
    }
    var run := cut;
    while run > 0 && TokenByte(l[run - 1])
      invariant 0 <= run <= cut && TokenRun(l, run) == TokenRun(l, cut)
    {
      run := run - 1;
    }
    if cut - run >= 8 {
      cut := run;
    }
    r := l[..cut] + TRUNCATED;
  }

  method ClipLine(l: string) returns (r: string)
    ensures r == Clip(l)
  {
    if |l| <= MAX_LINE_BYTES {
      return l;
    }
    var cut := MAX_LINE_BYTES - |TRUNCATED|;
    while cut > 0 && !RuneStart(l[cut])
      invariant 0 <= cut <= MAX_LINE_BYTES - 15 && AtOrBefore(l, cut) == AtOrBefore(l, MAX_LINE_BYTES - 15)
    {
      cut := cut - 1;
    }
    cut := LastSpace(l, Window(cut), cut);
    r := l[..cut] + TRUNCATED;
  }

  // The budget loop.

  const OPEN := "["
  const REST := " more lines omitted]"

  function Omission(n: nat): string {
    OPEN + Itoa(n) + REST
  }

  /** omittedRE. */
  predicate IsOmitted(l: string) {
    && |l| > |OPEN| + |REST| && OPEN <= l && l[|l| - |REST|..] == REST
    && AllDigits(l[|OPEN|..|l| - |REST|])
  }

  /** The marker's pattern matches the markers and their like only. */
  lemma OmittedExactly(l: string)
    ensures IsOmitted(l) <==> exists digits :: digits != "" && AllDigits(digits) && l == OPEN + digits + REST
  {
    if digits :| digits != "" && AllDigits(digits) && l == OPEN + digits + REST {
      assert l[|OPEN|..|l| - |REST|] == digits;
    }
    if IsOmitted(l) {
      assert l == OPEN + l[|OPEN|..|l| - |REST|] + REST;
    }
  }

  ghost predicate MarkersExempt(b: Rules) {
    forall n :: b.exempt(Omission(n))
  }

  lemma SourceMarkersExempt(redact: Redaction)
    ensures MarkersExempt(SourceRules(redact))
  {
    forall n ensures IsOmitted(Omission(n)) {
      OmittedExactly(Omission(n));
    }
  }

  /** The loop's variables; read is what has been given to redaction. */
  datatype State = State(out: seq<string>, read: seq<string>, total: nat, work: nat, stopped: bool)

  function Larger(a: nat, b: nat): nat {
    if a > b then a else b
  }

  function Next(s: State, l: string, b: Rules): State {
    var c := HardCut(l);
    if s.stopped || (s.work + |c| > b.work && !b.exempt(c)) then s.(stopped := true)
    else
      var r := Clip(b.redact(s.read, c));
      if s.total + |r| > b.total && !b.exempt(r) then s.(stopped := true)
      else State(s.out + [r], s.read + [c], s.total + |r|, s.work + Larger(|c|, |r|), false)
  }

  function Run(lines: seq<string>, i: nat, b: Rules): State
    requires i <= |lines|
  {
    if i == 0 then State([], [], 0, 0, false) else Next(Run(lines, i - 1, b), lines[i - 1], b)
  }

  function Limit(lines: seq<string>): (n: nat)
    ensures n <= |lines|
  {
    if |lines| > MAX_LINES then MAX_LINES - 1 else |lines|
  }

  function Redacted(lines: seq<string>, b: Rules): seq<string> {
    var out := Run(lines, Limit(lines), b).out;
    out + if |lines| > |out| then [Omission(|lines| - |out|)] else []
  }

  lemma {:induction false} StoppedStays(lines: seq<string>, i: nat, j: nat, b: Rules)
    requires i <= j <= |lines| && Run(lines, i, b).stopped
    ensures Run(lines, j, b) == Run(lines, i, b)
  {
    if i < j {
      StoppedStays(lines, i, j - 1, b);
    }
  }

  /** One turn of the loop, on its own variables; stopped where the loop is left. */
  method Turn(s: State, l: string, b: Rules) returns (t: State)
    requires !s.stopped
    ensures t == Next(s, l, b)
  {
    var c := HardCutLine(l);
    if s.work + |c| > b.work && !b.exempt(c) {
      return s.(stopped := true);
    }
    var r := ClipLine(b.redact(s.read, c));
    if s.total + |r| > b.total && !b.exempt(r) {
      return s.(stopped := true);
    }
    t := State(s.out + [r], s.read + [c], s.total + |r|, s.work + Larger(|c|, |r|), false);
  }

  method RedactLines(lines: seq<string>, b: Rules) returns (out: seq<string>)
    ensures out == Redacted(lines, b)
  {
    var limit := |lines|;
    if |lines| > MAX_LINES {
      limit := MAX_LINES - 1;
    }
    var s, i := State([], [], 0, 0, false), 0;
    while i < limit && !s.stopped
      invariant i <= limit && s == Run(lines, i, b)
    {
      assert Run(lines, i + 1, b) == Next(s, lines[i], b);
      s := Turn(s, lines[i], b);
      i := i + 1;
    }
    if s.stopped {
      StoppedStays(lines, i, limit, b);
    }
    out := s.out;
    var dropped := |lines| - |out|;
    if dropped > 0 {
      out := out + [Omission(dropped)];
    }
  }

  // What the budgets guarantee.

  function Sum(lines: seq<string>): nat {
    if lines == [] then 0 else Sum(lines[..|lines| - 1]) + |lines[|lines| - 1]|
  }

  /** Up to each line that is not exempt, at most budget bytes. */
  ghost predicate Within(lines: seq<string>, budget: nat, exempt: string -> bool) {
    forall k :: 0 <= k < |lines| && !exempt(lines[k]) ==> Sum(lines[..k + 1]) <= budget
  }

  lemma WithinSnoc(lines: seq<string>, l: string, budget: nat, exempt: string -> bool)
    requires Within(lines, budget, exempt) && (exempt(l) || Sum(lines) + |l| <= budget)
    ensures Within(lines + [l], budget, exempt)
  {
    var more := lines + [l];
    forall k | 0 <= k < |more| && !exempt(more[k]) ensures Sum(more[..k + 1]) <= budget {
      if k < |lines| {
        assert more[..k + 1] == lines[..k + 1];
      } else {
        assert more[..k + 1] == more;
      }
    }
  }

  ghost predicate Short(lines: seq<string>) {
    forall k :: 0 <= k < |lines| ==> |lines[k]| <= MAX_LINE_BYTES
  }

  /** What holds of the loop's variables after i turns. */
  ghost predicate Kept(s: State, i: nat, b: Rules) {
    && |s.out| == |s.read| <= i && (!s.stopped ==> |s.out| == i)
    && s.total == Sum(s.out) && s.work >= Sum(s.out) && s.work >= Sum(s.read)
    && Short(s.out) && Within(s.out, b.total, b.exempt) && Within(s.read, b.work, b.exempt)
  }

  lemma NextKeeps(s: State, l: string, i: nat, b: Rules)
    requires Kept(s, i, b)
    ensures Kept(Next(s, l, b), i + 1, b)
  {
    var t := Next(s, l, b);
    if !t.stopped {
      var c := HardCut(l);
      var r := Clip(b.redact(s.read, c));
      WithinSnoc(s.out, r, b.total, b.exempt);
      WithinSnoc(s.read, c, b.work, b.exempt);
    } else {
      assert t == s.(stopped := true);
    }
  }

  lemma {:induction false} RunKeeps(lines: seq<string>, i: nat, b: Rules)
    requires i <= |lines|
    ensures Kept(Run(lines, i, b), i, b)
  {
    if i > 0 {
      RunKeeps(lines, i - 1, b);
      NextKeeps(Run(lines, i - 1, b), lines[i - 1], i - 1, b);
    }
  }

  lemma OmissionIsShort(n: nat)
    requires n < TWO_63
    ensures |Omission(n)| <= MAX_LINE_BYTES
  {
    assert Pow10(19) == 10_000_000_000_000_000_000 by {
      assert Pow10(10) == 10_000_000_000;
    }
    ItoaLength(n, 19);
  }

  /** Lines kept and lines reported dropped add up, within every limit. */
  lemma RedactedFits(lines: seq<string>, b: Rules)
    requires |lines| < TWO_63 && MarkersExempt(b)
    ensures var out := Redacted(lines, b);
            var kept := Run(lines, Limit(lines), b);
            && |out| <= MAX_LINES && Short(out) && Within(out, b.total, b.exempt) && Within(kept.read, b.work, b.exempt)
            && kept.out <= out && |kept.out| <= |lines|
            && (if |kept.out| == |lines| then |out| == |lines| else |out| == |kept.out| + 1 && out[|kept.out|] == Omission(|lines| - |kept.out|))
  {
    var kept := Run(lines, Limit(lines), b).out;
    RunKeeps(lines, Limit(lines), b);
    if |kept| < |lines| {
      MarkerFits(kept, |lines| - |kept|, b);
      assert Redacted(lines, b) == kept + [Omission(|lines| - |kept|)];
    } else {
      assert Redacted(lines, b) == kept;
    }
  }

  lemma MarkerFits(kept: seq<string>, n: nat, b: Rules)
    requires n < TWO_63 && MarkersExempt(b) && Short(kept) && Within(kept, b.total, b.exempt)
    ensures var out := kept + [Omission(n)]; Short(out) && Within(out, b.total, b.exempt) && out[|kept|] == Omission(n)
  {
    OmissionIsShort(n);
    WithinSnoc(kept, Omission(n), b.total, b.exempt);
  }

  function Cuts(lines: seq<string>): seq<string> {
    if lines == [] then [] else Cuts(lines[..|lines| - 1]) + [HardCut(lines[|lines| - 1])]
  }

  /** Lines that were read, each redacted after those before it, and clipped. */
  function Outs(read: seq<string>, redact: Redaction): seq<string> {
    if read == [] then []
    else Outs(read[..|read| - 1], redact) + [Clip(redact(read[..|read| - 1], read[|read| - 1]))]
  }

  /** What is kept are the first lines, cut, redacted and clipped. */
  ghost predicate FromFirst(s: State, lines: seq<string>, b: Rules) {
    |s.read| <= |lines| && s.read == Cuts(lines[..|s.read|]) && s.out == Outs(s.read, b.redact)
  }

  lemma NextFromFirst(s: State, lines: seq<string>, i: nat, b: Rules)
    requires i < |lines| && Kept(s, i, b) && FromFirst(s, lines, b)
    ensures FromFirst(Next(s, lines[i], b), lines, b)
  {
    var t := Next(s, lines[i], b);
    if !t.stopped {
      assert lines[..i + 1][..i] == lines[..i];
      assert t.read[..i] == s.read;
    }
  }

  lemma {:induction false} KeptAreTheFirst(lines: seq<string>, i: nat, b: Rules)
    requires i <= |lines|
    ensures FromFirst(Run(lines, i, b), lines, b)
  {
    if i > 0 {
      KeptAreTheFirst(lines, i - 1, b);
      RunKeeps(lines, i - 1, b);
      NextFromFirst(Run(lines, i - 1, b), lines, i - 1, b);
    } else {
      assert lines[..0] == [];
    }
  }

  // Where lines are cut.

  lemma MarkedIsValid(l: string, cut: nat)
    requires Valid(l) && cut <= |l| && Boundary(l, cut)
    ensures Valid(l[..cut] + TRUNCATED)
  {
    ValidSplit(l, cut);
    MarkIsValid(TRUNCATED);
    ValidConcat(l[..cut], TRUNCATED);
  }

  lemma MarkIsValid(mark: string)
    requires mark == TRUNCATED
    ensures Valid(mark)
  {
    assert forall i :: 0 <= i < |mark| ==> mark[i] as int < 0x80;
    AsciiIsValid(mark);
  }

  /** A cut line leaves no run of eight token bytes at the cut, which could be the head of a key, and no broken rune. */
  lemma HardCutLeavesNoKey(l: string)
    requires |l| > MAX_RAW_LINE_BYTES
    ensures HardCutAt(l) - TokenRun(l, HardCutAt(l)) < 8
    ensures Valid(l) ==> Valid(HardCut(l))
  {
    var at := AtOrBefore(l, MAX_RAW_LINE_BYTES - 15);
    var run := TokenRun(l, at);
    if Valid(l) {
      CutsAreValid(l, MAX_RAW_LINE_BYTES - 15);
      if at - run >= 8 {
        assert TokenByte(l[run]);
      }
      MarkedIsValid(l, HardCutAt(l));
    }
  }

  /** A clipped line breaks no rune, and ends before a space when there is one among the last 64 bytes it could keep. */
  lemma ClipIsClean(l: string)
    requires |l| > MAX_LINE_BYTES
    ensures Valid(l) ==> Valid(Clip(l)) && ClipAt(l) + 64 + 18 >= MAX_LINE_BYTES
    ensures var at := AtOrBefore(l, MAX_LINE_BYTES - 15);
            ClipAt(l) <= at && (ClipAt(l) < at ==> l[ClipAt(l)] == ' ') && forall k :: 0 <= k && at - 64 <= k < at && l[k] == ' ' ==> k <= ClipAt(l) < at
  {
    var at := AtOrBefore(l, MAX_LINE_BYTES - 15);
    LastSpaceIsLast(l, Window(at), at);
    if Valid(l) {
      CutsAreValid(l, MAX_LINE_BYTES - 15);
      MarkedIsValid(l, ClipAt(l));
    }
  }

  lemma {:induction false} LastSpaceIsLast(l: string, lo: nat, hi: nat)
    requires lo <= hi <= |l|
    ensures forall k :: lo <= k < hi && l[k] == ' ' ==> k <= LastSpace(l, lo, hi) < hi
  {
    if lo < hi && l[hi - 1] != ' ' {
      LastSpaceIsLast(l, lo, hi - 1);
    }
  }

  /** Where a long line is cut: at the last rune boundary in reach, or before the token bytes there if they are eight or more. */
  lemma HardCutExactly(l: string)
    requires |l| > MAX_RAW_LINE_BYTES
    ensures var (cut, at) := (|HardCut(l)| - 15, AtOrBefore(l, MAX_RAW_LINE_BYTES - 15));
            && 0 <= cut <= at && HardCut(l) == l[..cut] + " ...[truncated]" && (forall k :: cut <= k < at ==> TokenByte(l[k]))
            && (if cut == at then at < 8 || exists k :: at - 8 <= k < at && !TokenByte(l[k])
                else cut + 8 <= at && (cut == 0 || !TokenByte(l[cut - 1])))
  {
    var at := AtOrBefore(l, MAX_RAW_LINE_BYTES - 15);
    var run := TokenRun(l, at);
    if at - run < 8 && at >= 8 {
      assert run > 0 && at - 8 <= run - 1 < at && !TokenByte(l[run - 1]);
    }
  }

  // Which lines are kept.

  /** What has been worked on: of each line the longer of what was read and what came out. */
  function Work(out: seq<string>, read: seq<string>): nat
    requires |out| == |read|
  {
    if out == [] then 0 else Work(out[..|out| - 1], read[..|read| - 1]) + Larger(|read[|read| - 1]|, |out[|out| - 1]|)
  }

  /** Whether the next line goes over a budget that does not except it: read, over the work budget, or redacted, over the output's. */
  predicate GoesOver(out: seq<string>, read: seq<string>, l: string, b: Rules)
    requires |out| == |read|
  {
    var c := HardCut(l);
    var r := Clip(b.redact(read, c));
    (Work(out, read) + |c| > b.work && !b.exempt(c)) || (Sum(out) + |r| > b.total && !b.exempt(r))
  }

  /** The first i turns kept these lines, none of which went over. */
  ghost predicate KeptSoFar(lines: seq<string>, s: State, i: nat, b: Rules) {
    && |s.out| == |s.read| == i <= |lines| && s.total == Sum(s.out) && s.work == Work(s.out, s.read)
    && forall k :: 0 <= k < i ==> !GoesOver(s.out[..k], s.read[..k], lines[k], b)
  }

  lemma TurnExactly(lines: seq<string>, s: State, i: nat, b: Rules)
    requires i < |lines| && KeptSoFar(lines, s, i, b) && !s.stopped
    ensures Next(s, lines[i], b).stopped <==> GoesOver(s.out, s.read, lines[i], b)
    ensures if Next(s, lines[i], b).stopped then Next(s, lines[i], b) == s.(stopped := true) else KeptSoFar(lines, Next(s, lines[i], b), i + 1, b)
  {
    var t := Next(s, lines[i], b);
    if !t.stopped {
      assert t.out[..i] == s.out && t.read[..i] == s.read;
      forall k | 0 <= k < i + 1 ensures !GoesOver(t.out[..k], t.read[..k], lines[k], b) {
        assert t.out[..k] == s.out[..k] && t.read[..k] == s.read[..k];
        assert s.out[..i] == s.out && s.read[..i] == s.read;
      }
    }
  }

  lemma {:induction false} RunExactly(lines: seq<string>, i: nat, b: Rules)
    requires i <= |lines|
    ensures var s := Run(lines, i, b); var n := |s.out|;
            && n <= i && KeptSoFar(lines, s, n, b)
            && (if s.stopped then n < i && GoesOver(s.out, s.read, lines[n], b) else n == i)
  {
    if i > 0 {
      RunExactly(lines, i - 1, b);
      var s := Run(lines, i - 1, b);
      assert Run(lines, i, b) == Next(s, lines[i - 1], b);
      if s.stopped {
        assert Next(s, lines[i - 1], b) == s;
      } else {
        TurnExactly(lines, s, i - 1, b);
      }
    }
  }

  /**
   Which lines are kept: all of them, or the first 1999 of more than 2000, up to
   the first that goes over a budget. The marker that follows says how many are not.
   */
  lemma KeptExactly(lines: seq<string>, b: Rules)
    ensures var limit := if |lines| > 2000 then 1999 else |lines|;
            limit == Limit(lines) &&
            var s := Run(lines, limit, b); var n := |s.out|;
            && n <= limit && KeptSoFar(lines, s, n, b) && (n < limit ==> GoesOver(s.out, s.read, lines[n], b))
            && Redacted(lines, b) == s.out + if n < |lines| then [Omission(|lines| - n)] else []
  {
    RunExactly(lines, Limit(lines), b);
  }

  // Redacting what was redacted.

  /** Redaction, met with these lines, leaves each as it is. */
  ghost predicate Fixes(redact: Redaction, lines: seq<string>) {
    forall k :: 0 <= k < |lines| ==> Clip(redact(lines[..k], lines[k])) == lines[k]
  }

  /** The lines before the i-th, all kept as they are. */
  function Unchanged(lines: seq<string>, i: nat): State
    requires i <= |lines|
  {
    State(lines[..i], lines[..i], Sum(lines[..i]), Sum(lines[..i]), false)
  }

  predicate NextIsUnchanged(lines: seq<string>, i: nat, b: Rules)
    requires i < |lines|
  {
    Next(Unchanged(lines, i), lines[i], b) == Unchanged(lines, i + 1)
  }

  lemma {:induction false} RunOfFixed(lines: seq<string>, i: nat, b: Rules)
    requires i <= |lines| && forall k :: 0 <= k < i ==> NextIsUnchanged(lines, k, b)
    ensures Run(lines, i, b) == Unchanged(lines, i)
  {
    if i == 0 {
      UnchangedAtFirst(lines);
    } else {
      RunOfFixed(lines, i - 1, b);
      assert NextIsUnchanged(lines, i - 1, b);
    }
  }

  lemma UnchangedAtFirst(lines: seq<string>)
    ensures Unchanged(lines, 0) == State([], [], 0, 0, false)
  {
    assert lines[..0] == [];
  }

  lemma UnchangedNext(lines: seq<string>, i: nat, b: Rules)
    requires i < |lines| && Short(lines) && Fixes(b.redact, lines) && Within(lines, b.total, b.exempt) && Within(lines, b.work, b.exempt)
    ensures NextIsUnchanged(lines, i, b)
  {
    OneMoreLine(lines, i);
  }

  lemma OneMoreLine(lines: seq<string>, i: nat)
    requires i < |lines|
    ensures lines[..i + 1] == lines[..i] + [lines[i]] && Sum(lines[..i + 1]) == Sum(lines[..i]) + |lines[i]|
  {
    assert lines[..i + 1] == lines[..i] + [lines[i]];
  }

  /** A second pass is the identity, provided redaction fixes its own lines and the work budget covers the output's. */
  lemma Idempotent(lines: seq<string>, b: Rules)
    requires |lines| < TWO_63 && MarkersExempt(b) && b.total <= b.work && Fixes(b.redact, Redacted(lines, b))
    ensures Redacted(Redacted(lines, b), b) == Redacted(lines, b)
  {
    var out := Redacted(lines, b);
    RedactedFits(lines, b);
    FixedIsKept(out, b);
  }

  lemma FixedIsKept(lines: seq<string>, b: Rules)
    requires |lines| <= MAX_LINES && Short(lines) && Fixes(b.redact, lines) && Within(lines, b.total, b.exempt) && Within(lines, b.work, b.exempt)
    ensures Redacted(lines, b) == lines
  {
    forall k | 0 <= k < |lines| ensures NextIsUnchanged(lines, k, b) {
      UnchangedNext(lines, k, b);
    }
    RunOfFixed(lines, |lines|, b);
    assert lines[..|lines|] == lines;
  }

  // The exemption of markers.

  /** These lines are kept as they are, and l, which no budget excepts, no longer fits. */
  ghost predicate FillsBudget(kept: seq<string>, l: string, b: Rules) {
    && |kept| < MAX_LINES && Short(kept) && Fixes(b.redact, kept) && Within(kept, b.total, b.exempt) && Within(kept, b.work, b.exempt)
    && |l| <= MAX_LINE_BYTES && !b.exempt(l) && Sum(kept) + |l| > b.work
  }

  lemma KeptComeFirst(kept: seq<string>, rest: seq<string>, b: Rules)
    requires Short(kept) && Fixes(b.redact, kept) && Within(kept, b.total, b.exempt) && Within(kept, b.work, b.exempt)
    ensures Run(kept + rest, |kept|, b) == State(kept, kept, Sum(kept), Sum(kept), false)
  {
    var lines := kept + rest;
    forall k | 0 <= k < |kept| ensures NextIsUnchanged(lines, k, b) {
      UnchangedNext(kept, k, b);
      assert lines[..k] == kept[..k] && lines[..k + 1] == kept[..k + 1];
    }
    RunOfFixed(lines, |kept|, b);
    assert lines[..|kept|] == kept;
  }

  lemma RestIsDropped(kept: seq<string>, rest: seq<string>, b: Rules)
    requires rest != [] && FillsBudget(kept, rest[0], b)
    ensures Redacted(kept + rest, b) == kept + [Omission(|rest|)]
  {
    KeptComeFirst(kept, rest, b);
    assert HardCut(rest[0]) == rest[0];
    StopsAfter(kept + rest, |kept|, b);
  }

  /** A line that stops the loop is the first one not kept. */
  lemma StopsAfter(lines: seq<string>, n: nat, b: Rules)
    requires n < |lines| && n < MAX_LINES && |Run(lines, n, b).out| == n
    requires Run(lines, n, b).work + |HardCut(lines[n])| > b.work && !b.exempt(HardCut(lines[n]))
    ensures Redacted(lines, b) == Run(lines, n, b).out + [Omission(|lines| - n)]
  {
    if Limit(lines) > n {
      assert Run(lines, n + 1, b) == Run(lines, n, b).(stopped := true);
      StoppedStays(lines, n + 1, Limit(lines), b);
    }
  }

  /**
   Were a marker not exempt and without room, a second pass would drop it and
   report one line: nothing changes exactly when one line is what it reported.
   */
  lemma UnexemptMarkerExactly(kept: seq<string>, rest: seq<string>, b: Rules)
    requires rest != [] && |rest| < TWO_63 && FillsBudget(kept, rest[0], b) && FillsBudget(kept, Omission(|rest|), b)
    ensures Redacted(Redacted(kept + rest, b), b) == Redacted(kept + rest, b) <==> |rest| == 1
  {
    var marker := Omission(|rest|);
    RestIsDropped(kept, rest, b);
    RestIsDropped(kept, [marker], b);
    if marker == Omission(1) {
      assert marker[|OPEN|..|marker| - |REST|] == Itoa(|rest|) && marker[|OPEN|..|marker| - |REST|] == Itoa(1);
      ItoaInjective(|rest|, 1);
    }
  }

  /** So the marker must be exempt: two lines dropped come back as one. */
  lemma ExemptionIsNeeded() returns (lines: seq<string>, b: Rules)
    ensures b.total <= b.work && !MarkersExempt(b) && Fixes(b.redact, Redacted(lines, b))
    ensures Redacted(Redacted(lines, b), b) != Redacted(lines, b)
  {
    lines := ["x", "y"];
    b := Rules(0, 0, (before, l) => l, l => false);
    assert [] + lines == lines;
    UnexemptMarkerExactly([], lines, b);
    RestIsDropped([], lines, b);
    OmissionIsShort(2);
    assert !b.exempt(Omission(1));
  }

  // The two budgets.

  lemma OneLine(l: string, b: Rules)
    ensures Redacted([l], b) == if Next(State([], [], 0, 0, false), l, b).stopped then [Omission(1)] else [Clip(b.redact([], HardCut(l)))]
  {
    assert Run([l], 0, b) == State([], [], 0, 0, false);
    assert Run([l], 1, b) == Next(State([], [], 0, 0, false), l, b);
  }

  /** A short line that redaction lengthens past the work budget, though not past the other, is kept once and dropped the next time. */
  lemma LengthenedLineIsDropped(l: string, b: Rules)
    requires var r := b.redact([], l); |l| <= b.work < |r| <= b.total && |l| <= MAX_LINE_BYTES && |r| <= MAX_LINE_BYTES && !b.exempt(r)
    ensures Redacted([l], b) == [b.redact([], l)]
    ensures Redacted([b.redact([], l)], b) == [Omission(1)]
  {
    OneLine(l, b);
    OneLine(b.redact([], l), b);
  }

  /** So the work budget must not be the smaller one. */
  lemma SmallerWorkBudgetBreaksIt() returns (lines: seq<string>, b: Rules)
    ensures b.work < b.total && MarkersExempt(b) && Fixes(b.redact, Redacted(lines, b))
    ensures Redacted(Redacted(lines, b), b) != Redacted(lines, b)
  {
    lines := ["ab"];
    b := Rules(4, 2, (before, l) => if l == "ab" then "abc" else l, l => IsOmitted(l));
    SourceMarkersExempt(b.redact);
    LengthenedLineIsDropped("ab", b);
    assert |Omission(1)| > 3;
  }
}
