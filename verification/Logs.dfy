/**
 The bounded journal read: lines, bytes and age bound one answer, and the cursor
 of each answer makes repeated calls deliver every line exactly once.
 */
module Logs {
  import opened Strings
  import opened Utf8

  const MAX_LINES := 2000
  const DEFAULT_LINES := 200
  const MAX_LINE_BYTES: nat := 8192
  const MAX_BYTES: nat := 1048576

  /** 24 hours, in the journal's microseconds. */
  const MAX_AGE := 24 * 3600 * 1000000

  datatype Entry = Entry(cursor: string, unit: string, line: string, at: int)

  /** What one call is asked for: the clock, how a cut line is presented, and how long that encodes to. */
  datatype Reading<!T> = Reading(now: int, item: Entry -> T, encoded: T -> nat) {
    /** Whether a line is passed over: too old, when reading after a cursor. */
    predicate TooOld(cursor: string, e: Entry) {
      cursor != "" && e.at < now - MAX_AGE
    }

    function Present(e: Entry): T {
      item(Cut(e))
    }

    function Cost(e: Entry): nat {
      encoded(Present(e)) + 1
    }
  }

  function Cut(e: Entry): Entry {
    e.(line := CutTo(e.line, MAX_LINE_BYTES))
  }

  function CutTo(s: string, max: nat): string {
    if |s| <= max then s else s[..AtOrBefore(s, max)]
  }

  /** cutLine: at most max bytes, as many as split no rune. */
  method CutLine(s: string, max: nat) returns (r: string)
    ensures r == CutTo(s, max)
  {
    if |s| <= max {
      return s;
    }
    var m := max;
    while m > 0 && !RuneStart(s[m])
      invariant 0 <= m <= max && AtOrBefore(s, m) == AtOrBefore(s, max)
    {
      m := m - 1;
    }
    return s[..m];
  }

  lemma CutKeepsValidText(s: string, max: nat)
    requires Valid(s)
    ensures Valid(CutTo(s, max)) && |CutTo(s, max)| <= max
    ensures CutTo(s, max) <= s && (|s| > max ==> |CutTo(s, max)| + 3 >= max)
  {
    if |s| > max {
      CutsAreValid(s, max);
    }
  }

  /** The lines an answer carries for the entries it consumed. */
  function Kept<T>(r: Reading<T>, cursor: string, es: seq<Entry>): seq<T> {
    if es == [] then []
    else Kept(r, cursor, es[..|es| - 1]) + if r.TooOld(cursor, es[|es| - 1]) then [] else [r.Present(es[|es| - 1])]
  }

  function Bytes<T>(r: Reading<T>, items: seq<T>): nat {
    if items == [] then 0 else Bytes(r, items[..|items| - 1]) + r.encoded(items[|items| - 1]) + 1
  }

  /** Where the next call resumes after these entries. */
  function Resume<T>(r: Reading<T>, cursor: string, es: seq<Entry>): string {
    if es == [] then cursor
    else
      var last := es[|es| - 1];
      if last.cursor != "" || r.TooOld(cursor, last) then last.cursor else Resume(r, cursor, es[..|es| - 1])
  }

  /** What one more entry adds to an answer. */
  lemma OneMoreEntry<T>(r: Reading<T>, cursor: string, es: seq<Entry>, i: nat)
    requires i < |es|
    ensures Kept(r, cursor, es[..i + 1]) == Kept(r, cursor, es[..i]) + if r.TooOld(cursor, es[i]) then [] else [r.Present(es[i])]
    ensures Resume(r, cursor, es[..i + 1]) == if es[i].cursor != "" || r.TooOld(cursor, es[i]) then es[i].cursor else Resume(r, cursor, es[..i])
  {
    assert es[..i + 1][..i] == es[..i];
  }

  lemma OneMoreItem<T>(r: Reading<T>, items: seq<T>, it: T)
    ensures Bytes(r, items + [it]) == Bytes(r, items) + r.encoded(it) + 1
  {
    assert (items + [it])[..|items|] == items;
  }

  /** The loop of logsSince over what journalctl printed. */
  method ReadPage<T>(r: Reading<T>, cursor: string, es: seq<Entry>) returns (out: seq<T>, next: string, ghost taken: nat)
    ensures taken <= |es| && (es != [] ==> taken > 0)
    ensures out == Kept(r, cursor, es[..taken]) && next == Resume(r, cursor, es[..taken])
    ensures Bytes(r, out) <= MAX_BYTES || |out| == 1
    ensures taken < |es| ==> out != [] && !r.TooOld(cursor, es[taken]) && Bytes(r, out) + r.Cost(es[taken]) > MAX_BYTES
  {
    out, next, taken := [], cursor, 0;
    var oldest, size := r.now - MAX_AGE, 0;
    for i := 0 to |es|
      invariant size == Bytes(r, out) && taken == i
      invariant out == Kept(r, cursor, es[..i]) && next == Resume(r, cursor, es[..i])
      invariant size <= MAX_BYTES || |out| == 1
    {
      var e := es[i];
      OneMoreEntry(r, cursor, es, i);
      if cursor != "" && e.at < oldest {
        next := e.cursor;
      } else {
        var line := CutLine(e.line, MAX_LINE_BYTES);
        var it := r.item(e.(line := line));
        var sz := r.encoded(it) + 1;
        if size + sz > MAX_BYTES && |out| > 0 {
          return;
        }
        size := size + sz;
        OneMoreItem(r, out, it);
        out := out + [it];
        if e.cursor != "" {
          next := e.cursor;
        }
      }
      taken := i + 1;
    }
    assert es[..|es|] == es;
  }

  function Limit(n: int): nat {
    if n <= 0 then DEFAULT_LINES else if n > MAX_LINES then MAX_LINES else n
  }

  function AfterCursor(journal: seq<Entry>, cursor: string): seq<Entry> {
    if journal == [] then [] else if journal[0].cursor == cursor then journal[1..] else AfterCursor(journal[1..], cursor)
  }

  /** journalctl: the last lines, or the first ones after a cursor. */
  function Journalctl(journal: seq<Entry>, cursor: string, n: nat): seq<Entry> {
    if cursor == "" then
      if |journal| <= n then journal else journal[|journal| - n..]
    else
      var rest := AfterCursor(journal, cursor);
      if |rest| <= n then rest else rest[..n]
  }

  method LogsSince<T>(r: Reading<T>, journal: seq<Entry>, cursor: string, n: int) returns (out: seq<T>, next: string, ghost taken: nat)
    ensures var es := Journalctl(journal, cursor, Limit(n));
            && taken <= |es| && (es != [] ==> taken > 0)
            && out == Kept(r, cursor, es[..taken]) && next == Resume(r, cursor, es[..taken])
            && (taken < |es| ==> out != [] && !r.TooOld(cursor, es[taken]) && Bytes(r, out) + r.Cost(es[taken]) > MAX_BYTES)
    ensures Bytes(r, out) <= MAX_BYTES || |out| == 1
  {
    out, next, taken := ReadPage(r, cursor, Journalctl(journal, cursor, Limit(n)));
  }

  // What an answer is made of, by position.

  /** What cutting leaves: the text itself when it fits, else the longest beginning within the bound that ends before a rune. */
  lemma CutToExactly(s: string, max: nat)
    ensures var cut := CutTo(s, max);
            && cut <= s && (|s| <= max ==> cut == s)
            && (|s| > max ==> |cut| <= max && (|cut| > 0 ==> RuneStart(s[|cut|])) && forall k :: |cut| < k <= max ==> !RuneStart(s[k]))
  {
    if |s| > max {
      forall k | AtOrBefore(s, max) < k <= max ensures !RuneStart(s[k]) {
        assert !Boundary(s, k);
      }
    }
  }

  /** Whether an entry is not older than a day, or nothing was read before. */
  predicate Due<T>(r: Reading<T>, cursor: string, e: Entry) {
    cursor == "" || e.at >= r.now - 86_400_000_000
  }

  /** at lists, in order, the entries an answer carries: those that are due, each cut to 8192 bytes. */
  ghost predicate Carries<T>(r: Reading<T>, cursor: string, es: seq<Entry>, items: seq<T>, at: seq<nat>) {
    && |at| == |items| && (forall j, k :: 0 <= j < k < |at| ==> at[j] < at[k])
    && (forall j :: 0 <= j < |at| ==>
         && at[j] < |es| && Due(r, cursor, es[at[j]])
         && items[j] == r.item(es[at[j]].(line := CutTo(es[at[j]].line, 8192))))
    && forall i :: 0 <= i < |es| && Due(r, cursor, es[i]) ==> exists j :: 0 <= j < |at| && at[j] == i
  }

  lemma {:induction false} KeptExactly<T>(r: Reading<T>, cursor: string, es: seq<Entry>) returns (at: seq<nat>)
    ensures Carries(r, cursor, es, Kept(r, cursor, es), at)
  {
    if es == [] {
      return [];
    }
    var init, last := es[..|es| - 1], es[|es| - 1];
    var before := KeptExactly(r, cursor, init);
    OneMoreCarried(r, cursor, init, last, Kept(r, cursor, init), before);
    assert es == init + [last];
    return if r.TooOld(cursor, last) then before else before + [|init|];
  }

  lemma OneMoreCarried<T>(r: Reading<T>, cursor: string, es: seq<Entry>, e: Entry, items: seq<T>, at: seq<nat>)
    requires Carries(r, cursor, es, items, at)
    ensures if r.TooOld(cursor, e) then Carries(r, cursor, es + [e], items, at)
            else Carries(r, cursor, es + [e], items + [r.Present(e)], at + [|es|])
  {
    var more, longer := es + [e], at + [|es|];
    forall i | 0 <= i < |es| && Due(r, cursor, es[i]) ensures exists j :: 0 <= j < |at| && at[j] == i && longer[j] == i {
      var j :| 0 <= j < |at| && at[j] == i;
      assert longer[j] == i;
    }
    assert longer[|at|] == |es| && more[|es|] == e;
  }

  /** The next call resumes at the last entry with a cursor, or that was passed over; with none, where this one did. */
  lemma {:induction false} ResumeExactly<T>(r: Reading<T>, cursor: string, es: seq<Entry>)
    ensures (exists i :: IsLastMark(r, cursor, es, i) && Resume(r, cursor, es) == es[i].cursor)
         || (Resume(r, cursor, es) == cursor && forall i :: 0 <= i < |es| ==> es[i].cursor == "" && !r.TooOld(cursor, es[i]))
  {
    if es != [] {
      var last := es[|es| - 1];
      if last.cursor != "" || r.TooOld(cursor, last) {
        assert IsLastMark(r, cursor, es, |es| - 1);
      } else {
        var init := es[..|es| - 1];
        ResumeExactly(r, cursor, init);
        if i :| IsLastMark(r, cursor, init, i) && Resume(r, cursor, init) == init[i].cursor {
          StillLastMark(r, cursor, es, i);
        }
      }
    }
  }

  lemma StillLastMark<T>(r: Reading<T>, cursor: string, es: seq<Entry>, i: int)
    requires es != [] && es[|es| - 1].cursor == "" && !r.TooOld(cursor, es[|es| - 1]) && IsLastMark(r, cursor, es[..|es| - 1], i)
    ensures IsLastMark(r, cursor, es, i) && es[i] == es[..|es| - 1][i]
  {
    assert forall k :: 0 <= k < |es| - 1 ==> es[..|es| - 1][k] == es[k];
  }

  ghost predicate IsLastMark<T>(r: Reading<T>, cursor: string, es: seq<Entry>, i: int) {
    && 0 <= i < |es| && (es[i].cursor != "" || r.TooOld(cursor, es[i]))
    && forall k :: i < k < |es| ==> es[k].cursor == "" && !r.TooOld(cursor, es[k])
  }

  /** Which lines a call is for: the last ones, or the first ones after the cursor's line; how many is at least 1 and at most 2000, and 200 unless asked. */
  lemma {:induction false} JournalctlExactly(journal: seq<Entry>, cursor: string, n: int)
    ensures var most := if n <= 0 then 200 else if n > 2000 then 2000 else n;
            && (cursor == "" ==> Journalctl(journal, cursor, Limit(n)) == if |journal| <= most then journal else journal[|journal| - most..])
            && (forall i :: cursor != "" && IsCursorAt(journal, cursor, i) ==>
                 Journalctl(journal, cursor, Limit(n)) == if |journal| - i - 1 <= most then journal[i + 1..] else journal[i + 1..i + 1 + most])
            && (cursor != "" && (forall e :: e in journal ==> e.cursor != cursor) ==> Journalctl(journal, cursor, Limit(n)) == [])
  {
    forall i | IsCursorAt(journal, cursor, i) ensures AfterCursor(journal, cursor) == journal[i + 1..] {
      AfterFirst(journal, cursor, i);
    }
    if forall e :: e in journal ==> e.cursor != cursor {
      AfterNone(journal, cursor);
    }
  }

  ghost predicate IsCursorAt(journal: seq<Entry>, cursor: string, i: int) {
    0 <= i < |journal| && journal[i].cursor == cursor && forall k :: 0 <= k < i ==> journal[k].cursor != cursor
  }

  lemma {:induction false} AfterFirst(journal: seq<Entry>, cursor: string, i: nat)
    requires IsCursorAt(journal, cursor, i)
    ensures AfterCursor(journal, cursor) == journal[i + 1..]
  {
    if i > 0 {
      assert journal[0].cursor != cursor;
      AfterFirst(journal[1..], cursor, i - 1);
    }
  }

  lemma {:induction false} AfterNone(journal: seq<Entry>, cursor: string)
    requires forall e :: e in journal ==> e.cursor != cursor
    ensures AfterCursor(journal, cursor) == []
  {
    if journal != [] {
      assert journal[0] in journal;
      AfterNone(journal[1..], cursor);
    }
  }

  /** Every journal line has a cursor, and no two share one. */
  ghost predicate HasCursors(journal: seq<Entry>) {
    && (forall e :: e in journal ==> e.cursor != "")
    && (forall i, j :: 0 <= i < j < |journal| ==> journal[i].cursor != journal[j].cursor)
  }

  lemma {:induction false} AfterCursorAt(journal: seq<Entry>, at: nat)
    requires HasCursors(journal) && at < |journal|
    ensures AfterCursor(journal, journal[at].cursor) == journal[at + 1..]
  {
    if at > 0 {
      AfterCursorAt(journal[1..], at - 1);
    }
  }

  /** Once a cursor is set, which one it is does not change what is kept. */
  lemma {:induction false} KeptAppends<T>(r: Reading<T>, cursor: string, other: string, es: seq<Entry>, fs: seq<Entry>)
    requires cursor != "" && other != ""
    ensures Kept(r, cursor, es + fs) == Kept(r, cursor, es) + Kept(r, other, fs)
  {
    if fs == [] {
      assert es + fs == es;
    } else {
      KeptAppends(r, cursor, other, es, fs[..|fs| - 1]);
      assert (es + fs)[..|es + fs| - 1] == es + fs[..|fs| - 1];
    }
  }

  /** A page is the lines after the cursor's own. */
  lemma PageAt(journal: seq<Entry>, at: nat, n: int, taken: nat)
    requires HasCursors(journal) && at < |journal| - 1
    requires taken <= |Journalctl(journal, journal[at].cursor, Limit(n))|
    ensures Journalctl(journal, journal[at].cursor, Limit(n)) != [] && at + taken < |journal|
    ensures Journalctl(journal, journal[at].cursor, Limit(n))[..taken] == journal[at + 1..at + 1 + taken]
  {
    var rest := journal[at + 1..];
    AfterCursorAt(journal, at);
    assert rest != [] && Limit(n) > 0;
    assert rest[..taken] == journal[at + 1..at + 1 + taken];
    if |rest| > Limit(n) {
      assert rest[..Limit(n)][..taken] == rest[..taken];
    }
  }

  /** A page read after one line continues exactly where an earlier reading stopped. */
  lemma OnePageOn<T>(r: Reading<T>, journal: seq<Entry>, from: nat, at: nat, n: int, taken: nat)
    requires HasCursors(journal) && from <= at < |journal| - 1
    requires taken <= |Journalctl(journal, journal[at].cursor, Limit(n))|
    ensures Journalctl(journal, journal[at].cursor, Limit(n)) != [] && at + taken < |journal|
    ensures var page := Journalctl(journal, journal[at].cursor, Limit(n))[..taken];
            && Kept(r, journal[from].cursor, journal[from + 1..at + 1 + taken])
               == Kept(r, journal[from].cursor, journal[from + 1..at + 1]) + Kept(r, journal[at].cursor, page)
            && Resume(r, journal[at].cursor, page) == journal[at + taken].cursor
  {
    PageAt(journal, at, n, taken);
    KeptOn(r, journal, from, at, taken);
    ResumeAt(r, journal, at, taken);
  }

  lemma KeptOn<T>(r: Reading<T>, journal: seq<Entry>, from: nat, at: nat, taken: nat)
    requires HasCursors(journal) && from <= at && at + taken < |journal|
    ensures Kept(r, journal[from].cursor, journal[from + 1..at + 1 + taken])
            == Kept(r, journal[from].cursor, journal[from + 1..at + 1]) + Kept(r, journal[at].cursor, journal[at + 1..at + 1 + taken])
  {
    var page := journal[at + 1..at + 1 + taken];
    KeptAppends(r, journal[from].cursor, journal[at].cursor, journal[from + 1..at + 1], page);
    assert journal[from + 1..at + 1] + page == journal[from + 1..at + 1 + taken];
  }

  lemma ResumeAt<T>(r: Reading<T>, journal: seq<Entry>, at: nat, taken: nat)
    requires HasCursors(journal) && at + taken < |journal|
    ensures Resume(r, journal[at].cursor, journal[at + 1..at + 1 + taken]) == journal[at + taken].cursor
  {
    if taken > 0 {
      assert journal[at + 1..at + 1 + taken][taken - 1] == journal[at + taken];
    }
  }

  /**
   A caller reading forward from any line until nothing is left: every call
   advances, and together the answers are the later lines that are not too old,
   each once, in order, whatever the byte bound does to the pages.
   */
  method ReadOn<T>(r: Reading<T>, journal: seq<Entry>, from: nat, n: int) returns (all: seq<T>, end: string)
    requires HasCursors(journal) && from < |journal|
    ensures all == Kept(r, journal[from].cursor, journal[from + 1..])
    ensures end == journal[|journal| - 1].cursor
  {
    ghost var start := journal[from].cursor;
    var cursor := journal[from].cursor;
    ghost var at := from;
    all := [];
    while cursor != journal[|journal| - 1].cursor
      invariant from <= at < |journal| && cursor == journal[at].cursor
      invariant all == Kept(r, start, journal[from + 1..at + 1])
      decreases |journal| - at
    {
      assert at < |journal| - 1;
      ghost var taken;
      all, cursor, taken := ReadPageOn(r, journal, cursor, all, n, from, at);
      at := at + taken;
    }
    LastIsAlone(journal, at);
    assert journal[from + 1..at + 1] == journal[from + 1..];
    end := cursor;
  }

  /** One call more, from a line that is not the last. */
  method ReadPageOn<T>(r: Reading<T>, journal: seq<Entry>, cursor: string, before: seq<T>, n: int, ghost from: nat, ghost at: nat) returns (all: seq<T>, next: string, ghost taken: nat)
    requires HasCursors(journal) && from <= at < |journal| - 1 && cursor == journal[at].cursor && before == Kept(r, journal[from].cursor, journal[from + 1..at + 1])
    ensures 0 < taken && at + taken < |journal| && next == journal[at + taken].cursor
    ensures all == Kept(r, journal[from].cursor, journal[from + 1..at + taken + 1])
  {
    var out;
    out, next, taken := LogsSince(r, journal, cursor, n);
    OnePageOn(r, journal, from, at, n, taken);
    all := before + out;
  }

  lemma LastIsAlone(journal: seq<Entry>, at: nat)
    requires HasCursors(journal) && at < |journal| && journal[at].cursor == journal[|journal| - 1].cursor
    ensures at == |journal| - 1
  {
  }

  /** With no cursor the first answer ends at a line of the journal, so the reading goes on from there. */
  lemma FirstAnswerSetsTheCursor<T>(r: Reading<T>, journal: seq<Entry>, n: int, taken: nat)
    requires HasCursors(journal) && 0 < taken <= |Journalctl(journal, "", Limit(n))|
    ensures exists at :: 0 <= at < |journal| && Resume(r, "", Journalctl(journal, "", Limit(n))[..taken]) == journal[at].cursor
  {
    var skipped := if |journal| <= Limit(n) then 0 else |journal| - Limit(n);
    assert Journalctl(journal, "", Limit(n))[taken - 1] == journal[skipped + taken - 1];
  }

  /** What successive calls see of a journal that only grows. */
  ghost predicate Grows(journals: seq<seq<Entry>>) {
    forall i, j :: 0 <= i <= j < |journals| ==> journals[i] <= journals[j]
  }

  lemma PrefixHasCursors(journal: seq<Entry>, longer: seq<Entry>)
    requires journal <= longer && HasCursors(longer)
    ensures HasCursors(journal)
  {
    forall i | 0 <= i < |journal| ensures journal[i] == longer[i] {
    }
    forall e | e in journal ensures e.cursor != "" {
      var i :| 0 <= i < |journal| && journal[i] == e;
      assert longer[i] == e;
    }
  }

  /** The first answer: the last lines of the journal, none of them too old, up to where the bound cut the page. */
  lemma FirstPage<T>(r: Reading<T>, journal: seq<Entry>, n: int, taken: nat)
    requires HasCursors(journal) && 0 < taken <= |Journalctl(journal, "", Limit(n))|
    ensures var first := Skipped(journal, n);
            && first + taken <= |journal| && Journalctl(journal, "", Limit(n))[..taken] == journal[first..first + taken]
            && Resume(r, "", journal[first..first + taken]) == journal[first + taken - 1].cursor
  {
    var first := Skipped(journal, n);
    assert journal[first..first + taken][taken - 1] == journal[first + taken - 1];
  }

  /** How many lines a first call passes over. */
  function Skipped(journal: seq<Entry>, n: int): nat {
    if |journal| <= Limit(n) then 0 else |journal| - Limit(n)
  }

  /** Whether the answers so far are the lines first to at: of the first page, to mid, all of them, and of the rest those not too old. */
  ghost predicate ReadTo<T>(r: Reading<T>, journal: seq<Entry>, first: nat, mid: nat, at: nat, all: seq<T>, cursor: string) {
    && first <= mid <= at < |journal| && cursor == journal[at].cursor
    && all == Kept(r, "", journal[first..mid + 1]) + Kept(r, journal[mid].cursor, journal[mid + 1..at + 1])
  }

  lemma ReadGrows<T>(r: Reading<T>, journal: seq<Entry>, longer: seq<Entry>, first: nat, mid: nat, at: nat, all: seq<T>, cursor: string)
    requires journal <= longer && ReadTo(r, journal, first, mid, at, all, cursor)
    ensures ReadTo(r, longer, first, mid, at, all, cursor)
  {
    assert longer[first..mid + 1] == journal[first..mid + 1];
    assert longer[mid + 1..at + 1] == journal[mid + 1..at + 1];
  }

  /** One more call: it takes up right after the line at, or finds nothing yet. */
  lemma ReadMore<T>(r: Reading<T>, journal: seq<Entry>, first: nat, mid: nat, at: nat, all: seq<T>, n: int, taken: nat)
    requires HasCursors(journal) && at < |journal| && ReadTo(r, journal, first, mid, at, all, journal[at].cursor)
    requires var es := Journalctl(journal, journal[at].cursor, Limit(n)); taken <= |es| && (es != [] ==> taken > 0)
    ensures var page := Journalctl(journal, journal[at].cursor, Limit(n))[..taken];
            ReadTo(r, journal, first, mid, at + taken, all + Kept(r, journal[at].cursor, page), Resume(r, journal[at].cursor, page))
    ensures taken == 0 ==> at == |journal| - 1
  {
    if at < |journal| - 1 {
      OnePageOn(r, journal, mid, at, n, taken);
      var cursor := journal[at].cursor;
      Regroup(Kept(r, "", journal[first..mid + 1]), Kept(r, journal[mid].cursor, journal[mid + 1..at + 1]),
              Kept(r, cursor, Journalctl(journal, cursor, Limit(n))[..taken]));
    } else {
      AfterCursorAt(journal, at);
      assert all + [] == all;
    }
  }

  /** Every call advances, unless it found nothing newer. */
  ghost predicate Advances(journals: seq<seq<Entry>>, ats: seq<nat>) {
    |ats| <= |journals| && forall k :: 0 < k < |ats| ==> ats[k - 1] < ats[k] || ats[k - 1] == ats[k] == |journals[k]| - 1
  }

  /** Whether all and cursor are what calls on these journals, ending at these lines, have read. */
  ghost predicate ReadAll<T>(r: Reading<T>, journals: seq<seq<Entry>>, ats: seq<nat>, n: int, all: seq<T>, cursor: string)
    requires journals != []
  {
    |ats| == |journals| && Advances(journals, ats) &&
    ReadTo(r, journals[|journals| - 1], Skipped(journals[0], n), ats[0], ats[|ats| - 1], all, cursor)
  }

  /**
   Reading from nothing while the journal grows: after each call the answers are
   the lines from the first to the one its cursor is at, each once and in order,
   with none dropped from the first page and only those too old from the rest.
   */
  method ReadGrowing<T>(r: Reading<T>, journals: seq<seq<Entry>>, n: int) returns (all: seq<T>, cursor: string)
    requires journals != [] && Grows(journals) && journals[0] != [] && HasCursors(journals[|journals| - 1])
    ensures exists ats :: ReadAll(r, journals, ats, n, all, cursor)
  {
    SeenAt(journals, 0);
    ghost var mid;
    all, cursor, mid := ReadFirst(r, journals[0], n);
    ghost var seen, first, at, ats := journals[0], Skipped(journals[0], n), mid, [mid];
    for k := 1 to |journals|
      invariant seen == journals[k - 1] && |ats| == k && ats[0] == mid && ats[k - 1] == at
      invariant Advances(journals, ats) && ReadTo(r, seen, first, mid, at, all, cursor)
    {
      SeenAt(journals, k);
      ReadGrows(r, seen, journals[k], first, mid, at, all, cursor);
      all, cursor, at := ReadAgain(r, journals[k], all, cursor, n, first, mid, at);
      AdvancesOn(journals, ats, at);
      seen, ats := journals[k], ats + [at];
    }
    assert ReadAll(r, journals, ats, n, all, cursor);
  }

  lemma SeenAt(journals: seq<seq<Entry>>, k: nat)
    requires k < |journals| && Grows(journals) && HasCursors(journals[|journals| - 1])
    ensures HasCursors(journals[k]) && (k > 0 ==> journals[k - 1] <= journals[k])
  {
    PrefixHasCursors(journals[k], journals[|journals| - 1]);
  }

  lemma AdvancesOn(journals: seq<seq<Entry>>, ats: seq<nat>, at: nat)
    requires 0 < |ats| < |journals| && Advances(journals, ats)
    requires ats[|ats| - 1] < at || ats[|ats| - 1] == at == |journals[|ats|]| - 1
    ensures Advances(journals, ats + [at])
  {
  }

  method ReadFirst<T>(r: Reading<T>, journal: seq<Entry>, n: int) returns (all: seq<T>, cursor: string, ghost mid: nat)
    requires journal != [] && HasCursors(journal)
    ensures ReadTo(r, journal, Skipped(journal, n), mid, mid, all, cursor)
  {
    ghost var taken;
    all, cursor, taken := LogsSince(r, journal, "", n);
    FirstPage(r, journal, n, taken);
    mid := Skipped(journal, n) + taken - 1;
    assert all + [] == all;
  }

  /** One more call. */
  method ReadAgain<T>(r: Reading<T>, journal: seq<Entry>, all0: seq<T>, cursor0: string, n: int, ghost first: nat, ghost mid: nat, ghost at0: nat)
    returns (all: seq<T>, cursor: string, ghost at: nat)
    requires HasCursors(journal) && ReadTo(r, journal, first, mid, at0, all0, cursor0)
    ensures ReadTo(r, journal, first, mid, at, all, cursor)
    ensures at0 < at || at0 == at == |journal| - 1
  {
    var out, next, taken := LogsSince(r, journal, cursor0, n);
    ReadMore(r, journal, first, mid, at0, all0, n, taken);
    all, cursor, at := all0 + out, next, at0 + taken;
  }
}
