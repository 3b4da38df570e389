/**
 Several probe runs of one endpoint made into one row. A verdict that some runs
 give and others contradict is a finding of its own; a run without evidence
 counts for nothing beside one with it.
 */
module FoldRuns {
  import opened Strings
  import opened Wrappers
  import opened Capabilities

  /** What the runs that answered said, in the order of the runs. */
  function Answers(key: string, runs: seq<Endpoint>): seq<Verdict> {
    if runs == [] then []
    else Answers(key, runs[..|runs| - 1]) + if key in runs[|runs| - 1].caps then [runs[|runs| - 1].caps[key]] else []
  }

  /** Supported, unsupported, or neither: any other status is evidence of nothing. */
  datatype Kind = Yes | No | Nothing

  function KindOf(s: Status): Kind {
    match s
    case Supported => Yes
    case Unsupported => No
    case _ => Nothing
  }

  function Of(answers: seq<Verdict>, k: Kind): seq<Verdict> {
    if answers == [] then []
    else Of(answers[..|answers| - 1], k) + if KindOf(answers[|answers| - 1].status) == k then [answers[|answers| - 1]] else []
  }

  function Decided(key: string, yes: seq<Verdict>, no: seq<Verdict>, nothing: seq<Verdict>): Verdict {
    if yes != [] && no != [] then
      Verdict(Inconsistent, yes[0].method_, Counts(|yes| + |no| + |nothing|, |yes|, |no|, |nothing|), Local)
    else if yes != [] then yes[0]
    else if no != [] then no[0]
    else if nothing != [] then nothing[0]
    else Verdict(Inconclusive, key, NoVerdict(key), Local)
  }

  function Fold(key: string, answers: seq<Verdict>): Verdict {
    Decided(key, Of(answers, Yes), Of(answers, No), Of(answers, Nothing))
  }

  ghost predicate IsLeast(i: int, s: set<int>) {
    i in s && forall j :: j in s ==> i <= j
  }

  /** The runs that answered. */
  ghost function Answering(key: string, runs: seq<Endpoint>): set<int> {
    set i | 0 <= i < |runs| && key in runs[i].caps
  }

  /** The runs that answered with one status. */
  ghost function Saying(key: string, runs: seq<Endpoint>, s: Status): set<int> {
    set i | 0 <= i < |runs| && key in runs[i].caps && runs[i].caps[key].status == s
  }

  /** The runs that answered without evidence. */
  ghost function Undecided(key: string, runs: seq<Endpoint>): set<int> {
    set i | 0 <= i < |runs| && key in runs[i].caps && runs[i].caps[key].status !in {Supported, Unsupported}
  }

  /** r is what the first of these runs answered. */
  ghost predicate IsFirst(key: string, runs: seq<Endpoint>, at: set<int>, r: Verdict) {
    exists i :: IsLeast(i, at) && 0 <= i < |runs| && key in runs[i].caps && r == runs[i].caps[key]
  }

  /**
   What the rows themselves say r must be: with runs for and against, a
   disagreement with the number of each; else what the first run with evidence
   gave, or without any the first run that answered, as it stands in its row.
   */
  ghost predicate AmountsTo(key: string, runs: seq<Endpoint>, r: Verdict) {
    var all, yes, no := Answering(key, runs), Saying(key, runs, Supported), Saying(key, runs, Unsupported);
    if yes != {} && no != {} then
      && r.status == Inconsistent && r.origin == Local && r.detail == Counts(|all|, |yes|, |no|, |Undecided(key, runs)|)
      && exists first :: IsFirst(key, runs, yes, first) && r.method_ == first.method_
    else if yes != {} then IsFirst(key, runs, yes, r)
    else if no != {} then IsFirst(key, runs, no, r)
    else if all != {} then IsFirst(key, runs, all, r)
    else r == Verdict(Inconclusive, key, NoVerdict(key), Local)
  }

  /** foldCapability. */
  method FoldCapability(key: string, runs: seq<Endpoint>) returns (r: Verdict)
    ensures r == Fold(key, Answers(key, runs)) && AmountsTo(key, runs, r)
  {
    var yes: seq<Verdict>, no: seq<Verdict>, nothing: seq<Verdict> := [], [], [];
    for i := 0 to |runs|
      invariant yes == Of(Answers(key, runs[..i]), Yes)
      invariant no == Of(Answers(key, runs[..i]), No)
      invariant nothing == Of(Answers(key, runs[..i]), Nothing)
    {
      assert runs[..i + 1][..i] == runs[..i];
      if key !in runs[i].caps {
        assert Answers(key, runs[..i + 1]) == Answers(key, runs[..i]);
        continue;
      }
      var res := runs[i].caps[key];
      assert Answers(key, runs[..i + 1]) == Answers(key, runs[..i]) + [res];
      OfSnoc(Answers(key, runs[..i]), res, Yes);
      OfSnoc(Answers(key, runs[..i]), res, No);
      OfSnoc(Answers(key, runs[..i]), res, Nothing);
      match res.status {
        case Supported => yes := yes + [res];
        case Unsupported => no := no + [res];
        case _ => nothing := nothing + [res];
      }
    }
    assert runs[..|runs|] == runs;
    r := Decided(key, yes, no, nothing);
    FoldAmountsTo(key, runs);
  }

  lemma OfSnoc(answers: seq<Verdict>, v: Verdict, k: Kind)
    ensures Of(answers + [v], k) == Of(answers, k) + if KindOf(v.status) == k then [v] else []
  {
    assert (answers + [v])[..|answers|] == answers;
  }

  lemma {:induction false} OfConcat(a: seq<Verdict>, b: seq<Verdict>, k: Kind)
    ensures Of(a + b, k) == Of(a, k) + Of(b, k)
  {
    if b == [] {
      assert a + b == a;
    } else {
      var init, last := b[..|b| - 1], b[|b| - 1];
      OfConcat(a, init, k);
      OfSnoc(a + init, last, k);
      OfSnoc(init, last, k);
      assert b == init + [last];
      Regroup(a, init, [last]);
      Regroup(Of(a, k), Of(init, k), if KindOf(last.status) == k then [last] else []);
    }
  }

  lemma {:induction false} OfHas(answers: seq<Verdict>, k: Kind)
    ensures Of(answers, k) != [] <==> exists v :: v in answers && KindOf(v.status) == k
    ensures forall v :: v in Of(answers, k) ==> v in answers && KindOf(v.status) == k
  {
    if answers != [] {
      OfHas(answers[..|answers| - 1], k);
      assert answers == answers[..|answers| - 1] + [answers[|answers| - 1]];
    }
  }

  lemma {:induction false} CountsAddUp(answers: seq<Verdict>)
    ensures |Of(answers, Yes)| + |Of(answers, No)| + |Of(answers, Nothing)| == |answers|
  {
    if answers != [] {
      CountsAddUp(answers[..|answers| - 1]);
    }
  }

  /** Agreement is passed on unchanged, as one run said it; a split is reported with counts of every run that answered. */
  lemma FoldReports(key: string, answers: seq<Verdict>)
    requires answers != []
    ensures var r := Fold(key, answers); var yes := Of(answers, Yes); var no := Of(answers, No);
            if yes != [] && no != [] then
              r.status == Inconsistent && r.detail == Counts(|answers|, |yes|, |no|, |Of(answers, Nothing)|)
            else r in answers && (yes != [] || no != [] ==> KindOf(r.status) == if yes != [] then Yes else No)
  {
    CountsAddUp(answers);
    OfHas(answers, Yes);
    OfHas(answers, No);
    OfHas(answers, Nothing);
  }

  // From the rows

  /** The runs whose answer is of one kind. */
  ghost function Giving(key: string, runs: seq<Endpoint>, kind: Kind): set<int> {
    set i | 0 <= i < |runs| && key in runs[i].caps && KindOf(runs[i].caps[key].status) == kind
  }

  /** found are the verdicts of the runs at, as far as their number and the first of them go. */
  ghost predicate FirstOf(key: string, runs: seq<Endpoint>, at: set<int>, found: seq<Verdict>) {
    |found| == |at| && (found != [] ==> IsFirst(key, runs, at, found[0]))
  }

  lemma {:induction false} OfIsGiving(key: string, runs: seq<Endpoint>, kind: Kind)
    ensures FirstOf(key, runs, Giving(key, runs, kind), Of(Answers(key, runs), kind))
  {
    if runs != [] {
      var init, run := runs[..|runs| - 1], runs[|runs| - 1];
      var before := Of(Answers(key, init), kind);
      OfIsGiving(key, init, kind);
      assert runs == init + [run];
      FirstOfOneMore(key, init, run, kind, before);
      if key in run.caps {
        OfSnoc(Answers(key, init), run.caps[key], kind);
      } else {
        assert Answers(key, runs) == Answers(key, init) && before + [] == before;
      }
    }
  }

  lemma GivingOneMore(key: string, runs: seq<Endpoint>, run: Endpoint, kind: Kind)
    ensures Giving(key, runs + [run], kind) == Giving(key, runs, kind) +
              if key in run.caps && KindOf(run.caps[key].status) == kind then {|runs|} else {}
  {
    var more := runs + [run];
    assert more[|runs|] == run && forall i :: 0 <= i < |runs| ==> more[i] == runs[i];
  }

  lemma FirstOfOneMore(key: string, runs: seq<Endpoint>, run: Endpoint, kind: Kind, found: seq<Verdict>)
    requires FirstOf(key, runs, Giving(key, runs, kind), found)
    ensures FirstOf(key, runs + [run], Giving(key, runs + [run], kind),
              found + if key in run.caps && KindOf(run.caps[key].status) == kind then [run.caps[key]] else [])
  {
    var more, at, after := runs + [run], Giving(key, runs, kind), Giving(key, runs + [run], kind);
    GivingOneMore(key, runs, run, kind);
    assert more[|runs|] == run;
    if found != [] {
      var i :| IsLeast(i, at) && 0 <= i < |runs| && key in runs[i].caps && found[0] == runs[i].caps[key];
      assert IsLeast(i, after) && more[i] == runs[i];
    } else if after != {} {
      assert IsLeast(|runs|, after);
    }
  }

  lemma AnsweredByKind(key: string, runs: seq<Endpoint>)
    ensures Giving(key, runs, Yes) == Saying(key, runs, Supported) && Giving(key, runs, No) == Saying(key, runs, Unsupported)
    ensures Giving(key, runs, Nothing) == Undecided(key, runs)
  {
  }

  lemma SizesAddUp(key: string, runs: seq<Endpoint>)
    ensures |Answering(key, runs)| == |Saying(key, runs, Supported)| + |Saying(key, runs, Unsupported)| + |Undecided(key, runs)|
    ensures Saying(key, runs, Supported) == {} == Saying(key, runs, Unsupported) ==> Undecided(key, runs) == Answering(key, runs)
  {
    var yes, no, rest := Saying(key, runs, Supported), Saying(key, runs, Unsupported), Undecided(key, runs);
    assert Answering(key, runs) == yes + no + rest;
    assert yes !! no && (yes + no) !! rest;
  }

  lemma FoldAmountsTo(key: string, runs: seq<Endpoint>)
    ensures AmountsTo(key, runs, Fold(key, Answers(key, runs)))
  {
    var answers := Answers(key, runs);
    OfIsGiving(key, runs, Yes);
    OfIsGiving(key, runs, No);
    OfIsGiving(key, runs, Nothing);
    AnsweredByKind(key, runs);
    DecidedAmountsTo(key, runs, Of(answers, Yes), Of(answers, No), Of(answers, Nothing));
  }

  lemma DecidedAmountsTo(key: string, runs: seq<Endpoint>, yes: seq<Verdict>, no: seq<Verdict>, nothing: seq<Verdict>)
    requires var (y, n) := (Saying(key, runs, Supported), Saying(key, runs, Unsupported));
             FirstOf(key, runs, y, yes) && FirstOf(key, runs, n, no) && FirstOf(key, runs, Undecided(key, runs), nothing)
    ensures AmountsTo(key, runs, Decided(key, yes, no, nothing))
  {
    var y, n := Saying(key, runs, Supported), Saying(key, runs, Unsupported);
    SizesAddUp(key, runs);
    SameSize(yes, y);
    SameSize(no, n);
    SameSize(nothing, Undecided(key, runs));
  }

  lemma SameSize(found: seq<Verdict>, at: set<int>)
    requires |found| == |at|
    ensures found == [] <==> at == {}
  {
  }

  /** Each run's verdict on the key is one that a single probe gives. */
  ghost predicate RawRuns(key: string, runs: seq<Endpoint>) {
    forall i :: 0 <= i < |runs| && key in runs[i].caps ==> runs[i].caps[key].status in {Supported, Unsupported, Inconclusive}
  }

  ghost predicate SomeGave(key: string, runs: seq<Endpoint>, s: Status) {
    exists i :: 0 <= i < |runs| && key in runs[i].caps && runs[i].caps[key].status == s
  }

  /** Of raw runs, the status is a disagreement exactly when some run said yes and another no; else what those said that did. */
  lemma StatusOfRuns(key: string, runs: seq<Endpoint>, r: Verdict)
    requires RawRuns(key, runs) && AmountsTo(key, runs, r)
    ensures r.status == StatusFor(SomeGave(key, runs, Supported), SomeGave(key, runs, Unsupported))
  {
    SomeSaying(key, runs, Supported);
    SomeSaying(key, runs, Unsupported);
  }

  lemma SomeSaying(key: string, runs: seq<Endpoint>, s: Status)
    ensures SomeGave(key, runs, s) <==> Saying(key, runs, s) != {}
  {
    if i :| 0 <= i < |runs| && key in runs[i].caps && runs[i].caps[key].status == s {
      assert i in Saying(key, runs, s);
    }
  }

  /** So whatever order the runs come in, the row says the same of the key. */
  lemma RunsInAnyOrder(key: string, a: seq<Endpoint>, b: seq<Endpoint>, r: Verdict, s: Verdict)
    requires multiset(a) == multiset(b) && RawRuns(key, a) && AmountsTo(key, a, r) && AmountsTo(key, b, s)
    ensures r.status == s.status
  {
    SameRuns(a, b);
    SameRuns(b, a);
    RawElsewhere(key, a, b);
    StatusOfRuns(key, a, r);
    StatusOfRuns(key, b, s);
    SomeElsewhere(key, a, b, Supported);
    SomeElsewhere(key, b, a, Supported);
    SomeElsewhere(key, a, b, Unsupported);
    SomeElsewhere(key, b, a, Unsupported);
  }

  lemma SomeElsewhere(key: string, a: seq<Endpoint>, b: seq<Endpoint>, s: Status)
    requires forall i :: 0 <= i < |a| ==> a[i] in b
    ensures SomeGave(key, a, s) ==> SomeGave(key, b, s)
  {
    if i :| 0 <= i < |a| && key in a[i].caps && a[i].caps[key].status == s {
      var j :| 0 <= j < |b| && b[j] == a[i];
      assert key in b[j].caps && b[j].caps[key].status == s;
    }
  }

  lemma RawElsewhere(key: string, a: seq<Endpoint>, b: seq<Endpoint>)
    requires RawRuns(key, a) && forall i :: 0 <= i < |b| ==> b[i] in a
    ensures RawRuns(key, b)
  {
    forall i | 0 <= i < |b| && key in b[i].caps ensures b[i].caps[key].status in {Supported, Unsupported, Inconclusive} {
      var j :| 0 <= j < |a| && a[j] == b[i];
      assert key in a[j].caps;
    }
  }

  lemma SameRuns(a: seq<Endpoint>, b: seq<Endpoint>)
    requires multiset(a) == multiset(b)
    ensures forall i :: 0 <= i < |a| ==> a[i] in b
  {
    forall i | 0 <= i < |a| ensures a[i] in b {
      assert a[i] in multiset(a) && a[i] in multiset(b);
    }
  }

  /** And however they are divided, the parts' statuses join to the whole's. */
  lemma RunsInParts(key: string, a: seq<Endpoint>, b: seq<Endpoint>, r: Verdict, s: Verdict, whole: Verdict)
    requires RawRuns(key, a) && RawRuns(key, b) && AmountsTo(key, a, r) && AmountsTo(key, b, s) && AmountsTo(key, a + b, whole)
    ensures whole.status == Join(r.status, s.status)
  {
    RawOfBoth(key, a, b);
    StatusOfRuns(key, a, r);
    StatusOfRuns(key, b, s);
    StatusOfRuns(key, a + b, whole);
    SomeOfBoth(key, a, b, Supported);
    SomeOfBoth(key, a, b, Unsupported);
  }

  lemma RawOfBoth(key: string, a: seq<Endpoint>, b: seq<Endpoint>)
    requires RawRuns(key, a) && RawRuns(key, b)
    ensures RawRuns(key, a + b)
  {
  }

  lemma SomeOfBoth(key: string, a: seq<Endpoint>, b: seq<Endpoint>, s: Status)
    ensures SomeGave(key, a + b, s) <==> SomeGave(key, a, s) || SomeGave(key, b, s)
  {
    assert forall i :: 0 <= i < |a| ==> (a + b)[i] == a[i];
    assert forall i :: 0 <= i < |b| ==> (a + b)[|a| + i] == b[i];
  }

  // The statuses alone

  /** The statuses a single probe gives. */
  predicate Raw(answers: seq<Verdict>) {
    forall i :: 0 <= i < |answers| ==> answers[i].status.Supported? || answers[i].status.Unsupported? || answers[i].status.Inconclusive?
  }

  /** The least status that says all that two say: inconclusive says nothing, inconsistent everything. */
  function Join(a: Status, b: Status): Status {
    if a == b || b.Inconclusive? then a else if a.Inconclusive? then b else Inconsistent
  }

  /** What the evidence amounts to. */
  function StatusFor(yes: bool, no: bool): Status {
    if yes && no then Inconsistent else if yes then Supported else if no then Unsupported else Inconclusive
  }

  lemma {:induction false} RawStatus(key: string, answers: seq<Verdict>)
    requires Raw(answers)
    ensures Fold(key, answers).status == StatusFor(Of(answers, Yes) != [], Of(answers, No) != [])
  {
    FoldStatus(key, answers);
    OfHas(answers, Nothing);
    var nothing := Of(answers, Nothing);
    if nothing != [] {
      assert nothing[0] in nothing;
    }
  }

  /** Folding more runs gives the join of what each part folds to. */
  lemma FoldIsJoin(key: string, a: seq<Verdict>, b: seq<Verdict>)
    requires Raw(a) && Raw(b)
    ensures Fold(key, a + b).status == Join(Fold(key, a).status, Fold(key, b).status)
  {
    RawStatus(key, a);
    RawStatus(key, b);
    RawStatus(key, a + b);
    OfConcat(a, b, Yes);
    OfConcat(a, b, No);
  }

  lemma JoinIsSemilattice(a: Status, b: Status, c: Status)
    requires !a.Unknown? && !b.Unknown? && !c.Unknown?
    ensures Join(a, a) == a && Join(a, b) == Join(b, a) && Join(Join(a, b), c) == Join(a, Join(b, c))
    ensures Join(Inconclusive, a) == a && Join(Inconsistent, a) == Inconsistent
  {
  }

  /** The order of the runs does not matter to the status. */
  lemma OrderDoesNotMatter(key: string, a: seq<Verdict>, b: seq<Verdict>)
    requires Raw(a) && multiset(a) == multiset(b)
    ensures Fold(key, a).status == Fold(key, b).status
  {
    forall v ensures v in a <==> v in b {
      assert v in a <==> v in multiset(a);
      assert v in b <==> v in multiset(b);
    }
    forall i | 0 <= i < |b| ensures b[i] in a {
      assert b[i] in b;
    }
    RawStatus(key, a);
    RawStatus(key, b);
    OfHas(a, Yes);
    OfHas(b, Yes);
    OfHas(a, No);
    OfHas(b, No);
  }

  /** The join of all the statuses. */
  function JoinAll(answers: seq<Verdict>): Status {
    if answers == [] then Inconclusive else Join(JoinAll(answers[..|answers| - 1]), answers[|answers| - 1].status)
  }

  predicate Disagreed(answers: seq<Verdict>) {
    exists i :: 0 <= i < |answers| && answers[i].status.Inconsistent?
  }

  predicate AllKnown(answers: seq<Verdict>) {
    forall i :: 0 <= i < |answers| ==> !answers[i].status.Unknown?
  }

  lemma {:induction false} JoinAllIs(answers: seq<Verdict>)
    requires AllKnown(answers)
    ensures JoinAll(answers) == if Disagreed(answers) then Inconsistent else StatusFor(Of(answers, Yes) != [], Of(answers, No) != [])
  {
    if answers != [] {
      var init := answers[..|answers| - 1];
      JoinAllIs(init);
      assert forall i :: 0 <= i < |init| ==> init[i] == answers[i];
      assert Disagreed(answers) <==> Disagreed(init) || answers[|answers| - 1].status.Inconsistent?;
    }
  }

  lemma FoldStatus(key: string, answers: seq<Verdict>)
    ensures var yes, no, nothing := Of(answers, Yes), Of(answers, No), Of(answers, Nothing);
            Fold(key, answers).status ==
            if yes == [] && no == [] && nothing != [] then nothing[0].status else StatusFor(yes != [], no != [])
  {
    OfHas(answers, Yes);
    OfHas(answers, No);
    var yes, no := Of(answers, Yes), Of(answers, No);
    if yes != [] {
      assert yes[0] in yes;
    }
    if no != [] {
      assert no[0] in no;
    }
  }

  /**
   When folding verdicts that may themselves have been folded gives their join: when none of them is a
   disagreement, or both sides are there to disagree again, or a disagreement is the first of only
   verdicts without evidence. Otherwise a disagreement is lost.
   */
  lemma RefoldExactly(key: string, answers: seq<Verdict>)
    requires AllKnown(answers)
    ensures var yes, no, nothing := Of(answers, Yes), Of(answers, No), Of(answers, Nothing);
            Fold(key, answers).status == JoinAll(answers) <==>
            || !Disagreed(answers)
            || (yes != [] && no != [])
            || (yes == [] && no == [] && nothing[0].status.Inconsistent?)
  {
    JoinAllIs(answers);
    FoldStatus(key, answers);
    var nothing := Of(answers, Nothing);
    OfHas(answers, Nothing);
    if Disagreed(answers) {
      var i :| 0 <= i < |answers| && answers[i].status.Inconsistent?;
      assert answers[i] in answers && KindOf(answers[i].status) == Nothing;
    } else if nothing != [] {
      assert nothing[0] in nothing;
      var i :| 0 <= i < |answers| && answers[i] == nothing[0];
    }
  }

  /** A split that was folded first is lost beside one more supporting run. */
  lemma RefoldLosesASplit(key: string, method_: string)
    ensures var yes, no := Verdict(Supported, method_, Said(""), Local), Verdict(Unsupported, method_, Said(""), Local);
            && Fold(key, [yes, no, yes]).status == Inconsistent
            && Fold(key, [Fold(key, [yes, no]), yes]).status == Supported
  {
    var yes, no := Verdict(Supported, method_, Said(""), Local), Verdict(Unsupported, method_, Said(""), Local);
    OfPair(yes, no);
    OfSnoc([yes, no], yes, Yes);
    OfSnoc([yes, no], yes, No);
    assert [yes, no] + [yes] == [yes, no, yes];
    OfPair(Fold(key, [yes, no]), yes);
  }

  lemma OfPair(a: Verdict, b: Verdict)
    ensures forall k: Kind :: Of([a, b], k) == (if KindOf(a.status) == k then [a] else []) + if KindOf(b.status) == k then [b] else []
  {
    forall k: Kind ensures Of([a, b], k) == (if KindOf(a.status) == k then [a] else []) + if KindOf(b.status) == k then [b] else [] {
      OfSnoc([], a, k);
      OfSnoc([a], b, k);
      assert [] + [a] == [a] && [a] + [b] == [a, b];
    }
  }

  // The whole row

  function LastReached(runs: seq<Endpoint>): (i: int)
    ensures -1 <= i < |runs| && (i >= 0 ==> runs[i].reach.reachable)
    ensures forall k :: i < k < |runs| ==> !runs[k].reach.reachable
  {
    if runs == [] then -1
    else if runs[|runs| - 1].reach.reachable then |runs| - 1
    else LastReached(runs[..|runs| - 1])
  }

  /** The loop over the keys, met in any order. */
  method FoldKeys(keys: set<string>, runs: seq<Endpoint>) returns (caps: map<string, Verdict>)
    ensures caps.Keys == keys
    ensures forall k :: k in caps ==> caps[k] == Fold(k, Answers(k, runs)) && AmountsTo(k, runs, caps[k])
  {
    caps := map[];
    var left := keys;
    while left != {}
      invariant left <= keys && caps.Keys == keys - left
      invariant forall k :: k in caps ==> caps[k] == Fold(k, Answers(k, runs)) && AmountsTo(k, runs, caps[k])
      decreases left
    {
      var key :| key in left;
      left := left - {key};
      var v := FoldCapability(key, runs);
      caps := caps[key := v];
    }
  }

  /** One row for several runs, the last of which names it. */
  method Runs(runs: seq<Endpoint>) returns (out: Endpoint)
    requires runs != []
    ensures var last := runs[|runs| - 1];
            out.url == last.url && out.name == last.name && out.source == last.source
    ensures LastReached(runs) >= 0 ==> out.reach == runs[LastReached(runs)].reach
    ensures LastReached(runs) < 0 ==>
              out.caps == map[] && out.reach == Reach(false, None, 0, runs[|runs| - 1].reach.detail, runs[|runs| - 1].reach.origin)
    ensures LastReached(runs) >= 0 ==>
              && (forall k :: k in out.caps <==> exists i :: 0 <= i < |runs| && k in runs[i].caps)
              && (forall k :: k in out.caps ==> out.caps[k] == Fold(k, Answers(k, runs)) && AmountsTo(k, runs, out.caps[k]))
  {
    var last := runs[|runs| - 1];
    var reached := |runs| - 1;
    while reached >= 0 && !runs[reached].reach.reachable
      invariant -1 <= reached < |runs| && forall k :: reached < k < |runs| ==> !runs[k].reach.reachable
    {
      reached := reached - 1;
    }
    assert reached == LastReached(runs);
    if reached == -1 {
      return Endpoint(last.url, last.name, last.source, Reach(false, None, 0, last.reach.detail, last.reach.origin), map[]);
    }
    var keys: set<string> := {};
    for i := 0 to |runs|
      invariant forall k :: k in keys <==> exists j :: 0 <= j < i && k in runs[j].caps
    {
      keys := keys + runs[i].caps.Keys;
    }
    var caps := FoldKeys(keys, runs);
    out := Endpoint(last.url, last.name, last.source, runs[reached].reach, caps);
  }
}
