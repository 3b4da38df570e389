/**
 The admission protocol over all its interleavings. Many handlers run at once,
 each a sequence of steps: arrive (time, signature and policy checks), claim the
 controller, fetch the live record, admit, execute, finish. Writes can fail with
 the old or the new contents on disk, the process can die between any two steps
 or inside a write, the power can go, and a new process reads the file again.
 Signatures, policy and payload checks are the input `passes` of an arriving
 intent.
 */
module Protocol {
  import opened Address
  import opened Agent
  import opened AtomicFile
  import opened Clock
  import opened Replay
  import opened Word
  import opened Wrappers

  /** The text the record keys an address and a nonce by. */
  datatype Texts = Texts(address: Address -> string, nonce: Nonce -> string)

  datatype Phase = Checked | Claimed | Fetched(record: nat) | Admitted | Executed

  datatype Handler = Handler(intent: Intent, now: int64, phase: Phase) {
    /** Between claim and release. */
    predicate HoldsClaim() {
      !phase.Checked?
    }
  }

  /** records are the Replay objects ever opened by this process; live is the agent's current one. */
  datatype Process = Process(records: seq<Record>, live: Option<nat>, busy: set<Address>, handlers: map<nat, Handler>)

  /** disk is what reading the file gives; kept, what a power cut may leave of it. */
  datatype State = State(disk: Record, kept: set<Record>, process: Option<Process>, executed: seq<Execution>)

  const INITIAL := State(EMPTY, {EMPTY}, None, [])

  datatype Action =
    | Start(readable: bool)
    | Arrive(id: nat, intent: Intent, now: int64, passes: bool)
    | Claim(id: nat)
    | Fetch(id: nat, readable: bool)
    | Admit(id: nat, fate: WriteFate)
    | Execute(id: nat)
    | Finish(id: nat)
    | Crash
    | CrashInWrite(id: nat, replaced: bool)
    | PowerCut(found: Record)

  function JudgeHandler(r: Record, h: Handler, t: Texts): Verdict {
    Judge(r, t.address(h.intent.controller), h.intent.seqNo, t.nonce(h.intent.nonce), FromInt64(h.now))
  }

  function AcceptHandler(r: Record, h: Handler, t: Texts): Record {
    Accepted(r, t.address(h.intent.controller), h.intent.seqNo, t.nonce(h.intent.nonce), h.intent.expiry, FromInt64(h.now))
  }

  predicate InPhase(p: Process, id: nat, phase: Phase) {
    id in p.handlers && p.handlers[id].phase == phase
  }

  function SetPhase(p: Process, id: nat, phase: Phase): Process
    requires id in p.handlers
  {
    p.(handlers := p.handlers[id := p.handlers[id].(phase := phase)])
  }

  /** The answer is sent and the claim released. */
  function End(p: Process, id: nat): Process
    requires id in p.handlers
  {
    p.(busy := p.busy - {p.handlers[id].intent.controller}, handlers := p.handlers - {id})
  }

  function StartUp(disk: Record, readable: bool): Process {
    if readable then Process([disk], Some(0), {}, map[]) else Process([], None, {}, map[])
  }

  function ArriveIn(p: Process, id: nat, intent: Intent, now: int64, passes: bool): Process {
    if id !in p.handlers && passes && CheckTime(intent.issuedAt, intent.expiry, now).InTime?
    then p.(handlers := p.handlers[id := Handler(intent, now, Checked)])
    else p
  }

  function ClaimIn(p: Process, id: nat): Process {
    if !InPhase(p, id, Checked) then p
    else if p.handlers[id].intent.controller in p.busy then p.(handlers := p.handlers - {id})
    else SetPhase(p, id, Claimed).(busy := p.busy + {p.handlers[id].intent.controller})
  }

  function FetchIn(p: Process, id: nat, disk: Record, readable: bool): Process {
    if !InPhase(p, id, Claimed) then p
    else if p.live.Some? then SetPhase(p, id, Fetched(p.live.value))
    else if !readable then End(p, id)
    else SetPhase(p, id, Fetched(|p.records|)).(records := p.records + [disk], live := Some(|p.records|))
  }

  predicate CanAdmit(p: Process, id: nat) {
    && id in p.handlers && p.handlers[id].phase.Fetched?
    && p.handlers[id].phase.record < |p.records|
  }

  /** Whether the record a handler fetched finds its intent fresh. */
  predicate Fresh(p: Process, id: nat, t: Texts) {
    CanAdmit(p, id) && JudgeHandler(p.records[p.handlers[id].phase.record], p.handlers[id], t).Fresh?
  }

  /** The record a successful admission writes. */
  function Successor(p: Process, id: nat, t: Texts): Record
    requires CanAdmit(p, id)
  {
    AcceptHandler(p.records[p.handlers[id].phase.record], p.handlers[id], t)
  }

  /** The write is durable before the live record moves on. */
  function AdmitIn(p: Process, id: nat, next: Record): Process
    requires CanAdmit(p, id)
  {
    SetPhase(p, id, Phase.Admitted).(records := p.records[p.handlers[id].phase.record := next])
  }

  /** A write whose directory was not flushed: the file is the new one, but a power cut may still undo it. */
  function Replaced(s: State, next: Record, process: Option<Process>): State {
    State(next, s.kept + {next}, process, s.executed)
  }

  /** One step; an action that does not apply changes nothing. */
  function Step(s: State, a: Action, t: Texts): State {
    if a.PowerCut? then
      if a.found in s.kept then State(a.found, {a.found}, None, s.executed) else s
    else if s.process.None? then
      if a.Start? then s.(process := Some(StartUp(s.disk, a.readable))) else s
    else
      var p := s.process.value;
      match a
      case Start(_) => s
      case Arrive(id, intent, now, passes) => s.(process := Some(ArriveIn(p, id, intent, now, passes)))
      case Claim(id) => s.(process := Some(ClaimIn(p, id)))
      case Fetch(id, readable) => s.(process := Some(FetchIn(p, id, s.disk, readable)))
      case Admit(id, fate) =>
        if !CanAdmit(p, id) then s
        else if !Fresh(p, id, t) || fate.FailedKeepingOld? then s.(process := Some(End(p, id)))
        else if fate.FailedLeavingNew? then Replaced(s, Successor(p, id, t), Some(End(p, id)))
        else State(Successor(p, id, t), {Successor(p, id, t)}, Some(AdmitIn(p, id, Successor(p, id, t))), s.executed)
      case Execute(id) =>
        if !InPhase(p, id, Phase.Admitted) then s
        else State(s.disk, s.kept, Some(SetPhase(p, id, Executed)),
                   s.executed + [Execution(p.handlers[id].intent.controller, p.handlers[id].intent.seqNo)])
      case Finish(id) => if InPhase(p, id, Executed) then s.(process := Some(End(p, id))) else s
      case Crash => s.(process := None)
      case CrashInWrite(id, replaced) =>
        if replaced && Fresh(p, id, t) then Replaced(s, Successor(p, id, t), None) else s.(process := None)
  }

  function After(run: seq<Action>, t: Texts): State {
    if run == [] then INITIAL else Step(After(run[..|run| - 1], t), run[|run| - 1], t)
  }

  // Claims: exactly the claimed controllers are busy, and one handler holds each claim.

  predicate Holds(p: Process, id: nat, c: Address) {
    id in p.handlers && p.handlers[id].HoldsClaim() && p.handlers[id].intent.controller == c
  }

  ghost predicate ClaimsExclusive(p: Process) {
    && (forall id, c :: Holds(p, id, c) ==> c in p.busy)
    && (forall c :: c in p.busy ==> exists id :: Holds(p, id, c))
    && (forall i, j, c :: Holds(p, i, c) && Holds(p, j, c) ==> i == j)
  }

  /** A change that only adds unclaimed handlers, or moves a claimed one on, keeps the claims. */
  lemma SameHoldersKeepClaims(p: Process, q: Process)
    requires ClaimsExclusive(p) && q.busy == p.busy
    requires forall id, c :: Holds(q, id, c) <==> Holds(p, id, c)
    ensures ClaimsExclusive(q)
  {
    forall c | c in q.busy ensures exists id :: Holds(q, id, c) {
      var id :| Holds(p, id, c);
      assert Holds(q, id, c);
    }
  }

  lemma EndKeepsClaims(p: Process, id: nat)
    requires ClaimsExclusive(p) && id in p.handlers && p.handlers[id].HoldsClaim()
    ensures ClaimsExclusive(End(p, id))
  {
    assert Holds(p, id, p.handlers[id].intent.controller);
    forall c | c in End(p, id).busy ensures exists i :: Holds(End(p, id), i, c) {
      var i :| Holds(p, i, c);
      assert Holds(End(p, id), i, c);
    }
    assert forall i, c :: Holds(End(p, id), i, c) ==> Holds(p, i, c) && i != id;
  }

  lemma ClaimKeepsClaims(p: Process, id: nat)
    requires ClaimsExclusive(p) && InPhase(p, id, Checked)
    ensures ClaimsExclusive(ClaimIn(p, id))
  {
    var q, mine := ClaimIn(p, id), p.handlers[id].intent.controller;
    if mine in p.busy {
      SameHoldersKeepClaims(p, q);
    } else {
      assert forall i, c :: Holds(q, i, c) <==> Holds(p, i, c) || (i == id && c == mine);
      forall c | c in q.busy ensures exists i :: Holds(q, i, c) {
        if c == mine {
          assert Holds(q, id, c);
        } else {
          var i :| Holds(p, i, c);
          assert Holds(q, i, c);
        }
      }
    }
  }

  /** Every step keeps the claims: a claim is taken once and always given back. */
  lemma StepKeepsClaims(s: State, a: Action, t: Texts)
    requires s.process.Some? && ClaimsExclusive(s.process.value) && Step(s, a, t).process.Some?
    ensures ClaimsExclusive(Step(s, a, t).process.value)
  {
    var p, q := s.process.value, Step(s, a, t).process.value;
    if a.Claim? {
      if InPhase(p, a.id, Checked) {
        ClaimKeepsClaims(p, a.id);
      }
    } else if q.busy == p.busy {
      SameHoldersKeepClaims(p, q);
    } else {
      EndKeepsClaims(p, a.id);
    }
  }

  // The record: at most one Replay object exists, and every handler that fetched one has that one.

  ghost predicate OneRecord(p: Process) {
    && (p.live.None? ==> p.records == [])
    && (p.live.Some? ==> p.live.value == 0 && |p.records| == 1)
    && (forall id :: id in p.handlers && (p.handlers[id].phase.Fetched? || p.handlers[id].phase.Admitted?) ==> p.live.Some?)
    && (forall id :: id in p.handlers && p.handlers[id].phase.Fetched? ==> p.handlers[id].phase.record == 0)
  }

  lemma StepKeepsOneRecord(s: State, a: Action, t: Texts)
    requires s.process.Some? && OneRecord(s.process.value) && Step(s, a, t).process.Some?
    ensures OneRecord(Step(s, a, t).process.value)
  {
  }

  // Safety: what is recorded, in memory and on disk, covers what was executed.

  ghost predicate Covers(r: Record, executed: seq<Execution>, t: Texts) {
    forall e :: e in executed ==> e.seqNo <= LastSeqOf(r, t.address(e.controller))
  }

  ghost predicate Increasing(executed: seq<Execution>) {
    forall i, j :: 0 <= i < j < |executed| && executed[i].controller == executed[j].controller ==> executed[i].seqNo < executed[j].seqNo
  }

  /** An admitted intent not yet run is recorded in r, above everything its controller ran. */
  ghost predicate Pending(h: Handler, r: Record, executed: seq<Execution>, t: Texts) {
    && h.intent.seqNo <= LastSeqOf(r, t.address(h.intent.controller))
    && forall e :: e in executed && e.controller == h.intent.controller ==> e.seqNo < h.intent.seqNo
  }

  ghost predicate AllPending(p: Process, r: Record, executed: seq<Execution>, t: Texts) {
    forall id :: InPhase(p, id, Phase.Admitted) ==> Pending(p.handlers[id], r, executed, t)
  }

  ghost predicate Safe(s: State, t: Texts) {
    && Increasing(s.executed)
    && s.disk in s.kept
    && (forall r :: r in s.kept ==> Covers(r, s.executed, t))
    && (s.process.Some? ==>
      && (forall r :: r in s.kept ==> AllPending(s.process.value, r, s.executed, t))
      && forall r :: r in s.process.value.records ==> Covers(r, s.executed, t) && AllPending(s.process.value, r, s.executed, t))
  }

  ghost predicate Inv(s: State, t: Texts) {
    Safe(s, t) && (s.process.Some? ==> OneRecord(s.process.value) && ClaimsExclusive(s.process.value))
  }

  /** The record an admission writes covers and holds pending all that the one before it did, and the new intent. */
  lemma SuccessorCovers(p: Process, id: nat, executed: seq<Execution>, t: Texts)
    requires Fresh(p, id, t)
    requires var r := p.records[p.handlers[id].phase.record]; Covers(r, executed, t) && AllPending(p, r, executed, t)
    ensures Covers(Successor(p, id, t), executed, t)
    ensures AllPending(p, Successor(p, id, t), executed, t)
    ensures Pending(p.handlers[id], Successor(p, id, t), executed, t)
  {
    var r, next := p.records[p.handlers[id].phase.record], Successor(p, id, t);
    assert forall key :: LastSeqOf(next, key) >= LastSeqOf(r, key);
  }

  lemma ExecuteKeepsSafe(s: State, id: nat, t: Texts)
    requires Inv(s, t) && s.process.Some? && InPhase(s.process.value, id, Phase.Admitted)
    ensures Safe(Step(s, Action.Execute(id), t), t)
  {
    var p, q := s.process.value, SetPhase(s.process.value, id, Executed);
    var c := p.handlers[id].intent.controller;
    assert Holds(p, id, c);
    forall i | InPhase(q, i, Phase.Admitted) ensures p.handlers[i].intent.controller != c {
      assert Holds(p, i, p.handlers[i].intent.controller);
    }
  }

  lemma AdmitKeepsSafe(s: State, id: nat, fate: WriteFate, t: Texts)
    requires Inv(s, t) && s.process.Some? && CanAdmit(s.process.value, id)
    ensures Safe(Step(s, Action.Admit(id, fate), t), t)
  {
    var p := s.process.value;
    if Fresh(p, id, t) {
      SuccessorCovers(p, id, s.executed, t);
      if fate.Durable? {
        AdmittedArePending(p, id, s.executed, t);
      }
    }
  }

  lemma AdmittedArePending(p: Process, id: nat, executed: seq<Execution>, t: Texts)
    requires Fresh(p, id, t) && AllPending(p, Successor(p, id, t), executed, t) && Pending(p.handlers[id], Successor(p, id, t), executed, t)
    ensures AllPending(AdmitIn(p, id, Successor(p, id, t)), Successor(p, id, t), executed, t)
  {
    var q := AdmitIn(p, id, Successor(p, id, t));
    assert forall i :: InPhase(q, i, Phase.Admitted) ==> i == id || InPhase(p, i, Phase.Admitted);
  }

  /** A step that runs nothing, writes nothing and admits nothing is safe if it opens no record but the file's. */
  lemma QuietStepIsSafe(s: State, q: Process, t: Texts)
    requires Safe(s, t) && s.process.Some?
    requires forall id :: InPhase(q, id, Phase.Admitted) ==> InPhase(s.process.value, id, Phase.Admitted) && q.handlers[id] == s.process.value.handlers[id]
    requires forall r :: r in q.records ==> r in s.process.value.records || r == s.disk
    ensures Safe(s.(process := Some(q)), t)
  {
  }

  lemma StepKeepsSafe(s: State, a: Action, t: Texts)
    requires Inv(s, t)
    ensures Safe(Step(s, a, t), t)
  {
    if s.process.None? || a.Start? || a.Crash? || a.PowerCut? {
    } else if a.CrashInWrite? {
      if Fresh(s.process.value, a.id, t) {
        SuccessorCovers(s.process.value, a.id, s.executed, t);
      }
    } else if a.Admit? {
      if CanAdmit(s.process.value, a.id) {
        AdmitKeepsSafe(s, a.id, a.fate, t);
      }
    } else if a.Execute? {
      if InPhase(s.process.value, a.id, Phase.Admitted) {
        ExecuteKeepsSafe(s, a.id, t);
      }
    } else {
      QuietStepIsSafe(s, Step(s, a, t).process.value, t);
    }
  }

  lemma {:induction false} EveryRunKeepsInv(run: seq<Action>, t: Texts)
    ensures Inv(After(run, t), t)
  {
    if run != [] {
      var s, a := After(run[..|run| - 1], t), run[|run| - 1];
      EveryRunKeepsInv(run[..|run| - 1], t);
      StepKeepsSafe(s, a, t);
      if s.process.Some? && Step(s, a, t).process.Some? {
        StepKeepsClaims(s, a, t);
        StepKeepsOneRecord(s, a, t);
      }
    }
  }

  /** Over every run, each controller's executed sequences strictly increase, so no intent ever runs twice. */
  lemma NothingRunsTwice(run: seq<Action>, t: Texts)
    ensures Increasing(After(run, t).executed)
    ensures Distinct(After(run, t).executed)
  {
    EveryRunKeepsInv(run, t);
  }

  /** An intent waiting to run is on disk whatever a power cut leaves, so dying before it runs loses it rather than repeating it. */
  lemma PersistedBeforeItRuns(run: seq<Action>, id: nat, t: Texts)
    requires After(run, t).process.Some? && InPhase(After(run, t).process.value, id, Phase.Admitted)
    ensures var i := After(run, t).process.value.handlers[id].intent;
            && (forall r :: r in After(run, t).kept ==> i.seqNo <= LastSeqOf(r, t.address(i.controller)))
            && Execution(i.controller, i.seqNo) !in After(run, t).executed
  {
    EveryRunKeepsInv(run, t);
  }

  /** A captured copy of an intent that ran is stale to whatever a power cut leaves of the file, and so to every later process. */
  lemma CapturedIntentIsStale(run: seq<Action>, h: Handler, t: Texts)
    requires Execution(h.intent.controller, h.intent.seqNo) in After(run, t).executed
    ensures forall r :: r in After(run, t).kept ==> JudgeHandler(r, h, t).StaleSeq?
  {
    EveryRunKeepsInv(run, t);
  }

  /** A process with no handler past its claim has no controller locked out. */
  lemma NoClaimLeaks(run: seq<Action>, t: Texts)
    requires After(run, t).process.Some?
    requires forall id :: id in After(run, t).process.value.handlers ==> After(run, t).process.value.handlers[id].phase.Checked?
    ensures After(run, t).process.value.busy == {}
  {
    EveryRunKeepsInv(run, t);
    var p := After(run, t).process.value;
    assert forall id, c :: !Holds(p, id, c);
  }

  function Then(s: State, actions: seq<Action>, t: Texts): State
    decreases |actions|
  {
    if actions == [] then s else Then(Step(s, actions[0], t), actions[1..], t)
  }

  lemma {:induction false} AfterThen(run: seq<Action>, actions: seq<Action>, t: Texts)
    ensures After(run + actions, t) == Then(After(run, t), actions, t)
    decreases |actions|
  {
    if actions == [] {
      assert run + actions == run;
    } else {
      assert run + actions == (run + [actions[0]]) + actions[1..];
      AfterThen(run + [actions[0]], actions[1..], t);
      assert (run + [actions[0]])[..|run|] == run;
    }
  }

  // One call, with nothing of other handlers in between.

  /** The steps of a call of Handle. */
  function Calling(id: nat, i: Intent, now: int64, readable: bool, fate: WriteFate): seq<Action> {
    [Arrive(id, i, now, true), Action.Claim(id), Fetch(id, readable), Action.Admit(id, fate), Action.Execute(id), Finish(id)]
  }

  /** What the agent of this process holds. */
  function View(s: State): Gate
    requires s.process.Some?
  {
    var p := s.process.value;
    Gate(if p.live.Some? && p.live.value < |p.records| then Some(p.records[p.live.value]) else None, Some(s.disk), p.busy, s.executed)
  }

  function Keyed(i: Intent, t: Texts): Keys {
    Keys(t.address(i.controller), t.nonce(i.nonce))
  }

  lemma SixSteps(s: State, actions: seq<Action>, t: Texts)
    requires |actions| == 6
    ensures Then(s, actions, t)
            == Step(Step(Step(Step(Step(Step(s, actions[0], t), actions[1], t), actions[2], t), actions[3], t), actions[4], t), actions[5], t)
  {
    var a1, a2, a3, a4, a5 := actions[1..], actions[2..], actions[3..], actions[4..], actions[5..];
    assert a1[1..] == a2 && a2[1..] == a3 && a3[1..] == a4 && a4[1..] == a5 && a5[1..] == [];
    var s1 := Step(s, actions[0], t);
    var s2 := Step(s1, a1[0], t);
    var s3 := Step(s2, a2[0], t);
    var s4 := Step(s3, a3[0], t);
    var s5 := Step(s4, a4[0], t);
    assert Then(s, actions, t) == Then(s1, a1, t) == Then(s2, a2, t) == Then(s3, a3, t) == Then(s4, a4, t) == Then(s5, a5, t);
    assert Then(s5, a5, t) == Step(s5, a5[0], t);
  }

  /** A handler that has ended takes no more steps. */
  lemma EndedIsOver(s: State, id: nat, readable: bool, fate: WriteFate, t: Texts)
    requires s.process.Some? && id !in s.process.value.handlers
    ensures Step(s, Fetch(id, readable), t) == s && Step(s, Action.Admit(id, fate), t) == s
    ensures Step(s, Action.Execute(id), t) == s && Step(s, Finish(id), t) == s
  {
  }

  /** A handler claiming and then ending leaves the process as it was. */
  lemma ClaimedAndEnded(p: Process, id: nat, h: Handler)
    requires id !in p.handlers && h.intent.controller !in p.busy
    ensures End(p.(busy := p.busy + {h.intent.controller}, handlers := p.handlers[id := h]), id) == p
  {
    assert p.handlers[id := h] - {id} == p.handlers;
    assert p.busy + {h.intent.controller} - {h.intent.controller} == p.busy;
  }

  /** The first two steps of a call: the controller is claimed, or the handler is gone. */
  lemma ArriveAndClaim(s: State, id: nat, i: Intent, now: int64, t: Texts)
    requires s.process.Some? && id !in s.process.value.handlers && CheckTime(i.issuedAt, i.expiry, now).InTime?
    ensures var p, h := s.process.value, Handler(i, now, Claimed);
            Step(Step(s, Arrive(id, i, now, true), t), Action.Claim(id), t)
            == if i.controller in p.busy then s
               else s.(process := Some(p.(busy := p.busy + {i.controller}, handlers := p.handlers[id := h])))
  {
    var p := s.process.value;
    var checked := ArriveIn(p, id, i, now, true);
    assert p.handlers[id := Handler(i, now, Checked)] - {id} == p.handlers;
    assert p.handlers[id := Handler(i, now, Checked)][id := Handler(i, now, Claimed)] == p.handlers[id := Handler(i, now, Claimed)];
  }

  /** q with a handler of a controller of its own, in this phase. */
  function WithHandler(q: Process, id: nat, i: Intent, now: int64, phase: Phase): Process {
    q.(busy := q.busy + {i.controller}, handlers := q.handlers[id := Handler(i, now, phase)])
  }

  /** The steps of a call once the record is at hand. */
  lemma AdmitToFinish(s: State, q: Process, id: nat, i: Intent, now: int64, fate: WriteFate, refuses: bool, t: Texts)
    requires q.live == Some(0) && |q.records| == 1 && id !in q.handlers && i.controller !in q.busy
    ensures var g := View(s.(process := Some(q)));
            var u := Step(Step(Step(s.(process := Some(WithHandler(q, id, i, now, Fetched(0)))), Action.Admit(id, fate), t), Action.Execute(id), t), Finish(id), t);
            && u.process.Some? && u.process.value.handlers == q.handlers
            && View(u) == Considered(g, i, Keyed(i, t), now, fate, refuses).0
  {
    var h, p := Handler(i, now, Fetched(0)), WithHandler(q, id, i, now, Fetched(0));
    var s0 := s.(process := Some(p));
    ClaimedAndEnded(q, id, h);
    assert CanAdmit(p, id) && p.records == q.records;
    if !Fresh(p, id, t) || !fate.Durable? {
      EndedIsOver(Step(s0, Action.Admit(id, fate), t), id, true, fate, t);
    } else {
      var next := Successor(p, id, t);
      var done := q.(records := [next]);
      assert p.records[0 := next] == [next];
      AdmitStep(s0, q, id, i, now, next, t);
      ExecuteStep(State(next, {next}, Some(WithHandler(done, id, i, now, Phase.Admitted)), s.executed), done, id, i, now, t);
    }
  }

  lemma AdmitStep(s: State, q: Process, id: nat, i: Intent, now: int64, next: Record, t: Texts)
    requires s.process == Some(WithHandler(q, id, i, now, Fetched(0))) && |q.records| == 1
    requires Fresh(s.process.value, id, t) && next == Successor(s.process.value, id, t)
    ensures Step(s, Action.Admit(id, Durable), t) == State(next, {next}, Some(WithHandler(q.(records := [next]), id, i, now, Phase.Admitted)), s.executed)
  {
    var p := s.process.value;
    assert p.handlers[id := p.handlers[id].(phase := Phase.Admitted)] == q.handlers[id := Handler(i, now, Phase.Admitted)];
    assert p.records[0 := next] == [next];
  }

  lemma ExecuteStep(s: State, q: Process, id: nat, i: Intent, now: int64, t: Texts)
    requires s.process == Some(WithHandler(q, id, i, now, Phase.Admitted)) && id !in q.handlers && i.controller !in q.busy
    ensures Step(Step(s, Action.Execute(id), t), Finish(id), t)
            == State(s.disk, s.kept, Some(q), s.executed + [Execution(i.controller, i.seqNo)])
  {
    var p, h := s.process.value, Handler(i, now, Executed);
    assert p.handlers[id := p.handlers[id].(phase := Executed)] == q.handlers[id := h];
    ClaimedAndEnded(q, id, h);
  }

  /** A call of Handle with no other handler's step in between does to the process what Handle does to the agent. */
  lemma HandleIsARun(run: seq<Action>, id: nat, i: Intent, now: int64, readable: bool, fate: WriteFate, refuses: bool, t: Texts)
    requires After(run, t).process.Some? && id !in After(run, t).process.value.handlers
    requires CheckTime(i.issuedAt, i.expiry, now).InTime?
    ensures var s, u := After(run, t), After(run + Calling(id, i, now, readable, fate), t);
            && u.process.Some? && u.process.value.handlers == s.process.value.handlers
            && View(u) == Handled(View(s), i, Keyed(i, t), now, readable, fate, refuses).0
  {
    var s := After(run, t);
    var p := s.process.value;
    var actions := Calling(id, i, now, readable, fate);
    EveryRunKeepsInv(run, t);
    AfterThen(run, actions, t);
    SixSteps(s, actions, t);
    ArriveAndClaim(s, id, i, now, t);
    if i.controller in p.busy {
      EndedIsOver(s, id, readable, fate, t);
    } else {
      var claimed := s.(process := Some(WithHandler(p, id, i, now, Claimed)));
      FetchStep(claimed, p, id, i, now, readable, t);
      if p.live.None? && !readable {
        assert Step(claimed, Fetch(id, readable), t) == s;
        EndedIsOver(s, id, readable, fate, t);
      } else {
        AdmitToFinish(s, Opened(p, s.disk), id, i, now, fate, refuses, t);
      }
    }
  }

  /** The process with its live record opened. */
  function Opened(p: Process, disk: Record): Process {
    if p.live.Some? then p else p.(records := p.records + [disk], live := Some(|p.records|))
  }

  lemma FetchStep(s: State, p: Process, id: nat, i: Intent, now: int64, readable: bool, t: Texts)
    requires s.process == Some(WithHandler(p, id, i, now, Claimed)) && OneRecord(p) && id !in p.handlers && i.controller !in p.busy
    ensures Step(s, Fetch(id, readable), t)
            == s.(process := Some(if p.live.None? && !readable then p else WithHandler(Opened(p, s.disk), id, i, now, Fetched(0))))
  {
    var q := s.process.value;
    ClaimedAndEnded(p, id, Handler(i, now, Claimed));
    assert q.handlers[id := q.handlers[id].(phase := Fetched(0))] == p.handlers[id := Handler(i, now, Fetched(0))];
  }

  /**
   The protocol is not safe by doing nothing: whatever the other handlers are
   doing, an intent in time whose controller is free, above the last sequence
   and with an unused nonce, runs.
   */
  lemma FreshIntentRuns(run: seq<Action>, id: nat, i: Intent, now: int64, readable: bool, t: Texts)
    requires var s := After(run, t);
             && s.process.Some? && id !in s.process.value.handlers && i.controller !in s.process.value.busy
             && var r := LiveOrRead(View(s), readable);
                r.Some? && i.seqNo > LastSeqOf(r.value, t.address(i.controller)) && !NonceHeld(r.value, t.nonce(i.nonce), FromInt64(now))
    requires CheckTime(i.issuedAt, i.expiry, now).InTime?
    ensures After(run + Calling(id, i, now, readable, Durable), t).executed == After(run, t).executed + [Execution(i.controller, i.seqNo)]
  {
    HandleIsARun(run, id, i, now, readable, Durable, false, t);
    RunsExactly(View(After(run, t)), i, Keyed(i, t), now, readable, Durable, false);
    HandledKeeps(View(After(run, t)), i, Keyed(i, t), now, readable, Durable, false);
  }

  ghost predicate Distinct(executed: seq<Execution>) {
    forall i, j :: 0 <= i < j < |executed| ==> executed[i] != executed[j]
  }
}
