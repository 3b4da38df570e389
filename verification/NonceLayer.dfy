/**
 What the nonce check gives on its own. A run is any sequence of admission
 attempts and restarts on one gate. Whether the checks other than time and
 nonce pass is an arbitrary input of each attempt, so the results hold with
 the sequence check, and would hold without it.
 */
module NonceLayer {
  import opened AtomicFile
  import opened Clock
  import opened Replay
  import opened Word

  datatype Attempt =
    | Try(key: string, seqNo: uint64, nonceKey: string, issuedAt: uint64, expiry: uint64,
          now: int64, othersPass: bool, fate: WriteFate)
    | Restart

  /** The live record and the file. */
  datatype Store = Store(mem: Record, disk: Record)

  const FIRST := Store(EMPTY, EMPTY)

  predicate PassesChecks(s: Store, a: Attempt) {
    && a.Try?
    && CheckTime(a.issuedAt, a.expiry, a.now).InTime?
    && a.othersPass
    && !NonceHeld(s.mem, a.nonceKey, FromInt64(a.now))
  }

  predicate Accepts(s: Store, a: Attempt) {
    PassesChecks(s, a) && a.fate.Durable?
  }

  function Step(s: Store, a: Attempt): Store {
    if a.Restart? then Store(s.disk, s.disk)
    else if !PassesChecks(s, a) then s
    else
      var next := Accepted(s.mem, a.key, a.seqNo, a.nonceKey, a.expiry, FromInt64(a.now));
      match a.fate
      case Durable => Store(next, next)
      case FailedKeepingOld => s
      case FailedLeavingNew => Store(s.mem, next)
  }

  function After(run: seq<Attempt>): Store {
    if run == [] then FIRST else Step(After(run[..|run| - 1]), run[|run| - 1])
  }

  /** The clocks the attempts were admitted under are not before 1970 and do not go back. */
  predicate Clocked(run: seq<Attempt>) {
    && (forall i :: 0 <= i < |run| && run[i].Try? ==> 0 <= run[i].now)
    && (forall i, j :: 0 <= i < j < |run| && run[i].Try? && run[j].Try? ==> run[i].now <= run[j].now)
  }

  predicate AcceptedAt(run: seq<Attempt>, i: nat)
    requires i < |run|
  {
    Accepts(After(run[..i]), run[i])
  }

  predicate Remembers(r: Record, nonceKey: string, until: int) {
    nonceKey in r.nonces && until <= r.nonces[nonceKey]
  }

  lemma StepRemembers(s: Store, a: Attempt, nonceKey: string, until: int)
    requires Remembers(s.mem, nonceKey, until) && Remembers(s.disk, nonceKey, until)
    requires a.Try? ==> 0 <= a.now <= until
    ensures Remembers(Step(s, a).mem, nonceKey, until) && Remembers(Step(s, a).disk, nonceKey, until)
  {
  }

  /** Until its retention has passed, an accepted nonce stays both in memory and on disk. */
  lemma {:induction false} NonceIsKept(run: seq<Attempt>, i: nat, j: nat)
    requires i < j <= |run| && Clocked(run) && AcceptedAt(run, i)
    requires forall k :: i < k < j && run[k].Try? ==> run[k].now <= run[i].expiry + SKEW
    ensures Remembers(After(run[..j]).mem, run[i].nonceKey, run[i].expiry + SKEW)
    ensures Remembers(After(run[..j]).disk, run[i].nonceKey, run[i].expiry + SKEW)
  {
    assert run[..j][..j - 1] == run[..j - 1];
    var s, a := After(run[..j - 1]), run[j - 1];
    if j == i + 1 {
      TimeChecksNeverWrap(a.issuedAt, a.expiry, a.now);
    } else {
      NonceIsKept(run, i, j - 1);
      StepRemembers(s, a, run[i].nonceKey, run[i].expiry + SKEW);
    }
  }

  // Exactly which nonces are held, for every run: torn writes, restarts and clocks that go any way.

  /** Whether an attempt passed all its checks, whatever became of its write. */
  predicate PassedAt(run: seq<Attempt>, i: nat) {
    i < |run| && PassesChecks(After(run[..i]), run[i])
  }

  /** The attempts whose acceptance is in the live record, and in the file, oldest first. */
  datatype Lineage = Lineage(mem: seq<nat>, disk: seq<nat>)

  function LineageAt(run: seq<Attempt>, j: nat): (l: Lineage)
    requires j <= |run|
    ensures Ascends(run, l.mem, j) && Ascends(run, l.disk, j)
  {
    if j == 0 then Lineage([], [])
    else
      var before, a := LineageAt(run, j - 1), run[j - 1];
      if a.Restart? then Lineage(before.disk, before.disk)
      else if !PassedAt(run, j - 1) || a.fate.FailedKeepingOld? then before
      else if a.fate.Durable? then Lineage(before.mem + [j - 1], before.mem + [j - 1])
      else Lineage(before.mem, before.mem + [j - 1])
  }

  /** ids are attempts before the j-th that passed, in order. */
  predicate Ascends(run: seq<Attempt>, ids: seq<nat>, j: nat) {
    && (forall m :: 0 <= m < |ids| ==> ids[m] < j && PassedAt(run, ids[m]))
    && (forall m, n :: 0 <= m < n < |ids| ==> ids[m] < ids[n])
  }

  predicate Tries(run: seq<Attempt>, ids: seq<nat>) {
    forall m :: 0 <= m < |ids| ==> ids[m] < |run| && run[ids[m]].Try?
  }

  function Until(a: Attempt): uint64
    requires a.Try?
  {
    Add(a.expiry, SKEW)
  }

  /** The record that accepting these attempts in turn leaves. */
  function RecordOf(run: seq<Attempt>, ids: seq<nat>): Record
    requires Tries(run, ids)
  {
    if ids == [] then EMPTY
    else
      var a := run[ids[|ids| - 1]];
      Accepted(RecordOf(run, ids[..|ids| - 1]), a.key, a.seqNo, a.nonceKey, a.expiry, FromInt64(a.now))
  }

  /** Memory and file are what their lineages leave. */
  lemma {:induction false} StoreIsItsLineage(run: seq<Attempt>, j: nat)
    requires j <= |run|
    ensures After(run[..j]) == Store(RecordOf(run, LineageAt(run, j).mem), RecordOf(run, LineageAt(run, j).disk))
  {
    if j > 0 {
      StoreIsItsLineage(run, j - 1);
      assert run[..j][..j - 1] == run[..j - 1];
      StoreSteps(run, j);
    }
  }

  lemma StoreSteps(run: seq<Attempt>, j: nat)
    requires 0 < j <= |run|
    requires var b := LineageAt(run, j - 1); After(run[..j - 1]) == Store(RecordOf(run, b.mem), RecordOf(run, b.disk))
    ensures var l := LineageAt(run, j); Step(After(run[..j - 1]), run[j - 1]) == Store(RecordOf(run, l.mem), RecordOf(run, l.disk))
  {
    if PassedAt(run, j - 1) {
      RecordOfOneMore(run, LineageAt(run, j - 1).mem, j - 1);
    }
  }

  lemma RecordOfOneMore(run: seq<Attempt>, ids: seq<nat>, k: nat)
    requires Tries(run, ids) && k < |run| && run[k].Try?
    ensures RecordOf(run, ids + [k])
            == Accepted(RecordOf(run, ids), run[k].key, run[k].seqNo, run[k].nonceKey, run[k].expiry, FromInt64(run[k].now))
  {
    assert (ids + [k])[..|ids|] == ids;
  }

  /** Where in ids this nonce was last accepted, -1 for nowhere. */
  function LastOf(run: seq<Attempt>, ids: seq<nat>, nonceKey: string): (q: int)
    requires Tries(run, ids)
    ensures -1 <= q < |ids| && (q >= 0 ==> run[ids[q]].nonceKey == nonceKey)
    ensures forall m :: q < m < |ids| ==> run[ids[m]].nonceKey != nonceKey
  {
    if ids == [] then -1
    else if run[ids[|ids| - 1]].nonceKey == nonceKey then |ids| - 1
    else LastOf(run, ids[..|ids| - 1], nonceKey)
  }

  /** No acceptance after the q-th was made under a clock past what the q-th is kept until. */
  predicate Unpruned(run: seq<Attempt>, ids: seq<nat>, q: nat)
    requires Tries(run, ids) && q < |ids|
  {
    forall m :: q < m < |ids| ==> FromInt64(run[ids[m]].now) <= Until(run[ids[q]])
  }

  lemma {:induction false} StoredExactly(run: seq<Attempt>, ids: seq<nat>, nonceKey: string)
    requires Tries(run, ids)
    ensures var nonces := RecordOf(run, ids).nonces; var q := LastOf(run, ids, nonceKey);
            && (nonceKey in nonces <==> q >= 0 && Unpruned(run, ids, q))
            && (nonceKey in nonces ==> nonces[nonceKey] == Until(run[ids[q]]))
  {
    if ids != [] {
      var n := |ids| - 1;
      StoredExactly(run, ids[..n], nonceKey);
      var q := LastOf(run, ids[..n], nonceKey);
      if run[ids[n]].nonceKey != nonceKey && q >= 0 {
        OneMoreUnpruned(run, ids, q);
      }
    }
  }

  lemma OneMoreUnpruned(run: seq<Attempt>, ids: seq<nat>, q: nat)
    requires Tries(run, ids) && q < |ids| - 1
    ensures var n := |ids| - 1;
            Unpruned(run, ids, q) <==> Unpruned(run, ids[..n], q) && FromInt64(run[ids[n]].now) <= Until(run[ids[q]])
  {
    var init := ids[..|ids| - 1];
    assert forall m :: 0 <= m < |init| ==> init[m] == ids[m];
  }

  /** i's is the acceptance of its nonce that the live record at j goes by: the last of those in its lineage. */
  predicate Governs(run: seq<Attempt>, i: nat, j: nat)
    requires j <= |run|
  {
    i in LineageAt(run, j).mem && forall k :: k in LineageAt(run, j).mem && run[k].nonceKey == run[i].nonceKey ==> k <= i
  }

  /** Some later acceptance in the live record at j was made under a clock past what i's nonce is kept until. */
  predicate PrunedBy(run: seq<Attempt>, i: nat, j: nat)
    requires i < j <= |run| && run[i].Try?
  {
    exists k :: k in LineageAt(run, j).mem && k > i && FromInt64(run[k].now) > Until(run[i])
  }

  /**
   At any point of any run, an accepted nonce is held under a clock exactly when
   that clock is not past its retention and no later acceptance in the live
   record's lineage was made under a clock that was.
   */
  lemma NonceHeldExactly(run: seq<Attempt>, i: nat, j: nat, now: uint64)
    requires i < j <= |run| && Governs(run, i, j)
    ensures NonceHeld(After(run[..j]).mem, run[i].nonceKey, now) <==> now <= Until(run[i]) && !PrunedBy(run, i, j)
  {
    var ids := LineageAt(run, j).mem;
    var q :| 0 <= q < |ids| && ids[q] == i;
    StoreIsItsLineage(run, j);
    StoredExactly(run, ids, run[i].nonceKey);
    LastIsGreatest(run, ids, j, q);
    PrunedByExactly(run, ids, j, q);
  }

  lemma LastIsGreatest(run: seq<Attempt>, ids: seq<nat>, j: nat, q: nat)
    requires Ascends(run, ids, j) && q < |ids|
    requires forall k :: k in ids && run[k].nonceKey == run[ids[q]].nonceKey ==> k <= ids[q]
    ensures LastOf(run, ids, run[ids[q]].nonceKey) == q
  {
    var last := LastOf(run, ids, run[ids[q]].nonceKey);
    assert last >= 0 && ids[last] in ids;
  }

  lemma PrunedByExactly(run: seq<Attempt>, ids: seq<nat>, j: nat, q: nat)
    requires Ascends(run, ids, j) && q < |ids|
    ensures Unpruned(run, ids, q) <==> !exists k :: k in ids && k > ids[q] && FromInt64(run[k].now) > Until(run[ids[q]])
  {
    if k :| k in ids && k > ids[q] && FromInt64(run[k].now) > Until(run[ids[q]]) {
      var m :| 0 <= m < |ids| && ids[m] == k;
      assert q < m;
    }
    if m :| q < m < |ids| && FromInt64(run[ids[m]].now) > Until(run[ids[q]]) {
      assert ids[m] in ids && ids[m] > ids[q];
    }
  }

  /** A nonce that no acceptance in the live record carries is not held under any clock. */
  lemma UnusedNonceIsNotHeld(run: seq<Attempt>, j: nat, nonceKey: string, now: uint64)
    requires j <= |run| && forall k :: k in LineageAt(run, j).mem ==> run[k].nonceKey != nonceKey
    ensures !NonceHeld(After(run[..j]).mem, nonceKey, now)
  {
    StoreIsItsLineage(run, j);
    StoredExactly(run, LineageAt(run, j).mem, nonceKey);
  }

  /** i's acceptance is what the live record at j has for this nonce, and it has not gone by, nor been dropped. */
  predicate StillHolds(run: seq<Attempt>, i: nat, j: nat, nonceKey: string, now: uint64)
    requires j <= |run|
  {
    i < j && run[i].Try? && Governs(run, i, j) && run[i].nonceKey == nonceKey && now <= Until(run[i]) && !PrunedBy(run, i, j)
  }

  /** So at any point of any run, under any clock, a nonce is held exactly when some acceptance in the live record still holds it. */
  lemma HeldExactly(run: seq<Attempt>, j: nat, nonceKey: string, now: uint64)
    requires j <= |run|
    ensures NonceHeld(After(run[..j]).mem, nonceKey, now) <==> exists i :: StillHolds(run, i, j, nonceKey, now)
  {
    if i :| i in LineageAt(run, j).mem && run[i].nonceKey == nonceKey {
      var g := LastGoverns(run, i, j);
      NonceHeldExactly(run, g, j, now);
      assert NonceHeld(After(run[..j]).mem, nonceKey, now) ==> StillHolds(run, g, j, nonceKey, now);
    } else {
      UnusedNonceIsNotHeld(run, j, nonceKey, now);
    }
  }

  /** An acceptance that was acknowledged stays in the live record's lineage, and in the file's, for ever. */
  lemma {:induction false} AcceptedStays(run: seq<Attempt>, i: nat, j: nat)
    requires i < j <= |run| && AcceptedAt(run, i)
    ensures i in LineageAt(run, j).mem && i in LineageAt(run, j).disk
  {
    if j > i + 1 {
      AcceptedStays(run, i, j - 1);
    }
  }

  /**
   When a repeat of an accepted intent gets past the nonce check: exactly when its
   clock is past the retention, or some later acceptance's in the live record was.
   */
  lemma RepeatPassesExactly(run: seq<Attempt>, i: nat, j: nat)
    requires i < j < |run| && Governs(run, i, j)
    requires run[j].Try? && run[j].nonceKey == run[i].nonceKey && run[j].othersPass
    requires CheckTime(run[j].issuedAt, run[j].expiry, run[j].now).InTime?
    ensures PassedAt(run, j) <==> FromInt64(run[j].now) > Until(run[i]) || PrunedBy(run, i, j)
  {
    NonceHeldExactly(run, i, j, FromInt64(run[j].now));
  }

  /** Each record of a step's is one of those before it, or the live one with this attempt accepted. */
  lemma LineageStep(run: seq<Attempt>, j: nat)
    requires 0 < j <= |run|
    ensures var (b, l) := (LineageAt(run, j - 1), LineageAt(run, j));
            && (l.mem == b.mem || l.mem == b.disk || l.mem == b.mem + [j - 1])
            && (l.disk == b.mem || l.disk == b.disk || l.disk == b.mem + [j - 1])
  {
  }

  /** What a live record builds on was live when it was made. */
  lemma {:induction false} LivedBefore(run: seq<Attempt>, i: nat, g: nat, j: nat, ids: seq<nat>)
    requires i < g && j <= |run| && (ids == LineageAt(run, j).mem || ids == LineageAt(run, j).disk) && i in ids && g in ids
    ensures g < j && i in LineageAt(run, g).mem
    decreases j
  {
    if j > 0 {
      var before := Earlier(run, i, g, j, ids);
      if g < j - 1 {
        LivedBefore(run, i, g, j - 1, before);
      }
    }
  }

  /** The record a step before that ids was built on. */
  lemma Earlier(run: seq<Attempt>, i: nat, g: nat, j: nat, ids: seq<nat>) returns (before: seq<nat>)
    requires i < g && 0 < j <= |run| && (ids == LineageAt(run, j).mem || ids == LineageAt(run, j).disk) && i in ids && g in ids
    ensures before == LineageAt(run, j - 1).mem || before == LineageAt(run, j - 1).disk
    ensures g < j && i in before && (if g < j - 1 then g in before else before == LineageAt(run, j - 1).mem)
  {
    LineageStep(run, j);
    InLineage(run, ids, j, i);
    InLineage(run, ids, j, g);
    var b := LineageAt(run, j - 1);
    before := if ids == b.disk then ids else b.mem;
    InSnoc(b.mem, j - 1, i);
    InSnoc(b.mem, j - 1, g);
    if g in before {
      InLineage(run, before, j - 1, g);
    }
  }

  lemma InSnoc(ids: seq<nat>, last: nat, i: nat)
    ensures i in ids + [last] <==> i in ids || i == last
  {
  }

  /** Under clocks that do not go back, whatever carries the nonce of a live acceptance gets past the check only after its retention. */
  lemma {:induction false} RepeatIsLate(run: seq<Attempt>, i: nat, j: nat)
    requires i < j < |run| && Clocked(run) && i in LineageAt(run, j).mem
    requires PassedAt(run, j) && run[j].nonceKey == run[i].nonceKey
    ensures run[j].now > run[i].expiry + SKEW
    decreases j
  {
    var g := LastGoverns(run, i, j);
    GoverningIsPast(run, g, j);
    if i < g {
      LivedBefore(run, i, g, j, LineageAt(run, j).mem);
      RepeatIsLate(run, i, g);
    }
  }

  lemma GoverningIsPast(run: seq<Attempt>, g: nat, j: nat)
    requires g < j < |run| && Clocked(run) && Governs(run, g, j) && PassedAt(run, g)
    requires PassedAt(run, j) && run[j].nonceKey == run[g].nonceKey
    ensures run[j].now > run[g].expiry + SKEW
  {
    RepeatPassesExactly(run, g, j);
    if PrunedBy(run, g, j) {
      ClockedPrunes(run, g, j);
    }
    PastUntil(run[g], run[j].now);
  }

  /** Under clocks that do not go back, what pruned a nonce is no later than the clock now. */
  lemma ClockedPrunes(run: seq<Attempt>, g: nat, j: nat)
    requires g < j < |run| && Clocked(run) && run[g].Try? && run[j].Try? && PrunedBy(run, g, j)
    ensures FromInt64(run[j].now) > Until(run[g])
  {
    var k :| k in LineageAt(run, j).mem && k > g && FromInt64(run[k].now) > Until(run[g]);
    InLineage(run, LineageAt(run, j).mem, j, k);
    NotBack(run, k, j);
  }

  lemma NotBack(run: seq<Attempt>, k: nat, j: nat)
    requires k < j < |run| && Clocked(run) && run[k].Try? && run[j].Try?
    ensures FromInt64(run[k].now) <= FromInt64(run[j].now)
  {
  }

  lemma InLineage(run: seq<Attempt>, ids: seq<nat>, j: nat, k: nat)
    requires j <= |run| && Ascends(run, ids, j) && k in ids
    ensures k < j && run[k].Try?
  {
    var m :| 0 <= m < |ids| && ids[m] == k;
  }

  lemma PastUntil(a: Attempt, now: int64)
    requires a.Try? && 0 <= a.now && 0 <= now && CheckTime(a.issuedAt, a.expiry, a.now).InTime? && FromInt64(now) > Until(a)
    ensures now > a.expiry + SKEW
  {
    TimeChecksNeverWrap(a.issuedAt, a.expiry, a.now);
  }

  lemma LastGoverns(run: seq<Attempt>, i: nat, j: nat) returns (g: nat)
    requires j <= |run| && i in LineageAt(run, j).mem
    ensures i <= g < j && Governs(run, g, j) && PassedAt(run, g) && run[g].nonceKey == run[i].nonceKey
  {
    var ids := LineageAt(run, j).mem;
    var q := LastOf(run, ids, run[i].nonceKey);
    forall k | k in ids && run[k].nonceKey == run[i].nonceKey ensures q >= 0 && k <= ids[q] {
      var m :| 0 <= m < |ids| && ids[m] == k;
    }
    g := ids[q];
  }

  /**
   So under such clocks the nonce layer alone blocks a repeat: an intent reusing an
   accepted nonce is only accepted once the first could no longer pass the time check.
   */
  lemma NonceBlocksRepeats(run: seq<Attempt>, i: nat, j: nat)
    requires i < j < |run| && Clocked(run)
    requires AcceptedAt(run, i) && AcceptedAt(run, j) && run[i].nonceKey == run[j].nonceKey
    ensures run[j].now > run[i].expiry + SKEW
    ensures CheckTime(run[i].issuedAt, run[i].expiry, run[j].now).Expired?
  {
    AcceptedStays(run, i, j);
    RepeatIsLate(run, i, j);
    TimeChecksNeverWrap(run[i].issuedAt, run[i].expiry, run[i].now);
    TimeChecksNeverWrap(run[i].issuedAt, run[i].expiry, run[j].now);
  }

  /** No entry outlives the clock by more than 420 seconds, so pruning bounds the record. */
  lemma {:induction false} RetentionIsBounded(run: seq<Attempt>, clock: int)
    requires Clocked(run) && forall i :: 0 <= i < |run| && run[i].Try? ==> run[i].now <= clock
    ensures forall n :: n in After(run).mem.nonces ==> After(run).mem.nonces[n] <= clock + 420
    ensures forall n :: n in After(run).disk.nonces ==> After(run).disk.nonces[n] <= clock + 420
  {
    if run != [] {
      var last := run[|run| - 1];
      RetentionIsBounded(run[..|run| - 1], clock);
      if last.Try? {
        TimeChecksNeverWrap(last.issuedAt, last.expiry, last.now);
      }
    }
  }

  const CAPTURED := Try("0xA", 1, "n", 0, 100, 50, true, Durable)

  /** A second handler whose clock was read later but whose admission ran first. */
  const OVERTAKING := Try("0xB", 1, "m", 200, 300, 200, true, Durable)

  /**
   The clock the source admits under is read before the handler queues for the
   record, so two handlers can be admitted in the other order than their clocks.
   Then the nonce layer alone lets the same intent in twice; the sequence is
   what refuses it.
   */
  lemma OvertakingDefeatsTheNonceLayer()
    ensures var run := [CAPTURED, OVERTAKING, CAPTURED.(now := 150)];
            && AcceptedAt(run, 0) && PrunedBy(run, 0, 2) && AcceptedAt(run, 2)
            && Judge(After(run[..2]).mem, "0xA", 1, "n", 150) == StaleSeq(1)
  {
    var run := [CAPTURED, OVERTAKING, CAPTURED.(now := 150)];
    TwoAccepted(run);
    assert 1 in LineageAt(run, 2).mem && 0 in LineageAt(run, 2).mem;
    RepeatPassesExactly(run, 0, 2);
  }

  const CAPTURED_ONLY := Record(map["0xA" := 1], map["n" := 160])

  lemma OneAccepted(run: seq<Attempt>)
    requires |run| >= 1 && run[0] == CAPTURED
    ensures PassedAt(run, 0) && LineageAt(run, 1).mem == [0] && After(run[..1]) == Store(CAPTURED_ONLY, CAPTURED_ONLY)
  {
    assert run[..0] == [] && run[..1] == [CAPTURED] && [CAPTURED][..0] == [];
    assert CheckTime(0, 100, 50).InTime?;
    assert LineageAt(run, 0) == Lineage([], []) && [] + [0] == [0];
    assert Accepted(EMPTY, "0xA", 1, "n", 100, 50) == CAPTURED_ONLY;
  }

  lemma OvertakingPasses()
    ensures var before := Store(CAPTURED_ONLY, CAPTURED_ONLY);
            PassesChecks(before, OVERTAKING) && LastSeqOf(Step(before, OVERTAKING).mem, "0xA") == 1
  {
    assert CheckTime(200, 300, 200).InTime? && "m" != "n" && "0xA" != "0xB";
  }

  lemma TwoAccepted(run: seq<Attempt>)
    requires |run| >= 2 && run[0] == CAPTURED && run[1] == OVERTAKING
    ensures PassedAt(run, 0) && PassedAt(run, 1) && LineageAt(run, 2).mem == [0, 1]
    ensures LastSeqOf(After(run[..2]).mem, "0xA") == 1
  {
    OneAccepted(run);
    OvertakingPasses();
    var two := run[..2];
    assert two[..1] == run[..1] && two[1] == OVERTAKING;
    assert After(two) == Step(After(run[..1]), OVERTAKING);
    assert LineageAt(run, 2).mem == LineageAt(run, 1).mem + [1];
  }

  /**
   Admit does not clamp its clock as the time window does: before 1970 the clock
   converts to a value past every retention, so the window can let a repeat through.
   */
  lemma NegativeClockForgetsTheNonce()
    ensures var run := [CAPTURED, CAPTURED.(now := -1)];
            && AcceptedAt(run, 0) && !PrunedBy(run, 0, 1) && FromInt64(-1) > Until(run[0]) && AcceptedAt(run, 1)
  {
    var run := [CAPTURED, CAPTURED.(now := -1)];
    OneAccepted(run);
    assert CheckTime(0, 100, -1).InTime?;
    assert 0 in LineageAt(run, 1).mem;
    RepeatPassesExactly(run, 0, 1);
  }

  /** Under such a clock no nonce at all is held, and every one is pruned. */
  lemma NegativeClockForgetsEveryNonce(r: Record, nonceKey: string, now: int64)
    requires now < 0 && forall n :: n in r.nonces ==> r.nonces[n] < TWO_63
    ensures !NonceHeld(r, nonceKey, FromInt64(now)) && Pruned(r.nonces, FromInt64(now)) == map[]
  {
    assert FromInt64(now) == now + TWO_64;
  }
}
