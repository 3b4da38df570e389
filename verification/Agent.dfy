/** The gate: it checks a signed intent in a fixed order, admits it once, and only then runs it. */
module Agent {
  import opened Address
  import opened AtomicFile
  import opened Clock
  import opened Policy
  import opened Replay
  import opened Word
  import opened Wrappers

  datatype Intent = Intent(agent: Address, controller: Address, seqNo: uint64, nonce: Nonce,
                           issuedAt: uint64, expiry: uint64, kind: string, payloadHash: Digest)

  /** intent is None when the wire form does not parse, signers when a signature does not recover. */
  datatype Envelope = Envelope(intent: Option<Intent>, payload: string, signers: Option<seq<Address>>)

  datatype Reason =
    | InvalidPayload | WrongAgent | SkewedClock | ExpiredIntent | BadSignature
    | Unknown | Unauthorized | ScopeLocal | Busy | ReplayState
    | Stale(last: uint64) | RepeatedNonce | Validation

  /** A rejection can also come from the operation itself, after admission. */
  datatype Answer = Rejected(why: Reason) | Ran | RanAndRejected

  datatype Execution = Execution(controller: Address, seqNo: uint64)

  function TimeReason(v: TimeVerdict): Reason
    requires !v.InTime?
  {
    match v case BadLifetime => InvalidPayload case ClockSkew => SkewedClock case Expired => ExpiredIntent
  }

  /** The checks that need neither the record nor the busy set, in the source's order. */
  ghost function RefusedAtDoor(self: Address, env: Envelope, now: int64, policy: Policy?, peer: Option<int>, keccak: Keccak): Option<Reason>
    reads policy
  {
    if env.intent.None? then Some(InvalidPayload) else
    var i := env.intent.value;
    if i.agent != self then Some(WrongAgent)
    else if !CheckTime(i.issuedAt, i.expiry, now).InTime? then Some(TimeReason(CheckTime(i.issuedAt, i.expiry, now)))
    else if keccak(env.payload) != i.payloadHash then Some(InvalidPayload)
    else if env.signers.None? then Some(BadSignature)
    else if policy == null then Some(Unauthorized)
    else if RequirementOf(policy.kinds, i.kind).None? then Some(Unknown)
    else if !Authorised(policy.signers, policy.kinds, i.kind, i.controller, (set s | s in env.signers.value), []) then Some(Unauthorized)
    else if !ScopeAdmits(policy.signers, policy.localUids, i.controller, peer) then Some(ScopeLocal)
    else None
  }

  /**
   When the door gives each reason: that check fails and all before it pass. It
   gives none exactly when every check passes. Times are over the integers.
   */
  lemma DoorExactly(self: Address, env: Envelope, now: int64, policy: Policy?, peer: Option<int>, keccak: Keccak)
    ensures env.intent.None? ==> RefusedAtDoor(self, env, now, policy, peer, keccak) == Some(InvalidPayload)
    ensures env.intent.Some? ==>
              var i, why, clock := env.intent.value, RefusedAtDoor(self, env, now, policy, peer, keccak), Max(now, 0);
              var mine := i.agent == self;
              var lives := 0 <= i.expiry - i.issuedAt <= 300;
              var issued := i.issuedAt <= clock + 60;
              var open := clock <= i.expiry + 60;
              var whole := keccak(env.payload) == i.payloadHash;
              var genuine := mine && lives && issued && open && whole && env.signers.Some?;
              var known := policy != null && RequirementOf(policy.kinds, i.kind).Some?;
              var authorised := env.signers.Some? && policy != null
                && Authorised(policy.signers, policy.kinds, i.kind, i.controller, (set s | s in env.signers.value), []);
              var inScope := policy != null && ScopeAdmits(policy.signers, policy.localUids, i.controller, peer);
              && (why == Some(WrongAgent) <==> !mine)
              && (why == Some(InvalidPayload) <==> mine && (!lives || (issued && open && !whole)))
              && (why == Some(SkewedClock) <==> mine && lives && !issued)
              && (why == Some(ExpiredIntent) <==> mine && lives && issued && !open)
              && (why == Some(BadSignature) <==> mine && lives && issued && open && whole && env.signers.None?)
              && (why == Some(Unknown) <==> genuine && policy != null && !known)
              && (why == Some(Unauthorized) <==> genuine && (policy == null || (known && !authorised)))
              && (why == Some(ScopeLocal) <==> genuine && known && authorised && !inScope)
              && (why == None <==> genuine && known && authorised && inScope)
  {
    if env.intent.Some? {
      TimeChecksNeverWrap(env.intent.value.issuedAt, env.intent.value.expiry, now);
    }
  }

  /** What an agent holds: the live record, the file, the controllers claimed, and what has run. */
  datatype Gate = Gate(live: Option<Record>, disk: Option<Record>, busy: set<Address>, executed: seq<Execution>)

  /** The texts the record keeps an intent's controller and nonce under. */
  datatype Keys = Keys(controller: string, nonce: string)

  function KeysOf(i: Intent, keccak: Keccak): Keys {
    Keys(HexOf(i.controller, keccak), EncodeHex(i.nonce))
  }

  /** A claimed intent before a live record: what that record decides, and only what it admits runs. */
  function Considered(g: Gate, i: Intent, keys: Keys, now: int64, fate: WriteFate, refuses: bool): (Gate, Answer)
    requires g.live.Some?
  {
    var next := Accepted(g.live.value, keys.controller, i.seqNo, keys.nonce, i.expiry, FromInt64(now));
    match Judge(g.live.value, keys.controller, i.seqNo, keys.nonce, FromInt64(now))
    case StaleSeq(last) => (g, Rejected(Stale(last)))
    case ReplayedNonce => (g, Rejected(RepeatedNonce))
    case Fresh =>
      if fate.FailedKeepingOld? then (g, Rejected(Validation))
      else if fate.FailedLeavingNew? then (g.(disk := Some(next)), Rejected(Validation))
      else (Gate(Some(next), Some(next), g.busy, g.executed + [Execution(i.controller, i.seqNo)]),
            if refuses then RanAndRejected else Ran)
  }

  /** The live record, or else what is read of the file. */
  function LiveOrRead(g: Gate, readable: bool): Option<Record> {
    if g.live.None? && readable then g.disk else g.live
  }

  /** An intent past the door, from claim to release. */
  function Handled(g: Gate, i: Intent, keys: Keys, now: int64, readable: bool, fate: WriteFate, refuses: bool): (Gate, Answer) {
    if i.controller in g.busy then (g, Rejected(Busy))
    else
      var live := LiveOrRead(g, readable);
      if live.None? then (g, Rejected(ReplayState))
      else Considered(g.(live := live), i, keys, now, fate, refuses)
  }

  /** An intent past the door runs exactly when its controller is free and a record at hand takes it, durably. */
  lemma RunsExactly(g: Gate, i: Intent, keys: Keys, now: int64, readable: bool, fate: WriteFate, refuses: bool)
    ensures var r := LiveOrRead(g, readable);
            !Handled(g, i, keys, now, readable, fate, refuses).1.Rejected? <==>
            && i.controller !in g.busy && fate.Durable?
            && r.Some? && i.seqNo > LastSeqOf(r.value, keys.controller) && !NonceHeld(r.value, keys.nonce, FromInt64(now))
  {
  }

  /** When each reason past the door is given: that check fails and all before it pass. */
  lemma HandledExactly(g: Gate, i: Intent, keys: Keys, now: int64, readable: bool, fate: WriteFate, refuses: bool)
    ensures var (r, a) := (LiveOrRead(g, readable), Handled(g, i, keys, now, readable, fate, refuses).1);
            var last := if r.Some? && keys.controller in r.value.controllers then r.value.controllers[keys.controller] else 0;
            var free := i.controller !in g.busy;
            var above := free && r.Some? && i.seqNo > last;
            var held := r.Some? && keys.nonce in r.value.nonces && FromInt64(now) <= r.value.nonces[keys.nonce];
            && (a == Rejected(Busy) <==> !free)
            && (a == Rejected(ReplayState) <==> free && r.None?)
            && (a == Rejected(Stale(last)) <==> free && r.Some? && i.seqNo <= last)
            && (a == Rejected(RepeatedNonce) <==> above && held)
            && (a == Rejected(Validation) <==> above && !held && !fate.Durable?)
            && (a == Ran <==> above && !held && fate.Durable? && !refuses)
            && (a == RanAndRejected <==> above && !held && fate.Durable? && refuses)
  {
  }

  /** The record an intent that ran leaves, entry by entry: its sequence, its nonce until 60 seconds past its expiry, and what was not past its own time. */
  lemma RecordExactly(g: Gate, i: Intent, keys: Keys, now: int64, readable: bool, fate: WriteFate, refuses: bool)
    requires !Handled(g, i, keys, now, readable, fate, refuses).1.Rejected?
    ensures var (before, after) := (LiveOrRead(g, readable), Handled(g, i, keys, now, readable, fate, refuses).0);
            && before.Some? && after.live.Some? && after.disk == after.live
            && (forall c :: c in after.live.value.controllers <==> c == keys.controller || c in before.value.controllers)
            && (forall c :: c in after.live.value.controllers ==>
                 after.live.value.controllers[c] == if c == keys.controller then i.seqNo else before.value.controllers[c])
            && (forall n :: n in after.live.value.nonces <==>
                 n == keys.nonce || (n in before.value.nonces && FromInt64(now) <= before.value.nonces[n]))
            && (forall n :: n in after.live.value.nonces ==>
                 after.live.value.nonces[n] == if n == keys.nonce then (i.expiry + 60) % 0x1_0000_0000_0000_0000 else before.value.nonces[n])
  {
  }

  /**
   What handling keeps. A rejection runs nothing, and leaves the live record as
   it was or first read; it can change the file only when the write failed.
   Whatever ran is the live record's last sequence, and on disk.
   */
  lemma HandledKeeps(g: Gate, i: Intent, keys: Keys, now: int64, readable: bool, fate: WriteFate, refuses: bool)
    ensures var (after, a) := Handled(g, i, keys, now, readable, fate, refuses);
            && after.busy == g.busy
            && (a.Rejected? ==> after.executed == g.executed && (after.live == g.live || after.live == LiveOrRead(g, readable)))
            && (a.Rejected? && a.why != Validation ==> after.disk == g.disk)
            && (!a.Rejected? ==>
                 && after.executed == g.executed + [Execution(i.controller, i.seqNo)]
                 && after.live.Some? && after.disk == after.live && LastSeqOf(after.live.value, keys.controller) == i.seqNo)
  {
  }

  class Agent {
    const self: Address
    const file: RecordFile
    const keccak: Keccak
    var replay: Replay?
    var busy: set<Address>
    var executed: seq<Execution>

    ghost predicate Valid()
      reads this
    {
      replay != null ==> replay.file == file
    }

    ghost function State(): Gate
      reads this, file, replay
    {
      Gate(if replay == null then None else Some(replay.st), file.content, busy, executed)
    }

    constructor (self: Address, file: RecordFile, keccak: Keccak)
      ensures Valid() && this.self == self && this.file == file && this.keccak == keccak
      ensures busy == {} && executed == []
      ensures replay == null <==> file.content.None?
      ensures replay != null ==> fresh(replay) && file.content == Some(replay.st)
    {
      this.self := self;
      this.file := file;
      this.keccak := keccak;
      this.busy := {};
      this.executed := [];
      new;
      replay := OpenReplay(file);
    }

    method Claim(c: Address) returns (claimed: bool)
      modifies this`busy
      ensures claimed <==> c !in old(busy)
      ensures busy == old(busy) + {c}
    {
      if c in busy {
        return false;
      }
      busy := busy + {c};
      return true;
    }

    method Release(c: Address)
      modifies this`busy
      ensures busy == old(busy) - {c}
    {
      busy := busy - {c};
    }

    /** currentReplay: the one live record, read again only while none has been read. */
    method CurrentReplay(readable: bool) returns (r: Replay?)
      requires Valid()
      modifies this`replay
      ensures Valid() && r == replay
      ensures old(replay) != null ==> r == old(replay)
      ensures old(replay) == null && r != null ==> fresh(r) && readable && file.content == Some(r.st)
      ensures r == null <==> old(replay) == null && (!readable || file.content.None?)
    {
      if replay == null && readable {
        replay := OpenReplay(file);
      }
      r := replay;
    }

    /** The operation, reached only with the acceptance already on disk. */
    method Dispatch(i: Intent, refuses: bool) returns (a: Answer)
      requires file.content.Some? && i.seqNo <= LastSeqOf(file.content.value, HexOf(i.controller, keccak))
      modifies this`executed
      ensures executed == old(executed) + [Execution(i.controller, i.seqNo)]
      ensures a == if refuses then RanAndRejected else Ran
    {
      executed := executed + [Execution(i.controller, i.seqNo)];
      a := if refuses then RanAndRejected else Ran;
    }

    /** Every check before the record, in order; None lets the intent through. */
    method CheckAtDoor(env: Envelope, now: int64, policy: Policy?, peer: Option<int>) returns (refusal: Option<Reason>)
      ensures refusal == RefusedAtDoor(self, env, now, policy, peer, keccak)
    {
      if env.intent.None? {
        return Some(InvalidPayload);
      }
      var i := env.intent.value;
      if i.agent != self {
        return Some(WrongAgent);
      }
      var time := CheckTime(i.issuedAt, i.expiry, now);
      if !time.InTime? {
        return Some(TimeReason(time));
      }
      if keccak(env.payload) != i.payloadHash {
        return Some(InvalidPayload);
      }
      if env.signers.None? {
        return Some(BadSignature);
      }
      if policy == null {
        return Some(Unauthorized);
      }
      var authorised := policy.Authorise(i.kind, i.controller, env.signers.value, []);
      if authorised.Err? {
        return Some(if authorised.error.UnknownKind? then Unknown else Unauthorized);
      }
      var admitted := policy.CheckScope(i.controller, peer);
      return if admitted then None else Some(ScopeLocal);
    }

    /** The end of Handle, with the record at hand. */
    method Consider(record: Replay, i: Intent, now: int64, fate: WriteFate, refuses: bool) returns (a: Answer)
      requires Valid() && record == replay
      modifies this`executed, file, record
      ensures Valid() && replay == record
      ensures (State(), a) == Considered(old(State()), i, KeysOf(i, keccak), now, fate, refuses)
    {
      var r := record.Admit(i.controller, i.seqNo, i.nonce, i.expiry, now, keccak, fate);
      match r {
        case Admitted => a := Dispatch(i, refuses);
        case Refused(why) => a := Rejected(if why.StaleSeq? then Stale(why.last) else RepeatedNonce);
        case NotPersisted => a := Rejected(Validation);
      }
    }

    /** The intent is in the live record and in the file, under its controller's text and its nonce's. */
    ghost predicate Recorded(i: Intent)
      reads this, file, replay
    {
      && replay != null && file.content == Some(replay.st)
      && HexOf(i.controller, keccak) in replay.st.controllers && replay.st.controllers[HexOf(i.controller, keccak)] == i.seqNo
      && EncodeHex(i.nonce) in replay.st.nonces && replay.st.nonces[EncodeHex(i.nonce)] == Add(i.expiry, 60)
    }

    /** Past the door: from claim to release, which happens whatever the answer. */
    method Serve(i: Intent, now: int64, readable: bool, fate: WriteFate, refuses: bool) returns (a: Answer)
      requires Valid()
      modifies this`replay, this`busy, this`executed, file, replay
      ensures Valid() && (old(replay) != null ==> replay == old(replay))
      ensures (State(), a) == Handled(old(State()), i, KeysOf(i, keccak), now, readable, fate, refuses)
      ensures busy == old(busy) && (a.Rejected? ==> executed == old(executed))
      ensures !a.Rejected? ==> executed == old(executed) + [Execution(i.controller, i.seqNo)] && Recorded(i)
    {
      ghost var before := State();
      var claimed := Claim(i.controller);
      if !claimed {
        assert busy == old(busy);
        return Rejected(Busy);
      }
      var record := CurrentReplay(readable);
      if record == null {
        a := Rejected(ReplayState);
      } else {
        a := Consider(record, i, now, fate, refuses);
      }
      Release(i.controller);
      HandledKeeps(before, i, KeysOf(i, keccak), now, readable, fate, refuses);
      if !a.Rejected? {
        RecordExactly(before, i, KeysOf(i, keccak), now, readable, fate, refuses);
      }
    }

    /**
     Handle: refused at the door with nothing touched, or served. Whatever is not
     refused there is a timely intent for this gate with the payload it was signed
     for, authorised and in scope; and all that is, is served.
     */
    method Handle(env: Envelope, now: int64, policy: Policy?, peer: Option<int>, readable: bool, fate: WriteFate, refuses: bool)
      returns (a: Answer)
      requires Valid()
      modifies this`replay, this`busy, this`executed, file, replay
      ensures Valid() && (old(replay) != null ==> replay == old(replay))
      ensures var refusal := RefusedAtDoor(self, env, now, policy, peer, keccak);
              if refusal.Some? then State() == old(State()) && a == Rejected(refusal.value)
              else (State(), a) == Handled(old(State()), env.intent.value, KeysOf(env.intent.value, keccak), now, readable, fate, refuses)
      ensures !a.Rejected? || State() != old(State()) ==>
                && env.intent.Some? && env.signers.Some? && policy != null
                && env.intent.value.agent == self
                && 0 <= env.intent.value.expiry - env.intent.value.issuedAt <= 300
                && env.intent.value.issuedAt <= Max(now, 0) + 60 && Max(now, 0) <= env.intent.value.expiry + 60
                && keccak(env.payload) == env.intent.value.payloadHash
                && Authorised(policy.signers, policy.kinds, env.intent.value.kind, env.intent.value.controller, (set s | s in env.signers.value), [])
                && ScopeAdmits(policy.signers, policy.localUids, env.intent.value.controller, peer)
      ensures && env.intent.Some? && env.signers.Some? && policy != null
              && env.intent.value.agent == self
              && 0 <= env.intent.value.expiry - env.intent.value.issuedAt <= 300
              && env.intent.value.issuedAt <= Max(now, 0) + 60 && Max(now, 0) <= env.intent.value.expiry + 60
              && keccak(env.payload) == env.intent.value.payloadHash
              && Authorised(policy.signers, policy.kinds, env.intent.value.kind, env.intent.value.controller, (set s | s in env.signers.value), [])
              && ScopeAdmits(policy.signers, policy.localUids, env.intent.value.controller, peer)
              ==> (State(), a) == Handled(old(State()), env.intent.value, KeysOf(env.intent.value, keccak), now, readable, fate, refuses)
      ensures busy == old(busy) && (a.Rejected? ==> executed == old(executed))
      ensures !a.Rejected? ==>
                executed == old(executed) + [Execution(env.intent.value.controller, env.intent.value.seqNo)] && Recorded(env.intent.value)
    {
      DoorExactly(self, env, now, policy, peer, keccak);
      var refusal := CheckAtDoor(env, now, policy, peer);
      if refusal.Some? {
        return Rejected(refusal.value);
      }
      a := Serve(env.intent.value, now, readable, fate, refuses);
    }
  }
}
