/**
 The gate's persisted admission record: the last sequence accepted from each
 controller and the nonces that may not come back yet.
 */
module Replay {
  import opened Address
  import opened AtomicFile
  import opened Word
  import opened Wrappers

  const SKEW: uint64 := 60

  type Nonce = n: seq<Byte> | |n| == 32 witness seq(32, _ => 0)

  /** The file's contents: both maps are keyed by text. */
  datatype Record = Record(controllers: map<string, uint64>, nonces: map<string, uint64>)

  const EMPTY := Record(map[], map[])

  datatype Verdict = Fresh | StaleSeq(last: uint64) | ReplayedNonce

  datatype AdmitResult = Admitted | Refused(why: Verdict) | NotPersisted

  function LastSeqOf(r: Record, key: string): uint64 {
    if key in r.controllers then r.controllers[key] else 0
  }

  predicate NonceHeld(r: Record, nonceKey: string, now: uint64) {
    nonceKey in r.nonces && now <= r.nonces[nonceKey]
  }

  function Judge(r: Record, key: string, seqNo: uint64, nonceKey: string, now: uint64): Verdict {
    if seqNo <= LastSeqOf(r, key) then StaleSeq(LastSeqOf(r, key))
    else if NonceHeld(r, nonceKey, now) then ReplayedNonce
    else Fresh
  }

  function Pruned(nonces: map<string, uint64>, now: uint64): map<string, uint64> {
    map n | n in nonces && nonces[n] >= now :: nonces[n]
  }

  /** The record after an acceptance. */
  function Accepted(r: Record, key: string, seqNo: uint64, nonceKey: string, expiry: uint64, now: uint64): Record {
    Record(r.controllers[key := seqNo], Pruned(r.nonces, now)[nonceKey := Add(expiry, SKEW)])
  }

  /** replay.json; None when it is missing or does not parse. A write of it ends in one of the ways AtomicFile leaves. */
  class RecordFile {
    var content: Option<Record>

    constructor (initial: Option<Record>)
      ensures content == initial
    {
      content := initial;
    }

    method WriteFile(next: Record, fate: WriteFate) returns (ok: bool)
      modifies this
      ensures ok <==> fate.Durable?
      ensures content == if fate.FailedKeepingOld? then old(content) else Some(next)
    {
      if !fate.FailedKeepingOld? {
        content := Some(next);
      }
      ok := fate.Durable?;
    }
  }

  class Replay {
    const file: RecordFile
    var st: Record

    constructor (file: RecordFile, st: Record)
      ensures this.file == file && this.st == st
    {
      this.file := file;
      this.st := st;
    }

    method LastSeq(controller: Address, keccak: Keccak) returns (last: uint64)
      ensures last == LastSeqOf(st, HexOf(controller, keccak))
    {
      var key := Hex(controller, keccak);
      last := if key in st.controllers then st.controllers[key] else 0;
    }

    /** Admit: accept once, and have the acceptance on disk before saying so. */
    method Admit(controller: Address, seqNo: uint64, nonce: Nonce, expiry: uint64, now: int64, keccak: Keccak, fate: WriteFate)
      returns (r: AdmitResult)
      modifies this`st, file
      ensures
        var verdict := Judge(old(st), HexOf(controller, keccak), seqNo, EncodeHex(nonce), FromInt64(now));
        var next := Accepted(old(st), HexOf(controller, keccak), seqNo, EncodeHex(nonce), expiry, FromInt64(now));
        if !verdict.Fresh? then
          r == Refused(verdict) && st == old(st) && file.content == old(file.content)
        else if fate.Durable? then
          r == Admitted && st == next && file.content == Some(next)
        else
          && r == NotPersisted && st == old(st)
          && file.content == if fate.FailedLeavingNew? then Some(next) else old(file.content)
    {
      var key := Hex(controller, keccak);
      var last: uint64 := if key in st.controllers then st.controllers[key] else 0;
      if seqNo <= last {
        return Refused(StaleSeq(last));
      }
      var nonceKey := EncodeHex(nonce);
      if nonceKey in st.nonces && FromInt64(now) <= st.nonces[nonceKey] {
        return Refused(ReplayedNonce);
      }
      var controllers := CopyControllers();
      var nonces := CopyLiveNonces(FromInt64(now));
      var next := Record(controllers[key := seqNo], nonces[nonceKey := Add(expiry, SKEW)]);
      var ok := file.WriteFile(next, fate);
      if !ok {
        return NotPersisted;
      }
      st := next;
      return Admitted;
    }

    method CopyControllers() returns (copy: map<string, uint64>)
      ensures copy == st.controllers
    {
      copy := map[];
      var todo := st.controllers.Keys;
      while todo != {}
        invariant todo <= st.controllers.Keys
        invariant copy == map k | k in st.controllers && k !in todo :: st.controllers[k]
      {
        var k :| k in todo;
        copy := copy[k := st.controllers[k]];
        todo := todo - {k};
      }
    }

    method CopyLiveNonces(now: uint64) returns (copy: map<string, uint64>)
      ensures copy == Pruned(st.nonces, now)
    {
      copy := map[];
      var todo := st.nonces.Keys;
      while todo != {}
        invariant todo <= st.nonces.Keys
        invariant copy == map k | k in st.nonces && st.nonces[k] >= now && k !in todo :: st.nonces[k]
      {
        var k :| k in todo;
        if st.nonces[k] >= now {
          copy := copy[k := st.nonces[k]];
        }
        todo := todo - {k};
      }
    }
  }

  /** OpenReplay: load the record, failing closed. */
  method OpenReplay(file: RecordFile) returns (r: Replay?)
    ensures r == null <==> file.content.None?
    ensures r != null ==> fresh(r) && r.file == file && file.content == Some(r.st)
  {
    match file.content
    case None => r := null;
    case Some(st) => r := new Replay(file, st);
  }

  /** Accepting one controller's intent moves no other controller's sequence: the text of an address is its own. */
  lemma ControllersAreIndependent(r: Record, c: Address, d: Address, keccak: Keccak, seqNo: uint64, nonceKey: string, expiry: uint64, now: uint64)
    requires c != d
    ensures LastSeqOf(Accepted(r, HexOf(c, keccak), seqNo, nonceKey, expiry, now), HexOf(d, keccak)) == LastSeqOf(r, HexOf(d, keccak))
  {
    if HexOf(c, keccak) == HexOf(d, keccak) {
      HexInjective(c, d, keccak);
    }
  }
}
