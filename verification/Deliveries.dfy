/** What a call at the gate is to one controller's channel: one of the deliveries the client reckons with. */
module Deliveries {
  import opened Agent
  import opened AtomicFile
  import opened Replay
  import opened Word
  import opened Wrappers
  import Client

  /** A controller's last sequence in the live record, or in the file if none is live, and in the file. */
  function NumbersOf(g: Gate, key: string): Client.Numbers
    requires g.disk.Some?
  {
    Client.Numbers(LastSeqOf(if g.live.Some? then g.live.value else g.disk.value, key), LastSeqOf(g.disk.value, key))
  }

  /** How a call past the door treats its request. */
  function TreatmentOf(g: Gate, i: Intent, keys: Keys, now: int64, readable: bool, fate: WriteFate, refuses: bool): Client.Treatment {
    var r := LiveOrRead(g, readable);
    if i.controller in g.busy || r.None? then Client.RefuseFirst
    else if NonceHeld(r.value, keys.nonce, FromInt64(now)) then Client.NotAdmitted(false)
    else if !fate.Durable? then Client.NotAdmitted(fate.FailedLeavingNew?)
    else Client.Admit(if refuses then Client.Rejected else Client.Succeeded, "")
  }

  /** For the controller it is from, a call moves the sequences, and is answered, as that delivery is. */
  lemma CallIsADelivery(g: Gate, i: Intent, keys: Keys, now: int64, readable: bool, fate: WriteFate, refuses: bool)
    requires g.disk.Some?
    ensures var (after, a) := Handled(g, i, keys, now, readable, fate, refuses);
            var held, t := NumbersOf(g, keys.controller), TreatmentOf(g, i, keys, now, readable, fate, refuses);
            && after.disk.Some? && NumbersOf(after, keys.controller) == Client.AfterDelivery(held, i.seqNo, t)
            && (Client.FoundStale(held, i.seqNo, t) <==> a == Rejected(Stale(held.last)))
            && (!a.Rejected? <==> t.Admit? && i.seqNo > held.last)
  {
    var r := LiveOrRead(g, readable);
    if i.controller !in g.busy && r.Some? {
      assert NumbersOf(g, keys.controller).last == LastSeqOf(r.value, keys.controller);
    }
  }

  /** For any other controller it changes nothing, or writes the live sequence to the file. */
  lemma CallIsARewrite(g: Gate, i: Intent, keys: Keys, now: int64, readable: bool, fate: WriteFate, refuses: bool, other: string)
    requires g.disk.Some? && other != keys.controller
    ensures var after, held := Handled(g, i, keys, now, readable, fate, refuses).0, NumbersOf(g, other);
            after.disk.Some? && NumbersOf(after, other) in {held, held.(disk := held.last)}
  {
  }

  /** A new process holds what the file says, as the channel's restart does. */
  lemma ProcessStart(g: Gate, key: string)
    requires g.disk.Some?
    ensures NumbersOf(g.(live := None), key) == NumbersOf(g.(live := g.disk), key)
            == Client.Numbers(NumbersOf(g, key).disk, NumbersOf(g, key).disk)
  {
  }
}
