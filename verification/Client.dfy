/**
 The controller's side: it keeps its own counter, accepts only an answer the
 paired gate signed for this very request, and resynchronises once from a
 signed stale_seq. A hash is identified with what it hashes, and the random
 nonce that makes every signed request a new one is a serial number.
 */
module Client {
  import opened Address
  import opened Word

  datatype Request = Request(serial: nat, seqNo: uint64)

  datatype Status = Succeeded | Rejected | Failed

  /** The result bytes a receipt covers; a rejection of code stale_seq carries the last sequence. */
  datatype Body = Stale(last: uint64) | OtherBody(text: string)

  datatype Receipt = Receipt(agent: Address, request: Request, seqNo: uint64, status: Status, result: Body) {
    predicate IsStale() {
      status.Rejected? && result.Stale?
    }
  }

  /** What comes back for one request: nothing usable, or bytes from whoever sent them. */
  datatype Arrival = Unreachable | HttpError | Undecodable | Reply(receipt: Receipt, result: Body, signedBy: Address)

  datatype Outcome = Broken | Verified(status: Status, result: Body) {
    predicate IsStale() {
      Verified? && status.Rejected? && result.Stale?
    }
  }

  /**
   How the gate treats a delivered request: refuse it before looking at its
   sequence, fail to admit it after, possibly leaving it in the file, or admit it
   and answer with a status.
   */
  datatype Treatment = RefuseFirst | NotAdmitted(written: bool) | Admit(status: Status, text: string)

  /**
   Requests may be delivered at any later time, in any order. The gate may
   restart, and write its file for another controller.
   */
  datatype Event = Delivery(request: Request, treatment: Treatment) | Restarted | Rewritten

  /** One controller's last sequence at the gate, as the live record has it and as the file does. */
  datatype Numbers = Numbers(last: uint64, disk: uint64)

  /** Whether a delivered request is answered with the last sequence instead of being considered. */
  predicate FoundStale(n: Numbers, seqNo: uint64, t: Treatment) {
    !t.RefuseFirst? && seqNo <= n.last
  }

  function AfterDelivery(n: Numbers, seqNo: uint64, t: Treatment): Numbers {
    if t.RefuseFirst? || seqNo <= n.last then n
    else if t.Admit? then Numbers(seqNo, seqNo)
    else if t.written then n.(disk := seqNo)
    else n
  }

  /** What a delivered request is answered with. */
  function ReceiptFor(gate: Address, n: Numbers, q: Request, t: Treatment): Receipt {
    if FoundStale(n, q.seqNo, t) then Receipt(gate, q, q.seqNo, Rejected, Stale(n.last))
    else if t.Admit? then Receipt(gate, q, q.seqNo, t.status, OtherBody(t.text))
    else Receipt(gate, q, q.seqNo, Rejected, OtherBody(""))
  }

  /** A channel as a value. */
  datatype Link = Link(numbers: Numbers, admitted: set<Request>, signed: set<Receipt>, inFlight: set<Request>, issued: nat)

  function Sent(k: Link, seqNo: uint64): Link {
    k.(inFlight := k.inFlight + {Request(k.issued, seqNo)}, issued := k.issued + 1)
  }

  /** No request is in flight once it was answered or admitted; what is signed says who was admitted. */
  ghost predicate Sound(gate: Address, k: Link) {
    && k.numbers.last <= k.numbers.disk
    && (forall r :: r in k.inFlight ==> r.serial < k.issued && r !in k.admitted)
    && (forall r :: r in k.admitted ==> r.serial < k.issued)
    && (forall rc :: rc in k.signed ==> rc.request.serial < k.issued && rc.request !in k.inFlight && rc.agent == gate)
    && (forall rc :: rc in k.signed && !rc.status.Rejected? ==> rc.request in k.admitted)
    && (forall rc :: rc in k.signed && rc.IsStale() ==> rc.request !in k.admitted && rc.request.seqNo <= rc.result.last)
  }

  /** The requests from a serial on that the gate has admitted or still might. */
  ghost function AdmissibleIn(k: Link, from: nat): set<Request> {
    set r | r in k.admitted + k.inFlight && r.serial >= from
  }

  /** No restart alone can bring the gate's sequence from at least n to something above it. */
  predicate IsSettled(k: Numbers, n: uint64) {
    k.last == k.disk || k.last < n
  }

  /** q is above what the gate holds, what a restart would read, and all else in flight. */
  ghost predicate OnTop(k: Link, q: Request) {
    k.numbers.disk < q.seqNo && forall r :: r in k.inFlight && r != q ==> r.seqNo < q.seqNo
  }

  /** What may have happened to a channel while q, with the highest sequence in flight, was waited for. */
  ghost predicate Since(before: Link, k: Link, q: Request) {
    && k.issued == before.issued && before.numbers.last <= k.numbers.last && k.numbers.disk <= Max(before.numbers.disk, q.seqNo)
    && before.signed <= k.signed && before.admitted <= k.admitted
    && k.inFlight <= before.inFlight && k.admitted + k.inFlight <= before.admitted + before.inFlight
    && (forall rc :: rc in k.signed - before.signed && rc.IsStale() && rc.request == q ==> q.seqNo <= rc.result.last <= k.numbers.last)
    && (IsSettled(before.numbers, q.seqNo) ==>
         && IsSettled(k.numbers, q.seqNo)
         && forall rc :: rc in k.signed - before.signed && rc.IsStale() && rc.request == q ==> rc.result.last == k.numbers.last)
    && (OnTop(before, q) ==>
         && (q in k.inFlight ==> OnTop(k, q))
         && forall rc :: rc in k.signed - before.signed && rc.request == q ==> !rc.IsStale())
  }

  lemma SinceAfter(gate: Address, before: Link, k: Link, q: Request, e: Event)
    requires Sound(gate, k) && q in before.inFlight && (forall r :: r in before.inFlight ==> r.seqNo <= q.seqNo) && Since(before, k, q)
    ensures Since(before, Happened(gate, k, e), q)
  {
  }

  lemma SoundAfter(gate: Address, k: Link, e: Event)
    requires Sound(gate, k)
    ensures Sound(gate, Happened(gate, k, e))
  {
  }

  lemma {:induction false} SinceAll(gate: Address, before: Link, events: seq<Event>, q: Request)
    requires Sound(gate, before) && q in before.inFlight && forall r :: r in before.inFlight ==> r.seqNo <= q.seqNo
    ensures Sound(gate, AllHappened(gate, before, events)) && Since(before, AllHappened(gate, before, events), q)
  {
    if events != [] {
      var k := AllHappened(gate, before, events[..|events| - 1]);
      SinceAll(gate, before, events[..|events| - 1], q);
      SoundAfter(gate, k, events[|events| - 1]);
      SinceAfter(gate, before, k, q, events[|events| - 1]);
    }
  }

  /** A delivery of something not in flight is none. */
  function Happened(gate: Address, k: Link, e: Event): Link {
    match e
    case Restarted => k.(numbers := Numbers(k.numbers.disk, k.numbers.disk))
    case Rewritten => k.(numbers := Numbers(k.numbers.last, k.numbers.last))
    case Delivery(q, t) =>
      if q !in k.inFlight then k
      else Link(AfterDelivery(k.numbers, q.seqNo, t),
                k.admitted + if t.Admit? && q.seqNo > k.numbers.last then {q} else {},
                k.signed + {ReceiptFor(gate, k.numbers, q, t)}, k.inFlight - {q}, k.issued)
  }

  function AllHappened(gate: Address, k: Link, events: seq<Event>): Link {
    if events == [] then k else Happened(gate, AllHappened(gate, k, events[..|events| - 1]), events[|events| - 1])
  }

  /** A reply signed by the gate is one the gate signed. */
  predicate Unforged(a: Arrival, gate: Address, signed: set<Receipt>) {
    a.Reply? && a.signedBy == gate ==> a.receipt in signed
  }

  /** One controller key's record at the gate, and the channel to it, which delivers a request at most once. */
  class Channel {
    const gate: Address
    /** The last sequence, as the gate holds it and as its file does. */
    var last: uint64
    var disk: uint64
    var admitted: set<Request>
    var signed: set<Receipt>
    var inFlight: set<Request>
    var issued: nat

    constructor (gate: Address)
      ensures Valid() && this.gate == gate && last == 0 == disk && inFlight == {} && admitted == {}
    {
      this.gate := gate;
      last, disk, admitted, signed, inFlight, issued := 0, 0, {}, {}, {}, 0;
    }

    ghost predicate Valid()
      reads this
    {
      Sound(gate, State())
    }

    ghost function State(): Link
      reads this
    {
      Link(Numbers(last, disk), admitted, signed, inFlight, issued)
    }

    ghost function Admissible(from: nat): set<Request>
      reads this
    {
      AdmissibleIn(State(), from)
    }

    method Send(seqNo: uint64) returns (r: Request)
      requires Valid()
      modifies this`inFlight, this`issued
      ensures Valid() && r == Request(old(issued), seqNo) && r !in old(inFlight) && r !in admitted
      ensures inFlight == old(inFlight) + {r} && issued == old(issued) + 1 && State() == Sent(old(State()), seqNo)
    {
      r := Request(issued, seqNo);
      inFlight := inFlight + {r};
      issued := issued + 1;
    }

    function Held(): Numbers
      reads this
    {
      Numbers(last, disk)
    }

    /** The gate's admission of one delivered request, and its signed answer. */
    method Deliver(d: Event) returns (receipt: Receipt)
      requires Valid() && d.Delivery? && d.request in inFlight
      modifies this`last, this`disk, this`admitted, this`signed, this`inFlight
      ensures Valid() && inFlight == old(inFlight) - {d.request} && State() == Happened(gate, old(State()), d)
      ensures Held() == AfterDelivery(old(Held()), d.request.seqNo, d.treatment)
      ensures admitted == old(admitted) + if d.treatment.Admit? && d.request.seqNo > old(last) then {d.request} else {}
      ensures signed == old(signed) + {receipt} && receipt.request == d.request && receipt.agent == gate
      ensures receipt.IsStale() <==> FoundStale(old(Held()), d.request.seqNo, d.treatment)
      ensures receipt.IsStale() ==> receipt.result.last == last
    {
      inFlight := inFlight - {d.request};
      if d.treatment.RefuseFirst? {
        receipt := Receipt(gate, d.request, d.request.seqNo, Rejected, OtherBody(""));
      } else if d.request.seqNo <= last {
        receipt := Receipt(gate, d.request, d.request.seqNo, Rejected, Stale(last));
      } else if d.treatment.NotAdmitted? {
        disk := if d.treatment.written then d.request.seqNo else disk;
        receipt := Receipt(gate, d.request, d.request.seqNo, Rejected, OtherBody(""));
      } else {
        last, disk := d.request.seqNo, d.request.seqNo;
        admitted := admitted + {d.request};
        receipt := Receipt(gate, d.request, d.request.seqNo, d.treatment.status, OtherBody(d.treatment.text));
      }
      signed := signed + {receipt};
    }

    /** A new process at the gate reads the file. */
    method Restart()
      requires Valid()
      modifies this`last
      ensures Valid() && last == disk && State() == Happened(gate, old(State()), Restarted)
    {
      last := disk;
    }

    /** The file written for another controller holds this one's live sequence. */
    method Rewrite()
      requires Valid()
      modifies this`disk
      ensures Valid() && disk == last && State() == Happened(gate, old(State()), Rewritten)
    {
      disk := last;
    }

    predicate Settled(n: uint64)
      reads this
    {
      IsSettled(Held(), n)
    }

    /**
     Whatever happens meanwhile, while q has the highest sequence in flight. A
     settled gate stays settled, and once it finds q stale nothing in flight, and
     no restart, can move the sequence any more. q is not found stale when it alone
     is above all that came before.
     */
    method Elapse(events: seq<Event>, ghost q: Request)
      requires Valid() && q in inFlight && forall r :: r in inFlight ==> r.seqNo <= q.seqNo
      modifies this`last, this`disk, this`admitted, this`signed, this`inFlight
      ensures Valid() && State() == AllHappened(gate, old(State()), events)
      ensures old(last) <= last && disk <= Max(old(disk), q.seqNo)
      ensures old(signed) <= signed && old(admitted) <= admitted
      ensures inFlight <= old(inFlight) && admitted + inFlight <= old(admitted) + old(inFlight)
      ensures old(Settled(q.seqNo)) ==> Settled(q.seqNo)
      ensures forall rc :: rc in signed - old(signed) && rc.IsStale() && rc.request == q ==> rc.result.last <= last
      ensures old(Settled(q.seqNo)) ==> forall rc :: rc in signed - old(signed) && rc.IsStale() && rc.request == q ==> rc.result.last == last == disk
      ensures old(AloneOnTop(q)) ==> forall rc :: rc in signed - old(signed) && rc.request == q ==> !rc.IsStale()
    {
      for i := 0 to |events|
        invariant Valid() && State() == AllHappened(gate, old(State()), events[..i]) && Since(old(State()), State(), q)
      {
        assert events[..i + 1][..i] == events[..i];
        SinceAfter(gate, old(State()), State(), q, events[i]);
        Happen(events[i]);
      }
      assert events[..|events|] == events;
    }

    method Happen(e: Event)
      requires Valid()
      modifies this`last, this`disk, this`admitted, this`signed, this`inFlight
      ensures Valid() && State() == Happened(gate, old(State()), e)
    {
      if e.Restarted? {
        Restart();
      } else if e.Rewritten? {
        Rewrite();
      } else if e.request in inFlight {
        var _ := Deliver(e);
      }
    }

    ghost predicate AloneOnTop(q: Request)
      reads this
    {
      OnTop(State(), q)
    }
  }

  /** memSeqs: the next sequence per gate; an absent or zero entry reads as 1. */
  class SeqStore {
    var m: map<Address, uint64>

    constructor ()
      ensures m == map[]
    {
      m := map[];
    }

    function Peek(a: Address): uint64
      reads this
    {
      if a in m && m[a] != 0 then m[a] else 1
    }

    method Next(a: Address) returns (n: uint64)
      ensures n == Peek(a)
    {
      if a !in m || m[a] == 0 {
        return 1;
      }
      return m[a];
    }

    method Set(a: Address, next: uint64)
      modifies this
      ensures m == old(m)[a := next]
    {
      m := m[a := next];
    }
  }

  /** a is the gate's answer to q: its receipt for this request, with this sequence and these result bytes. */
  predicate Answers(gate: Address, q: Request, a: Arrival) {
    && a.Reply? && a.signedBy == gate && a.receipt.agent == gate && a.receipt.request == q
    && a.receipt.seqNo == q.seqNo && a.receipt.result == a.result
  }

  /** What the client makes of what came back for q. */
  function Heard(gate: Address, q: Request, a: Arrival): Outcome {
    if Answers(gate, q, a) then Verified(a.receipt.status, a.result) else Broken
  }

  /** What happens to one attempt: events before its answer is read, and the answer, picked knowing all the gate signed. */
  datatype Weather = Weather(events: seq<Event>, answer: set<Receipt> -> Arrival)

  ghost predicate Fair(w: Weather, gate: Address) {
    forall signed :: Unforged(w.answer(signed), gate, signed)
  }

  // One attempt, and one call of one or two of them.

  function After(gate: Address, k: Link, n: uint64, w: Weather): Link {
    AllHappened(gate, Sent(k, n), w.events)
  }

  function AnswerTo(gate: Address, k: Link, n: uint64, w: Weather): Outcome {
    Heard(gate, Request(k.issued, n), w.answer(After(gate, k, n, w).signed))
  }

  /** A client at n has the channel to itself: nothing in flight is above n. */
  ghost predicate Usable(gate: Address, k: Link, n: uint64) {
    Sound(gate, k) && forall r :: r in k.inFlight ==> r.seqNo <= n
  }

  lemma AttemptSince(gate: Address, k: Link, n: uint64, w: Weather)
    requires Usable(gate, k, n)
    ensures Usable(gate, After(gate, k, n, w), n) && Since(Sent(k, n), After(gate, k, n, w), Request(k.issued, n))
  {
    SinceAll(gate, Sent(k, n), w.events, Request(k.issued, n));
  }

  /** What one attempt keeps, and what its answer tells of the gate. */
  lemma AttemptKeeps(gate: Address, k: Link, n: uint64, w: Weather, from: nat)
    requires Usable(gate, k, n) && Fair(w, gate) && from <= k.issued
    ensures var (q, after, r) := (Request(k.issued, n), After(gate, k, n, w), AnswerTo(gate, k, n, w));
            && Usable(gate, after, n) && after.issued == k.issued + 1
            && AdmissibleIn(after, from) <= AdmissibleIn(k, from) + {q}
            && after.numbers.disk <= Max(k.numbers.disk, n)
            && (r.Verified? && !r.status.Rejected? ==> q in AdmissibleIn(after, from) && q in after.admitted)
            && (r.IsStale() ==> q !in AdmissibleIn(after, from) && n <= r.result.last <= after.numbers.last)
            && (IsSettled(k.numbers, n) ==> IsSettled(after.numbers, n) && (r.IsStale() ==> r.result.last == after.numbers.disk))
            && (OnTop(Sent(k, n), q) ==> !r.IsStale())
  {
    var q, after := Request(k.issued, n), After(gate, k, n, w);
    AttemptSince(gate, k, n, w);
    var a := w.answer(after.signed);
    assert Unforged(a, gate, after.signed);
    if Answers(gate, q, a) {
      assert a.receipt in after.signed && a.receipt !in k.signed;
    }
  }

  /** What a call keeps: from k and n to after and c, with answer r. */
  ghost predicate Kept(k: Link, n: uint64, after: Link, c: uint64, r: Outcome) {
    && n <= c && |AdmissibleIn(after, k.issued)| <= 1
    && (r.Verified? && !r.status.Rejected? ==> |AdmissibleIn(after, k.issued)| == 1 && AdmissibleIn(after, k.issued) <= after.admitted)
    && (IsSettled(k.numbers, n) ==> !r.IsStale() && IsSettled(after.numbers, c))
    && Max(c, after.numbers.disk) <= Max(n, k.numbers.disk) + 2
  }

  lemma NoneYet(gate: Address, k: Link)
    requires Sound(gate, k)
    ensures AdmissibleIn(k, k.issued) == {}
  {
  }

  /** An attempt of a call none of whose requests is admissible yet. */
  lemma FreshAttempt(gate: Address, k: Link, n: uint64, w: Weather, from: nat)
    requires Usable(gate, k, n) && Fair(w, gate) && from <= k.issued && AdmissibleIn(k, from) == {}
    ensures var (after, r) := (After(gate, k, n, w), AnswerTo(gate, k, n, w));
            && |AdmissibleIn(after, from)| <= 1
            && (r.Verified? && !r.status.Rejected? ==> |AdmissibleIn(after, from)| == 1 && AdmissibleIn(after, from) <= after.admitted)
            && (r.IsStale() ==> AdmissibleIn(after, from) == {})
  {
    AttemptKeeps(gate, k, n, w, from);
    SmallSet(AdmissibleIn(After(gate, k, n, w), from), Request(k.issued, n));
  }

  /**
   What a call does: one attempt, whose answer it returns, unless that is the
   gate's stale_seq; then a second at the sequence after the one told, whose
   answer it returns whatever it is.
   */
  ghost predicate IsCall(gate: Address, k: Link, n: uint64, first: Weather, second: Weather, after: Link, c: uint64, r: Outcome) {
    var heard := AnswerTo(gate, k, n, first);
    if !heard.IsStale() then
      r == heard && after == After(gate, k, n, first) && c == if r.Verified? then Add(n, 1) else n
    else
      var (one, again) := (After(gate, k, n, first), Add(heard.result.last, 1));
      && again == heard.result.last + 1
      && r == AnswerTo(gate, one, again, second) && after == After(gate, one, again, second)
      && c == if r.Verified? then Add(again, 1) else again
  }

  /** What an attempt does to the numbers, and when its answer cannot be stale. */
  lemma AttemptSettles(gate: Address, k: Link, n: uint64, w: Weather)
    requires Usable(gate, k, n) && Fair(w, gate)
    ensures var (after, r) := (After(gate, k, n, w), AnswerTo(gate, k, n, w));
            && after.numbers.disk <= Max(k.numbers.disk, n)
            && (IsSettled(k.numbers, n) ==> IsSettled(after.numbers, n))
            && (OnTop(Sent(k, n), Request(k.issued, n)) ==> !r.IsStale())
  {
    AttemptKeeps(gate, k, n, w, k.issued);
  }

  lemma OneAttempt(gate: Address, k: Link, n: uint64, first: Weather, second: Weather, after: Link, c: uint64, r: Outcome)
    requires Usable(gate, k, n) && Fair(first, gate) && n + 2 < TWO_64
    requires IsCall(gate, k, n, first, second, after, c, r) && !AnswerTo(gate, k, n, first).IsStale()
    ensures Kept(k, n, after, c, r)
  {
    NoneYet(gate, k);
    AttemptSettles(gate, k, n, first);
    FreshAttempt(gate, k, n, first, k.issued);
  }

  /** The attempt after a resynchronisation. */
  lemma Resynced(gate: Address, k: Link, n: uint64, w: Weather)
    requires Usable(gate, k, n) && Fair(w, gate) && n + 2 < TWO_64 && k.numbers.disk + 2 < TWO_64 && AnswerTo(gate, k, n, w).IsStale()
    ensures var (one, last) := (After(gate, k, n, w), AnswerTo(gate, k, n, w).result.last);
            && n <= last <= Max(n, k.numbers.disk) && last + 1 < TWO_64 && one.numbers.disk <= Max(n, k.numbers.disk)
            && Usable(gate, one, last + 1) && k.issued < one.issued
            && (IsSettled(k.numbers, n) ==> one.numbers.last == one.numbers.disk == last && OnTop(Sent(one, last + 1), Request(one.issued, last + 1)))
  {
    AttemptKeeps(gate, k, n, w, k.issued);
  }

  /** A last attempt, none of the call's requests being admissible before it. */
  lemma LastAttempt(gate: Address, k: Link, n: uint64, one: Link, m: uint64, w: Weather)
    requires Usable(gate, one, m) && Fair(w, gate) && AdmissibleIn(one, k.issued) == {} && k.issued <= one.issued
    requires n <= m && m + 1 < TWO_64 && Max(m, one.numbers.disk) <= Max(n, k.numbers.disk) + 1
    requires IsSettled(k.numbers, n) ==> one.numbers.last == one.numbers.disk && OnTop(Sent(one, m), Request(one.issued, m))
    ensures var r := AnswerTo(gate, one, m, w); Kept(k, n, After(gate, one, m, w), if r.Verified? then Add(m, 1) else m, r)
  {
    FreshAttempt(gate, one, m, w, k.issued);
    AttemptSettles(gate, one, m, w);
  }

  lemma TwoAttempts(gate: Address, k: Link, n: uint64, first: Weather, second: Weather, after: Link, c: uint64, r: Outcome)
    requires Usable(gate, k, n) && Fair(first, gate) && Fair(second, gate) && n + 2 < TWO_64 && k.numbers.disk + 2 < TWO_64
    requires IsCall(gate, k, n, first, second, after, c, r) && AnswerTo(gate, k, n, first).IsStale()
    ensures Kept(k, n, after, c, r)
  {
    NoneYet(gate, k);
    FreshAttempt(gate, k, n, first, k.issued);
    Resynced(gate, k, n, first);
    LastAttempt(gate, k, n, After(gate, k, n, first), AnswerTo(gate, k, n, first).result.last + 1, second);
  }

  lemma CallKeeps(gate: Address, k: Link, n: uint64, first: Weather, second: Weather, after: Link, c: uint64, r: Outcome)
    requires Usable(gate, k, n) && Fair(first, gate) && Fair(second, gate) && n + 2 < TWO_64 && k.numbers.disk + 2 < TWO_64
    requires IsCall(gate, k, n, first, second, after, c, r)
    ensures Kept(k, n, after, c, r)
  {
    if AnswerTo(gate, k, n, first).IsStale() {
      TwoAttempts(gate, k, n, first, second, after, c, r);
    } else {
      OneAttempt(gate, k, n, first, second, after, c, r);
    }
  }

  class Client {
    const channel: Channel
    const seqs: SeqStore

    constructor (channel: Channel, seqs: SeqStore)
      requires channel.Valid() && channel.inFlight == {}
      ensures Valid() && this.channel == channel && this.seqs == seqs
    {
      this.channel := channel;
      this.seqs := seqs;
    }

    ghost function Counter(): uint64
      reads this, seqs
    {
      seqs.Peek(channel.gate)
    }

    /** This client is the key's only one: nothing in flight is above its counter. */
    ghost predicate Valid()
      reads this, channel, seqs
    {
      channel.Valid() && forall r :: r in channel.inFlight ==> r.seqNo <= Counter()
    }

    /** The counters are n steps away from the last uint64. */
    ghost predicate Headroom(n: nat)
      reads this, channel, seqs
    {
      Counter() + n < TWO_64 && channel.disk + n < TWO_64
    }

    /** Neither the gate, even restarted, nor anything in flight has reached the counter. */
    ghost predicate Ahead()
      reads this, channel, seqs
    {
      channel.disk < Counter() && forall r :: r in channel.inFlight ==> r.seqNo < Counter()
    }

    /** The request signed and posted, and what comes back: anything, but no receipt the gate did not sign. */
    method Post(w: Weather, seqNo: uint64, ghost from: nat) returns (arrival: Arrival, q: Request)
      requires Valid() && seqNo == Counter() && Fair(w, channel.gate) && from <= channel.issued
      modifies channel
      ensures Valid() && channel.issued == old(channel.issued) + 1 && q == Request(old(channel.issued), seqNo)
      ensures arrival == w.answer(channel.signed) && Unforged(arrival, channel.gate, channel.signed)
      ensures channel.State() == AllHappened(channel.gate, Sent(old(channel.State()), seqNo), w.events)
      ensures channel.Admissible(from) <= old(channel.Admissible(from)) + {q}
      ensures old(channel.last) <= channel.last && channel.disk <= Max(old(channel.disk), seqNo)
      ensures old(channel.Settled(seqNo)) ==> channel.Settled(seqNo)
      ensures forall rc :: rc in channel.signed && rc.request == q && rc.IsStale() ==>
                && seqNo <= rc.result.last <= channel.last && q !in channel.admitted + channel.inFlight
                && (old(channel.Settled(seqNo)) ==> rc.result.last == channel.disk) && !old(Ahead())
    {
      q := channel.Send(seqNo);
      channel.Elapse(w.events, q);
      arrival := w.answer(channel.signed);
      assert Unforged(arrival, channel.gate, channel.signed);
    }

    /** once: sign, send, and take the answer only if it is this gate's receipt for this request. */
    method Once(w: Weather, ghost from: nat) returns (r: Outcome, ghost q: Request)
      requires Valid() && Headroom(1) && Fair(w, channel.gate) && from <= channel.issued
      modifies channel, seqs
      ensures Valid() && channel.issued == old(channel.issued) + 1 && q == Request(old(channel.issued), old(Counter()))
      ensures channel.State() == AllHappened(channel.gate, Sent(old(channel.State()), old(Counter())), w.events)
      ensures var a := w.answer(channel.signed);
              if a.Reply? && a.signedBy == channel.gate && a.receipt.agent == channel.gate && a.receipt.request == q
                && a.receipt.seqNo == old(Counter()) && a.receipt.result == a.result
              then r == Verified(a.receipt.status, a.result) else r == Broken
      ensures channel.Admissible(from) <= old(channel.Admissible(from)) + {q}
      ensures Counter() == old(Counter()) + if r.Verified? then 1 else 0
      ensures old(channel.last) <= channel.last && channel.disk <= Max(old(channel.disk), old(Counter()))
      ensures r.Verified? && !r.status.Rejected? ==> q in channel.Admissible(from) && q in channel.admitted
      ensures r.IsStale() ==> q !in channel.Admissible(from) && old(Counter()) <= r.result.last <= channel.last
      ensures r.IsStale() && old(channel.Settled(Counter())) ==> r.result.last == channel.disk
      ensures forall x :: x in channel.inFlight ==> x.seqNo <= old(Counter())
      ensures old(channel.Settled(Counter())) ==> channel.Settled(Counter())
      ensures old(Ahead()) ==> !r.IsStale()
    {
      var seqNo := seqs.Next(channel.gate);
      var arrival, sent := Post(w, seqNo, from);
      q := sent;
      if !arrival.Reply? || arrival.signedBy != channel.gate {
        return Broken, q;
      }
      var rc := arrival.receipt;
      if rc.agent != channel.gate || rc.request != sent || rc.seqNo != seqNo || rc.result != arrival.result {
        return Broken, q;
      }
      seqs.Set(channel.gate, Add(seqNo, 1));
      return Verified(rc.status, arrival.result), q;
    }

    /** A resynchronisation: the gate said what it last admitted, and nothing sent so far is above that. */
    method Resync(last: uint64)
      requires channel.Valid() && last + 2 < TWO_64
      requires forall x :: x in channel.inFlight ==> x.seqNo <= last
      modifies seqs
      ensures Valid() && Counter() == last + 1
      ensures channel.disk <= last ==> Ahead()
    {
      seqs.Set(channel.gate, Add(last, 1));
    }

    /**
     Do: at most one of the requests one call makes is ever admitted, now or by
     a late delivery, and exactly one when the call returns a verified answer
     that is not a rejection. The counter never goes back. A gate that was settled
     stays so, and after one resynchronisation never answers stale_seq again.
     */
    method Do(first: Weather, second: Weather) returns (r: Outcome)
      requires Valid() && Headroom(2) && Fair(first, channel.gate) && Fair(second, channel.gate)
      modifies channel, seqs
      ensures Valid() && old(Counter()) <= Counter()
      ensures |channel.Admissible(old(channel.issued))| <= 1
      ensures r.Verified? && !r.status.Rejected? ==>
        |channel.Admissible(old(channel.issued))| == 1 && channel.Admissible(old(channel.issued)) <= channel.admitted
      ensures old(channel.Settled(Counter())) ==> !r.IsStale() && channel.Settled(Counter())
      ensures Max(Counter(), channel.disk) <= Max(old(Counter()), old(channel.disk)) + 2
      ensures IsCall(channel.gate, old(channel.State()), old(Counter()), first, second, channel.State(), Counter(), r)
    {
      ghost var k, n := channel.State(), Counter();
      r := Send(first, second);
      CallKeeps(channel.gate, k, n, first, second, channel.State(), Counter(), r);
    }

    /** send: the loop of at most two turns, the second after a resynchronisation. */
    method Send(first: Weather, second: Weather) returns (r: Outcome)
      requires Valid() && Headroom(2) && Fair(first, channel.gate) && Fair(second, channel.gate)
      modifies channel, seqs
      ensures Valid()
      ensures IsCall(channel.gate, old(channel.State()), old(Counter()), first, second, channel.State(), Counter(), r)
    {
      ghost var k, n := channel.State(), Counter();
      var attempt := 0;
      while true
        invariant attempt == 0 || (attempt == 1 && AnswerTo(channel.gate, k, n, first).IsStale())
        invariant Valid() && Headroom(2 - attempt)
        invariant attempt == 0 ==> channel.State() == k && Counter() == n
        invariant attempt == 1 ==>
          channel.State() == After(channel.gate, k, n, first) && Counter() == AnswerTo(channel.gate, k, n, first).result.last + 1
        decreases 1 - attempt
      {
        var again;
        r, again := Turn(if attempt == 0 then first else second, attempt);
        if !again {
          break;
        }
        attempt := attempt + 1;
      }
    }

    /** One turn of send's loop; with the counter resynchronised, it goes round again. */
    method Turn(w: Weather, attempt: nat) returns (r: Outcome, again: bool)
      requires attempt <= 1 && Valid() && Headroom(2 - attempt) && Fair(w, channel.gate)
      modifies channel, seqs
      ensures Valid() && channel.State() == After(channel.gate, old(channel.State()), old(Counter()), w)
      ensures r == AnswerTo(channel.gate, old(channel.State()), old(Counter()), w)
      ensures again <==> attempt == 0 && r.IsStale()
      ensures again ==> Headroom(1) && Counter() == r.result.last + 1
      ensures !again ==> Counter() == old(Counter()) + if r.Verified? then 1 else 0
    {
      ghost var q;
      r, q := Once(w, channel.issued);
      again := attempt == 0 && r.IsStale();
      if again {
        Resync(r.result.last);
      }
    }
  }

  lemma SmallSet<T>(s: set<T>, x: T)
    requires s <= {x}
    ensures |s| <= 1 && (x in s ==> s == {x}) && (x !in s ==> s == {})
  {
    assert s == {} || s == {x};
  }

  /** What the client signs next after storing last + 1, as the store reads it back. */
  function AfterResync(last: uint64): uint64 {
    if Add(last, 1) == 0 then 1 else Add(last, 1)
  }

  /** A resynchronisation clears stale_seq except at the last uint64, where the counter wraps to the start. */
  lemma ResyncClearsUnlessExhausted(last: uint64)
    ensures AfterResync(last) > last <==> last < TWO_64 - 1
  {
    assert last < TWO_64 - 1 ==> Add(last, 1) == last + 1;
  }

  /** Weather in which q is delivered, and the one receipt signed for it comes back. */
  ghost predicate Delivers(w: Weather, gate: Address, q: Request, t: Treatment) {
    && w.events == [Delivery(q, t)]
    && forall signed: set<Receipt>, rc: Receipt {:trigger w.answer(signed), rc in signed} ::
         rc in signed && rc.request == q && (forall other :: other in signed && other.request == q ==> other == rc) ==>
           w.answer(signed) == Reply(rc, rc.result, gate)
  }

  /** An attempt in such weather is answered with what the gate signed. */
  lemma DeliveredAttempt(gate: Address, k: Link, n: uint64, w: Weather, t: Treatment)
    requires Usable(gate, k, n) && Delivers(w, gate, Request(k.issued, n), t)
    ensures var (q, rc, after) := (Request(k.issued, n), ReceiptFor(gate, k.numbers, Request(k.issued, n), t), After(gate, k, n, w));
            && AnswerTo(gate, k, n, w) == Verified(rc.status, rc.result) && after.issued == k.issued + 1
            && after.numbers == AfterDelivery(k.numbers, n, t) && after.admitted == k.admitted + if t.Admit? && n > k.numbers.last then {q} else {}
  {
    var q, rc := Request(k.issued, n), ReceiptFor(gate, k.numbers, Request(k.issued, n), t);
    assert w.events[..0] == [] && w.events[0] == Delivery(q, t);
    assert AllHappened(gate, Sent(k, n), []) == Sent(k, n);
    var after := After(gate, k, n, w);
    assert after == Happened(gate, Sent(k, n), Delivery(q, t));
    assert rc in after.signed && forall other :: other in after.signed && other.request == q ==> other == rc;
  }

  /** What came of an attempt the gate heard and answered. */
  ghost predicate WasHeard(gate: Address, k: Link, n: uint64, w: Weather, status: Status, text: string) {
    var (after, heard) := (After(gate, k, n, w), AnswerTo(gate, k, n, w));
    if k.numbers.last < n then
      heard == Verified(status, OtherBody(text)) && after.numbers == Numbers(n, n) && after.admitted == k.admitted + {Request(k.issued, n)}
    else
      heard == Verified(Rejected, Stale(k.numbers.last)) && after.numbers == k.numbers && after.admitted == k.admitted && after.issued == k.issued + 1
  }

  lemma LoneAttempt(gate: Address, k: Link, n: uint64, w: Weather, status: Status, text: string)
    requires Usable(gate, k, n) && Delivers(w, gate, Request(k.issued, n), Admit(status, text))
    ensures WasHeard(gate, k, n, w, status, text) && Usable(gate, After(gate, k, n, w), n)
  {
    AttemptSince(gate, k, n, w);
    DeliveredAttempt(gate, k, n, w, Admit(status, text));
  }

  lemma HeardCall(gate: Address, k: Link, n: uint64, first: Weather, second: Weather, status: Status, text: string, after: Link, c: uint64, r: Outcome)
    requires n + 2 < TWO_64 && k.numbers.last + 2 < TWO_64
    requires WasHeard(gate, k, n, first, status, text) && IsCall(gate, k, n, first, second, after, c, r)
    requires n <= k.numbers.last ==> WasHeard(gate, After(gate, k, n, first), k.numbers.last + 1, second, status, text)
    ensures r == Verified(status, OtherBody(text))
    ensures var q := if k.numbers.last < n then Request(k.issued, n) else Request(k.issued + 1, k.numbers.last + 1);
            after.admitted == k.admitted + {q} && after.numbers == Numbers(q.seqNo, q.seqNo) && c == q.seqNo + 1
  {
    if n <= k.numbers.last {
      assert AnswerTo(gate, k, n, first).IsStale();
      assert Add(k.numbers.last, 1) == k.numbers.last + 1;
    } else {
      assert !AnswerTo(gate, k, n, first).IsStale();
    }
  }

  /**
   A call whose requests arrive and are answered, at a settled gate that admits
   what is above its sequence: it returns what the gate answered, and one request
   was admitted, the second one when the counter had fallen behind.
   */
  lemma LoneCall(gate: Address, k: Link, n: uint64, first: Weather, second: Weather, status: Status, text: string, after: Link, c: uint64, r: Outcome)
    requires Usable(gate, k, n) && IsSettled(k.numbers, n) && n + 2 < TWO_64 && k.numbers.disk + 2 < TWO_64
    requires Delivers(first, gate, Request(k.issued, n), Admit(status, text))
    requires Delivers(second, gate, Request(k.issued + 1, k.numbers.last + 1), Admit(status, text))
    requires IsCall(gate, k, n, first, second, after, c, r)
    ensures r == Verified(status, OtherBody(text))
    ensures var q := if k.numbers.last < n then Request(k.issued, n) else Request(k.issued + 1, k.numbers.last + 1);
            after.admitted == k.admitted + {q} && after.numbers == Numbers(q.seqNo, q.seqNo) && c == q.seqNo + 1
  {
    LoneAttempt(gate, k, n, first, status, text);
    if n <= k.numbers.last {
      LoneAttempt(gate, After(gate, k, n, first), k.numbers.last + 1, second, status, text);
    }
    HeardCall(gate, k, n, first, second, status, text, after, c, r);
  }

  /** Fair weather for each of a series of calls, and for the retry of each. */
  ghost predicate AllFair(weathers: seq<(Weather, Weather)>, gate: Address) {
    forall i :: 0 <= i < |weathers| ==> Fair(weathers[i].0, gate) && Fair(weathers[i].1, gate)
  }

  ghost predicate NoneStale(answers: seq<Outcome>) {
    forall i :: 0 <= i < |answers| ==> !answers[i].IsStale()
  }

  /** Any number of calls of a client whose gate is settled: none returns stale_seq. */
  method Calls(client: Client, weathers: seq<(Weather, Weather)>) returns (answers: seq<Outcome>)
    requires client.Valid() && client.channel.Settled(client.Counter()) && AllFair(weathers, client.channel.gate)
    requires client.Headroom(2 * |weathers|)
    modifies client.channel, client.seqs
    ensures |answers| == |weathers| && NoneStale(answers)
    ensures client.Valid() && client.channel.Settled(client.Counter())
  {
    answers := [];
    ghost var start := Max(client.Counter(), client.channel.disk);
    for i := 0 to |weathers|
      invariant |answers| == i && NoneStale(answers)
      invariant client.Valid() && client.channel.Settled(client.Counter())
      invariant Max(client.Counter(), client.channel.disk) <= start + 2 * i
    {
      var r := client.Do(weathers[i].0, weathers[i].1);
      answers := answers + [r];
    }
  }

  /** So a client that has kept its counter since the gate's record was empty never returns stale_seq. */
  method KeptCounterIsNeverStale(gate: Address, weathers: seq<(Weather, Weather)>) returns (answers: seq<Outcome>)
    requires AllFair(weathers, gate) && 2 * |weathers| + 1 < TWO_64
    ensures |answers| == |weathers| && NoneStale(answers)
  {
    var channel := new Channel(gate);
    var seqs := new SeqStore();
    var client := new Client(channel, seqs);
    answers := Calls(client, weathers);
  }

  /**
   What is left is a counter that was lost. A gate that finds n stale, and
   restarts before the retry comes, finds that stale too exactly when it was not
   settled.
   */
  method RetryIsStaleExactly(c: Channel, n: uint64) returns (first: Receipt, second: Receipt)
    requires c.Valid() && c.inFlight == {} && n <= c.last < TWO_64 - 1
    modifies c
    ensures first.IsStale() && first.result.last == old(c.last) && second.request.seqNo == AfterResync(old(c.last))
    ensures second.IsStale() <==> !old(c.Settled(n))
  {
    ResyncClearsUnlessExhausted(c.last);
    var q := c.Send(n);
    first := c.Deliver(Delivery(q, Admit(Succeeded, "")));
    var retry := c.Send(AfterResync(first.result.last));
    c.Restart();
    second := c.Deliver(Delivery(retry, Admit(Succeeded, "")));
  }

  /**
   How a gate gets there: it admits 1, fails to admit 2 with the write done, and
   then hears from a client with a new store, whose counter is 1 again.
   */
  method LostCounterIsStaleTwice(gate: Address) returns (first: Receipt, second: Receipt)
    ensures first.IsStale() && second.IsStale()
  {
    var channel := new Channel(gate);
    var one := channel.Send(1);
    var _ := channel.Deliver(Delivery(one, Admit(Succeeded, "")));
    var two := channel.Send(2);
    var _ := channel.Deliver(Delivery(two, NotAdmitted(true)));
    var store := new SeqStore();
    var client := new Client(channel, store);
    first, second := RetryIsStaleExactly(channel, client.seqs.Peek(gate));
  }
}
