/** The signers a box knows, what each may sign for, and which signatures a kind of intent takes. */
module Policy {
  import opened Address
  import opened Wrappers

  /** A tier is a string on disk: a policy may name one no signer holds. */
  type Tier = string

  const ROUTINE: Tier := "routine"
  const APPROVAL: Tier := "approval"
  const SCOPE_LOCAL := "local"

  datatype SignerEntry = SignerEntry(address: string, tier: Tier, title: string, scope: string)

  datatype Refusal = UnknownKind | UnauthorizedKind

  /** strings.EqualFold, through the canonical folding of each side. */
  type Fold = string -> string

  const DEFAULT_REQUIREMENTS: map<string, seq<Tier>> := map[
    "agent.info" := [ROUTINE], "status.read" := [ROUTINE], "disk.read" := [ROUTINE],
    "endpoints.read" := [ROUTINE], "firewall.read" := [ROUTINE], "logs.read" := [ROUTINE],
    "logs.since" := [ROUTINE], "service.action" := [ROUTINE], "modules.read" := [ROUTINE],
    "agent.upgrade" := [ROUTINE, APPROVAL],
    "job.list" := [ROUTINE], "job.read" := [ROUTINE], "job.output" := [ROUTINE],
    "job.lease" := [ROUTINE], "job.advance" := [ROUTINE], "job.decide" := [ROUTINE],
    "node.migrate-names" := [ROUTINE]]

  predicate IsFor(e: SignerEntry, a: Address) {
    ParseAddress(e.address) == Ok(a)
  }

  /** The first entry for a, as tierOf and CheckScope both read the list. */
  function EntryOf(entries: seq<SignerEntry>, a: Address): (r: Option<SignerEntry>)
    ensures r.Some? ==> r.value in entries && IsFor(r.value, a)
    ensures r.None? ==> forall e :: e in entries ==> !IsFor(e, a)
  {
    if entries == [] then None
    else if IsFor(entries[0], a) then Some(entries[0])
    else EntryOf(entries[1..], a)
  }

  predicate Holds(entries: seq<SignerEntry>, a: Address, tier: Tier) {
    EntryOf(entries, a).Some? && EntryOf(entries, a).value.tier == tier
  }

  function Holding(entries: seq<SignerEntry>): (Address, Tier) -> bool {
    (a: Address, tier: Tier) => Holds(entries, a, tier)
  }

  function RequirementOf(kinds: map<string, seq<Tier>>, kind: string): Option<seq<Tier>> {
    if kind in kinds then Some(kinds[kind])
    else if kind in DEFAULT_REQUIREMENTS then Some(DEFAULT_REQUIREMENTS[kind])
    else None
  }

  ghost predicate Distinct<T>(f: seq<T>) {
    forall i, j :: 0 <= i < j < |f| ==> f[i] != f[j]
  }

  /** f gives each required tier a signer of its own who holds it. */
  ghost predicate Assigns<A, T>(holds: (A, T) -> bool, req: seq<T>, signed: set<A>, f: seq<A>) {
    && |f| == |req| && Distinct(f)
    && forall i :: 0 <= i < |f| ==> f[i] in signed && holds(f[i], req[i])
  }

  ghost predicate Covered<A(!new), T>(holds: (A, T) -> bool, req: seq<T>, signed: set<A>) {
    exists f :: Assigns(holds, req, signed, f)
  }

  /** What a request needs, said without an order of signers or a way to pick them. */
  ghost predicate Authorised(entries: seq<SignerEntry>, kinds: map<string, seq<Tier>>, kind: string,
                             controller: Address, signed: set<Address>, extra: seq<Tier>) {
    && RequirementOf(kinds, kind).Some?
    && Holds(entries, controller, ROUTINE)
    && controller in signed
    && Covered(Holding(entries), RequirementOf(kinds, kind).value + extra, signed)
  }

  /** Scope and peer: an unscoped signer from anywhere, a scoped one from root or an enrolled uid. */
  predicate ScopeAdmits(entries: seq<SignerEntry>, localUids: seq<int>, controller: Address, peer: Option<int>) {
    || EntryOf(entries, controller).None?
    || EntryOf(entries, controller).value.scope == ""
    || (peer.Some? && (peer.value == 0 || peer.value in localUids))
  }

  // The same said of the list itself, by position.

  /** The i-th entry is the first whose text is this address's. */
  ghost predicate FirstFor(entries: seq<SignerEntry>, a: Address, i: int) {
    0 <= i < |entries| && ParseAddress(entries[i].address) == Ok(a) && forall k :: 0 <= k < i ==> ParseAddress(entries[k].address) != Ok(a)
  }

  ghost predicate FirstHolds(entries: seq<SignerEntry>, a: Address, tier: Tier) {
    exists i :: FirstFor(entries, a, i) && entries[i].tier == tier
  }

  lemma {:induction false} EntryOfExactly(entries: seq<SignerEntry>, a: Address)
    ensures EntryOf(entries, a).Some? <==> exists i :: FirstFor(entries, a, i)
    ensures forall i :: FirstFor(entries, a, i) ==> EntryOf(entries, a) == Some(entries[i])
  {
    if entries != [] && !IsFor(entries[0], a) {
      EntryOfExactly(entries[1..], a);
      forall i ensures FirstFor(entries, a, i) <==> i > 0 && FirstFor(entries[1..], a, i - 1) {
        if i > 0 && FirstFor(entries[1..], a, i - 1) {
          forall k | 0 <= k < i ensures ParseAddress(entries[k].address) != Ok(a) {
            assert k > 0 ==> entries[k] == entries[1..][k - 1];
          }
        }
      }
      if i :| FirstFor(entries[1..], a, i) {
        assert FirstFor(entries, a, i + 1);
      }
    } else if entries != [] {
      assert FirstFor(entries, a, 0);
    }
  }

  lemma HoldsExactly(entries: seq<SignerEntry>, a: Address, tier: Tier)
    ensures Holds(entries, a, tier) <==> FirstHolds(entries, a, tier)
  {
    EntryOfExactly(entries, a);
  }

  /**
   What authorises a request: the kind is known, to the box or by default; the
   controller signed, and the first entry for it is of the routine tier; and each
   tier the kind takes, the box's word before the default, and each extra one has
   a signer of its own whose first entry is of that tier.
   */
  lemma AuthorisedExactly(entries: seq<SignerEntry>, kinds: map<string, seq<Tier>>, kind: string, controller: Address, signed: set<Address>, extra: seq<Tier>)
    ensures Authorised(entries, kinds, kind, controller, signed, extra) <==>
            && (kind in kinds || kind in DEFAULT_REQUIREMENTS) && controller in signed && FirstHolds(entries, controller, "routine")
            && var req := (if kind in kinds then kinds[kind] else DEFAULT_REQUIREMENTS[kind]) + extra;
               exists f :: IsCover(entries, req, signed, f)
  {
    HoldsExactly(entries, controller, ROUTINE);
    if kind in kinds || kind in DEFAULT_REQUIREMENTS {
      var req := (if kind in kinds then kinds[kind] else DEFAULT_REQUIREMENTS[kind]) + extra;
      forall f: seq<Address> ensures IsCover(entries, req, signed, f) <==> Assigns(Holding(entries), req, signed, f) {
        CoverAssigns(entries, req, signed, f);
      }
    }
  }

  /** f lists different signers, one for each tier, the first entry for each being of that tier. */
  ghost predicate IsCover(entries: seq<SignerEntry>, req: seq<Tier>, signed: set<Address>, f: seq<Address>) {
    && |f| == |req| && (forall i, j :: 0 <= i < j < |f| ==> f[i] != f[j])
    && forall i :: 0 <= i < |f| ==> f[i] in signed && FirstHolds(entries, f[i], req[i])
  }

  lemma CoverAssigns(entries: seq<SignerEntry>, req: seq<Tier>, signed: set<Address>, f: seq<Address>)
    ensures IsCover(entries, req, signed, f) <==> Assigns(Holding(entries), req, signed, f)
  {
    if |f| == |req| {
      forall i | 0 <= i < |f| ensures FirstHolds(entries, f[i], req[i]) <==> Holding(entries)(f[i], req[i]) {
        HoldsExactly(entries, f[i], req[i]);
      }
    }
  }

  /** Who may be heard from where: refused exactly when the first entry for it is scoped and the peer is neither root nor listed. */
  lemma ScopeExactly(entries: seq<SignerEntry>, localUids: seq<int>, controller: Address, peer: Option<int>)
    ensures !ScopeAdmits(entries, localUids, controller, peer) <==>
            && (exists i :: FirstFor(entries, controller, i) && entries[i].scope != "")
            && (peer == None || (peer.value != 0 && peer.value !in localUids))
  {
    EntryOfExactly(entries, controller);
  }

  class Policy {
    var signers: seq<SignerEntry>
    var localUids: seq<int>
    var kinds: map<string, seq<Tier>>

    method TierOf(a: Address) returns (r: Option<Tier>)
      ensures r == match EntryOf(signers, a) { case None => None case Some(e) => Some(e.tier) }
      ensures forall tier :: Holding(signers)(a, tier) <==> r == Some(tier)
    {
      assert signers[0..] == signers;
      for i := 0 to |signers|
        invariant EntryOf(signers, a) == EntryOf(signers[i..], a)
      {
        if ParseAddress(signers[i].address) == Ok(a) {
          return Some(signers[i].tier);
        }
      }
      return None;
    }

    /** Authorise: an enrolled routine controller that signed, and a distinct signer for every tier. */
    method Authorise(kind: string, controller: Address, signers: seq<Address>, extra: seq<Tier>) returns (r: Result<(), Refusal>)
      ensures r.Ok? <==> Authorised(this.signers, kinds, kind, controller, (set s | s in signers), extra)
      ensures r == Err(UnknownKind) <==> RequirementOf(kinds, kind).None?
    {
      var required := RequirementOf(kinds, kind);
      if required.None? {
        return Err(UnknownKind);
      }
      var req := required.value + extra;
      var tier := TierOf(controller);
      if tier != Some(ROUTINE) {
        return Err(UnauthorizedKind);
      }
      if controller !in signers {
        return Err(UnauthorizedKind);
      }
      var covered := CoverTiers(req, controller, signers);
      return if covered then Ok(()) else Err(UnauthorizedKind);
    }

    /** The loop of Authorise: pick a distinct signer for each tier, the controller first for the routine one. */
    method CoverTiers(req: seq<Tier>, controller: Address, signers: seq<Address>) returns (covered: bool)
      requires controller in signers && Holding(this.signers)(controller, ROUTINE)
      ensures covered <==> Covered(Holding(this.signers), req, set s | s in signers)
    {
      ghost var holds, signed := Holding(this.signers), set s | s in signers;
      var used: set<Address> := {};
      ghost var f: seq<Address> := [];
      for i := 0 to |req|
        invariant Assigns(holds, req[..i], signed, f)
        invariant used == set s | s in f
      {
        var pick: Option<Address> := None;
        if req[i] == ROUTINE && controller !in used {
          pick := Some(controller);
        } else {
          pick := PickUnused(signers, req[i], used);
        }
        if pick.None? {
          NoAssignmentLeft(holds, req, signed, f);
          return false;
        }
        AssignsOneMore(holds, req, i, signed, f, pick.value);
        used := used + {pick.value};
        f := f + [pick.value];
      }
      assert req[..|req|] == req;
      return true;
    }

    /** The scan inside Authorise: the first signer of the tier not used yet. */
    method PickUnused(signers: seq<Address>, need: Tier, used: set<Address>) returns (pick: Option<Address>)
      ensures pick.Some? ==> pick.value in signers && pick.value !in used && Holding(this.signers)(pick.value, need)
      ensures pick.None? ==> forall s :: s in signers && Holding(this.signers)(s, need) ==> s in used
    {
      ghost var holds := Holding(this.signers);
      for k := 0 to |signers|
        invariant forall j :: 0 <= j < k && holds(signers[j], need) ==> signers[j] in used
      {
        var tier := TierOf(signers[k]);
        assert holds(signers[k], need) <==> tier == Some(need);
        if tier == Some(need) && signers[k] !in used {
          return Some(signers[k]);
        }
      }
      return None;
    }

    /** The scope of the first entry for a, "" without one: the first loop of CheckScope. */
    method ScopeOf(a: Address) returns (scope: string)
      ensures scope == match EntryOf(signers, a) case None => "" case Some(e) => e.scope
    {
      assert signers[0..] == signers;
      for i := 0 to |signers|
        invariant EntryOf(signers, a) == EntryOf(signers[i..], a)
      {
        if ParseAddress(signers[i].address) == Ok(a) {
          return signers[i].scope;
        }
      }
      return "";
    }

    /** CheckScope: whether controller may be heard from this peer. */
    method CheckScope(controller: Address, peer: Option<int>) returns (admitted: bool)
      ensures admitted <==> ScopeAdmits(signers, localUids, controller, peer)
    {
      var scope := ScopeOf(controller);
      if scope == "" {
        return true;
      }
      if peer.Some? {
        if peer.value == 0 {
          return true;
        }
        admitted := IsLocalUid(peer.value);
        return;
      }
      return false;
    }

    /** The second loop of CheckScope: whether this uid is one of those enrolled. */
    method IsLocalUid(uid: int) returns (listed: bool)
      ensures listed <==> uid in localUids
    {
      for i := 0 to |localUids|
        invariant uid !in localUids[..i]
      {
        if localUids[i] == uid {
          return true;
        }
      }
      return false;
    }

    /** AddSigner: enrol e unless an entry already spells its address the same way. */
    method AddSigner(e: SignerEntry, fold: Fold) returns (added: bool)
      modifies this`signers
      ensures added <==> forall s :: s in old(signers) ==> fold(s.address) != fold(e.address)
      ensures signers == if added then old(signers) + [e] else old(signers)
      ensures signers == Enrolled(old(signers), e, fold)
    {
      for i := 0 to |signers|
        invariant forall s :: s in signers[..i] ==> fold(s.address) != fold(e.address)
      {
        if fold(signers[i].address) == fold(e.address) {
          return false;
        }
      }
      assert signers == signers[..|signers|];
      signers := signers + [e];
      return true;
    }

    /** NarrowScope: make the first entry that spells the address and is not local yet, local. */
    method NarrowScope(address: string, fold: Fold) returns (narrowed: bool)
      modifies this`signers
      ensures narrowed <==> exists s :: s in old(signers) && CanNarrow(s, address, fold)
      ensures narrowed ==> exists i :: NarrowedAt(old(signers), signers, i) && CanNarrow(old(signers)[i], address, fold)
                                       && forall k :: 0 <= k < i ==> !CanNarrow(old(signers)[k], address, fold)
      ensures signers == Narrowed(old(signers), address, fold)
    {
      for i := 0 to |signers|
        invariant signers == old(signers)
        invariant forall k :: 0 <= k < i ==> !CanNarrow(signers[k], address, fold)
      {
        if fold(signers[i].address) == fold(address) && signers[i].scope != SCOPE_LOCAL {
          signers := signers[i := signers[i].(scope := SCOPE_LOCAL)];
          assert CanNarrow(old(signers)[i], address, fold) && NarrowedAt(old(signers), signers, i);
          NarrowedFirst(old(signers), address, fold, i);
          return true;
        }
      }
      NarrowedNone(signers, address, fold);
      return false;
    }
  }

  predicate CanNarrow(s: SignerEntry, address: string, fold: Fold) {
    fold(s.address) == fold(address) && s.scope != SCOPE_LOCAL
  }

  function Narrowed(entries: seq<SignerEntry>, address: string, fold: Fold): (out: seq<SignerEntry>)
    ensures |out| == |entries|
  {
    if entries == [] then []
    else if CanNarrow(entries[0], address, fold) then [entries[0].(scope := SCOPE_LOCAL)] + entries[1..]
    else [entries[0]] + Narrowed(entries[1..], address, fold)
  }

  lemma {:induction false} NarrowedFirst(entries: seq<SignerEntry>, address: string, fold: Fold, i: nat)
    requires i < |entries| && CanNarrow(entries[i], address, fold) && forall k :: 0 <= k < i ==> !CanNarrow(entries[k], address, fold)
    ensures Narrowed(entries, address, fold) == entries[i := entries[i].(scope := SCOPE_LOCAL)]
  {
    if i > 0 {
      NarrowedFirst(entries[1..], address, fold, i - 1);
    }
  }

  lemma {:induction false} NarrowedNone(entries: seq<SignerEntry>, address: string, fold: Fold)
    requires forall k :: 0 <= k < |entries| ==> !CanNarrow(entries[k], address, fold)
    ensures Narrowed(entries, address, fold) == entries
  {
    if entries != [] {
      NarrowedNone(entries[1..], address, fold);
    }
  }

  ghost predicate NarrowedAt(before: seq<SignerEntry>, after: seq<SignerEntry>, i: int) {
    0 <= i < |before| && after == before[i := before[i].(scope := SCOPE_LOCAL)]
  }

  /** The places among the first n that need this tier. */
  ghost function Places<T>(req: seq<T>, n: nat, need: T): set<nat>
    requires n <= |req|
  {
    set i: nat | i < n && req[i] == need
  }

  ghost function Image<A>(at: set<nat>, f: seq<A>): set<A>
    requires forall i :: i in at ==> i < |f|
  {
    set i | i in at :: f[i]
  }

  /** As many indices as an injective sequence has values at them. */
  lemma {:induction false} ImageSize<A>(at: set<nat>, f: seq<A>)
    requires Distinct(f) && forall i :: i in at ==> i < |f|
    ensures |Image(at, f)| == |at|
  {
    if at != {} {
      var i :| i in at;
      ImageSize(at - {i}, f);
      assert Image(at, f) == Image(at - {i}, f) + {f[i]};
    }
  }

  /**
   The greedy choice is complete: when every signer of the needed tier is taken,
   no assignment of distinct signers exists, however the earlier ones are picked.
   */
  lemma NoAssignmentLeft<A(!new), T>(holds: (A, T) -> bool, req: seq<T>, signed: set<A>, f: seq<A>)
    requires |f| < |req| && Assigns(holds, req[..|f|], signed, f)
    requires forall s, t, u :: holds(s, t) && holds(s, u) ==> t == u
    requires forall s :: s in signed && holds(s, req[|f|]) ==> s in f
    ensures !Covered(holds, req, signed)
  {
    if g :| Assigns(holds, req, signed, g) {
      var n, need := |f|, req[|f|];
      var earlier, upTo := Places(req, n, need), Places(req, n + 1, need);
      assert upTo == earlier + {n};
      ImageSize(earlier, f);
      ImageSize(upTo, g);
      forall s | s in Image(upTo, g) ensures s in Image(earlier, f) {
        var i :| i in upTo && g[i] == s;
        var j := TakenAt(holds, req, signed, f, s);
        assert j in earlier;
      }
      Subset(Image(upTo, g), Image(earlier, f));
    }
  }

  lemma AssignsOneMore<A(!new), T>(holds: (A, T) -> bool, req: seq<T>, i: nat, signed: set<A>, f: seq<A>, pick: A)
    requires i < |req| && Assigns(holds, req[..i], signed, f) && pick in signed && pick !in f && holds(pick, req[i])
    ensures Assigns(holds, req[..i + 1], signed, f + [pick])
  {
    assert req[..i + 1] == req[..i] + [req[i]];
  }

  /** Who holds the needed tier was picked, and for a place that needs that tier. */
  lemma TakenAt<A(!new), T>(holds: (A, T) -> bool, req: seq<T>, signed: set<A>, f: seq<A>, s: A) returns (j: nat)
    requires |f| < |req| && Assigns(holds, req[..|f|], signed, f)
    requires forall s, t, u :: holds(s, t) && holds(s, u) ==> t == u
    requires s in f && holds(s, req[|f|])
    ensures j < |f| && f[j] == s && req[j] == req[|f|]
  {
    j :| 0 <= j < |f| && f[j] == s;
    assert holds(f[j], req[..|f|][j]);
  }

  lemma {:induction false} Subset<T>(a: set<T>, b: set<T>)
    requires a <= b
    ensures |a| <= |b|
  {
    if a != {} {
      var x :| x in a;
      Subset(a - {x}, b - {x});
    }
  }

  /** Enrolling a signer changes no enrolled signer's tier or scope, even when one address is spelt two ways. */
  lemma {:induction false} EnrolmentKeepsEntries(entries: seq<SignerEntry>, e: SignerEntry, a: Address)
    ensures EntryOf(entries + [e], a) ==
            if EntryOf(entries, a).Some? then EntryOf(entries, a) else if IsFor(e, a) then Some(e) else None
  {
    if entries == [] {
      assert (entries + [e])[1..] == [];
    } else {
      EnrolmentKeepsEntries(entries[1..], e, a);
      assert (entries + [e])[1..] == entries[1..] + [e];
    }
  }

  /** Narrowing one entry admits no peer that was refused before and leaves every tier alone. */
  lemma {:induction false} NarrowingOnlyNarrows(before: seq<SignerEntry>, after: seq<SignerEntry>, i: int, localUids: seq<int>, a: Address, peer: Option<int>, tier: Tier)
    requires NarrowedAt(before, after, i)
    ensures ScopeAdmits(after, localUids, a, peer) ==> ScopeAdmits(before, localUids, a, peer)
    ensures Holds(after, a, tier) <==> Holds(before, a, tier)
  {
    if i > 0 {
      assert after[1..] == before[1..][i - 1 := before[i].(scope := SCOPE_LOCAL)];
      NarrowingOnlyNarrows(before[1..], after[1..], i - 1, localUids, a, peer, tier);
    } else {
      assert after[1..] == before[1..];
    }
  }

  // When narrowing takes.

  /** Whether a is held to local use, as CheckScope reads the list. */
  predicate LocalFor(entries: seq<SignerEntry>, a: Address) {
    EntryOf(entries, a).Some? && EntryOf(entries, a).value.scope == SCOPE_LOCAL
  }

  /** Every text spelt like this one is a's. */
  ghost predicate Names(text: string, a: Address, fold: Fold) {
    forall s :: fold(s) == fold(text) ==> ParseAddress(s) == Ok(a)
  }

  /** The text an address is enrolled under is no other's, spelt in whatever case. */
  lemma HexNames(a: Address, keccak: Keccak)
    ensures Names(HexOf(a, keccak), a, Lower)
  {
    var hex := HexOf(a, keccak);
    HexRoundTrip(a, keccak);
    forall s | Lower(s) == Lower(hex) ensures ParseAddress(s) == Ok(a) {
      SameSpelling(s, hex);
      HexIsSpelt(a, keccak);
      ParseAcceptsExactly(s, a);
    }
  }

  lemma SameSpelling(s: string, hex: string)
    requires Lower(s) == Lower(hex) && |hex| >= 2 && hex[..2] == "0x"
    ensures |s| == |hex| && (s[..2] == "0x" || s[..2] == "0X") && Lower(s[2..]) == Lower(hex[2..])
  {
    assert ToLower(s[0]) == Lower(hex)[0] == '0' && ToLower(s[1]) == Lower(hex)[1] == 'x';
    assert Lower(s[2..]) == Lower(s)[2..] == Lower(hex)[2..] == Lower(hex[2..]);
  }

  lemma HexIsSpelt(a: Address, keccak: Keccak)
    ensures Lower(HexOf(a, keccak)[2..]) == EncodeHex(a)
  {
    forall i | 0 <= i < 40 ensures Lower(HexOf(a, keccak)[2..])[i] == EncodeHex(a)[i] {
      assert HexOf(a, keccak)[2..][i] == Cased(EncodeHex(a), keccak(EncodeHex(a)), i);
    }
  }

  /** Narrowing an address makes it local exactly when the first entry for it is local already or is spelt as it is. */
  lemma {:induction false} NarrowingTakesExactly(entries: seq<SignerEntry>, address: string, a: Address, fold: Fold)
    requires Names(address, a, fold)
    ensures LocalFor(Narrowed(entries, address, fold), a) <==>
            LocalFor(entries, a) || (EntryOf(entries, a).Some? && fold(EntryOf(entries, a).value.address) == fold(address))
  {
    if entries != [] && !IsFor(entries[0], a) {
      assert fold(entries[0].address) != fold(address);
      NarrowingTakesExactly(entries[1..], address, a, fold);
      assert Narrowed(entries, address, fold)[1..] == Narrowed(entries[1..], address, fold);
    }
  }

  function Enrolled(entries: seq<SignerEntry>, e: SignerEntry, fold: Fold): seq<SignerEntry> {
    if exists s :: s in entries && fold(s.address) == fold(e.address) then entries else entries + [e]
  }

  /** Enrolling an address for local use takes exactly unless the first entry the box already has for it is not local and spelt otherwise. */
  lemma EnrolledLocalExactly(entries: seq<SignerEntry>, e: SignerEntry, a: Address, fold: Fold)
    requires Names(e.address, a, fold) && e.scope == SCOPE_LOCAL
    ensures LocalFor(Narrowed(Enrolled(entries, e, fold), e.address, fold), a) <==>
            EntryOf(entries, a).None? || LocalFor(entries, a) || fold(EntryOf(entries, a).value.address) == fold(e.address)
  {
    EnrolmentKeepsEntries(entries, e, a);
    NarrowingTakesExactly(Enrolled(entries, e, fold), e.address, a, fold);
  }

  /** A policy that lists an address without its 0x keeps it open to any peer when it is enrolled for local use. */
  lemma BareSpellingStaysOpen(a: Address, keccak: Keccak)
    ensures var bare, e := SignerEntry(EncodeHex(a), ROUTINE, "", ""), SignerEntry(HexOf(a, keccak), ROUTINE, "", SCOPE_LOCAL);
            !LocalFor(Narrowed(Enrolled([bare], e, Lower), e.address, Lower), a)
  {
    var bare, e := SignerEntry(EncodeHex(a), ROUTINE, "", ""), SignerEntry(HexOf(a, keccak), ROUTINE, "", SCOPE_LOCAL);
    HexNames(a, keccak);
    EnrolledLocalExactly([bare], e, a, Lower);
    assert bare.address[0..] == bare.address && Lower(bare.address) == EncodeHex(a);
    ParseAcceptsExactly(bare.address, a);
    assert EntryOf([bare], a) == Some(bare);
    assert |Lower(bare.address)| == 40 && |Lower(e.address)| == 42;
  }

  /** Unless the box says otherwise, the controller's signature alone never upgrades the gate. */
  lemma UpgradeNeedsAnApproval(entries: seq<SignerEntry>, kinds: map<string, seq<Tier>>, controller: Address, signed: set<Address>, extra: seq<Tier>)
    requires "agent.upgrade" !in kinds
    requires Authorised(entries, kinds, "agent.upgrade", controller, signed, extra)
    ensures exists s :: s in signed && s != controller && Holds(entries, s, APPROVAL)
  {
    var req := [ROUTINE, APPROVAL] + extra;
    assert RequirementOf(kinds, "agent.upgrade") == Some([ROUTINE, APPROVAL]);
    var f :| Assigns(Holding(entries), req, signed, f);
    assert Holding(entries)(f[1], req[1]);
  }
}
