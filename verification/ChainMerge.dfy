/**
 What a merge of networks gives, chain by chain: each chain keeps one network,
 and that network's own upstreams are followed by those it was offered and did
 not have, in the order they were offered, changed in nothing but a taken id.
 */
module ChainMerge {
  import opened Decimal
  import opened GatewayMerge
  import opened Strings
  import opened UpstreamMerge

  ghost predicate ChainsOnce(nets: seq<Network>) {
    forall i, j :: 0 <= i < j < |nets| ==> nets[i].chainId != nets[j].chainId
  }

  function Chains(nets: seq<Network>): set<int> {
    set i | 0 <= i < |nets| :: nets[i].chainId
  }

  /** The upstreams of a chain. */
  function Serving(nets: seq<Network>, chain: int): seq<Upstream> {
    if nets == [] then []
    else Serving(nets[..|nets| - 1], chain) + if nets[|nets| - 1].chainId == chain then nets[|nets| - 1].upstreams else []
  }

  /** An upstream offered for a chain. */
  datatype Offer = Offer(chain: int, up: Upstream)

  function OfferedFor(chain: int, us: seq<Upstream>): (r: seq<Offer>)
    ensures |r| == |us| && forall i :: 0 <= i < |us| ==> r[i] == Offer(chain, us[i])
  {
    seq(|us|, i requires 0 <= i < |us| => Offer(chain, us[i]))
  }

  /** Everything these networks offer, in order. */
  function Offering(src: seq<Network>): seq<Offer> {
    if src == [] then [] else Offering(src[..|src| - 1]) + OfferedFor(src[|src| - 1].chainId, src[|src| - 1].upstreams)
  }

  function OfferKeys(offers: seq<Offer>): set<Key> {
    set i | 0 <= i < |offers| :: KeyOf(offers[i].up)
  }

  function OfferIds(offers: seq<Offer>): set<string> {
    set i | 0 <= i < |offers| :: offers[i].up.id
  }

  /** What is gained of these offers, beside what is had already: of each new key the first, its id made unique. */
  function Gaining(keys: set<Key>, ids: set<string>, offers: seq<Offer>): seq<Offer> {
    if offers == [] then []
    else
      var init, o := offers[..|offers| - 1], offers[|offers| - 1];
      var before := Gaining(keys, ids, init);
      if KeyOf(o.up) in keys + OfferKeys(init) then before
      else before + [Offer(o.chain, o.up.(id := UniqueId(o.up.id, ids + OfferIds(before))))]
  }

  function OnChain(offers: seq<Offer>, chain: int): seq<Upstream> {
    if offers == [] then []
    else OnChain(offers[..|offers| - 1], chain) + if offers[|offers| - 1].chain == chain then [offers[|offers| - 1].up] else []
  }

  function IdSet(nets: seq<Network>): set<string> {
    set id | id in Ids(nets)
  }

  // Chains

  lemma AtExactly(nets: seq<Network>, chain: int)
    ensures At(nets, chain) >= 0 <==> chain in Chains(nets)
  {
    if At(nets, chain) < 0 {
      forall i | 0 <= i < |nets| ensures nets[i].chainId != chain {
        assert nets[i] in nets;
      }
    }
  }

  lemma WithChainAdds(m: Merge, chain: int)
    ensures Chains(WithChain(m, chain).nets) == Chains(m.nets) + {chain}
    ensures ChainsOnce(m.nets) ==> ChainsOnce(WithChain(m, chain).nets)
  {
    AtExactly(m.nets, chain);
    var more := m.nets + [Network(chain, [])];
    assert more[|m.nets|].chainId == chain && forall i :: 0 <= i < |m.nets| ==> more[i] == m.nets[i];
    assert Chains(more) == Chains(m.nets) + {chain};
  }

  lemma SameChains(a: seq<Network>, b: seq<Network>)
    requires |a| == |b| && forall i :: 0 <= i < |a| ==> a[i].chainId == b[i].chainId
    ensures Chains(a) == Chains(b) && (ChainsOnce(a) ==> ChainsOnce(b))
  {
  }

  lemma LastListed(nets: seq<Network>, c: int)
    requires nets != []
    ensures c in Chains(nets) <==> c in Chains(nets[..|nets| - 1]) || c == nets[|nets| - 1].chainId
  {
    ChainsSnoc(nets[..|nets| - 1], nets[|nets| - 1]);
    assert nets == nets[..|nets| - 1] + [nets[|nets| - 1]];
  }

  lemma AddNetworkLists(m: Merge, n: Network, c: int)
    ensures c in Chains(AddNetwork(m, n).nets) <==> c in Chains(m.nets) || c == n.chainId
  {
    AddNetworkChains(m, n);
  }

  lemma {:induction false} AddNetworksChains(m: Merge, src: seq<Network>, c: int)
    ensures c in Chains(AddNetworks(m, src).nets) <==> c in Chains(m.nets) || c in Chains(src)
  {
    if src != [] {
      var init, n := src[..|src| - 1], src[|src| - 1];
      AddNetworksChains(m, init, c);
      AddNetworkLists(AddNetworks(m, init), n, c);
      LastListed(src, c);
    }
  }

  lemma {:induction false} AddNetworksOnce(m: Merge, src: seq<Network>)
    requires ChainsOnce(m.nets)
    ensures ChainsOnce(AddNetworks(m, src).nets)
  {
    if src != [] {
      AddNetworksOnce(m, src[..|src| - 1]);
      AddNetworkChains(AddNetworks(m, src[..|src| - 1]), src[|src| - 1]);
    }
  }

  lemma AddNetworkChains(m: Merge, n: Network)
    ensures Chains(AddNetwork(m, n).nets) == Chains(m.nets) + {n.chainId}
    ensures ChainsOnce(m.nets) ==> ChainsOnce(AddNetwork(m, n).nets)
  {
    var w := WithChain(m, n.chainId);
    WithChainAdds(m, n.chainId);
    SameChains(w.nets, AddUpstreams(w, At(w.nets, n.chainId), n.upstreams).nets);
  }

  lemma ChainsSnoc(nets: seq<Network>, n: Network)
    ensures Chains(nets + [n]) == Chains(nets) + {n.chainId}
  {
    var more := nets + [n];
    assert more[|nets|] == n && forall i :: 0 <= i < |nets| ==> more[i] == nets[i];
  }

  // Upstreams

  lemma ServingSnoc(nets: seq<Network>, n: Network, chain: int)
    ensures Serving(nets + [n], chain) == Serving(nets, chain) + if n.chainId == chain then n.upstreams else []
  {
    assert (nets + [n])[..|nets|] == nets;
  }

  /** No later network is of that chain. */
  ghost predicate IsLast(nets: seq<Network>, at: nat) {
    at < |nets| && forall i :: at < i < |nets| ==> nets[i].chainId != nets[at].chainId
  }

  lemma StaysLast(a: seq<Network>, b: seq<Network>, at: nat)
    requires IsLast(a, at) && |a| == |b| && forall i :: 0 <= i < |a| ==> b[i].chainId == a[i].chainId
    ensures IsLast(b, at)
  {
  }

  /** An upstream added to the last network of its chain is the chain's last. */
  lemma {:induction false} PushServes(nets: seq<Network>, at: nat, u: Upstream, chain: int)
    requires IsLast(nets, at)
    ensures Serving(nets[at := Push(nets[at], u)], chain) == Serving(nets, chain) + if nets[at].chainId == chain then [u] else []
  {
    var init, last := nets[..|nets| - 1], nets[|nets| - 1];
    var after := nets[at := Push(nets[at], u)];
    assert nets == init + [last];
    ServingSnoc(init, last, chain);
    if at == |init| {
      assert after == init + [Push(last, u)];
      ServingSnoc(init, Push(last, u), chain);
    } else {
      assert after == init[at := Push(init[at], u)] + [last];
      PushServes(init, at, u, chain);
      ServingSnoc(init[at := Push(init[at], u)], last, chain);
    }
  }

  lemma {:induction false} AtIsLast(nets: seq<Network>, chain: int)
    ensures forall i :: At(nets, chain) < i < |nets| ==> nets[i].chainId != chain
  {
    if nets != [] && nets[|nets| - 1].chainId != chain {
      AtIsLast(nets[..|nets| - 1], chain);
    }
  }

  lemma OffersSnoc(offers: seq<Offer>, o: Offer)
    ensures OfferKeys(offers + [o]) == OfferKeys(offers) + {KeyOf(o.up)}
    ensures OfferIds(offers + [o]) == OfferIds(offers) + {o.up.id}
    ensures forall chain :: OnChain(offers + [o], chain) == OnChain(offers, chain) + if o.chain == chain then [o.up] else []
  {
    var more := offers + [o];
    assert more[|offers|] == o && more[..|offers|] == offers && forall i :: 0 <= i < |offers| ==> more[i] == offers[i];
  }

  lemma GainingSnoc(keys: set<Key>, ids: set<string>, offers: seq<Offer>, o: Offer)
    ensures var before := Gaining(keys, ids, offers);
            Gaining(keys, ids, offers + [o]) ==
            if KeyOf(o.up) in keys + OfferKeys(offers) then before else before + [Offer(o.chain, o.up.(id := UniqueId(o.up.id, ids + OfferIds(before))))]
  {
    assert (offers + [o])[..|offers|] == offers;
  }

  /** m is dst after these offers: what it has seen and taken, and what each chain serves. */
  ghost predicate Follows(m: Merge, dst: seq<Network>, offers: seq<Offer>) {
    var gained := Gaining(Keys(dst), IdSet(dst), offers);
    && m.seen == Keys(dst) + OfferKeys(offers)
    && m.taken == IdSet(dst) + OfferIds(gained)
    && forall chain :: Serving(m.nets, chain) == Serving(dst, chain) + OnChain(gained, chain)
  }

  lemma AddUpstreamFollows(m: Merge, at: nat, u: Upstream, dst: seq<Network>, offers: seq<Offer>)
    requires IsLast(m.nets, at) && Follows(m, dst, offers)
    ensures Follows(AddUpstream(m, at, u), dst, offers + [Offer(m.nets[at].chainId, u)])
  {
    var o := Offer(m.nets[at].chainId, u);
    var gained := Gaining(Keys(dst), IdSet(dst), offers);
    OffersSnoc(offers, o);
    GainingSnoc(Keys(dst), IdSet(dst), offers, o);
    if KeyOf(u) in m.seen {
      assert m.seen == Keys(dst) + OfferKeys(offers + [o]);
    } else {
      var named := u.(id := UniqueId(u.id, m.taken));
      OffersSnoc(gained, Offer(o.chain, named));
      var after := m.nets[at := Push(m.nets[at], named)];
      assert AddUpstream(m, at, u).nets == after;
      forall chain ensures Serving(after, chain) == Serving(dst, chain) + OnChain(gained + [Offer(o.chain, named)], chain) {
        PushServes(m.nets, at, named, chain);
      }
    }
  }

  lemma {:induction false} AddUpstreamsFollow(m: Merge, at: nat, us: seq<Upstream>, dst: seq<Network>, offers: seq<Offer>)
    requires IsLast(m.nets, at) && Follows(m, dst, offers)
    ensures Follows(AddUpstreams(m, at, us), dst, offers + OfferedFor(m.nets[at].chainId, us))
  {
    var chain := m.nets[at].chainId;
    if us == [] {
      assert offers + OfferedFor(chain, us) == offers && AddUpstreams(m, at, us) == m;
    } else {
      var init, last := us[..|us| - 1], us[|us| - 1];
      var mid := AddUpstreams(m, at, init);
      AddUpstreamsFollow(m, at, init, dst, offers);
      StaysLast(m.nets, mid.nets, at);
      AddUpstreamFollows(mid, at, last, dst, offers + OfferedFor(chain, init));
      OfferedForMore(chain, us);
      Regroup(offers, OfferedFor(chain, init), [Offer(chain, last)]);
      assert AddUpstreams(m, at, us) == AddUpstream(mid, at, last);
    }
  }

  lemma OfferedForMore(chain: int, us: seq<Upstream>)
    requires us != []
    ensures OfferedFor(chain, us) == OfferedFor(chain, us[..|us| - 1]) + [Offer(chain, us[|us| - 1])]
  {
  }

  lemma WithChainFollows(m: Merge, chain: int, dst: seq<Network>, offers: seq<Offer>)
    requires Follows(m, dst, offers)
    ensures Follows(WithChain(m, chain), dst, offers)
  {
    forall c ensures Serving(WithChain(m, chain).nets, c) == Serving(m.nets, c) {
      ServingSnoc(m.nets, Network(chain, []), c);
    }
  }

  lemma {:induction false} AddNetworksFollow(m: Merge, src: seq<Network>, dst: seq<Network>, offers: seq<Offer>)
    requires Follows(m, dst, offers)
    ensures Follows(AddNetworks(m, src), dst, offers + Offering(src))
  {
    if src == [] {
      assert offers + Offering(src) == offers;
    } else {
      var init, n := src[..|src| - 1], src[|src| - 1];
      AddNetworksFollow(m, init, dst, offers);
      AddNetworkFollows(AddNetworks(m, init), n, dst, offers + Offering(init));
      Regroup(offers, Offering(init), OfferedFor(n.chainId, n.upstreams));
    }
  }

  lemma AddNetworkFollows(m: Merge, n: Network, dst: seq<Network>, offers: seq<Offer>)
    requires Follows(m, dst, offers)
    ensures Follows(AddNetwork(m, n), dst, offers + OfferedFor(n.chainId, n.upstreams))
  {
    var w := WithChain(m, n.chainId);
    WithChainFollows(m, n.chainId, dst, offers);
    AtIsLast(w.nets, n.chainId);
    AddUpstreamsFollow(w, At(w.nets, n.chainId), n.upstreams, dst, offers);
  }

  lemma StartFollows(dst: seq<Network>)
    ensures Follows(StartOf(dst), dst, [])
  {
    assert Gaining(Keys(dst), IdSet(dst), []) == [];
  }

  // The merge of two configurations.

  /** r is dst with these offers merged in: the same chains and the offered ones, each once if each was, and what each serves. */
  ghost predicate MergesOffers(dst: seq<Network>, chains: set<int>, offers: seq<Offer>, r: seq<Network>) {
    && Chains(r) == Chains(dst) + chains
    && (ChainsOnce(dst) ==> ChainsOnce(r))
    && forall chain :: Serving(r, chain) == Serving(dst, chain) + OnChain(Gaining(Keys(dst), IdSet(dst), offers), chain)
  }

  /** Merging src into dst: every chain keeps one network, which serves its own upstreams and then the new ones offered for it. */
  lemma MergeIntoExactly(dst: seq<Network>, src: seq<Network>)
    ensures MergesOffers(dst, Chains(src), Offering(src), MergeInto(dst, src))
  {
    forall c ensures c in Chains(MergeInto(dst, src)) <==> c in Chains(dst) + Chains(src) {
      AddNetworksChains(StartOf(dst), src, c);
    }
    if ChainsOnce(dst) {
      AddNetworksOnce(StartOf(dst), src);
    }
    StartFollows(dst);
    AddNetworksFollow(StartOf(dst), src, dst, []);
    assert [] + Offering(src) == Offering(src);
  }

  /** Where a chain is listed once, it serves what its network does. */
  lemma {:induction false} ServingExactly(nets: seq<Network>, i: nat)
    requires i < |nets| && ChainsOnce(nets)
    ensures Serving(nets, nets[i].chainId) == nets[i].upstreams
  {
    var init, last := nets[..|nets| - 1], nets[|nets| - 1];
    if i == |init| {
      ServesNothing(init, last.chainId);
      assert [] + last.upstreams == last.upstreams;
    } else {
      ServingExactly(init, i);
      assert last.chainId != nets[i].chainId;
      assert nets[i].upstreams + [] == nets[i].upstreams;
    }
  }

  lemma {:induction false} ServesNothing(nets: seq<Network>, chain: int)
    requires forall i :: 0 <= i < |nets| ==> nets[i].chainId != chain
    ensures Serving(nets, chain) == []
  {
    if nets != [] {
      ServesNothing(nets[..|nets| - 1], chain);
    }
  }

  /** So each network of the merge serves what that network did, and after it what its chain gained. */
  lemma NetworkExactly(dst: seq<Network>, src: seq<Network>, n: nat)
    requires ChainsOnce(dst) && n < |MergeInto(dst, src)|
    ensures var r := MergeInto(dst, src)[n];
            && (n < |dst| ==> r.chainId == dst[n].chainId)
            && r.upstreams == (if n < |dst| then dst[n].upstreams else []) + OnChain(Gaining(Keys(dst), IdSet(dst), Offering(src)), r.chainId)
  {
    var all := MergeInto(dst, src);
    MergeIntoExactly(dst, src);
    MergeIntoGains(dst, src);
    ServingExactly(all, n);
    if n < |dst| {
      ServingExactly(dst, n);
    } else {
      forall i | 0 <= i < |dst| ensures dst[i].chainId != all[n].chainId {
        assert all[i].chainId == dst[i].chainId;
      }
      ServesNothing(dst, all[n].chainId);
    }
  }

  /** How many upstreams the networks before the a-th offer. */
  function OfferedBefore(src: seq<Network>, a: nat): nat
    requires a <= |src|
  {
    if a == 0 then 0 else OfferedBefore(src, a - 1) + |src[a - 1].upstreams|
  }

  /** The offers are the upstreams, network by network in their order. */
  lemma {:induction false} OfferingExactly(src: seq<Network>, a: nat, b: nat)
    requires a < |src| && b < |src[a].upstreams|
    ensures OfferedBefore(src, a) + b < |Offering(src)| && Offering(src)[OfferedBefore(src, a) + b] == Offer(src[a].chainId, src[a].upstreams[b])
  {
    var init := src[..|src| - 1];
    OfferingLength(init, |init|);
    SameBefore(src, init, a);
    assert init[..|init|] == init;
    if a < |init| {
      assert init[a] == src[a];
      OfferingExactly(init, a, b);
    }
  }

  lemma {:induction false} OfferingLength(src: seq<Network>, a: nat)
    requires a <= |src|
    ensures |Offering(src[..a])| == OfferedBefore(src, a)
  {
    if a > 0 {
      OfferingLength(src, a - 1);
      assert src[..a][..a - 1] == src[..a - 1];
    }
  }

  lemma {:induction false} SameBefore(src: seq<Network>, init: seq<Network>, a: nat)
    requires a <= |init| <= |src| && init == src[..|init|]
    ensures OfferedBefore(src, a) == OfferedBefore(init, a)
  {
    if a > 0 {
      SameBefore(src, init, a - 1);
      assert init[a - 1] == src[a - 1];
    }
  }

  /** Of the offers, those for the chain, in their order: at lists where each stands. */
  ghost predicate ListsChain(offers: seq<Offer>, chain: int, ups: seq<Upstream>, at: seq<nat>) {
    && |at| == |ups| && (forall j, k :: 0 <= j < k < |at| ==> at[j] < at[k])
    && (forall j :: 0 <= j < |at| ==> at[j] < |offers| && offers[at[j]] == Offer(chain, ups[j]))
    && forall i :: 0 <= i < |offers| && offers[i].chain == chain ==> exists j :: 0 <= j < |at| && at[j] == i
  }

  lemma {:induction false} OnChainExactly(offers: seq<Offer>, chain: int) returns (at: seq<nat>)
    ensures ListsChain(offers, chain, OnChain(offers, chain), at)
  {
    if offers == [] {
      return [];
    }
    var init, o := offers[..|offers| - 1], offers[|offers| - 1];
    var before := OnChainExactly(init, chain);
    ListsOneMore(init, o, chain, OnChain(init, chain), before);
    assert offers == init + [o];
    return if o.chain == chain then before + [|init|] else before;
  }

  lemma ListsOneMore(offers: seq<Offer>, o: Offer, chain: int, ups: seq<Upstream>, at: seq<nat>)
    requires ListsChain(offers, chain, ups, at)
    ensures if o.chain == chain then ListsChain(offers + [o], chain, ups + [o.up], at + [|offers|]) else ListsChain(offers + [o], chain, ups, at)
  {
    var more, longer := offers + [o], at + [|offers|];
    forall i | 0 <= i < |offers| && offers[i].chain == chain ensures exists j :: 0 <= j < |at| && at[j] == i && longer[j] == i {
      var j :| 0 <= j < |at| && at[j] == i;
      assert longer[j] == i;
    }
    assert longer[|at|] == |offers| && more[|offers|] == o;
  }

  // What is gained, by position.

  /** The i-th offer is of a key that was not had, nor offered before. */
  ghost predicate IsNew(keys: set<Key>, offers: seq<Offer>, i: nat) {
    i < |offers| && KeyOf(offers[i].up) !in keys && forall h :: 0 <= h < i ==> KeyOf(offers[h].up) != KeyOf(offers[i].up)
  }

  /** What an offered id becomes beside those in use: itself when it is free or blank, else itself with the least free suffix from 2. */
  ghost predicate Renamed(offered: string, ids: set<string>, id: string) {
    if offered == "" || offered !in ids then id == offered
    else exists m :: 2 <= m && id == offered + "-" + Itoa(m) && id !in ids && forall k :: 2 <= k < m ==> offered + "-" + Itoa(k) in ids
  }

  /** at lists, in order, the new offers; what is gained is those, changed in nothing but the id. */
  ghost predicate GainedAt(keys: set<Key>, ids: set<string>, offers: seq<Offer>, gained: seq<Offer>, at: seq<nat>) {
    && |at| == |gained| && (forall j, k :: 0 <= j < k < |at| ==> at[j] < at[k])
    && (forall i: nat :: IsNew(keys, offers, i) <==> exists j :: 0 <= j < |at| && at[j] == i)
    && forall j :: 0 <= j < |at| ==>
         && at[j] < |offers| && gained[j] == Offer(offers[at[j]].chain, offers[at[j]].up.(id := gained[j].up.id))
         && Renamed(offers[at[j]].up.id, ids + OfferIds(gained[..j]), gained[j].up.id)
  }

  lemma {:induction false} GainingExactly(keys: set<Key>, ids: set<string>, offers: seq<Offer>) returns (at: seq<nat>)
    ensures GainedAt(keys, ids, offers, Gaining(keys, ids, offers), at)
  {
    if offers == [] {
      return [];
    }
    var init, o := offers[..|offers| - 1], offers[|offers| - 1];
    at := GainingExactly(keys, ids, init);
    assert offers == init + [o];
    GainingSnoc(keys, ids, init, o);
    if KeyOf(o.up) in keys + OfferKeys(init) {
      NotGained(keys, ids, init, o, Gaining(keys, ids, init), at);
    } else {
      OneGained(keys, ids, init, o, Gaining(keys, ids, init), at);
      at := at + [|init|];
    }
  }

  lemma NewOfMore(keys: set<Key>, offers: seq<Offer>, o: Offer, i: nat)
    ensures IsNew(keys, offers + [o], i) <==> IsNew(keys, offers, i) || (i == |offers| && KeyOf(o.up) !in keys + OfferKeys(offers))
  {
    var more := offers + [o];
    assert more[|offers|] == o && forall h :: 0 <= h < |offers| ==> more[h] == offers[h];
    if i == |offers| && KeyOf(o.up) in OfferKeys(offers) {
      var h :| 0 <= h < |offers| && KeyOf(offers[h].up) == KeyOf(o.up);
      assert KeyOf(more[h].up) == KeyOf(more[i].up);
    }
  }

  lemma NotGained(keys: set<Key>, ids: set<string>, offers: seq<Offer>, o: Offer, gained: seq<Offer>, at: seq<nat>)
    requires GainedAt(keys, ids, offers, gained, at) && KeyOf(o.up) in keys + OfferKeys(offers)
    ensures GainedAt(keys, ids, offers + [o], gained, at)
  {
    forall i: nat ensures IsNew(keys, offers + [o], i) <==> IsNew(keys, offers, i) {
      NewOfMore(keys, offers, o, i);
    }
  }

  lemma UniqueIsRenamed(id: string, ids: set<string>)
    ensures Renamed(id, ids, UniqueId(id, ids))
  {
    if id != "" && id in ids {
      var r := FirstFree(id, ids, 2);
      var m: nat :| m >= 2 && r == Candidate(id, m) && forall k: nat :: 2 <= k < m ==> Candidate(id, k) in ids;
      assert forall k :: 2 <= k < m ==> id + "-" + Itoa(k) == Candidate(id, k);
    }
  }

  lemma OneGained(keys: set<Key>, ids: set<string>, offers: seq<Offer>, o: Offer, gained: seq<Offer>, at: seq<nat>)
    requires GainedAt(keys, ids, offers, gained, at) && KeyOf(o.up) !in keys + OfferKeys(offers)
    ensures GainedAt(keys, ids, offers + [o], gained + [Offer(o.chain, o.up.(id := UniqueId(o.up.id, ids + OfferIds(gained))))], at + [|offers|])
  {
    var named := Offer(o.chain, o.up.(id := UniqueId(o.up.id, ids + OfferIds(gained))));
    var (more, longer, listed) := (offers + [o], gained + [named], at + [|offers|]);
    UniqueIsRenamed(o.up.id, ids + OfferIds(gained));
    assert longer[..|gained|] == gained && longer[|gained|] == named && listed[|at|] == |offers|;
    forall i: nat ensures IsNew(keys, more, i) <==> exists j :: 0 <= j < |listed| && listed[j] == i {
      NewOfMore(keys, offers, o, i);
      assert forall j :: 0 <= j < |at| ==> listed[j] == at[j];
      if IsNew(keys, offers, i) {
        var j :| 0 <= j < |at| && at[j] == i;
        assert listed[j] == i;
      }
    }
    forall j | 0 <= j < |at| ensures longer[..j] == gained[..j] {
    }
  }

  // A group's networks: folding member after member is one merge of all they offer.

  /** The bookkeeping is what starting over would make it. */
  ghost predicate Settled(m: Merge) {
    m == StartOf(m.nets)
  }

  lemma AddUpstreamSettles(m: Merge, at: nat, u: Upstream)
    requires at < |m.nets| && Settled(m)
    ensures Settled(AddUpstream(m, at, u))
  {
    if KeyOf(u) !in m.seen {
      var named := u.(id := UniqueId(u.id, m.taken));
      var after := m.nets[at := Push(m.nets[at], named)];
      PushOne(m.nets, at, named);
      ImagesOfOneMore(m.nets, after, m.nets[at].chainId, named);
      assert AddUpstream(m, at, u).nets == after;
      assert IdSet(after) == IdSet(m.nets) + {named.id};
    }
  }

  lemma {:induction false} AddUpstreamsSettle(m: Merge, at: nat, us: seq<Upstream>)
    requires at < |m.nets| && Settled(m)
    ensures Settled(AddUpstreams(m, at, us))
  {
    if us != [] {
      AddUpstreamsSettle(m, at, us[..|us| - 1]);
      AddUpstreamSettles(AddUpstreams(m, at, us[..|us| - 1]), at, us[|us| - 1]);
    }
  }

  lemma WithChainSettles(m: Merge, chain: int)
    requires Settled(m)
    ensures Settled(WithChain(m, chain))
  {
    var more := m.nets + [Network(chain, [])];
    assert more[..|m.nets|] == m.nets;
    assert Items(more) == Items(m.nets) && Ids(more) == Ids(m.nets);
  }

  lemma {:induction false} AddNetworksSettle(m: Merge, src: seq<Network>)
    requires Settled(m)
    ensures Settled(AddNetworks(m, src))
  {
    if src != [] {
      var mid, n := AddNetworks(m, src[..|src| - 1]), src[|src| - 1];
      AddNetworksSettle(m, src[..|src| - 1]);
      WithChainSettles(mid, n.chainId);
      AddUpstreamsSettle(WithChain(mid, n.chainId), At(WithChain(mid, n.chainId).nets, n.chainId), n.upstreams);
    }
  }

  ghost predicate OneThenOther(m: Merge, a: seq<Network>, b: seq<Network>) {
    AddNetworks(m, a + b) == AddNetworks(AddNetworks(m, a), b)
  }

  lemma AddNetworksConcat(m: Merge, a: seq<Network>, b: seq<Network>)
    ensures OneThenOther(m, a, b)
  {
    assert b[..0] == [];
    ThenNothing(m, a);
    for k := 0 to |b|
      invariant OneThenOther(m, a, b[..k])
    {
      assert b[..k + 1] == b[..k] + [b[k]];
      ThenOneMore(m, a, b[..k], b[k]);
    }
    assert b[..|b|] == b;
  }

  lemma ThenNothing(m: Merge, a: seq<Network>)
    ensures OneThenOther(m, a, [])
  {
    assert a + [] == a;
  }

  lemma ThenOneMore(m: Merge, a: seq<Network>, b: seq<Network>, n: Network)
    requires OneThenOther(m, a, b)
    ensures OneThenOther(m, a, b + [n])
  {
    Regroup(a, b, [n]);
    AddNetworksSnoc(m, a + b, n);
    AddNetworksSnoc(AddNetworks(m, a), b, n);
  }

  lemma AddNetworksSnoc(m: Merge, src: seq<Network>, n: Network)
    ensures AddNetworks(m, src + [n]) == AddNetwork(AddNetworks(m, src), n)
  {
    assert (src + [n])[..|src|] == src;
  }

  /** Merging one after the other is merging both at once. */
  lemma MergeIntoTwice(dst: seq<Network>, a: seq<Network>, b: seq<Network>)
    ensures MergeInto(MergeInto(dst, a), b) == MergeInto(dst, a + b)
  {
    AddNetworksSettle(StartOf(dst), a);
    AddNetworksConcat(StartOf(dst), a, b);
  }

  /** The networks of the members before n, but for the survivor's. */
  function OthersNets(ms: seq<Gateway>, keep: nat, n: nat): seq<Network>
    requires n <= |ms|
  {
    if n == 0 then [] else OthersNets(ms, keep, n - 1) + if n - 1 == keep then [] else ms[n - 1].nets
  }

  ghost predicate IsOneMerge(ms: seq<Gateway>, keep: nat, n: nat)
    requires keep < |ms| && n <= |ms|
  {
    FoldNets(ms, keep, n) == MergeInto(ms[keep].nets, OthersNets(ms, keep, n))
  }

  lemma FoldIsOneMerge(ms: seq<Gateway>, keep: nat, n: nat)
    requires keep < |ms| && n <= |ms|
    ensures IsOneMerge(ms, keep, n)
  {
    FoldNone(ms, keep, 0);
    for k := 0 to n
      invariant IsOneMerge(ms, keep, k)
    {
      FoldOneMore(ms, keep, k + 1);
    }
  }

  lemma FoldNone(ms: seq<Gateway>, keep: nat, n: nat)
    requires keep < |ms| && n == 0
    ensures IsOneMerge(ms, keep, n)
  {
  }

  lemma FoldOneMore(ms: seq<Gateway>, keep: nat, n: nat)
    requires keep < |ms| && 0 < n <= |ms| && IsOneMerge(ms, keep, n - 1)
    ensures IsOneMerge(ms, keep, n)
  {
    var before := OthersNets(ms, keep, n - 1);
    if n - 1 == keep {
      assert OthersNets(ms, keep, n) == before + [] == before;
    } else {
      MergeIntoTwice(ms[keep].nets, before, ms[n - 1].nets);
    }
  }

  lemma ChainsConcat(a: seq<Network>, b: seq<Network>)
    ensures Chains(a + b) == Chains(a) + Chains(b)
  {
    assert forall i :: 0 <= i < |a| ==> (a + b)[i] == a[i];
    assert forall i :: 0 <= i < |b| ==> (a + b)[|a| + i] == b[i];
  }

  /** The chains of a group. */
  function GroupChains(ms: seq<Gateway>): set<int> {
    set i, j | 0 <= i < |ms| && 0 <= j < |ms[i].nets| :: ms[i].nets[j].chainId
  }

  lemma {:induction false} OthersChains(ms: seq<Gateway>, keep: nat, n: nat, c: int)
    requires n <= |ms|
    ensures c in Chains(OthersNets(ms, keep, n)) <==> exists i :: 0 <= i < n && i != keep && c in Chains(ms[i].nets)
  {
    if n > 0 {
      OthersChains(ms, keep, n - 1, c);
      ChainsConcat(OthersNets(ms, keep, n - 1), if n - 1 == keep then [] else ms[n - 1].nets);
    }
  }

  /**
   What one target's survivor serves: the chains of the whole group, each once if
   its own were, and on each its own upstreams and then the new ones of the others.
   */
  lemma GroupExactly(ms: seq<Gateway>, keep: nat)
    requires keep < |ms|
    ensures var r := FoldNets(ms, keep, |ms|);
            MergesOffers(ms[keep].nets, Chains(OthersNets(ms, keep, |ms|)), Offering(OthersNets(ms, keep, |ms|)), r) && Chains(r) == GroupChains(ms)
  {
    FoldIsOneMerge(ms, keep, |ms|);
    MergeIntoExactly(ms[keep].nets, OthersNets(ms, keep, |ms|));
    forall c ensures c in Chains(ms[keep].nets) + Chains(OthersNets(ms, keep, |ms|)) <==> c in GroupChains(ms) {
      OthersChains(ms, keep, |ms|, c);
    }
  }

  lemma {:induction false} MemberOf(gws: seq<Gateway>, g: Gateway)
    ensures g in gws <==> g in Members(gws, g.target)
    ensures forall t :: g in Members(gws, t) ==> g.target == t
  {
    if gws != [] {
      MemberOf(gws[..|gws| - 1], g);
    }
  }

  /** So gateways that list each chain once are merged into gateways that do. */
  lemma MergedListChainsOnce(gws: seq<Gateway>)
    requires forall g :: g in gws ==> ChainsOnce(g.nets)
    ensures forall g :: g in MergedGateways(gws) ==> ChainsOnce(g.nets)
  {
    forall g | g in MergedGateways(gws) ensures ChainsOnce(g.nets) {
      var ms := Members(gws, g.target);
      MemberOf(MergedGateways(gws), g);
      OneGatewayPerTarget(gws, g.target);
      if PassesThrough(ms, g.target) {
        MemberOf(gws, g);
      } else {
        MemberOf(gws, ms[Survivor(ms)]);
        MembersAreOn(gws, g.target);
        GroupExactly(ms, Survivor(ms));
      }
    }
  }
}
