/** One gateway per machine: those that share a target are folded into one. */
module GatewayMerge {
  import opened UpstreamMerge
  import opened Word

  const DEFAULT_ID := "default"

  /** A gateway as a value; door stands for the port, bind and TLS settings a merge never touches. */
  datatype Gateway = Gateway(id: string, target: string, fronted: bool, door: string, nets: seq<Network>)

  datatype Orphan = Orphan(container: string, target: string, mergedInto: string)

  /** How a gateway's id names its containers. */
  datatype Names = Names(erpc: string -> string, caddy: string -> string)

  // The specification, target by target.

  /** The targets in first-seen order. */
  function Targets(gws: seq<Gateway>): seq<string> {
    if gws == [] then []
    else
      var init, t := Targets(gws[..|gws| - 1]), gws[|gws| - 1].target;
      if t in init then init else init + [t]
  }

  function Members(gws: seq<Gateway>, t: string): seq<Gateway> {
    if gws == [] then []
    else Members(gws[..|gws| - 1], t) + if gws[|gws| - 1].target == t then [gws[|gws| - 1]] else []
  }

  function FirstFronted(ms: seq<Gateway>): (i: nat)
    ensures i <= |ms| && (i < |ms| ==> ms[i].fronted)
    ensures forall k :: 0 <= k < i ==> !ms[k].fronted
  {
    if ms == [] || ms[0].fronted then 0 else 1 + FirstFronted(ms[1..])
  }

  function FirstDefault(ms: seq<Gateway>): (i: nat)
    ensures i <= |ms| && (i < |ms| ==> ms[i].id == DEFAULT_ID)
    ensures forall k :: 0 <= k < i ==> ms[k].id != DEFAULT_ID
  {
    if ms == [] || ms[0].id == DEFAULT_ID then 0 else 1 + FirstDefault(ms[1..])
  }

  /** The fronted member first, then the default one, then the earliest. */
  function Survivor(ms: seq<Gateway>): (i: nat)
    requires ms != []
    ensures i < |ms|
  {
    if FirstFronted(ms) < |ms| then FirstFronted(ms)
    else if FirstDefault(ms) < |ms| then FirstDefault(ms)
    else 0
  }

  /** The survivor's networks with those of the members before n folded in, skipping the survivor itself. */
  function FoldNets(ms: seq<Gateway>, keep: nat, n: nat): seq<Network>
    requires keep < |ms| && n <= |ms|
  {
    if n == 0 then ms[keep].nets
    else if n - 1 == keep then FoldNets(ms, keep, n - 1)
    else MergeInto(FoldNets(ms, keep, n - 1), ms[n - 1].nets)
  }

  function OrphansOf(g: Gateway, into: string, names: Names): seq<Orphan> {
    [Orphan(names.erpc(g.id), g.target, into)] + if g.fronted then [Orphan(names.caddy(g.id), g.target, into)] else []
  }

  function FoldOrphans(ms: seq<Gateway>, keep: nat, n: nat, names: Names): seq<Orphan>
    requires keep < |ms| && n <= |ms|
  {
    if n == 0 then []
    else FoldOrphans(ms, keep, n - 1, names) + if n - 1 == keep then [] else OrphansOf(ms[n - 1], ms[keep].id, names)
  }

  /** A target with one gateway, and the unplaced gateways, pass through. */
  predicate PassesThrough(ms: seq<Gateway>, t: string) {
    t == "" || |ms| <= 1
  }

  function Folded(ms: seq<Gateway>, t: string): seq<Gateway> {
    if PassesThrough(ms, t) then ms else [ms[Survivor(ms)].(nets := FoldNets(ms, Survivor(ms), |ms|))]
  }

  function Orphaned(ms: seq<Gateway>, t: string, names: Names): seq<Orphan> {
    if PassesThrough(ms, t) then [] else FoldOrphans(ms, Survivor(ms), |ms|, names)
  }

  function FoldAll(gws: seq<Gateway>, ts: seq<string>): seq<Gateway> {
    if ts == [] then [] else FoldAll(gws, ts[..|ts| - 1]) + Folded(Members(gws, ts[|ts| - 1]), ts[|ts| - 1])
  }

  function OrphanAll(gws: seq<Gateway>, ts: seq<string>, names: Names): seq<Orphan> {
    if ts == [] then [] else OrphanAll(gws, ts[..|ts| - 1], names) + Orphaned(Members(gws, ts[|ts| - 1]), ts[|ts| - 1], names)
  }

  function MergedGateways(gws: seq<Gateway>): seq<Gateway> {
    FoldAll(gws, Targets(gws))
  }

  function Orphans(gws: seq<Gateway>, names: Names): seq<Orphan> {
    OrphanAll(gws, Targets(gws), names)
  }

  // Grouping

  ghost predicate NoRepeats(ts: seq<string>) {
    forall i, j :: 0 <= i < j < |ts| ==> ts[i] != ts[j]
  }

  lemma {:induction false} TargetsList(gws: seq<Gateway>)
    ensures NoRepeats(Targets(gws))
    ensures forall t :: t in Targets(gws) <==> Members(gws, t) != []
  {
    if gws != [] {
      TargetsList(gws[..|gws| - 1]);
    }
  }

  lemma {:induction false} MembersAppend(a: seq<Gateway>, b: seq<Gateway>, t: string)
    ensures Members(a + b, t) == Members(a, t) + Members(b, t)
  {
    if b == [] {
      assert a + b == a;
    } else {
      MembersAppend(a, b[..|b| - 1], t);
      assert (a + b)[..|a + b| - 1] == a + b[..|b| - 1];
    }
  }

  ghost predicate AllOn(b: seq<Gateway>, t: string) {
    forall g :: g in b ==> g.target == t
  }

  lemma {:induction false} MembersAreOn(gws: seq<Gateway>, t: string)
    ensures AllOn(Members(gws, t), t)
  {
    if gws != [] {
      MembersAreOn(gws[..|gws| - 1], t);
    }
  }

  lemma {:induction false} MembersOfBlock(b: seq<Gateway>, t: string, u: string)
    requires AllOn(b, t)
    ensures Members(b, u) == if u == t then b else []
  {
    if b != [] {
      MembersOfBlock(b[..|b| - 1], t, u);
    }
  }

  lemma {:induction false} TargetsOfBlock(a: seq<Gateway>, b: seq<Gateway>, t: string)
    requires AllOn(b, t) && b != [] && t !in Targets(a)
    ensures Targets(a + b) == Targets(a) + [t]
  {
    var init := b[..|b| - 1];
    assert (a + b)[..|a + b| - 1] == a + init;
    if init == [] {
      assert a + init == a;
    } else {
      TargetsOfBlock(a, init, t);
    }
  }

  lemma FoldedIsBlock(gws: seq<Gateway>, t: string)
    ensures AllOn(Folded(Members(gws, t), t), t)
    ensures Folded(Members(gws, t), t) == [] <==> Members(gws, t) == []
    ensures PassesThrough(Folded(Members(gws, t), t), t)
  {
    MembersAreOn(gws, t);
    var ms := Members(gws, t);
    if !PassesThrough(ms, t) {
      assert ms[Survivor(ms)] in ms;
    }
  }

  lemma {:induction false} FoldAllTargets(gws: seq<Gateway>, ts: seq<string>)
    requires NoRepeats(ts) && forall t :: t in ts ==> Members(gws, t) != []
    ensures Targets(FoldAll(gws, ts)) == ts
  {
    if ts != [] {
      var init, last := ts[..|ts| - 1], ts[|ts| - 1];
      assert ts == init + [last];
      FoldAllTargets(gws, init);
      BlockAdds(gws, FoldAll(gws, init), last);
    }
  }

  lemma BlockAdds(gws: seq<Gateway>, before: seq<Gateway>, t: string)
    requires Members(gws, t) != [] && t !in Targets(before)
    ensures Targets(before + Folded(Members(gws, t), t)) == Targets(before) + [t]
  {
    FoldedIsBlock(gws, t);
    TargetsOfBlock(before, Folded(Members(gws, t), t), t);
  }

  /** The result, read target by target: a listed target has what its members fold to, any other nothing. */
  lemma {:induction false} FoldAllMembers(gws: seq<Gateway>, ts: seq<string>, t: string)
    requires NoRepeats(ts)
    ensures Members(FoldAll(gws, ts), t) == if t in ts then Folded(Members(gws, t), t) else []
  {
    if ts != [] {
      var init, last := ts[..|ts| - 1], ts[|ts| - 1];
      var block := Folded(Members(gws, last), last);
      FoldAllMembers(gws, init, t);
      FoldedIsBlock(gws, last);
      MembersAppend(FoldAll(gws, init), block, t);
      MembersOfBlock(block, last, t);
      assert t in ts <==> t in init || t == last;
    }
  }

  // The main results.

  /**
   After the merge every target has at most one gateway, unless it is no target
   at all; unplaced gateways are exactly as they were, and so is a gateway alone
   on its machine. The one left is the survivor, with its own door.
   */
  lemma OneGatewayPerTarget(gws: seq<Gateway>, t: string)
    ensures var before, after := Members(gws, t), Members(MergedGateways(gws), t);
            && (PassesThrough(before, t) ==> after == before)
            && (!PassesThrough(before, t) ==>
              after == [before[Survivor(before)].(nets := FoldNets(before, Survivor(before), |before|))])
    ensures Targets(MergedGateways(gws)) == Targets(gws)
  {
    TargetsList(gws);
    FoldAllTargets(gws, Targets(gws));
    FoldAllMembers(gws, Targets(gws), t);
  }

  lemma {:induction false} NothingLeftToFold(gws: seq<Gateway>, out: seq<Gateway>, ts: seq<string>, names: Names)
    requires forall t :: t in ts ==> Members(out, t) == Folded(Members(gws, t), t)
    ensures FoldAll(out, ts) == FoldAll(gws, ts) && OrphanAll(out, ts, names) == []
  {
    if ts != [] {
      NothingLeftToFold(gws, out, ts[..|ts| - 1], names);
      FoldedIsBlock(gws, ts[|ts| - 1]);
    }
  }

  /** Merging again changes nothing and orphans nothing. */
  lemma MergingIsIdempotent(gws: seq<Gateway>, names: Names)
    ensures MergedGateways(MergedGateways(gws)) == MergedGateways(gws)
    ensures Orphans(MergedGateways(gws), names) == []
  {
    var ts := Targets(gws);
    TargetsList(gws);
    FoldAllTargets(gws, ts);
    forall t | t in ts ensures Members(MergedGateways(gws), t) == Folded(Members(gws, t), t) {
      FoldAllMembers(gws, ts, t);
    }
    NothingLeftToFold(gws, MergedGateways(gws), ts, names);
  }

  function Fronted(ms: seq<Gateway>, n: nat): nat
    requires n <= |ms|
  {
    if n == 0 then 0 else Fronted(ms, n - 1) + if ms[n - 1].fronted then 1 else 0
  }

  lemma {:induction false} OrphanCount(ms: seq<Gateway>, keep: nat, n: nat, names: Names)
    requires keep < |ms| && n <= |ms|
    ensures |FoldOrphans(ms, keep, n, names)|
            == n + Fronted(ms, n) - if keep < n then 1 + (if ms[keep].fronted then 1 else 0) else 0
  {
    if n > 0 {
      OrphanCount(ms, keep, n - 1, names);
    }
  }

  lemma {:induction false} NoneFronted(ms: seq<Gateway>, n: nat)
    requires n <= |ms| && forall k :: 0 <= k < n ==> !ms[k].fronted
    ensures Fronted(ms, n) == 0
  {
    if n > 0 {
      NoneFronted(ms, n - 1);
    }
  }

  lemma {:induction false} SomeFronted(ms: seq<Gateway>, i: nat, n: nat)
    requires i < n <= |ms| && ms[i].fronted
    ensures Fronted(ms, n) >= 1
  {
    if i < n - 1 {
      SomeFronted(ms, i, n - 1);
    }
  }

  /** A merged target leaves one container per loser and one more per fronted loser: all the fronted members but the survivor. */
  lemma OrphansOfOneTarget(ms: seq<Gateway>, t: string, names: Names)
    requires !PassesThrough(ms, t)
    ensures |Orphaned(ms, t, names)| == |ms| - 1 + Max(Fronted(ms, |ms|) - 1, 0)
  {
    OrphanCount(ms, Survivor(ms), |ms|, names);
    if FirstFronted(ms) < |ms| {
      SomeFronted(ms, FirstFronted(ms), |ms|);
    } else {
      NoneFronted(ms, |ms|);
    }
  }

  /** Who survives: the first fronted member; with none, the first called "default"; with neither, the first. */
  lemma SurvivorExactly(ms: seq<Gateway>)
    requires ms != []
    ensures var s := Survivor(ms);
            if exists i :: 0 <= i < |ms| && ms[i].fronted then ms[s].fronted && forall k :: 0 <= k < s ==> !ms[k].fronted
            else if exists i :: 0 <= i < |ms| && ms[i].id == "default" then ms[s].id == "default" && forall k :: 0 <= k < s ==> ms[k].id != "default"
            else s == 0
  {
  }

  /** The container a member leaves to another: its eRPC one, and its Caddy one too if it was fronted. */
  ghost predicate Leaves(g: Gateway, into: string, names: Names, o: Orphan) {
    o == Orphan(names.erpc(g.id), g.target, into) || (g.fronted && o == Orphan(names.caddy(g.id), g.target, into))
  }

  lemma {:induction false} FoldOrphansExactly(ms: seq<Gateway>, keep: nat, n: nat, names: Names, o: Orphan)
    requires keep < |ms| && n <= |ms|
    ensures o in FoldOrphans(ms, keep, n, names) <==> exists i :: 0 <= i < n && i != keep && Leaves(ms[i], ms[keep].id, names, o)
  {
    if n > 0 {
      FoldOrphansExactly(ms, keep, n - 1, names, o);
      assert n - 1 != keep ==> (o in OrphansOf(ms[n - 1], ms[keep].id, names) <==> Leaves(ms[n - 1], ms[keep].id, names, o));
    }
  }

  /** What a merged target leaves behind is exactly what its losers do, and each says into whom they were merged. */
  lemma OrphansExactly(ms: seq<Gateway>, t: string, names: Names, o: Orphan)
    requires !PassesThrough(ms, t)
    ensures o in Orphaned(ms, t, names) <==> exists i :: 0 <= i < |ms| && i != Survivor(ms) && Leaves(ms[i], ms[Survivor(ms)].id, names, o)
  {
    FoldOrphansExactly(ms, Survivor(ms), |ms|, names, o);
  }

  // What the survivor serves.

  /** What the members before n offer the survivor. */
  function OffersBefore(ms: seq<Gateway>, keep: nat, n: nat): seq<(int, Key)>
    requires keep < |ms| && n <= |ms|
  {
    if n == 0 then []
    else OffersBefore(ms, keep, n - 1) + OffersOfMember(ms, keep, n - 1)
  }

  function OffersOfMember(ms: seq<Gateway>, keep: nat, i: nat): seq<(int, Key)>
    requires i < |ms|
  {
    if i == keep then [] else Offers(ms[i].nets)
  }

  lemma {:induction false} FoldGains(ms: seq<Gateway>, keep: nat, n: nat)
    requires keep < |ms| && n <= |ms|
    ensures Gained(ms[keep].nets, FoldNets(ms, keep, n), OffersBefore(ms, keep, n))
  {
    if n > 0 {
      FoldGains(ms, keep, n - 1);
      OneMoreFolded(ms, keep, n);
    } else {
      NothingGained(ms[keep].nets);
    }
  }

  lemma OneMoreFolded(ms: seq<Gateway>, keep: nat, n: nat)
    requires keep < |ms| && 0 < n <= |ms| && Gained(ms[keep].nets, FoldNets(ms, keep, n - 1), OffersBefore(ms, keep, n - 1))
    ensures Gained(ms[keep].nets, FoldNets(ms, keep, n), OffersBefore(ms, keep, n))
  {
    var before, offers := FoldNets(ms, keep, n - 1), OffersBefore(ms, keep, n - 1);
    if n - 1 == keep {
      assert OffersBefore(ms, keep, n) == offers + [] == offers;
    } else {
      MergeIntoGains(before, ms[n - 1].nets);
      GainedCompose(ms[keep].nets, before, FoldNets(ms, keep, n), offers, Offers(ms[n - 1].nets));
    }
  }

  lemma NothingGained(a: seq<Network>)
    ensures Gained(a, a, [])
  {
  }

  /** Every (chain, key) pair of the members before n. */
  function PairsBefore(ms: seq<Gateway>, n: nat): set<(int, Key)>
    requires n <= |ms|
  {
    if n == 0 then {} else PairsBefore(ms, n - 1) + Pairs(ms[n - 1].nets)
  }

  lemma CoverMore(own: set<(int, Key)>, offers: seq<(int, Key)>, pairs: set<(int, Key)>, moreOffers: seq<(int, Key)>, morePairs: set<(int, Key)>)
    requires own + Offered(offers) == own + pairs
    requires own + Offered(moreOffers) == own + morePairs
    ensures own + Offered(offers + moreOffers) == own + (pairs + morePairs)
  {
    OfferedAppend(offers, moreOffers);
    calc {
      own + (Offered(offers) + Offered(moreOffers));
      (own + Offered(offers)) + (own + Offered(moreOffers));
      (own + pairs) + (own + morePairs);
      own + (pairs + morePairs);
    }
  }

  lemma {:induction false} OffersCoverPairs(ms: seq<Gateway>, keep: nat, n: nat, own: set<(int, Key)>)
    requires keep < |ms| && n <= |ms| && Pairs(ms[keep].nets) <= own
    ensures own + Offered(OffersBefore(ms, keep, n)) == own + PairsBefore(ms, n)
  {
    if n > 0 {
      OffersCoverPairs(ms, keep, n - 1, own);
      NextMemberCovers(own, OffersBefore(ms, keep, n - 1), PairsBefore(ms, n - 1), ms, keep, n - 1);
    }
  }

  lemma NextMemberCovers(own: set<(int, Key)>, offers: seq<(int, Key)>, pairs: set<(int, Key)>, ms: seq<Gateway>, keep: nat, i: nat)
    requires keep < |ms| && i < |ms| && Pairs(ms[keep].nets) <= own && own + Offered(offers) == own + pairs
    ensures own + Offered(offers + OffersOfMember(ms, keep, i)) == own + (pairs + Pairs(ms[i].nets))
  {
    OffersArePairs(ms[i].nets);
    CoverMore(own, offers, pairs, OffersOfMember(ms, keep, i), Pairs(ms[i].nets));
  }

  lemma {:induction false} PairsOfMember(ms: seq<Gateway>, i: nat, n: nat)
    requires i < n <= |ms|
    ensures Pairs(ms[i].nets) <= PairsBefore(ms, n)
  {
    if i < n - 1 {
      PairsOfMember(ms, i, n - 1);
    }
  }

  /**
   A group's survivor serves every (chain, key) pair of the group exactly when no
   loser offers, under a key another pair has, a different chain. Whatever the
   chains, no key of the group is lost and no pair is invented.
   */
  lemma GroupConserves(ms: seq<Gateway>, keep: nat)
    requires keep < |ms|
    ensures var merged, all := Pairs(FoldNets(ms, keep, |ms|)), PairsBefore(ms, |ms|);
            && (merged == all <==> NoKeyOnTwoChains(Pairs(ms[keep].nets), OffersBefore(ms, keep, |ms|)))
            && KeysIn(merged) == KeysIn(all) && merged <= all
  {
    var own, offers := Pairs(ms[keep].nets), OffersBefore(ms, keep, |ms|);
    FoldGains(ms, keep, |ms|);
    OffersCoverPairs(ms, keep, |ms|, own);
    PairsOfMember(ms, keep, |ms|);
    var all := PairsBefore(ms, |ms|);
    assert all == own + Offered(offers);
    AllPairsSurviveIff(own, offers);
    forall p ensures p in Gains(own, offers) ==> p in all {
      GainsExactly(own, offers, p);
    }
    GainsExactly(own, offers, (0, Key("", "", "")));
    assert KeysIn(all) == KeysIn(own) + set o | o in offers :: o.1;
  }

  /** One endpoint configured for two chains on two gateways loses one of them: the deduplication does not look at the chain. */
  lemma CompetingChainIsLost(ms: seq<Gateway>, keep: nat, chain: int, other: int, k: Key)
    requires keep < |ms| && (chain, k) in Pairs(ms[keep].nets) && (other, k) !in Pairs(ms[keep].nets)
    ensures (other, k) !in Pairs(FoldNets(ms, keep, |ms|))
  {
    FoldGains(ms, keep, |ms|);
    GainsExactly(Pairs(ms[keep].nets), OffersBefore(ms, keep, |ms|), (other, k));
    assert (chain, k).1 in KeysIn(Pairs(ms[keep].nets));
  }

  const NODE := Upstream("a", "", "box", "http://box:8545", "")

  /** One node configured on a target for chain 1 and, on another of its gateways, for chain 2: chain 2 loses it. */
  lemma TwoChainsOneNode()
    ensures var ms := [Gateway("x", "t", false, "", [Network(1, [NODE])]), Gateway("y", "t", false, "", [Network(2, [NODE])])];
            (2, KeyOf(NODE)) in Pairs(ms[1].nets) && (2, KeyOf(NODE)) !in Pairs(FoldNets(ms, 0, 2))
  {
    var ms := [Gateway("x", "t", false, "", [Network(1, [NODE])]), Gateway("y", "t", false, "", [Network(2, [NODE])])];
    OneNode(1);
    OneNode(2);
    CompetingChainIsLost(ms, 0, 1, 2, KeyOf(NODE));
  }

  lemma OneNode(chain: int)
    ensures Pairs([Network(chain, [NODE])]) == {(chain, KeyOf(NODE))}
  {
    var n := Network(chain, [NODE]);
    assert [n][..0] == [] && ItemsOf(n) == {(chain, NODE)};
    assert Items([n]) == {(chain, NODE)};
  }
}
