/** Folding one gateway's networks into another's: which upstreams survive, and under what ids. */
module UpstreamMerge {
  import opened Decimal

  const EXTERNAL := "external"

  /** rest stands for the fields a merge carries along unread. */
  datatype Upstream = Upstream(id: string, kind: string, targetId: string, endpoint: string, rest: string)

  datatype Network = Network(chainId: int, upstreams: seq<Upstream>)

  /** What identifies an upstream: its kind, the machine and the endpoint. */
  datatype Key = Key(kind: string, targetId: string, endpoint: string)

  function KeyOf(u: Upstream): Key {
    Key(if u.kind == "" then EXTERNAL else u.kind, u.targetId, u.endpoint)
  }

  // Ids

  function Candidate(id: string, n: nat): string {
    id + "-" + Itoa(n)
  }

  lemma CandidatesDiffer(id: string, m: nat, n: nat)
    requires Candidate(id, m) == Candidate(id, n)
    ensures m == n
  {
    assert Candidate(id, m)[|id| + 1..] == Itoa(m) && Candidate(id, n)[|id| + 1..] == Itoa(n);
    ItoaInjective(m, n);
  }

  /** The taken candidates not tried yet, which each try makes smaller. */
  ghost function Untried(id: string, taken: set<string>, n: nat): set<string> {
    set t | t in taken && exists m: nat :: m >= n && t == Candidate(id, m)
  }

  lemma TryingShrinks(id: string, taken: set<string>, n: nat)
    requires Candidate(id, n) in taken
    ensures Untried(id, taken, n + 1) < Untried(id, taken, n)
  {
    assert Candidate(id, n) in Untried(id, taken, n);
    if m: nat :| m >= n + 1 && Candidate(id, n) == Candidate(id, m) {
      CandidatesDiffer(id, n, m);
    }
  }

  /** The first free candidate from suffix n on; one exists because the suffixes never repeat. */
  function FirstFree(id: string, taken: set<string>, n: nat): (r: string)
    ensures r !in taken
    ensures exists m: nat :: m >= n && r == Candidate(id, m) && forall k: nat :: n <= k < m ==> Candidate(id, k) in taken
    decreases Untried(id, taken, n)
  {
    if Candidate(id, n) !in taken then Candidate(id, n)
    else
      TryingShrinks(id, taken, n);
      FirstFree(id, taken, n + 1)
  }

  function UniqueId(id: string, taken: set<string>): (r: string)
    ensures r == "" <==> id == ""
    ensures r != "" ==> r !in taken
  {
    if id == "" || id !in taken then id else FirstFree(id, taken, 2)
  }

  /** uniqueUpstreamID: it ends for every set of taken ids. */
  method UniqueUpstreamId(id: string, taken: set<string>) returns (r: string)
    ensures r == UniqueId(id, taken)
  {
    if id == "" || id !in taken {
      return id;
    }
    var n := 2;
    while true
      invariant n >= 2 && FirstFree(id, taken, n) == UniqueId(id, taken)
      decreases Untried(id, taken, n)
    {
      var cand := id + "-" + Itoa(n);
      if cand !in taken {
        return cand;
      }
      TryingShrinks(id, taken, n);
      n := n + 1;
    }
  }

  // Networks

  /** A merge in progress: the networks so far, the keys seen and the ids taken. */
  datatype Merge = Merge(nets: seq<Network>, seen: set<Key>, taken: set<string>)

  /** netAt: the last network of that chain, -1 for none. */
  function At(nets: seq<Network>, chain: int): (i: int)
    ensures -1 <= i < |nets|
    ensures i >= 0 ==> nets[i].chainId == chain
    ensures i == -1 ==> forall n :: n in nets ==> n.chainId != chain
  {
    if nets == [] then -1
    else if nets[|nets| - 1].chainId == chain then |nets| - 1
    else At(nets[..|nets| - 1], chain)
  }

  function AddUpstream(m: Merge, at: nat, u: Upstream): Merge
    requires at < |m.nets|
  {
    if KeyOf(u) in m.seen then m
    else
      var named := u.(id := UniqueId(u.id, m.taken));
      Merge(m.nets[at := m.nets[at].(upstreams := m.nets[at].upstreams + [named])], m.seen + {KeyOf(u)}, m.taken + {named.id})
  }

  function AddUpstreams(m: Merge, at: nat, us: seq<Upstream>): (r: Merge)
    requires at < |m.nets|
    ensures |r.nets| == |m.nets| && forall i :: 0 <= i < |m.nets| ==> r.nets[i].chainId == m.nets[i].chainId
  {
    if us == [] then m else AddUpstream(AddUpstreams(m, at, us[..|us| - 1]), at, us[|us| - 1])
  }

  function WithChain(m: Merge, chain: int): (r: Merge)
    ensures 0 <= At(r.nets, chain) < |r.nets|
  {
    if At(m.nets, chain) >= 0 then m else m.(nets := m.nets + [Network(chain, [])])
  }

  function AddNetwork(m: Merge, n: Network): Merge {
    var w := WithChain(m, n.chainId);
    AddUpstreams(w, At(w.nets, n.chainId), n.upstreams)
  }

  function AddNetworks(m: Merge, src: seq<Network>): Merge {
    if src == [] then m else AddNetwork(AddNetworks(m, src[..|src| - 1]), src[|src| - 1])
  }

  /** Which upstream serves which chain. */
  function Items(nets: seq<Network>): set<(int, Upstream)> {
    if nets == [] then {}
    else Items(nets[..|nets| - 1]) + ItemsOf(nets[|nets| - 1])
  }

  function ItemsOf(n: Network): set<(int, Upstream)> {
    set u | u in n.upstreams :: (n.chainId, u)
  }

  function Keys(nets: seq<Network>): set<Key> {
    set it | it in Items(nets) :: KeyOf(it.1)
  }

  function Pairs(nets: seq<Network>): set<(int, Key)> {
    set it | it in Items(nets) :: (it.0, KeyOf(it.1))
  }

  function IdsOf(us: seq<Upstream>): multiset<string> {
    if us == [] then multiset{} else IdsOf(us[..|us| - 1]) + multiset{us[|us| - 1].id}
  }

  /** Every use of every id. */
  function Ids(nets: seq<Network>): multiset<string> {
    if nets == [] then multiset{} else Ids(nets[..|nets| - 1]) + IdsOf(nets[|nets| - 1].upstreams)
  }

  function StartOf(nets: seq<Network>): Merge {
    Merge(nets, Keys(nets), set id | id in Ids(nets))
  }

  /** mergeConfigInto on values. */
  function MergeInto(dst: seq<Network>, src: seq<Network>): seq<Network> {
    AddNetworks(StartOf(dst), src).nets
  }

  // What one added upstream, and so a whole merge, does.

  /** Nothing in the destination moves or is renamed: every network only gains upstreams at its end. */
  ghost predicate Extends(before: seq<Network>, after: seq<Network>) {
    && |before| <= |after|
    && forall i :: 0 <= i < |before| ==> before[i].chainId == after[i].chainId && before[i].upstreams <= after[i].upstreams
  }

  /** No id but the blank one is used twice. */
  ghost predicate IdsDistinct(nets: seq<Network>) {
    forall id :: id != "" ==> Ids(nets)[id] <= 1
  }

  /** The bookkeeping of a merge agrees with its networks. */
  ghost predicate Tracks(m: Merge) {
    m.seen == Keys(m.nets) && forall id :: id in Ids(m.nets) ==> id in m.taken
  }

  function Push(n: Network, u: Upstream): Network {
    n.(upstreams := n.upstreams + [u])
  }

  lemma PushItems(n: Network, u: Upstream)
    ensures ItemsOf(Push(n, u)) == ItemsOf(n) + {(n.chainId, u)}
    ensures IdsOf(Push(n, u).upstreams) == IdsOf(n.upstreams) + multiset{u.id}
  {
    assert forall x :: x in n.upstreams + [u] <==> x in n.upstreams || x == u;
    assert (n.upstreams + [u])[..|n.upstreams|] == n.upstreams;
  }

  lemma ItemsSnoc(nets: seq<Network>, n: Network)
    ensures Items(nets + [n]) == Items(nets) + ItemsOf(n) && Ids(nets + [n]) == Ids(nets) + IdsOf(n.upstreams)
  {
    assert (nets + [n])[..|nets|] == nets;
  }

  lemma PushLast(init: seq<Network>, last: Network, u: Upstream)
    ensures Items(init + [Push(last, u)]) == Items(init + [last]) + {(last.chainId, u)}
    ensures Ids(init + [Push(last, u)]) == Ids(init + [last]) + multiset{u.id}
  {
    ItemsSnoc(init, last);
    ItemsSnoc(init, Push(last, u));
    PushItems(last, u);
  }

  lemma {:induction false} PushOne(nets: seq<Network>, at: nat, u: Upstream)
    requires at < |nets|
    ensures Items(nets[at := Push(nets[at], u)]) == Items(nets) + {(nets[at].chainId, u)}
    ensures Ids(nets[at := Push(nets[at], u)]) == Ids(nets) + multiset{u.id}
  {
    var init, last := nets[..|nets| - 1], nets[|nets| - 1];
    assert nets == init + [last];
    if at == |init| {
      assert nets[at := Push(last, u)] == init + [Push(last, u)];
      PushLast(init, last, u);
    } else {
      assert nets[at := Push(nets[at], u)] == init[at := Push(init[at], u)] + [last];
      PushOne(init, at, u);
      PushEarlier(init, at, last, u);
    }
  }

  lemma PushEarlier(init: seq<Network>, at: nat, last: Network, u: Upstream)
    requires at < |init|
    requires Items(init[at := Push(init[at], u)]) == Items(init) + {(init[at].chainId, u)}
    requires Ids(init[at := Push(init[at], u)]) == Ids(init) + multiset{u.id}
    ensures Items(init[at := Push(init[at], u)] + [last]) == Items(init + [last]) + {(init[at].chainId, u)}
    ensures Ids(init[at := Push(init[at], u)] + [last]) == Ids(init + [last]) + multiset{u.id}
  {
    ItemsSnoc(init, last);
    ItemsSnoc(init[at := Push(init[at], u)], last);
  }

  lemma ImagesOfOneMore(before: seq<Network>, after: seq<Network>, chain: int, u: Upstream)
    requires Items(after) == Items(before) + {(chain, u)}
    ensures Keys(after) == Keys(before) + {KeyOf(u)}
    ensures Pairs(after) == Pairs(before) + {(chain, KeyOf(u))}
  {
    assert (chain, u) in Items(after);
    assert forall it :: it in Items(after) <==> it in Items(before) || it == (chain, u);
    assert KeyOf((chain, u).1) in Keys(after);
  }

  /** Everything one upstream of the source can do to the destination. */
  lemma AddUpstreamKeeps(m: Merge, at: nat, u: Upstream)
    requires at < |m.nets| && Tracks(m)
    ensures var r := AddUpstream(m, at, u);
            && Tracks(r) && Extends(m.nets, r.nets)
            && (IdsDistinct(m.nets) ==> IdsDistinct(r.nets))
            && Pairs(r.nets) == Pairs(m.nets) + if KeyOf(u) in Keys(m.nets) then {} else {(m.nets[at].chainId, KeyOf(u))}
  {
    if KeyOf(u) !in m.seen {
      var named := u.(id := UniqueId(u.id, m.taken));
      PushOne(m.nets, at, named);
      var after := m.nets[at := Push(m.nets[at], named)];
      assert AddUpstream(m, at, u).nets == after;
      ImagesOfOneMore(m.nets, after, m.nets[at].chainId, named);
    }
  }

  // A whole merge, as what each offered (chain, key) pair adds.

  function KeysIn(pairs: set<(int, Key)>): set<Key> {
    set p | p in pairs :: p.1
  }

  function OffersOf(chain: int, us: seq<Upstream>): seq<(int, Key)> {
    if us == [] then [] else OffersOf(chain, us[..|us| - 1]) + [(chain, KeyOf(us[|us| - 1]))]
  }

  function Offers(src: seq<Network>): seq<(int, Key)> {
    if src == [] then [] else Offers(src[..|src| - 1]) + OffersOf(src[|src| - 1].chainId, src[|src| - 1].upstreams)
  }

  /** An offer is taken unless its key is there already, on whatever chain. */
  function Gains(pairs: set<(int, Key)>, offers: seq<(int, Key)>): set<(int, Key)> {
    if offers == [] then pairs
    else
      var g, o := Gains(pairs, offers[..|offers| - 1]), offers[|offers| - 1];
      if o.1 in KeysIn(g) then g else g + {o}
  }

  lemma {:induction false} GainsAppend(pairs: set<(int, Key)>, a: seq<(int, Key)>, b: seq<(int, Key)>)
    ensures Gains(pairs, a + b) == Gains(Gains(pairs, a), b)
  {
    if b == [] {
      assert a + b == a;
    } else {
      GainsAppend(pairs, a, b[..|b| - 1]);
      assert (a + b)[..|a + b| - 1] == a + b[..|b| - 1];
    }
  }

  lemma KeysArePairKeys(nets: seq<Network>)
    ensures Keys(nets) == KeysIn(Pairs(nets))
  {
    forall k | k in Keys(nets) ensures k in KeysIn(Pairs(nets)) {
      var it :| it in Items(nets) && KeyOf(it.1) == k;
      assert (it.0, k) in Pairs(nets) && (it.0, k).1 == k;
    }
  }

  ghost predicate Carries(before: Merge, after: Merge, offers: seq<(int, Key)>) {
    && Tracks(after) && Extends(before.nets, after.nets)
    && (IdsDistinct(before.nets) ==> IdsDistinct(after.nets))
    && Pairs(after.nets) == Gains(Pairs(before.nets), offers)
  }

  lemma {:induction false} AddUpstreamsCarries(m: Merge, at: nat, us: seq<Upstream>)
    requires at < |m.nets| && Tracks(m)
    ensures Carries(m, AddUpstreams(m, at, us), OffersOf(m.nets[at].chainId, us))
  {
    if us != [] {
      var init, chain := us[..|us| - 1], m.nets[at].chainId;
      var mid := AddUpstreams(m, at, init);
      AddUpstreamsCarries(m, at, init);
      AddUpstreamKeeps(mid, at, us[|us| - 1]);
      KeysArePairKeys(mid.nets);
      assert OffersOf(chain, us)[..|OffersOf(chain, us)| - 1] == OffersOf(chain, init);
    }
  }

  lemma EmptyNetworkAddsNothing(m: Merge, chain: int)
    requires Tracks(m)
    ensures Carries(m, WithChain(m, chain), [])
  {
    assert (m.nets + [Network(chain, [])])[..|m.nets|] == m.nets;
    assert Items(m.nets + [Network(chain, [])]) == Items(m.nets);
  }

  lemma {:induction false} AddNetworksCarries(m: Merge, src: seq<Network>)
    requires Tracks(m)
    ensures Carries(m, AddNetworks(m, src), Offers(src))
  {
    if src != [] {
      var init, n := src[..|src| - 1], src[|src| - 1];
      var mid := AddNetworks(m, init);
      AddNetworksCarries(m, init);
      EmptyNetworkAddsNothing(mid, n.chainId);
      var w := WithChain(mid, n.chainId);
      AddUpstreamsCarries(w, At(w.nets, n.chainId), n.upstreams);
      GainsAppend(Pairs(m.nets), Offers(init), OffersOf(n.chainId, n.upstreams));
    }
  }

  /** after is before with offers merged in: nothing moves or is renamed, ids stay distinct, and exactly the new keys are gained. */
  ghost predicate Gained(before: seq<Network>, after: seq<Network>, offers: seq<(int, Key)>) {
    && Extends(before, after)
    && (IdsDistinct(before) ==> IdsDistinct(after))
    && Pairs(after) == Gains(Pairs(before), offers)
  }

  lemma MergeIntoGains(dst: seq<Network>, src: seq<Network>)
    ensures Gained(dst, MergeInto(dst, src), Offers(src))
  {
    AddNetworksCarries(StartOf(dst), src);
  }

  lemma GainedCompose(a: seq<Network>, b: seq<Network>, c: seq<Network>, first: seq<(int, Key)>, second: seq<(int, Key)>)
    requires Gained(a, b, first) && Gained(b, c, second)
    ensures Gained(a, c, first + second)
  {
    forall i | 0 <= i < |a| ensures a[i].upstreams <= c[i].upstreams {
      assert a[i].upstreams <= b[i].upstreams <= c[i].upstreams;
    }
    GainsAppend(Pairs(a), first, second);
  }

  // Which pairs survive.

  predicate FirstAt(offers: seq<(int, Key)>, i: int) {
    0 <= i < |offers| && forall j :: 0 <= j < i ==> offers[j].1 != offers[i].1
  }

  /** What a merge gains: of each new key, its first offer. */
  lemma {:induction false} GainsExactly(pairs: set<(int, Key)>, offers: seq<(int, Key)>, p: (int, Key))
    ensures p in Gains(pairs, offers) <==>
            p in pairs || (p.1 !in KeysIn(pairs) && exists i :: FirstAt(offers, i) && offers[i] == p)
    ensures KeysIn(Gains(pairs, offers)) == KeysIn(pairs) + set o | o in offers :: o.1
    decreases |offers|
  {
    if offers != [] {
      var n := |offers| - 1;
      var init := offers[..n];
      GainsExactly(pairs, init, p);
      assert forall i :: 0 <= i < n ==> (FirstAt(offers, i) <==> FirstAt(init, i));
      assert FirstAt(offers, n) <==> offers[n].1 !in set o | o in init :: o.1;
      assert forall o :: o in offers <==> o in init || o == offers[n];
      var g := Gains(pairs, init);
      assert KeysIn(g + {offers[n]}) == KeysIn(g) + {offers[n].1};
    }
  }

  /** No offer competes, under one key, with another chain. */
  ghost predicate NoKeyOnTwoChains(pairs: set<(int, Key)>, offers: seq<(int, Key)>) {
    forall o :: o in offers && o !in pairs ==>
      o.1 !in KeysIn(pairs) && forall q :: q in offers && q.1 == o.1 ==> q == o
  }

  /** Every pair survives a merge exactly when no key is offered on two chains: the deduplication ignores the chain. */
  lemma AllPairsSurviveIff(pairs: set<(int, Key)>, offers: seq<(int, Key)>)
    ensures Gains(pairs, offers) == pairs + Offered(offers) <==> NoKeyOnTwoChains(pairs, offers)
  {
    forall p ensures p in Gains(pairs, offers) <==>
                     p in pairs || (p.1 !in KeysIn(pairs) && exists i :: FirstAt(offers, i) && offers[i] == p) {
      GainsExactly(pairs, offers, p);
    }
    if NoKeyOnTwoChains(pairs, offers) {
      forall o | o in offers && o !in pairs ensures exists i :: FirstAt(offers, i) && offers[i] == o {
        var i := FirstOf(offers, o.1);
      }
    }
  }

  lemma {:induction false} FirstOf(offers: seq<(int, Key)>, k: Key) returns (i: nat)
    requires exists o :: o in offers && o.1 == k
    ensures FirstAt(offers, i) && offers[i].1 == k
  {
    i := 0;
    while offers[i].1 != k
      invariant i < |offers| && forall j :: 0 <= j < i ==> offers[j].1 != k
      invariant exists j :: i <= j < |offers| && offers[j].1 == k
      decreases |offers| - i
    {
      i := i + 1;
    }
  }

  function Offered(offers: seq<(int, Key)>): set<(int, Key)> {
    set o | o in offers
  }

  lemma OfferedAppend(a: seq<(int, Key)>, b: seq<(int, Key)>)
    ensures Offered(a + b) == Offered(a) + Offered(b)
  {
  }

  function PairsOf(chain: int, us: seq<Upstream>): set<(int, Key)> {
    set u | u in us :: (chain, KeyOf(u))
  }

  lemma {:induction false} OffersOfArePairs(chain: int, us: seq<Upstream>)
    ensures Offered(OffersOf(chain, us)) == PairsOf(chain, us)
  {
    if us != [] {
      var init, last := us[..|us| - 1], us[|us| - 1];
      OffersOfArePairs(chain, init);
      OfferedAppend(OffersOf(chain, init), [(chain, KeyOf(last))]);
      assert forall u :: u in us <==> u in init || u == last;
      assert PairsOf(chain, us) == PairsOf(chain, init) + {(chain, KeyOf(last))};
    }
  }

  lemma PairsSplit(src: seq<Network>)
    requires src != []
    ensures Pairs(src) == Pairs(src[..|src| - 1]) + PairsOf(src[|src| - 1].chainId, src[|src| - 1].upstreams)
  {
    var init, n := src[..|src| - 1], src[|src| - 1];
    forall p ensures p in Pairs(src) <==> p in Pairs(init) + PairsOf(n.chainId, n.upstreams) {
      if p in Pairs(init) {
        var it :| it in Items(init) && (it.0, KeyOf(it.1)) == p;
        assert it in Items(src);
      }
      if u :| u in n.upstreams && (n.chainId, KeyOf(u)) == p {
        assert (n.chainId, u) in Items(src);
      }
    }
  }

  lemma {:induction false} OffersArePairs(src: seq<Network>)
    ensures Offered(Offers(src)) == Pairs(src)
  {
    if src != [] {
      var init, n := src[..|src| - 1], src[|src| - 1];
      OffersArePairs(init);
      OffersOfArePairs(n.chainId, n.upstreams);
      OfferedAppend(Offers(init), OffersOf(n.chainId, n.upstreams));
      PairsSplit(src);
    }
  }
}
