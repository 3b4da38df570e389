/**
 Which of the ids a gateway makes can meet: never two made from chain, label and
 position, and exactly when a module's route takes the id of an unnamed upstream.
 */
module DistinctIds {
  import opened Decimal
  import opened GatewayIds
  import opened GatewayRoutes
  import opened ModuleRouting
  import opened Spaces
  import opened Strings
  import opened UpstreamTags
  import opened Wrappers

  lemma LeadingNumber(a: string, x: string, b: string, y: string)
    requires AllDigits(a) && AllDigits(b) && a + "-" + x == b + "-" + y
    ensures a == b && x == y
  {
    var s := a + "-" + x;
    assert s[|a|] == '-' && s[|b|] == '-';
    assert forall i :: 0 <= i < |a| ==> s[i] == a[i];
    assert forall i :: 0 <= i < |b| ==> s[i] == b[i];
    assert |a| == |b|;
    assert a == s[..|a|] && b == s[..|b|];
    assert x == s[|a| + 1..] && y == s[|b| + 1..];
  }

  lemma TrailingNumber(x: string, a: string, y: string, b: string)
    requires AllDigits(a) && AllDigits(b) && x + "-" + a == y + "-" + b
    ensures a == b
  {
    var s := x + "-" + a;
    assert s[|x|] == '-' && s[|y|] == '-';
    assert forall i :: 0 <= i < |a| ==> s[|x| + 1 + i] == a[i];
    assert forall i :: 0 <= i < |b| ==> s[|y| + 1 + i] == b[i];
    assert |x| == |y|;
    assert a == s[|x| + 1..] && b == s[|y| + 1..];
  }

  lemma GeneratedShape(chain: int, tag: string, pos: nat)
    ensures GeneratedID(chain, tag, pos) == Signed(chain) + "-" + (tag + "-" + Itoa(pos))
  {
  }

  lemma RouteShape(chain: int, id: string)
    ensures RouteID(chain, id) == Signed(chain) + "-" + ("mod-" + id)
  {
  }

  /** A generated id tells which chain and position it was made for, whatever the tags. */
  lemma GeneratedDetermines(chain: int, tag: string, pos: nat, chain': int, tag': string, pos': nat)
    requires chain > 0 && chain' > 0 && GeneratedID(chain, tag, pos) == GeneratedID(chain', tag', pos')
    ensures chain == chain' && pos == pos'
  {
    GeneratedShape(chain, tag, pos);
    GeneratedShape(chain', tag', pos');
    LeadingNumber(Itoa(chain), tag + "-" + Itoa(pos), Itoa(chain'), tag' + "-" + Itoa(pos'));
    ItoaInjective(chain, chain');
    TrailingNumber(tag, Itoa(pos), tag', Itoa(pos'));
    ItoaInjective(pos, pos');
  }

  /** The route id an upstream of this protocol takes at this position, if its label is "mod". */
  function Numbered(p: Protocol, pos: nat): string {
    Text(p) + "-" + Itoa(pos)
  }

  lemma LeadingName(a: string, x: string, b: string, y: string)
    requires Names(a) && Names(b) && a + "-" + x == b + "-" + y
    ensures a == b && x == y
  {
    var s := a + "-" + x;
    assert s[|a|] == '-' && s[|b|] == '-';
    assert forall i :: 0 <= i < |a| ==> s[i] == a[i];
    assert forall i :: 0 <= i < |b| ==> s[i] == b[i];
    assert |a| == |b|;
    assert a == s[..|a|] && b == s[..|b|];
    assert x == s[|a| + 1..] && y == s[|b| + 1..];
  }

  lemma ModNames()
    ensures Names("mod")
  {
    assert "mod"[0] == 'm';
  }

  /** A route's id is a generated one exactly when chains agree, the upstream is labelled "mod", and the route is named after its protocol and position. */
  lemma RouteTakesExactly(chain: int, id: string, chain': int, who: string, p: Protocol, pos: nat)
    requires chain > 0 && chain' > 0 && Names(who)
    ensures RouteID(chain, id) == GeneratedID(chain', who + "-" + Text(p), pos) <==> chain == chain' && who == "mod" && id == Numbered(p, pos)
  {
    var tag := who + "-" + Text(p);
    RouteShape(chain, id);
    GeneratedShape(chain', tag, pos);
    assert tag + "-" + Itoa(pos) == who + "-" + Numbered(p, pos);
    assert "mod-" + id == "mod" + "-" + id;
    ModNames();
    if RouteID(chain, id) == GeneratedID(chain', tag, pos) {
      LeadingNumber(Itoa(chain), "mod-" + id, Itoa(chain'), tag + "-" + Itoa(pos));
      ItoaInjective(chain, chain');
      LeadingName("mod", id, who, Numbered(p, pos));
    }
  }

  /** Whether a route is named like an upstream: a protocol, a dash and a position, counted from 1. */
  ghost predicate NamedLikeUpstream(id: string) {
    exists p: Protocol, pos: nat :: pos > 0 && id == Numbered(p, pos)
  }

  /** Some endpoint of this protocol is labelled "mod", as wss://a.mod.io is. */
  ghost predicate ModEndpoint(p: Protocol, r: Reader) {
    exists endpoint :: Who(endpoint, false, r) == "mod" && ProtocolOf(endpoint, r) == p
  }

  /**
   Some endpoint's generated id equals a route's exactly when the chains agree and the
   route is named "http-N" or "ws-N"; the endpoint is then one labelled "mod".
   */
  lemma RouteMeetsGenerated(chain: int, id: string, chain': int, r: Reader)
    requires chain > 0 && chain' > 0 && ModEndpoint(Http, r) && ModEndpoint(Ws, r)
    ensures (exists endpoint, local, pos :: pos > 0 && RouteID(chain, id) == GeneratedID(chain', UpstreamTag(endpoint, local, r), pos))
            <==> chain == chain' && NamedLikeUpstream(id)
  {
    if endpoint, local, pos :| pos > 0 && RouteID(chain, id) == GeneratedID(chain', UpstreamTag(endpoint, local, r), pos) {
      WhoNames(endpoint, local, r);
      RouteTakesExactly(chain, id, chain', Who(endpoint, local, r), ProtocolOf(endpoint, r), pos);
    }
    if chain == chain' && NamedLikeUpstream(id) {
      var p: Protocol, pos: nat :| pos > 0 && id == Numbered(p, pos);
      assert ModEndpoint(p, r);
      var endpoint :| Who(endpoint, false, r) == "mod" && ProtocolOf(endpoint, r) == p;
      ModNames();
      RouteTakesExactly(chain, id, chain', "mod", p, pos);
      assert RouteID(chain, id) == GeneratedID(chain', UpstreamTag(endpoint, false, r), pos);
    }
  }

  /** a.mod.io */
  const MOD_HOST := "a" + ['.'] + ("mod" + ['.'] + "io")

  /** A reader that sees the host a.mod.io somewhere labels it "mod". */
  lemma ModHostIsMod(endpoint: string, u: Parsed, r: Reader)
    requires r.parse(TrimSpace(endpoint)) == Some(u) && u.host == MOD_HOST && forall c :: 'a' <= c <= 'z' ==> r.lower(c) == c
    ensures Who(endpoint, false, r) == "mod"
  {
    ModLabel(r.lower);
  }

  lemma ModLabel(lower: char -> char)
    requires forall c :: 'a' <= c <= 'z' ==> lower(c) == c
    ensures Label(MOD_HOST, lower) == "mod"
  {
    var a, b, c := "a", "mod", "io";
    ThreeParts(a, b, c);
    ModNames();
    MiddleLabel(MOD_HOST, a, b, c, lower);
  }

  lemma MiddleLabel(host: string, a: string, b: string, c: string, lower: char -> char)
    requires TrimBrackets(host) == host && SplitOn(host, '.') == [a, b, c] && a != "" && b != "" && c != ""
    requires !AllDigits(b) && forall i :: 0 <= i < |b| ==> 'a' <= b[i] <= 'z' && lower(b[i]) == b[i]
    ensures Label(host, lower) == b
  {
    NoneEmpty([a, b, c]);
    SanitisedStays(b, lower);
  }

  lemma {:induction false} NoneEmpty(parts: seq<string>)
    requires forall i :: 0 <= i < |parts| ==> parts[i] != ""
    ensures NonEmpty(parts) == parts
  {
    if parts != [] {
      NoneEmpty(parts[..|parts| - 1]);
    }
  }

  lemma ThreeParts(a: string, b: string, c: string)
    requires '.' !in a && '.' !in b && '.' !in c
    ensures SplitOn(a + ['.'] + (b + ['.'] + c), '.') == [a, b, c]
  {
    SplitFirst(a, '.', b + ['.'] + c);
    SplitFirst(b, '.', c);
    IndexAbsent(c, '.');
    assert [a] + ([b] + [c]) == [a, b, c];
  }

  lemma SplitFirst(a: string, c: char, rest: string)
    requires c !in a
    ensures SplitOn(a + [c] + rest, c) == [a] + SplitOn(rest, c)
  {
    IndexAfter(a, c, rest);
    assert (a + [c] + rest)[..|a|] == a && (a + [c] + rest)[|a| + 1..] == rest;
  }

  lemma {:induction false} SanitisedStays(s: string, lower: char -> char)
    requires forall i :: 0 <= i < |s| ==> 'a' <= s[i] <= 'z' && lower(s[i]) == s[i]
    ensures Sanitised(s, lower) == s
  {
    if s != "" {
      SanitisedStays(s[..|s| - 1], lower);
    }
  }

  // A whole gateway

  /** generate makes ids with the tag of the endpoint. */
  ghost predicate Generates(generate: Generator, r: Reader) {
    forall chain, endpoint, local, pos :: generate(chain, endpoint, local, pos) == GeneratedID(chain, UpstreamTag(endpoint, local, r), pos)
  }

  /** No upstream is named by hand. */
  predicate Unnamed(n: Network) {
    forall i :: 0 <= i < |n.upstreams| ==> n.upstreams[i].id == ""
  }

  /** Whether the i-th upstream of a chain is given the id of this route. */
  predicate Takes(u: Upstream, i: nat, route: Route, r: Reader) {
    Who(TrimSpace(u.endpoint), u.local, r) == "mod" && route.id == Numbered(ProtocolOf(TrimSpace(u.endpoint), r), i + 1)
  }

  /** The routes of a chain have names of their own, and no upstream is given one of their ids. */
  predicate RoutesApart(ups: seq<Upstream>, routes: seq<Route>, r: Reader) {
    && (forall i, j :: 0 <= i < j < |routes| ==> routes[i].id != routes[j].id)
    && (forall i, k :: 0 <= i < |ups| && 0 <= k < |routes| ==> !Takes(ups[i], i, routes[k], r))
  }

  function TagOf(u: Upstream, r: Reader): string {
    UpstreamTag(TrimSpace(u.endpoint), u.local, r)
  }

  /** What the i-th id of a chain is, when configured upstreams are unnamed and routes follow them. */
  predicate MadeFor(id: string, chain: int, ups: seq<Upstream>, routes: seq<Route>, i: nat, r: Reader) {
    i < |ups| + |routes|
    && id == if i < |ups| then GeneratedID(chain, TagOf(ups[i], r), i + 1) else RouteID(chain, routes[i - |ups|].id)
  }

  /** Whether the i-th and the j-th on a chain are given one id: two routes named alike, or a route named like an upstream. */
  predicate Meet(ups: seq<Upstream>, routes: seq<Route>, i: nat, j: nat, r: Reader)
    requires i < j < |ups| + |routes|
  {
    if i >= |ups| then routes[i - |ups|].id == routes[j - |ups|].id else j >= |ups| && Takes(ups[i], i, routes[j - |ups|], r)
  }

  /** When two ids of one chain are the same. */
  lemma MadeForSame(chain: int, ups: seq<Upstream>, routes: seq<Route>, i: nat, j: nat, id: string, id': string, r: Reader)
    requires chain > 0 && i < j && MadeFor(id, chain, ups, routes, i, r) && MadeFor(id', chain, ups, routes, j, r)
    ensures id == id' <==> Meet(ups, routes, i, j, r)
  {
    if j < |ups| {
      PositionsDiffer(chain, TagOf(ups[i], r), i + 1, TagOf(ups[j], r), j + 1);
    } else if i < |ups| {
      TakesExactly(chain, ups[i], i, routes[j - |ups|], r);
    } else {
      RoutesDetermine(chain, routes[i - |ups|].id, routes[j - |ups|].id);
    }
  }

  lemma PositionsDiffer(chain: int, tag: string, pos: nat, tag': string, pos': nat)
    requires chain > 0 && pos != pos'
    ensures GeneratedID(chain, tag, pos) != GeneratedID(chain, tag', pos')
  {
    if GeneratedID(chain, tag, pos) == GeneratedID(chain, tag', pos') {
      GeneratedDetermines(chain, tag, pos, chain, tag', pos');
    }
  }

  lemma TakesExactly(chain: int, u: Upstream, i: nat, route: Route, r: Reader)
    requires chain > 0
    ensures GeneratedID(chain, TagOf(u, r), i + 1) == RouteID(chain, route.id) <==> Takes(u, i, route, r)
  {
    var endpoint := TrimSpace(u.endpoint);
    WhoNames(endpoint, u.local, r);
    RouteTakesExactly(chain, route.id, chain, Who(endpoint, u.local, r), ProtocolOf(endpoint, r), i + 1);
  }

  lemma RoutesDetermine(chain: int, a: string, b: string)
    ensures RouteID(chain, a) == RouteID(chain, b) <==> a == b
  {
    var n := |Signed(chain) + "-mod-"|;
    assert a == RouteID(chain, a)[n..] && b == RouteID(chain, b)[n..];
  }

  /** The upstreams, and the routes, that the first m rows of a network are made for. */
  function Configured(n: Network, m: nat): seq<Upstream> {
    if m <= |n.upstreams| then n.upstreams[..m] else n.upstreams
  }

  function Routed(routes: seq<Route>, n: Network, m: nat): seq<Route>
    requires m <= |n.upstreams| + |routes|
  {
    if m <= |n.upstreams| then [] else routes[..m - |n.upstreams|]
  }

  /** What each of the first m rows of a network is called. */
  lemma RowIds(mods: seq<Module>, on: seq<string>, n: Network, m: nat, i: nat, generate: Generator, r: Reader)
    requires Generates(generate, r) && Unnamed(n) && i < m <= |WithRoutes(mods, on, n)|
    ensures MadeFor(FirstRows(mods, on, n, generate, m)[i].id, n.chain, Configured(n, m), Routed(Routes(mods, on, n.chain), n, m), i, r)
  {
    var all := WithRoutes(mods, on, n);
    RowsAt(n.chain, all, m, i, AnyLocal(n.upstreams), |n.upstreams|, generate);
    assert FirstRows(mods, on, n, generate, m)[i].id == if all[i].id == "" then GeneratedID(n.chain, TagOf(all[i], r), i + 1) else all[i].id;
    if i < |n.upstreams| {
      assert all[i].endpoint == n.upstreams[i].endpoint && all[i].local == n.upstreams[i].local && all[i].id == "";
    } else {
      assert all[i].id == RouteID(n.chain, Routes(mods, on, n.chain)[i - |n.upstreams|].id) != "";
    }
  }

  ghost predicate OfChain(id: string, chain: int) {
    exists rest :: id == Signed(chain) + "-" + rest
  }

  /** id was made for some other chain. */
  ghost predicate OfAnother(id: string, chain: int) {
    exists c :: c > 0 && c != chain && OfChain(id, c)
  }

  ghost predicate OfOthers(ids: set<string>, chain: int) {
    forall id :: id in ids ==> OfAnother(id, chain)
  }

  lemma MadeOfChain(id: string, chain: int, ups: seq<Upstream>, routes: seq<Route>, i: nat, r: Reader)
    requires MadeFor(id, chain, ups, routes, i, r)
    ensures OfChain(id, chain)
  {
    if i < |ups| {
      GeneratedOfChain(chain, TagOf(ups[i], r), i + 1);
    } else {
      RouteOfChain(chain, routes[i - |ups|].id);
    }
  }

  lemma GeneratedOfChain(chain: int, tag: string, pos: nat)
    ensures OfChain(GeneratedID(chain, tag, pos), chain)
  {
    GeneratedShape(chain, tag, pos);
  }

  lemma RouteOfChain(chain: int, id: string)
    ensures OfChain(RouteID(chain, id), chain)
  {
    RouteShape(chain, id);
  }

  lemma OneChainOnly(id: string, chain: int, chain': int)
    requires chain > 0 && chain' > 0 && OfChain(id, chain) && OfChain(id, chain')
    ensures chain == chain'
  {
    var rest :| id == Signed(chain) + "-" + rest;
    var rest' :| id == Signed(chain') + "-" + rest';
    LeadingNumber(Itoa(chain), rest, Itoa(chain'), rest');
    ItoaInjective(chain, chain');
  }

  /** The ids of a network's first m rows are its chain's, and all different exactly when the routes among them are apart. */
  lemma FirstIdsExactly(mods: seq<Module>, on: seq<string>, n: Network, m: nat, generate: Generator, r: Reader)
    requires Generates(generate, r) && Unnamed(n) && m <= |WithRoutes(mods, on, n)|
    ensures forall id :: id in IdsOf(FirstRows(mods, on, n, generate, m)) ==> OfChain(id, n.chain)
    ensures n.chain > 0 ==>
              (Fresh(FirstRows(mods, on, n, generate, m), {}) <==> RoutesApart(Configured(n, m), Routed(Routes(mods, on, n.chain), n, m), r))
  {
    var rows, ups, routes := FirstRows(mods, on, n, generate, m), Configured(n, m), Routed(Routes(mods, on, n.chain), n, m);
    FreshExactly(rows, {});
    forall i | 0 <= i < |rows| ensures MadeFor(rows[i].id, n.chain, ups, routes, i, r) {
      RowIds(mods, on, n, m, i, generate, r);
    }
    forall i | 0 <= i < |rows| ensures OfChain(rows[i].id, n.chain) {
      MadeOfChain(rows[i].id, n.chain, ups, routes, i, r);
    }
    if n.chain > 0 {
      MadeApart(rows, n.chain, ups, routes, r);
      NoneMeet(ups, routes, r);
    }
  }

  lemma MadeApart(rows: seq<Row>, chain: int, ups: seq<Upstream>, routes: seq<Route>, r: Reader)
    requires chain > 0 && |rows| == |ups| + |routes| && forall i :: 0 <= i < |rows| ==> MadeFor(rows[i].id, chain, ups, routes, i, r)
    ensures (forall i, j :: 0 <= i < j < |rows| ==> rows[i].id != rows[j].id) <==>
            forall i, j :: 0 <= i < j < |ups| + |routes| ==> !Meet(ups, routes, i, j, r)
  {
    forall i, j | 0 <= i < j < |rows| ensures rows[i].id == rows[j].id <==> Meet(ups, routes, i, j, r) {
      TwoMade(rows, chain, ups, routes, i, j, r);
    }
    ApartTogether(rows, ups, routes, r);
  }

  lemma ApartTogether(rows: seq<Row>, ups: seq<Upstream>, routes: seq<Route>, r: Reader)
    requires |rows| == |ups| + |routes| && forall i, j :: 0 <= i < j < |rows| ==> (rows[i].id == rows[j].id <==> Meet(ups, routes, i, j, r))
    ensures (forall i, j :: 0 <= i < j < |rows| ==> rows[i].id != rows[j].id) <==>
            forall i, j :: 0 <= i < j < |ups| + |routes| ==> !Meet(ups, routes, i, j, r)
  {
    if forall i, j :: 0 <= i < j < |rows| ==> rows[i].id != rows[j].id {
      forall i, j | 0 <= i < j < |ups| + |routes| ensures !Meet(ups, routes, i, j, r) {
        assert rows[i].id != rows[j].id;
      }
    }
  }

  lemma TwoMade(rows: seq<Row>, chain: int, ups: seq<Upstream>, routes: seq<Route>, i: nat, j: nat, r: Reader)
    requires chain > 0 && i < j < |rows| && |rows| == |ups| + |routes|
    requires MadeFor(rows[i].id, chain, ups, routes, i, r) && MadeFor(rows[j].id, chain, ups, routes, j, r)
    ensures rows[i].id == rows[j].id <==> Meet(ups, routes, i, j, r)
  {
    MadeForSame(chain, ups, routes, i, j, rows[i].id, rows[j].id, r);
  }

  lemma NoneMeet(ups: seq<Upstream>, routes: seq<Route>, r: Reader)
    ensures (forall i, j :: 0 <= i < j < |ups| + |routes| ==> !Meet(ups, routes, i, j, r)) <==> RoutesApart(ups, routes, r)
  {
    var c := |ups|;
    if forall i, j :: 0 <= i < j < c + |routes| ==> !Meet(ups, routes, i, j, r) {
      forall i, j | 0 <= i < j < |routes| ensures routes[i].id != routes[j].id {
        assert !Meet(ups, routes, c + i, c + j, r);
      }
      forall i, k | 0 <= i < c && 0 <= k < |routes| ensures !Takes(ups[i], i, routes[k], r) {
        assert !Meet(ups, routes, i, c + k, r);
      }
    }
  }

  lemma AllIds(mods: seq<Module>, on: seq<string>, nets: seq<Network>, generate: Generator, r: Reader, id: string)
    requires Generates(generate, r) && forall i :: 0 <= i < |nets| ==> Unnamed(nets[i])
    requires id in IdsOf(AllRows(nets, Renderer(mods, on, generate)))
    ensures exists c :: c in Chains(nets) && OfChain(id, c)
  {
    var k := WhoseId(nets, Renderer(mods, on, generate), id);
    FirstIdsExactly(mods, on, nets[k], |WithRoutes(mods, on, nets[k])|, generate, r);
    assert nets[k].chain in Chains(nets);
  }

  /** Whichever id is rendered, some network's rows carry it. */
  lemma {:induction false} WhoseId(nets: seq<Network>, rows: Network -> seq<Row>, id: string) returns (k: nat)
    requires id in IdsOf(AllRows(nets, rows))
    ensures k < |nets| && id in IdsOf(rows(nets[k]))
  {
    var init, last := nets[..|nets| - 1], nets[|nets| - 1];
    FreshConcat(AllRows(init, rows), rows(last), {});
    if id in IdsOf(rows(last)) {
      k := |init|;
    } else {
      k := WhoseId(init, rows, id);
    }
  }

  /** The i-th upstream of the chain is a route not apart from those before it, and every endpoint up to it can be dialled. */
  ghost predicate MeetsAt(mods: seq<Module>, on: seq<string>, n: Network, i: nat, r: Reader)
    requires i < |WithRoutes(mods, on, n)|
  {
    |n.upstreams| <= i && EndpointsOk(WithRoutes(mods, on, n), i + 1) && !RoutesApart(n.upstreams, Routes(mods, on, n.chain)[..i + 1 - |n.upstreams|], r)
  }

  ghost predicate SomeRouteMeets(mods: seq<Module>, on: seq<string>, n: Network, r: Reader) {
    exists i :: 0 <= i < |WithRoutes(mods, on, n)| && MeetsAt(mods, on, n, i, r)
  }

  /** When a network with no upstream named by hand clashes, whatever ids of other chains have been seen. */
  lemma ClashExactly(mods: seq<Module>, on: seq<string>, n: Network, seen: set<string>, generate: Generator, r: Reader)
    requires Generates(generate, r) && Unnamed(n) && n.chain > 0 && OfOthers(seen, n.chain)
    ensures ClashIn(mods, on, n, generate, seen) <==> n.upstreams != [] && SomeRouteMeets(mods, on, n, r)
  {
    forall i | 0 <= i < |WithRoutes(mods, on, n)|
      ensures ClashAt(n.chain, WithRoutes(mods, on, n), AnyLocal(n.upstreams), |n.upstreams|, generate, seen, i) <==> MeetsAt(mods, on, n, i, r)
    {
      ClashAtExactly(mods, on, n, i, seen, generate, r);
    }
  }

  lemma ClashAtExactly(mods: seq<Module>, on: seq<string>, n: Network, i: nat, seen: set<string>, generate: Generator, r: Reader)
    requires Generates(generate, r) && Unnamed(n) && n.chain > 0 && OfOthers(seen, n.chain)
    requires i < |WithRoutes(mods, on, n)|
    ensures ClashAt(n.chain, WithRoutes(mods, on, n), AnyLocal(n.upstreams), |n.upstreams|, generate, seen, i) <==> MeetsAt(mods, on, n, i, r)
  {
    FirstIdsExactly(mods, on, n, i + 1, generate, r);
    NewChainIsFresh(FirstRows(mods, on, n, generate, i + 1), seen, n.chain);
  }

  /**
   With no upstream named by hand, rendering answers with a duplicate id exactly
   when, at the first network it cannot render, a route shares its name with one
   before it or is named as an upstream labelled "mod" is numbered.
   */
  lemma DuplicatesExactly(mods: seq<Module>, on: seq<string>, nets: seq<Network>, generate: Generator, r: Reader)
    requires Generates(generate, r) && forall i :: 0 <= i < |nets| ==> Unnamed(nets[i])
    ensures DuplicateIn(mods, on, nets, generate) <==>
            exists k :: 0 <= k < |nets| && Renderable(nets[..k], Fit(mods, on), Renderer(mods, on, generate))
                        && nets[k].chain > 0 && nets[k].chain !in Chains(nets[..k]) && nets[k].upstreams != []
                        && SomeRouteMeets(mods, on, nets[k], r)
  {
    var fit, rows := Fit(mods, on), Renderer(mods, on, generate);
    forall k | 0 <= k < |nets| && Renderable(nets[..k], fit, rows) && nets[k].chain > 0 && nets[k].chain !in Chains(nets[..k])
      ensures DuplicateAt(mods, on, nets, generate, k) <==>
              nets[k].upstreams != [] && SomeRouteMeets(mods, on, nets[k], r)
    {
      RenderableExactly(nets[..k], fit, rows);
      var before := IdsOf(AllRows(nets[..k], rows));
      forall id | id in before ensures OfAnother(id, nets[k].chain) {
        AllIds(mods, on, nets[..k], generate, r, id);
      }
      ClashExactly(mods, on, nets[k], before, generate, r);
    }
  }

  /** A gateway of one network with such a route does not render. */
  lemma FirstDuplicates(mods: seq<Module>, on: seq<string>, n: Network, generate: Generator, r: Reader)
    requires Generates(generate, r) && Unnamed(n) && n.chain > 0 && n.upstreams != [] && SomeRouteMeets(mods, on, n, r)
    ensures DuplicateIn(mods, on, [n], generate)
  {
    var nets := [n];
    assert nets[..0] == [] && nets[0] == n;
    assert Renderable(nets[..0], Fit(mods, on), Renderer(mods, on, generate)) && nets[0].chain !in Chains(nets[..0]);
    DuplicatesExactly(mods, on, nets, generate, r);
  }

  lemma NewChainIsFresh(rows: seq<Row>, before: set<string>, chain: int)
    requires chain > 0 && OfOthers(before, chain) && forall id :: id in IdsOf(rows) ==> OfChain(id, chain)
    ensures Fresh(rows, before) <==> Fresh(rows, {})
  {
    FreshExactly(rows, {});
    FreshExactly(rows, before);
    forall i | 0 <= i < |rows| ensures rows[i].id !in before {
      var id := rows[i].id;
      assert id in IdsOf(rows);
      if id in before {
        assert OfAnother(id, chain);
        var c :| c > 0 && c != chain && OfChain(id, c);
        OneChainOnly(id, c, chain);
      }
    }
  }

  /** No two routes of the chain share a name, and none is named as an upstream may be numbered. */
  ghost predicate NamedApart(routes: seq<Route>) {
    && (forall i, j :: 0 <= i < j < |routes| ==> routes[i].id != routes[j].id)
    && (forall i :: 0 <= i < |routes| ==> !NamedLikeUpstream(routes[i].id))
  }

  /** So with no upstream named by hand, and routes named apart on every chain, rendering never answers with a duplicate id. */
  lemma BlankNamesNeverClash(mods: seq<Module>, on: seq<string>, nets: seq<Network>, generate: Generator, r: Reader)
    requires Generates(generate, r) && forall i :: 0 <= i < |nets| ==> Unnamed(nets[i])
    requires forall n :: n in nets ==> NamedApart(Routes(mods, on, n.chain))
    ensures !DuplicateIn(mods, on, nets, generate)
  {
    DuplicatesExactly(mods, on, nets, generate, r);
    forall k | 0 <= k < |nets| ensures !SomeRouteMeets(mods, on, nets[k], r) {
      assert nets[k] in nets;
      NoRouteMeets(mods, on, nets[k], r);
    }
  }

  lemma NotMet(mods: seq<Module>, on: seq<string>, n: Network, i: nat, r: Reader)
    requires NamedApart(Routes(mods, on, n.chain)) && |n.upstreams| <= i < |WithRoutes(mods, on, n)|
    ensures !MeetsAt(mods, on, n, i, r)
  {
    NamedApartIsApart(n.upstreams, Routes(mods, on, n.chain), i + 1 - |n.upstreams|, r);
  }

  lemma NoRouteMeets(mods: seq<Module>, on: seq<string>, n: Network, r: Reader)
    requires NamedApart(Routes(mods, on, n.chain))
    ensures !SomeRouteMeets(mods, on, n, r)
  {
    forall i | |n.upstreams| <= i < |WithRoutes(mods, on, n)| ensures !MeetsAt(mods, on, n, i, r) {
      NotMet(mods, on, n, i, r);
    }
  }

  lemma NamedApartIsApart(ups: seq<Upstream>, routes: seq<Route>, k: nat, r: Reader)
    requires k <= |routes| && NamedApart(routes)
    ensures RoutesApart(ups, routes[..k], r)
  {
    forall i, h | 0 <= i < |ups| && 0 <= h < k ensures !Takes(ups[i], i, routes[..k][h], r) {
      assert !NamedLikeUpstream(routes[h].id);
    }
  }
}
