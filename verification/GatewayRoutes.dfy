/**
 What a gateway's own modules add on a chain. Each route becomes an upstream
 that serves its methods and nothing else, and the chain's configured upstreams
 stop serving them.
 */
module GatewayRoutes {
  import opened Wrappers
  import opened ModuleRouting
  import opened Decimal

  function ModuleByID(mods: seq<Module>, id: string): Option<Module> {
    if mods == [] then None else if mods[0].id == id then Some(mods[0]) else ModuleByID(mods[1..], id)
  }

  /** Module.Applies: unsupported chains first, then the chains, then the clients. */
  predicate Applies(m: Module, chain: int, client: string) {
    chain !in m.unsupported
    && (|m.chains| > 0 ==> chain in m.chains)
    && (|m.clients| > 0 ==> client in m.clients)
  }

  function RoutesOf(mods: seq<Module>, id: string, chain: int): seq<Route> {
    match ModuleByID(mods, id)
    case None => []
    case Some(m) =>
      if m.placement.OnGateway? && Applies(m, chain, "") && chain in m.routes then m.routes[chain] else []
  }

  /** Every route the gateway's modules add on the chain. */
  function Routes(mods: seq<Module>, on: seq<string>, chain: int): seq<Route> {
    if on == [] then [] else Routes(mods, on[..|on| - 1], chain) + RoutesOf(mods, on[|on| - 1], chain)
  }

  function RouteID(chain: int, id: string): string {
    Signed(chain) + "-mod-" + id
  }

  function RouteUpstream(chain: int, r: Route): Upstream {
    Upstream(RouteID(chain, r.id), EXTERNAL, r.endpoint, false, false, ["*"], r.methods)
  }

  function RouteUpstreams(chain: int, routes: seq<Route>): (ups: seq<Upstream>)
    ensures |ups| == |routes| && forall i :: 0 <= i < |ups| ==> ups[i] == RouteUpstream(chain, routes[i])
  {
    if routes == [] then []
    else RouteUpstreams(chain, routes[..|routes| - 1]) + [RouteUpstream(chain, routes[|routes| - 1])]
  }

  /** xs after some already collected, each kept where it is first met. */
  function Gather(sofar: seq<string>, xs: seq<string>): seq<string> {
    if xs == [] then sofar
    else
      var rest := Gather(sofar, xs[..|xs| - 1]);
      if xs[|xs| - 1] in rest then rest else rest + [xs[|xs| - 1]]
  }

  function RoutedMethods(routes: seq<Route>): seq<string> {
    if routes == [] then [] else Gather(RoutedMethods(routes[..|routes| - 1]), routes[|routes| - 1].methods)
  }

  method GatewayModuleUpstreams(mods: seq<Module>, on: seq<string>, chain: int)
    returns (extra: seq<Upstream>, ignoreOnOthers: seq<string>)
    ensures extra == RouteUpstreams(chain, Routes(mods, on, chain))
    ensures ignoreOnOthers == RoutedMethods(Routes(mods, on, chain))
  {
    extra, ignoreOnOthers := [], [];
    for i := 0 to |on|
      invariant extra == RouteUpstreams(chain, Routes(mods, on[..i], chain))
      invariant ignoreOnOthers == RoutedMethods(Routes(mods, on[..i], chain))
    {
      assert on[..i + 1][..i] == on[..i];
      var found := ModuleByID(mods, on[i]);
      if found.None? || !found.value.placement.OnGateway? || !Applies(found.value, chain, "") || chain !in found.value.routes {
        assert Routes(mods, on[..i + 1], chain) == Routes(mods, on[..i], chain);
        continue;
      }
      extra, ignoreOnOthers := AddRoutes(chain, extra, ignoreOnOthers, Routes(mods, on[..i], chain), found.value.routes[chain]);
    }
    assert on[..|on|] == on;
  }

  /** The inner loops of gatewayModuleUpstreams, for the routes of one module. */
  method AddRoutes(chain: int, extra0: seq<Upstream>, ignore0: seq<string>, ghost before: seq<Route>, routes: seq<Route>)
    returns (extra: seq<Upstream>, ignoreOnOthers: seq<string>)
    requires extra0 == RouteUpstreams(chain, before) && ignore0 == RoutedMethods(before)
    ensures extra == RouteUpstreams(chain, before + routes)
    ensures ignoreOnOthers == RoutedMethods(before + routes)
  {
    extra, ignoreOnOthers := extra0, ignore0;
    assert before + routes[..0] == before;
    for k := 0 to |routes|
      invariant extra == RouteUpstreams(chain, before + routes[..k])
      invariant ignoreOnOthers == RoutedMethods(before + routes[..k])
    {
      OneMoreRoute(before, routes, k);
      extra, ignoreOnOthers := AddRoute(chain, extra, ignoreOnOthers, before + routes[..k], routes[k]);
    }
    assert before + routes[..|routes|] == before + routes;
  }

  lemma OneMoreRoute(before: seq<Route>, routes: seq<Route>, k: nat)
    requires k < |routes|
    ensures before + routes[..k + 1] == before + routes[..k] + [routes[k]]
  {
  }

  method AddRoute(chain: int, extra0: seq<Upstream>, ignore0: seq<string>, ghost before: seq<Route>, r: Route)
    returns (extra: seq<Upstream>, ignoreOnOthers: seq<string>)
    requires extra0 == RouteUpstreams(chain, before) && ignore0 == RoutedMethods(before)
    ensures extra == RouteUpstreams(chain, before + [r])
    ensures ignoreOnOthers == RoutedMethods(before + [r])
  {
    extra := extra0 + [RouteUpstream(chain, r)];
    ignoreOnOthers := GatherInto(ignore0, r.methods);
  }

  method GatherInto(sofar: seq<string>, methods: seq<string>) returns (all: seq<string>)
    ensures all == Gather(sofar, methods)
  {
    all := sofar;
    for n := 0 to |methods|
      invariant all == Gather(sofar, methods[..n])
    {
      assert methods[..n + 1][..n] == methods[..n];
      if methods[n] !in all {
        all := all + [methods[n]];
      }
    }
    assert methods[..|methods|] == methods;
  }

  /** The upstreams of a chain as they are rendered. */
  function Rendered(ups: seq<Upstream>, extra: seq<Upstream>, ignoreOnOthers: seq<string>): (out: seq<Upstream>)
    ensures |out| == |ups| + |extra|
    ensures forall i :: 0 <= i < |ups| ==>
              out[i] == ups[i].(ignore := if extra == [] then ups[i].ignore else ups[i].ignore + ignoreOnOthers)
    ensures forall i :: |ups| <= i < |out| ==> out[i] == extra[i - |ups|]
  {
    if extra == [] then ups
    else seq(|ups|, i requires 0 <= i < |ups| => ups[i].(ignore := ups[i].ignore + ignoreOnOthers)) + extra
  }

  // Which routes there are.

  /** The first module with this id. */
  ghost predicate IsNamed(mods: seq<Module>, id: string, m: int) {
    0 <= m < |mods| && mods[m].id == id && forall k :: 0 <= k < m ==> mods[k].id != id
  }

  lemma {:induction false} ModuleByIDExactly(mods: seq<Module>, id: string)
    ensures ModuleByID(mods, id).Some? <==> exists m :: IsNamed(mods, id, m)
    ensures forall m :: IsNamed(mods, id, m) ==> ModuleByID(mods, id) == Some(mods[m])
  {
    if mods != [] && mods[0].id != id {
      ModuleByIDExactly(mods[1..], id);
      forall m ensures IsNamed(mods, id, m) <==> m > 0 && IsNamed(mods[1..], id, m - 1) {
        if m > 0 && IsNamed(mods[1..], id, m - 1) {
          forall k | 0 <= k < m ensures mods[k].id != id {
            assert k > 0 ==> mods[k] == mods[1..][k - 1];
          }
        }
      }
      if m :| IsNamed(mods[1..], id, m) {
        assert IsNamed(mods, id, m + 1);
      }
    } else if mods != [] {
      assert IsNamed(mods, id, 0);
    }
  }

  /** A module that is on brings a route to a chain: it is a gateway module there, no client being named, and lists the route. */
  ghost predicate Brings(mods: seq<Module>, m: int, chain: int, r: Route) {
    && 0 <= m < |mods| && mods[m].placement == OnGateway && chain !in mods[m].unsupported
    && (mods[m].chains == [] || chain in mods[m].chains) && (mods[m].clients == [] || "" in mods[m].clients)
    && chain in mods[m].routes && r in mods[m].routes[chain]
  }

  /** The routes of a chain are exactly those that the modules that are on bring. */
  lemma {:induction false} RoutesExactly(mods: seq<Module>, on: seq<string>, chain: int, r: Route)
    ensures r in Routes(mods, on, chain) <==> exists i, m :: 0 <= i < |on| && IsNamed(mods, on[i], m) && Brings(mods, m, chain, r)
  {
    if on != [] {
      var init, last := on[..|on| - 1], on[|on| - 1];
      RoutesExactly(mods, init, chain, r);
      ModuleByIDExactly(mods, last);
      assert forall i :: 0 <= i < |init| ==> init[i] == on[i];
      assert r in RoutesOf(mods, last, chain) <==> exists m :: IsNamed(mods, last, m) && Brings(mods, m, chain, r);
    }
  }

  // What the lists mean.

  lemma {:induction false} GatherExactly(sofar: seq<string>, xs: seq<string>)
    ensures forall x :: x in Gather(sofar, xs) <==> x in sofar || x in xs
  {
    if xs != [] {
      GatherExactly(sofar, xs[..|xs| - 1]);
      assert xs == xs[..|xs| - 1] + [xs[|xs| - 1]];
    }
  }

  /** The methods some route lists are exactly the routed ones. */
  lemma {:induction false} RoutedExactly(routes: seq<Route>, m: string)
    ensures m in RoutedMethods(routes) <==> exists i :: 0 <= i < |routes| && m in routes[i].methods
  {
    if routes != [] {
      var init := routes[..|routes| - 1];
      RoutedExactly(init, m);
      GatherExactly(RoutedMethods(init), routes[|routes| - 1].methods);
      if i :| 0 <= i < |init| && m in init[i].methods {
        assert routes[i] == init[i];
      }
    }
  }

  /** Whether the gateway has a path of its own for x on the chain. */
  predicate Routed(routes: seq<Route>, x: string) {
    exists i :: 0 <= i < |routes| && Listed(routes[i].methods, x)
  }

  lemma ListedMeans(patterns: seq<string>, x: string)
    ensures Listed(patterns, x) <==> exists p :: p in patterns && Matches(p, x)
  {
    if p :| p in patterns && Matches(p, x) {
      var i :| 0 <= i < |patterns| && patterns[i] == p;
    }
  }

  lemma RoutedMethodsList(routes: seq<Route>, x: string)
    ensures Listed(RoutedMethods(routes), x) <==> Routed(routes, x)
  {
    var all := RoutedMethods(routes);
    ListedMeans(all, x);
    if p :| p in all && Matches(p, x) {
      RoutedExactly(routes, p);
      var i :| 0 <= i < |routes| && p in routes[i].methods;
      ListedMeans(routes[i].methods, x);
    }
    if i :| 0 <= i < |routes| && Listed(routes[i].methods, x) {
      ListedMeans(routes[i].methods, x);
      var p :| p in routes[i].methods && Matches(p, x);
      RoutedExactly(routes, p);
    }
  }

  lemma ListedConcat(a: seq<string>, b: seq<string>, x: string)
    ensures Listed(a + b, x) <==> Listed(a, x) || Listed(b, x)
  {
    ListedMeans(a + b, x);
    ListedMeans(a, x);
    ListedMeans(b, x);
  }

  /** A route serves what it lists and nothing else. */
  lemma RouteServesItsMethodsOnly(chain: int, r: Route, x: string)
    ensures Serves(RouteUpstream(chain, r), x) <==> Listed(r.methods, x)
  {
    assert Matches("*", x);
    assert Listed(["*"], x) by { assert ["*"][0] == "*"; }
  }

  /** On every rendered chain: a route serves its methods, another upstream what it served before less what is routed. */
  lemma WhoServes(chain: int, ups: seq<Upstream>, routes: seq<Route>, i: nat, x: string)
    requires i < |ups| + |routes| && (i < |ups| ==> ups[i].allow == [])
    ensures Serves(Rendered(ups, RouteUpstreams(chain, routes), RoutedMethods(routes))[i], x) <==>
            if i < |ups| then Serves(ups[i], x) && !Routed(routes, x) else Listed(routes[i - |ups|].methods, x)
  {
    if i < |ups| {
      RoutedMethodsList(routes, x);
      ListedConcat(ups[i].ignore, RoutedMethods(routes), x);
    } else {
      RouteServesItsMethodsOnly(chain, routes[i - |ups|], x);
    }
  }

  /** A chain's upstreams with both kinds of module applied. */
  function Exposed(mods: seq<Module>, on: seq<string>, tier: Tier, chain: int, ups: seq<Upstream>, wires: seq<Option<Wire>>, anyModules: bool): seq<Upstream> {
    var closed := seq(|ups|, i requires 0 <= i < |ups| => Closed(mods, tier, ups[i], wires, i, anyModules));
    var routes := Routes(mods, on, chain);
    Rendered(closed, RouteUpstreams(chain, routes), RoutedMethods(routes))
  }

  /** Exactly which upstream of a rendered chain serves which method. */
  lemma ServingExactly(mods: seq<Module>, on: seq<string>, tier: Tier, chain: int, ups: seq<Upstream>, wires: seq<Option<Wire>>, anyModules: bool, i: nat, x: string)
    requires WellFormed(mods) && forall k :: 0 <= k < |ups| ==> ups[k].allow == []
    requires i < |ups| + |Routes(mods, on, chain)|
    ensures Serves(Exposed(mods, on, tier, chain, ups, wires, anyModules)[i], x) <==>
            if i < |ups| then !ClosedOn(mods, tier, ups[i], wires, i, anyModules, x) && !Routed(Routes(mods, on, chain), x)
            else Listed(Routes(mods, on, chain)[i - |ups|].methods, x)
  {
    var closed := seq(|ups|, i requires 0 <= i < |ups| => Closed(mods, tier, ups[i], wires, i, anyModules));
    WhoServes(chain, closed, Routes(mods, on, chain), i, x);
    if i < |ups| {
      IgnoresCloseExactly(mods, tier, ups[i], wires, i, anyModules, x);
    }
  }

  /** A method neither routed nor in a node module's namespace goes where it always went. */
  lemma OrdinaryMethodsUnaffected(mods: seq<Module>, on: seq<string>, tier: Tier, chain: int, ups: seq<Upstream>, wires: seq<Option<Wire>>, anyModules: bool, i: nat, x: string)
    requires WellFormed(mods) && forall k :: 0 <= k < |ups| ==> ups[k].allow == []
    requires i < |ups| + |Routes(mods, on, chain)|
    requires !Routed(Routes(mods, on, chain), x)
    requires forall k :: 0 <= k < |mods| && mods[k].placement.OnNode? ==> !InNamespace(mods[k], x)
    ensures Serves(Exposed(mods, on, tier, chain, ups, wires, anyModules)[i], x) <==> i < |ups|
  {
    ServingExactly(mods, on, tier, chain, ups, wires, anyModules, i, x);
    if i < |ups| {
      ClosedInNamespace(mods, tier, ups[i], wires, i, anyModules, x);
    }
  }

  /** A stream method of a node module is served by no upstream, unless a route lists it. */
  lemma StreamsNeedARoute(mods: seq<Module>, on: seq<string>, tier: Tier, chain: int, ups: seq<Upstream>, wires: seq<Option<Wire>>, anyModules: bool, i: nat, k: nat, x: string)
    requires WellFormed(mods) && forall k :: 0 <= k < |ups| ==> ups[k].allow == []
    requires i < |ups| + |Routes(mods, on, chain)|
    requires k < |mods| && mods[k].placement.OnNode? && HasClass(mods[k], x, Stream) && Kept(mods[k], wires, anyModules)
    requires Serves(Exposed(mods, on, tier, chain, ups, wires, anyModules)[i], x)
    ensures i >= |ups| && Listed(Routes(mods, on, chain)[i - |ups|].methods, x)
  {
    ServingExactly(mods, on, tier, chain, ups, wires, anyModules, i, x);
    if i < |ups| {
      ExposureByClass(mods, tier, ups[i].(allow := []), wires, i, anyModules, k, x, Stream);
      IgnoresCloseExactly(mods, tier, ups[i], wires, i, anyModules, x);
    }
  }
}
