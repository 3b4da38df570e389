/**
 Rendering a gateway's upstreams under ids. The gateway keys every upstream by
 its id and would silently shadow a second one, so an id met before is refused.
 */
module GatewayIds {
  import opened Wrappers
  import opened Decimal
  import opened Spaces
  import opened ModuleRouting
  import opened GatewayRoutes

  datatype Network = Network(chain: int, upstreams: seq<Upstream>)

  datatype Row = Row(id: string, endpoint: string, chain: int, recentOnly: bool, fallback: bool, ignore: seq<string>, allow: seq<string>)

  datatype RenderError =
    | NoNetworks
    | OnTwice(id: string)
    | NotAModule(id: string)
    | NotAGateway(id: string)
    | AppliesNowhere(id: string)
    | InvalidChain(chain: int)
    | ChainTwice(chain: int)
    | NoUpstreams(chain: int)
    | NoEndpoint(chain: int, pos: nat)
    | BadScheme(chain: int, endpoint: string)
    | DuplicateId(id: string)

  /** GeneratedUpstreamID, over whatever readable tag lies in the middle. */
  function GeneratedID(chain: int, tag: string, pos: nat): string {
    Signed(chain) + "-" + tag + "-" + Itoa(pos)
  }

  /** GeneratedUpstreamID as a function of chain, endpoint, whether it is local, and position. */
  type Generator = (int, string, bool, nat) -> string

  const SCHEMES := ["http://", "https://", "ws://", "wss://"]

  predicate ValidScheme(endpoint: string) {
    exists p :: p in SCHEMES && p <= endpoint
  }

  predicate AnyLocal(ups: seq<Upstream>) {
    exists i :: 0 <= i < |ups| && ups[i].local
  }

  /** What is rendered for the i-th upstream of a chain that has configured of its own. generate names one left blank. */
  function RowOf(chain: int, ups: seq<Upstream>, i: nat, hasLocal: bool, configured: nat, generate: Generator): Row
    requires i < |ups|
  {
    var u, endpoint := ups[i], TrimSpace(ups[i].endpoint);
    Row(if u.id == "" then generate(chain, endpoint, u.local, i + 1) else u.id,
        endpoint, chain, u.recentOnly, !u.local && hasLocal && i < configured, u.ignore, u.allow)
  }

  /** The rows of the first k upstreams of a chain. */
  function RowsOf(chain: int, ups: seq<Upstream>, k: nat, hasLocal: bool, configured: nat, generate: Generator): (rows: seq<Row>)
    requires k <= |ups|
    ensures |rows| == k
  {
    if k == 0 then []
    else RowsOf(chain, ups, k - 1, hasLocal, configured, generate) + [RowOf(chain, ups, k - 1, hasLocal, configured, generate)]
  }

  /** The upstreams of one network, its modules' routes after its own. */
  function WithRoutes(mods: seq<Module>, on: seq<string>, n: Network): seq<Upstream> {
    var routes := Routes(mods, on, n.chain);
    Rendered(n.upstreams, RouteUpstreams(n.chain, routes), RoutedMethods(routes))
  }

  /** The first k rows of a network. */
  function FirstRows(mods: seq<Module>, on: seq<string>, n: Network, generate: Generator, k: nat): (rows: seq<Row>)
    requires k <= |WithRoutes(mods, on, n)|
  {
    RowsOf(n.chain, WithRoutes(mods, on, n), k, AnyLocal(n.upstreams), |n.upstreams|, generate)
  }

  function NetworkRows(mods: seq<Module>, on: seq<string>, n: Network, generate: Generator): (rows: seq<Row>) {
    FirstRows(mods, on, n, generate, |WithRoutes(mods, on, n)|)
  }

  /** How one network is rendered, for a gateway with these modules on. */
  function Renderer(mods: seq<Module>, on: seq<string>, generate: Generator): Network -> seq<Row> {
    n => NetworkRows(mods, on, n, generate)
  }

  function AllRows(nets: seq<Network>, rows: Network -> seq<Row>): seq<Row> {
    if nets == [] then [] else AllRows(nets[..|nets| - 1], rows) + rows(nets[|nets| - 1])
  }

  /** Each row's id is new: not among those seen, nor carried by a row before it. */
  predicate Fresh(rows: seq<Row>, seen: set<string>) {
    rows == [] || (Fresh(rows[..|rows| - 1], seen) && rows[|rows| - 1].id !in seen + IdsOf(rows[..|rows| - 1]))
  }

  function IdsOf(rows: seq<Row>): set<string> {
    if rows == [] then {} else IdsOf(rows[..|rows| - 1]) + {rows[|rows| - 1].id}
  }

  predicate EndpointOk(u: Upstream) {
    ValidScheme(TrimSpace(u.endpoint))
  }

  predicate EndpointsOk(ups: seq<Upstream>, k: nat)
    requires k <= |ups|
  {
    k == 0 || (EndpointsOk(ups, k - 1) && EndpointOk(ups[k - 1]))
  }

  lemma {:induction false} EndpointsGrow(ups: seq<Upstream>, i: nat, k: nat)
    requires i <= k <= |ups|
    ensures EndpointsOk(ups, k) ==> EndpointsOk(ups, i)
  {
    if i < k {
      EndpointsGrow(ups, i, k - 1);
    }
  }

  predicate NetworkOk(mods: seq<Module>, on: seq<string>, n: Network) {
    n.upstreams != [] && EndpointsOk(WithRoutes(mods, on, n), |WithRoutes(mods, on, n)|)
  }

  /** Which networks can be rendered at all. */
  function Fit(mods: seq<Module>, on: seq<string>): Network -> bool {
    n => NetworkOk(mods, on, n)
  }

  function Chains(nets: seq<Network>): set<int> {
    set i | 0 <= i < |nets| :: nets[i].chain
  }

  /** Whether one more network can be rendered after others. */
  predicate CanFollow(before: seq<Network>, n: Network, fit: Network -> bool, rows: Network -> seq<Row>) {
    n.chain > 0 && n.chain !in Chains(before) && fit(n) && Fresh(rows(n), IdsOf(AllRows(before, rows)))
  }

  predicate Renderable(nets: seq<Network>, fit: Network -> bool, rows: Network -> seq<Row>) {
    nets == [] || (Renderable(nets[..|nets| - 1], fit, rows) && CanFollow(nets[..|nets| - 1], nets[|nets| - 1], fit, rows))
  }

  // What may be refused before any network is looked at.

  predicate AppliesSomewhere(m: Module, nets: seq<Network>) {
    exists k :: 0 <= k < |nets| && Applies(m, nets[k].chain, "")
  }

  /** What is wrong with a module that is on, other than being on twice. */
  function Misfit(mods: seq<Module>, id: string, nets: seq<Network>): Option<RenderError> {
    match ModuleByID(mods, id)
    case None => Some(NotAModule(id))
    case Some(m) =>
      if !m.placement.OnGateway? then Some(NotAGateway(id))
      else if !AppliesSomewhere(m, nets) then Some(AppliesNowhere(id))
      else None
  }

  /** The modules that are on are gateway modules with a chain to apply to, each on once. */
  predicate ModulesFit(mods: seq<Module>, on: seq<string>, nets: seq<Network>) {
    && (forall i :: 0 <= i < |on| ==> Misfit(mods, on[i], nets).None?)
    && (forall i, j :: 0 <= i < j < |on| ==> on[i] != on[j])
  }

  /** ValidateGatewayModules. */
  method ValidateModules(mods: seq<Module>, on: seq<string>, nets: seq<Network>) returns (bad: Option<RenderError>)
    ensures bad.None? <==> ModulesFit(mods, on, nets)
    ensures bad.Some? ==> exists i :: 0 <= i < |on| && ModulesFit(mods, on[..i], nets)
                                      && (if on[i] in on[..i] then bad.value == OnTwice(on[i]) else bad == Misfit(mods, on[i], nets))
  {
    var seen: set<string> := {};
    for i := 0 to |on|
      invariant seen == set id | id in on[..i]
      invariant ModulesFit(mods, on[..i], nets)
    {
      if on[i] in seen {
        return Some(OnTwice(on[i]));
      }
      assert on[i] !in on[..i];
      seen := seen + {on[i]};
      var misfit := CheckModule(mods, on[i], nets);
      if misfit.Some? {
        return misfit;
      }
    }
    assert on[..|on|] == on;
    return None;
  }

  method CheckModule(mods: seq<Module>, id: string, nets: seq<Network>) returns (bad: Option<RenderError>)
    ensures bad == Misfit(mods, id, nets)
    ensures bad.Some? ==> bad.value.NotAModule? || bad.value.NotAGateway? || bad.value.AppliesNowhere?
  {
    var found := ModuleByID(mods, id);
    if found.None? {
      return Some(NotAModule(id));
    }
    if !found.value.placement.OnGateway? {
      return Some(NotAGateway(id));
    }
    for k := 0 to |nets|
      invariant forall h :: 0 <= h < k ==> !Applies(found.value, nets[h].chain, "")
    {
      if Applies(found.value, nets[k].chain, "") {
        return None;
      }
    }
    return Some(AppliesNowhere(id));
  }

  /** RenderGatewayConfig, but for its TLS settings and ports. */
  method RenderGateway(mods: seq<Module>, on: seq<string>, nets: seq<Network>, generate: Generator)
    returns (r: Result<seq<Row>, RenderError>)
    ensures r.Ok? <==> nets != [] && ModulesFit(mods, on, nets) && Renderable(nets, Fit(mods, on), Renderer(mods, on, generate))
    ensures r.Ok? ==> r.value == AllRows(nets, Renderer(mods, on, generate))
    ensures r.Err? && r.error.DuplicateId? <==> ModulesFit(mods, on, nets) && DuplicateIn(mods, on, nets, generate)
  {
    if |nets| == 0 {
      return Err(NoNetworks);
    }
    var bad := ValidateModules(mods, on, nets);
    if bad.Some? {
      return Err(bad.value);
    }
    r := Render(mods, on, nets, generate);
  }

  /** Its loop over the networks. */
  method Render(mods: seq<Module>, on: seq<string>, nets: seq<Network>, generate: Generator)
    returns (r: Result<seq<Row>, RenderError>)
    ensures r.Ok? <==> Renderable(nets, Fit(mods, on), Renderer(mods, on, generate))
    ensures r.Ok? ==> r.value == AllRows(nets, Renderer(mods, on, generate))
    ensures r.Err? && r.error.DuplicateId? <==> DuplicateIn(mods, on, nets, generate)
  {
    var rows: seq<Row> := [];
    var seenChains: set<int> := {};
    var seenIDs: set<string> := {};
    ghost var fit, render := Fit(mods, on), Renderer(mods, on, generate);
    for k := 0 to |nets|
      invariant Renderable(nets[..k], fit, render)
      invariant seenChains == Chains(nets[..k])
      invariant rows == AllRows(nets[..k], render) && seenIDs == IdsOf(rows)
    {
      var n := nets[k];
      NextNetwork(nets, k, fit, render);
      DuplicateHere(mods, on, nets, generate, k);
      assert fit(n) == NetworkOk(mods, on, n) && render(n) == NetworkRows(mods, on, n, generate);
      if n.chain <= 0 {
        return Err(InvalidChain(n.chain));
      }
      if n.chain in seenChains {
        return Err(ChainTwice(n.chain));
      }
      seenChains := seenChains + {n.chain};
      if |n.upstreams| == 0 {
        return Err(NoUpstreams(n.chain));
      }
      var added := RenderNetwork(mods, on, n, generate, seenIDs);
      assert added.Ok? <==> fit(n) && Fresh(render(n), IdsOf(AllRows(nets[..k], render)));
      if added.Err? {
        return Err(added.error);
      }
      rows := rows + added.value;
      seenIDs := IdsOf(rows);
    }
    assert nets[..|nets|] == nets;
    NoDuplicate(mods, on, nets, generate);
    r := Ok(rows);
  }

  /** Some id among the first i + 1 has been seen, or met before there, and every endpoint up to it can be dialled. */
  predicate ClashAt(chain: int, ups: seq<Upstream>, hasLocal: bool, configured: nat, generate: Generator, seen: set<string>, i: nat)
    requires i < |ups|
  {
    EndpointsOk(ups, i + 1) && !Fresh(RowsOf(chain, ups, i + 1, hasLocal, configured, generate), seen)
  }

  predicate RowsClash(chain: int, ups: seq<Upstream>, hasLocal: bool, configured: nat, generate: Generator, seen: set<string>) {
    exists i :: 0 <= i < |ups| && ClashAt(chain, ups, hasLocal, configured, generate, seen, i)
  }

  predicate ClashIn(mods: seq<Module>, on: seq<string>, n: Network, generate: Generator, seen: set<string>) {
    n.upstreams != [] && RowsClash(n.chain, WithRoutes(mods, on, n), AnyLocal(n.upstreams), |n.upstreams|, generate, seen)
  }

  /** A network on a new chain clashes, after others that can be rendered. */
  predicate DuplicateAt(mods: seq<Module>, on: seq<string>, nets: seq<Network>, generate: Generator, k: nat)
    requires k < |nets|
  {
    && Renderable(nets[..k], Fit(mods, on), Renderer(mods, on, generate))
    && nets[k].chain > 0 && nets[k].chain !in Chains(nets[..k])
    && ClashIn(mods, on, nets[k], generate, IdsOf(AllRows(nets[..k], Renderer(mods, on, generate))))
  }

  predicate DuplicateIn(mods: seq<Module>, on: seq<string>, nets: seq<Network>, generate: Generator) {
    exists k :: 0 <= k < |nets| && DuplicateAt(mods, on, nets, generate, k)
  }

  /** A network that clashes is not fresh as a whole. */
  lemma ClashIsNotFresh(mods: seq<Module>, on: seq<string>, n: Network, generate: Generator, seen: set<string>)
    requires ClashIn(mods, on, n, generate, seen)
    ensures !Fresh(NetworkRows(mods, on, n, generate), seen)
  {
    var all := WithRoutes(mods, on, n);
    var i :| 0 <= i < |all| && ClashAt(n.chain, all, AnyLocal(n.upstreams), |n.upstreams|, generate, seen, i);
    RowsGrow(n.chain, all, i + 1, |all|, AnyLocal(n.upstreams), |n.upstreams|, generate, seen);
  }

  /** Networks that can all be rendered have no duplicate. */
  lemma NoDuplicate(mods: seq<Module>, on: seq<string>, nets: seq<Network>, generate: Generator)
    requires Renderable(nets, Fit(mods, on), Renderer(mods, on, generate))
    ensures !DuplicateIn(mods, on, nets, generate)
  {
    assert nets[..|nets|] == nets;
    forall k | 0 <= k < |nets| ensures !DuplicateAt(mods, on, nets, generate, k) {
      NotBefore(mods, on, nets, generate, k, |nets|);
    }
  }

  /** Each network is fit, on a chain of its own. */
  predicate AllFit(nets: seq<Network>, fit: Network -> bool) {
    && (forall i :: 0 <= i < |nets| ==> nets[i].chain > 0 && fit(nets[i]))
    && (forall i, j :: 0 <= i < j < |nets| ==> nets[i].chain != nets[j].chain)
  }

  /** Each network can be rendered by itself, on a chain of its own. */
  predicate EachFits(mods: seq<Module>, on: seq<string>, nets: seq<Network>) {
    AllFit(nets, Fit(mods, on))
  }

  /** A duplicate id is the only thing that keeps networks from being rendered when each fits. */
  lemma SucceedsExactly(mods: seq<Module>, on: seq<string>, nets: seq<Network>, generate: Generator)
    ensures Renderable(nets, Fit(mods, on), Renderer(mods, on, generate)) <==> EachFits(mods, on, nets) && !DuplicateIn(mods, on, nets, generate)
  {
    assert nets[..|nets|] == nets;
    if EachFits(mods, on, nets) {
      RenderedOrDuplicate(mods, on, nets, |nets|, generate);
    }
    if Renderable(nets, Fit(mods, on), Renderer(mods, on, generate)) {
      RenderableExactly(nets, Fit(mods, on), Renderer(mods, on, generate));
      NoDuplicate(mods, on, nets, generate);
    }
  }

  lemma {:induction false} RenderedOrDuplicate(mods: seq<Module>, on: seq<string>, nets: seq<Network>, k: nat, generate: Generator)
    requires k <= |nets| && EachFits(mods, on, nets)
    ensures Renderable(nets[..k], Fit(mods, on), Renderer(mods, on, generate)) || DuplicateIn(mods, on, nets, generate)
  {
    if k > 0 {
      RenderedOrDuplicate(mods, on, nets, k - 1, generate);
      if Renderable(nets[..k - 1], Fit(mods, on), Renderer(mods, on, generate)) {
        FollowsOrDuplicates(mods, on, nets, k - 1, generate);
      }
    }
  }

  lemma FollowsOrDuplicates(mods: seq<Module>, on: seq<string>, nets: seq<Network>, k: nat, generate: Generator)
    requires k < |nets| && EachFits(mods, on, nets) && Renderable(nets[..k], Fit(mods, on), Renderer(mods, on, generate))
    ensures Renderable(nets[..k + 1], Fit(mods, on), Renderer(mods, on, generate)) || DuplicateAt(mods, on, nets, generate, k)
  {
    var fit, rows := Fit(mods, on), Renderer(mods, on, generate);
    NextNetwork(nets, k, fit, rows);
    assert nets[k].chain !in Chains(nets[..k]) && fit(nets[k]) == NetworkOk(mods, on, nets[k]);
    assert rows(nets[k]) == NetworkRows(mods, on, nets[k], generate);
    if !Fresh(rows(nets[k]), IdsOf(AllRows(nets[..k], rows))) {
      ClashesAtTheEnd(mods, on, nets[k], generate, IdsOf(AllRows(nets[..k], rows)));
    }
  }

  lemma ClashesAtTheEnd(mods: seq<Module>, on: seq<string>, n: Network, generate: Generator, seen: set<string>)
    requires NetworkOk(mods, on, n) && !Fresh(NetworkRows(mods, on, n, generate), seen)
    ensures ClashIn(mods, on, n, generate, seen)
  {
    var all := WithRoutes(mods, on, n);
    assert ClashAt(n.chain, all, AnyLocal(n.upstreams), |n.upstreams|, generate, seen, |all| - 1);
  }

  /** If a network cannot follow those before it, it is the only one that can be the duplicate. */
  lemma DuplicateHere(mods: seq<Module>, on: seq<string>, nets: seq<Network>, generate: Generator, k: nat)
    requires k < |nets| && Renderable(nets[..k], Fit(mods, on), Renderer(mods, on, generate))
    ensures !Renderable(nets[..k + 1], Fit(mods, on), Renderer(mods, on, generate)) ==>
              (DuplicateIn(mods, on, nets, generate) <==> DuplicateAt(mods, on, nets, generate, k))
  {
    forall h | 0 <= h < k ensures !DuplicateAt(mods, on, nets, generate, h) {
      NotBefore(mods, on, nets, generate, h, k);
    }
    forall h | k < h < |nets| && DuplicateAt(mods, on, nets, generate, h)
      ensures Renderable(nets[..k + 1], Fit(mods, on), Renderer(mods, on, generate))
    {
      PrefixOfPrefix(nets, k + 1, h);
      RenderablePrefix(nets[..h], k + 1, Fit(mods, on), Renderer(mods, on, generate));
    }
  }

  lemma NotBefore(mods: seq<Module>, on: seq<string>, nets: seq<Network>, generate: Generator, h: nat, k: nat)
    requires h < k <= |nets| && Renderable(nets[..k], Fit(mods, on), Renderer(mods, on, generate))
    ensures !DuplicateAt(mods, on, nets, generate, h)
  {
    PrefixOfPrefix(nets, h + 1, k);
    RenderablePrefix(nets[..k], h + 1, Fit(mods, on), Renderer(mods, on, generate));
    OneMoreSlice(nets, h);
    if DuplicateAt(mods, on, nets, generate, h) {
      ClashIsNotFresh(mods, on, nets[h], generate, IdsOf(AllRows(nets[..h], Renderer(mods, on, generate))));
    }
  }

  lemma PrefixOfPrefix(nets: seq<Network>, h: nat, k: nat)
    requires h <= k <= |nets|
    ensures nets[..k][..h] == nets[..h]
  {
  }

  lemma NextNetwork(nets: seq<Network>, k: nat, fit: Network -> bool, rows: Network -> seq<Row>)
    requires k < |nets| && Renderable(nets[..k], fit, rows)
    ensures Renderable(nets[..k + 1], fit, rows) <==> CanFollow(nets[..k], nets[k], fit, rows)
    ensures Renderable(nets, fit, rows) ==> CanFollow(nets[..k], nets[k], fit, rows)
    ensures AllRows(nets[..k + 1], rows) == AllRows(nets[..k], rows) + rows(nets[k])
    ensures Chains(nets[..k + 1]) == Chains(nets[..k]) + {nets[k].chain}
  {
    OneMoreSlice(nets, k);
    ChainsGrow(nets[..k], nets[k]);
    RenderablePrefix(nets, k + 1, fit, rows);
  }

  lemma OneMoreSlice(nets: seq<Network>, k: nat)
    requires k < |nets|
    ensures nets[..k + 1] == nets[..k] + [nets[k]]
  {
  }

  lemma ChainsGrow(nets: seq<Network>, n: Network)
    ensures Chains(nets + [n]) == Chains(nets) + {n.chain}
  {
    assert forall i :: 0 <= i < |nets| ==> (nets + [n])[i] == nets[i];
    assert (nets + [n])[|nets|] == n;
    assert forall c :: c in Chains(nets) ==> c in Chains(nets + [n]);
  }

  lemma {:induction false} RenderablePrefix(nets: seq<Network>, k: nat, fit: Network -> bool, rows: Network -> seq<Row>)
    requires k <= |nets|
    ensures Renderable(nets, fit, rows) ==> Renderable(nets[..k], fit, rows)
    decreases |nets|
  {
    if k < |nets| {
      RenderablePrefix(nets[..|nets| - 1], k, fit, rows);
      assert nets[..|nets| - 1][..k] == nets[..k];
    } else {
      assert nets[..k] == nets;
    }
  }

  /** Rows are fresh after others exactly when they are fresh once those are seen. */
  lemma {:induction false} FreshConcat(before: seq<Row>, rows: seq<Row>, seen: set<string>)
    ensures Fresh(before + rows, seen) <==> Fresh(before, seen) && Fresh(rows, seen + IdsOf(before))
    ensures IdsOf(before + rows) == IdsOf(before) + IdsOf(rows)
  {
    if rows == [] {
      assert before + rows == before;
    } else {
      var init, last := rows[..|rows| - 1], rows[|rows| - 1];
      FreshConcat(before, init, seen);
      assert before + rows == (before + init) + [last];
      assert (before + rows)[..|before + rows| - 1] == before + init;
    }
  }

  /** What being fresh means: no two rows carry one id. */
  lemma {:induction false} FreshExactly(rows: seq<Row>, seen: set<string>)
    ensures Fresh(rows, seen) <==>
            && (forall i :: 0 <= i < |rows| ==> rows[i].id !in seen)
            && (forall i, j :: 0 <= i < j < |rows| ==> rows[i].id != rows[j].id)
    ensures forall id :: id in IdsOf(rows) <==> exists i :: 0 <= i < |rows| && rows[i].id == id
  {
    if rows != [] {
      var init, last := rows[..|rows| - 1], rows[|rows| - 1];
      FreshExactly(init, seen);
      assert forall i :: 0 <= i < |init| ==> init[i] == rows[i];
      forall id ensures id in IdsOf(rows) <==> exists i :: 0 <= i < |rows| && rows[i].id == id {
        if i :| 0 <= i < |init| && init[i].id == id {
          assert rows[i].id == id;
        }
      }
    }
  }

  /** One turn of the outer loop: the rows of one network, whose ids must be new. */
  method RenderNetwork(mods: seq<Module>, on: seq<string>, n: Network, generate: Generator, seenIDs: set<string>)
    returns (r: Result<seq<Row>, RenderError>)
    requires n.upstreams != []
    ensures r.Ok? <==> NetworkOk(mods, on, n) && Fresh(NetworkRows(mods, on, n, generate), seenIDs)
    ensures r.Ok? ==> r.value == NetworkRows(mods, on, n, generate)
    ensures r.Err? && r.error.DuplicateId? <==> ClashIn(mods, on, n, generate, seenIDs)
  {
    var hasLocal := false;
    for i := 0 to |n.upstreams|
      invariant !hasLocal && forall j :: 0 <= j < i ==> !n.upstreams[j].local
    {
      if n.upstreams[i].local {
        hasLocal := true;
        break;
      }
    }
    var extra, ignoreOnOthers := GatewayModuleUpstreams(mods, on, n.chain);
    var ups := Rendered(n.upstreams, extra, ignoreOnOthers);
    r := RenderRows(n.chain, ups, hasLocal, |n.upstreams|, generate, seenIDs);
  }

  /** The inner loop, over the upstreams of one chain. */
  method RenderRows(chain: int, ups: seq<Upstream>, hasLocal: bool, configured: nat, generate: Generator, seenIDs: set<string>)
    returns (r: Result<seq<Row>, RenderError>)
    ensures r.Ok? <==> EndpointsOk(ups, |ups|) && Fresh(RowsOf(chain, ups, |ups|, hasLocal, configured, generate), seenIDs)
    ensures r.Ok? ==> r.value == RowsOf(chain, ups, |ups|, hasLocal, configured, generate)
    ensures r.Err? && r.error.DuplicateId? <==> RowsClash(chain, ups, hasLocal, configured, generate, seenIDs)
  {
    var rows: seq<Row> := [];
    var seen := seenIDs;
    for i := 0 to |ups|
      invariant rows == RowsOf(chain, ups, i, hasLocal, configured, generate)
      invariant Fresh(rows, seenIDs) && seen == seenIDs + IdsOf(rows)
      invariant EndpointsOk(ups, i)
    {
      var row := RowOf(chain, ups, i, hasLocal, configured, generate);
      var bad := CheckEndpoint(chain, ups[i], i + 1);
      if bad.Some? {
        RefusedThere(chain, ups, i, hasLocal, configured, generate, seenIDs);
        return Err(bad.value);
      }
      OneMoreRow(chain, ups, i, hasLocal, configured, generate, seenIDs);
      if row.id in seen {
        ClashesThere(chain, ups, i, hasLocal, configured, generate, seenIDs);
        return Err(DuplicateId(row.id));
      }
      assert EndpointsOk(ups, i + 1);
      seen := seen + {row.id};
      rows := rows + [row];
    }
    NoneBefore(chain, ups, |ups|, hasLocal, configured, generate, seenIDs);
    r := Ok(rows);
  }

  lemma OneMoreRow(chain: int, ups: seq<Upstream>, i: nat, hasLocal: bool, configured: nat, generate: Generator, seen: set<string>)
    requires i < |ups| && Fresh(RowsOf(chain, ups, i, hasLocal, configured, generate), seen)
    ensures var (rows, row) := (RowsOf(chain, ups, i, hasLocal, configured, generate), RowOf(chain, ups, i, hasLocal, configured, generate));
            && RowsOf(chain, ups, i + 1, hasLocal, configured, generate) == rows + [row]
            && (Fresh(RowsOf(chain, ups, i + 1, hasLocal, configured, generate), seen) <==> row.id !in seen + IdsOf(rows))
            && IdsOf(RowsOf(chain, ups, i + 1, hasLocal, configured, generate)) == IdsOf(rows) + {row.id}
  {
    FreshAfter(RowsOf(chain, ups, i, hasLocal, configured, generate), RowOf(chain, ups, i, hasLocal, configured, generate), seen);
  }

  lemma RefusedThere(chain: int, ups: seq<Upstream>, i: nat, hasLocal: bool, configured: nat, generate: Generator, seen: set<string>)
    requires i < |ups| && Fresh(RowsOf(chain, ups, i, hasLocal, configured, generate), seen) && !EndpointOk(ups[i])
    ensures !EndpointsOk(ups, |ups|) && !RowsClash(chain, ups, hasLocal, configured, generate, seen)
  {
    EndpointsGrow(ups, i + 1, |ups|);
    NoneBefore(chain, ups, i, hasLocal, configured, generate, seen);
  }

  lemma ClashesThere(chain: int, ups: seq<Upstream>, i: nat, hasLocal: bool, configured: nat, generate: Generator, seen: set<string>)
    requires i < |ups| && EndpointsOk(ups, i + 1) && !Fresh(RowsOf(chain, ups, i + 1, hasLocal, configured, generate), seen)
    ensures RowsClash(chain, ups, hasLocal, configured, generate, seen)
    ensures !Fresh(RowsOf(chain, ups, |ups|, hasLocal, configured, generate), seen)
  {
    RowsGrow(chain, ups, i + 1, |ups|, hasLocal, configured, generate, seen);
    assert ClashAt(chain, ups, hasLocal, configured, generate, seen, i);
  }

  /** Nothing clashes before the rows that are fresh, nor at an endpoint that is refused or after it. */
  lemma NoneBefore(chain: int, ups: seq<Upstream>, k: nat, hasLocal: bool, configured: nat, generate: Generator, seen: set<string>)
    requires k <= |ups| && Fresh(RowsOf(chain, ups, k, hasLocal, configured, generate), seen)
    requires k < |ups| ==> !EndpointsOk(ups, k + 1)
    ensures !RowsClash(chain, ups, hasLocal, configured, generate, seen)
  {
    forall i | 0 <= i < |ups| ensures !ClashAt(chain, ups, hasLocal, configured, generate, seen, i) {
      if i < k {
        FreshSoFar(chain, ups, i, k, hasLocal, configured, generate, seen);
      } else {
        EndpointsGrow(ups, k + 1, i + 1);
      }
    }
  }

  lemma FreshSoFar(chain: int, ups: seq<Upstream>, i: nat, k: nat, hasLocal: bool, configured: nat, generate: Generator, seen: set<string>)
    requires i < k <= |ups| && Fresh(RowsOf(chain, ups, k, hasLocal, configured, generate), seen)
    ensures !ClashAt(chain, ups, hasLocal, configured, generate, seen, i)
  {
    RowsGrow(chain, ups, i + 1, k, hasLocal, configured, generate, seen);
  }

  /** What the loop refuses about one endpoint. */
  method CheckEndpoint(chain: int, u: Upstream, pos: nat) returns (bad: Option<RenderError>)
    ensures bad.None? <==> EndpointOk(u)
    ensures bad.Some? ==> !bad.value.DuplicateId?
  {
    var endpoint := TrimSpace(u.endpoint);
    if endpoint == "" {
      return Some(NoEndpoint(chain, pos));
    }
    bad := if ValidScheme(endpoint) then None else Some(BadScheme(chain, endpoint));
  }

  /** One more row is fresh exactly when its id has not been seen. */
  lemma FreshAfter(rows: seq<Row>, row: Row, seen: set<string>)
    requires Fresh(rows, seen)
    ensures Fresh(rows + [row], seen) <==> row.id !in seen + IdsOf(rows)
    ensures IdsOf(rows + [row]) == IdsOf(rows) + {row.id}
  {
    assert (rows + [row])[..|rows|] == rows;
  }

  lemma {:induction false} RowsGrow(chain: int, ups: seq<Upstream>, i: nat, k: nat, hasLocal: bool, configured: nat, generate: Generator, seen: set<string>)
    requires i <= k <= |ups|
    ensures Fresh(RowsOf(chain, ups, k, hasLocal, configured, generate), seen) ==> Fresh(RowsOf(chain, ups, i, hasLocal, configured, generate), seen)
  {
    if i < k {
      RowsGrow(chain, ups, i, k - 1, hasLocal, configured, generate, seen);
      FreshConcat(RowsOf(chain, ups, k - 1, hasLocal, configured, generate), [RowOf(chain, ups, k - 1, hasLocal, configured, generate)], seen);
    }
  }

  /** Renderable, said of the networks all at once. */
  lemma {:induction false} RenderableExactly(nets: seq<Network>, fit: Network -> bool, rows: Network -> seq<Row>)
    ensures Renderable(nets, fit, rows) <==>
            AllFit(nets, fit) && Fresh(AllRows(nets, rows), {})
  {
    if nets != [] {
      var init, last := nets[..|nets| - 1], nets[|nets| - 1];
      assert nets == init + [last];
      RenderableExactly(init, fit, rows);
      FreshConcat(AllRows(init, rows), rows(last), {});
      assert {} + IdsOf(AllRows(init, rows)) == IdsOf(AllRows(init, rows));
      FitExactly(init, last, fit);
    }
  }

  lemma FitExactly(init: seq<Network>, last: Network, fit: Network -> bool)
    ensures AllFit(init + [last], fit) <==> AllFit(init, fit) && last.chain > 0 && fit(last) && last.chain !in Chains(init)
  {
    var nets := init + [last];
    assert nets[|init|] == last && forall i :: 0 <= i < |init| ==> nets[i] == init[i];
    assert forall i :: 0 <= i < |init| ==> init[i].chain in Chains(init);
  }

  lemma RowsAt(chain: int, ups: seq<Upstream>, k: nat, i: nat, hasLocal: bool, configured: nat, generate: Generator)
    requires i < k <= |ups|
    ensures RowsOf(chain, ups, k, hasLocal, configured, generate)[i] == RowOf(chain, ups, i, hasLocal, configured, generate)
  {
  }

  /** On a chain with any upstream of its own, one of them is not held back as a fallback; and a route never is. */
  lemma SomeoneServesFirst(mods: seq<Module>, on: seq<string>, n: Network, generate: Generator) returns (i: nat)
    requires n.upstreams != []
    ensures i < |n.upstreams| && |NetworkRows(mods, on, n, generate)| == |WithRoutes(mods, on, n)| >= |n.upstreams|
    ensures !NetworkRows(mods, on, n, generate)[i].fallback
    ensures forall j :: |n.upstreams| <= j < |WithRoutes(mods, on, n)| ==> !NetworkRows(mods, on, n, generate)[j].fallback
  {
    i := 0;
    if AnyLocal(n.upstreams) {
      i :| 0 <= i < |n.upstreams| && n.upstreams[i].local;
    }
    var all := WithRoutes(mods, on, n);
    RowsAt(n.chain, all, |all|, i, AnyLocal(n.upstreams), |n.upstreams|, generate);
    forall j | |n.upstreams| <= j < |all| ensures !NetworkRows(mods, on, n, generate)[j].fallback {
      RowsAt(n.chain, all, |all|, j, AnyLocal(n.upstreams), |n.upstreams|, generate);
    }
  }

  // What is rendered, row by row.

  /** A configured upstream's row: its own fields, what the routes take from it, and whether it only stands in for a local one. */
  lemma UpstreamRow(mods: seq<Module>, on: seq<string>, n: Network, generate: Generator, i: nat)
    requires i < |n.upstreams|
    ensures |NetworkRows(mods, on, n, generate)| == |n.upstreams| + |Routes(mods, on, n.chain)|
    ensures var (row, u, routes) := (NetworkRows(mods, on, n, generate)[i], n.upstreams[i], Routes(mods, on, n.chain));
            && row.id == (if u.id == "" then generate(n.chain, TrimSpace(u.endpoint), u.local, i + 1) else u.id)
            && row.endpoint == TrimSpace(u.endpoint) && row.chain == n.chain && row.recentOnly == u.recentOnly && row.allow == u.allow
            && (row.fallback <==> !u.local && exists j :: 0 <= j < |n.upstreams| && n.upstreams[j].local)
            && u.ignore <= row.ignore && forall x :: x in row.ignore[|u.ignore|..] <==> exists k :: 0 <= k < |routes| && x in routes[k].methods
  {
    var all, routes := WithRoutes(mods, on, n), Routes(mods, on, n.chain);
    RowsAt(n.chain, all, |all|, i, AnyLocal(n.upstreams), |n.upstreams|, generate);
    forall x ensures x in RoutedMethods(routes) <==> exists k :: 0 <= k < |routes| && x in routes[k].methods {
      RoutedExactly(routes, x);
    }
    assert (n.upstreams[i].ignore + RoutedMethods(routes))[|n.upstreams[i].ignore|..] == RoutedMethods(routes);
    if routes == [] {
      assert n.upstreams[i].ignore[|n.upstreams[i].ignore|..] == [];
    }
  }

  /** A route's row, after those: it serves its own methods only and stands in for nothing. */
  lemma RouteRow(mods: seq<Module>, on: seq<string>, n: Network, generate: Generator, j: nat)
    requires |n.upstreams| <= j < |n.upstreams| + |Routes(mods, on, n.chain)|
    ensures |NetworkRows(mods, on, n, generate)| == |n.upstreams| + |Routes(mods, on, n.chain)|
    ensures NetworkRows(mods, on, n, generate)[j] == RowFor(n.chain, Routes(mods, on, n.chain)[j - |n.upstreams|])
  {
    var all := WithRoutes(mods, on, n);
    RowOfRoute(n.chain, all, j, AnyLocal(n.upstreams), |n.upstreams|, generate, Routes(mods, on, n.chain)[j - |n.upstreams|]);
  }

  function RowFor(chain: int, r: Route): Row {
    Row(RouteID(chain, r.id), TrimSpace(r.endpoint), chain, false, false, ["*"], r.methods)
  }

  lemma RowOfRoute(chain: int, ups: seq<Upstream>, i: nat, hasLocal: bool, configured: nat, generate: Generator, r: Route)
    requires configured <= i < |ups| && ups[i] == RouteUpstream(chain, r)
    ensures RowsOf(chain, ups, |ups|, hasLocal, configured, generate)[i] == RowFor(chain, r)
  {
    RowsAt(chain, ups, |ups|, i, hasLocal, configured, generate);
    RouteIDIsSome(chain, r.id);
  }

  lemma RouteIDIsSome(chain: int, id: string)
    ensures RouteID(chain, id) != ""
  {
    assert |RouteID(chain, id)| == |Signed(chain)| + 5 + |id|;
  }

  /** How many rows the networks before the k-th have. */
  function RowsBefore(nets: seq<Network>, rows: Network -> seq<Row>, k: nat): nat
    requires k <= |nets|
  {
    if k == 0 then 0 else RowsBefore(nets, rows, k - 1) + |rows(nets[k - 1])|
  }

  /** All rows are the networks' rows, in their order. */
  lemma {:induction false} RowsInOrder(nets: seq<Network>, rows: Network -> seq<Row>, k: nat, i: nat)
    requires k < |nets| && i < |rows(nets[k])|
    ensures RowsBefore(nets, rows, k) + i < |AllRows(nets, rows)| && AllRows(nets, rows)[RowsBefore(nets, rows, k) + i] == rows(nets[k])[i]
  {
    var init := nets[..|nets| - 1];
    RowsOfFirst(init, rows, |init|);
    SameRowsBefore(nets, init, rows, k);
    assert init[..|init|] == init;
    if k < |init| {
      assert init[k] == nets[k];
      RowsInOrder(init, rows, k, i);
    }
  }

  lemma {:induction false} RowsOfFirst(nets: seq<Network>, rows: Network -> seq<Row>, k: nat)
    requires k <= |nets|
    ensures |AllRows(nets[..k], rows)| == RowsBefore(nets, rows, k)
  {
    if k > 0 {
      RowsOfFirst(nets, rows, k - 1);
      assert nets[..k][..k - 1] == nets[..k - 1];
    }
  }

  lemma {:induction false} SameRowsBefore(nets: seq<Network>, init: seq<Network>, rows: Network -> seq<Row>, k: nat)
    requires k <= |init| <= |nets| && init == nets[..|init|]
    ensures RowsBefore(nets, rows, k) == RowsBefore(init, rows, k)
  {
    if k > 0 {
      SameRowsBefore(nets, init, rows, k - 1);
      assert init[k - 1] == nets[k - 1];
    }
  }

  // What is asked of the modules and of each network.

  /** The module that is on can do something for this gateway: it exists, is for gateways, and one of the chains is for it. */
  ghost predicate CanBeOn(mods: seq<Module>, id: string, nets: seq<Network>) {
    exists m :: IsNamed(mods, id, m) && mods[m].placement == OnGateway && SomeChainFor(mods[m], nets)
  }

  ghost predicate SomeChainFor(m: Module, nets: seq<Network>) {
    exists k :: 0 <= k < |nets| && nets[k].chain !in m.unsupported && (m.chains == [] || nets[k].chain in m.chains) && (m.clients == [] || "" in m.clients)
  }

  lemma AppliesExactly(m: Module, nets: seq<Network>)
    ensures AppliesSomewhere(m, nets) <==> SomeChainFor(m, nets)
  {
    if k :| 0 <= k < |nets| && nets[k].chain !in m.unsupported && (m.chains == [] || nets[k].chain in m.chains) && (m.clients == [] || "" in m.clients) {
      assert Applies(m, nets[k].chain, "");
    }
  }

  /** What is wrong with a module: there is none of that name, the first of that name is not for gateways, or none of the chains is for it. */
  lemma MisfitExactly(mods: seq<Module>, id: string, nets: seq<Network>)
    ensures Misfit(mods, id, nets) == None <==> CanBeOn(mods, id, nets)
    ensures Misfit(mods, id, nets) == Some(NotAModule(id)) <==> forall m :: 0 <= m < |mods| ==> mods[m].id != id
    ensures Misfit(mods, id, nets) == Some(NotAGateway(id)) <==> exists m :: IsNamed(mods, id, m) && mods[m].placement != OnGateway
    ensures Misfit(mods, id, nets) == Some(AppliesNowhere(id)) <==>
            exists m :: IsNamed(mods, id, m) && mods[m].placement == OnGateway && !SomeChainFor(mods[m], nets)
  {
    ModuleByIDExactly(mods, id);
    match ModuleByID(mods, id)
    case Some(found) =>
      var m :| IsNamed(mods, id, m);
      AppliesExactly(mods[m], nets);
    case None =>
      NoneNamed(mods, id);
  }

  lemma NoneNamed(mods: seq<Module>, id: string)
    requires forall m :: !IsNamed(mods, id, m)
    ensures forall m :: 0 <= m < |mods| ==> mods[m].id != id
  {
    for k := 0 to |mods|
      invariant forall m :: 0 <= m < k ==> mods[m].id != id
    {
      assert !IsNamed(mods, id, k);
    }
  }

  /** An endpoint can be dialled when, trimmed, it begins as a URL over http or web sockets does. */
  lemma EndpointOkExactly(u: Upstream)
    ensures EndpointOk(u) <==>
            var e := TrimSpace(u.endpoint); "http://" <= e || "https://" <= e || "ws://" <= e || "wss://" <= e
  {
    var e := TrimSpace(u.endpoint);
    if p :| p in SCHEMES && p <= e {
      assert p == SCHEMES[0] || p == SCHEMES[1] || p == SCHEMES[2] || p == SCHEMES[3];
    }
    assert SCHEMES[0] in SCHEMES && SCHEMES[1] in SCHEMES && SCHEMES[2] in SCHEMES && SCHEMES[3] in SCHEMES;
  }

  ghost predicate AllDialled(ups: seq<Upstream>) {
    forall i :: 0 <= i < |ups| ==> EndpointOk(ups[i])
  }

  lemma {:induction false} EndpointsOkExactly(ups: seq<Upstream>, k: nat)
    requires k <= |ups|
    ensures EndpointsOk(ups, k) <==> AllDialled(ups[..k])
  {
    if k > 0 {
      EndpointsOkExactly(ups, k - 1);
      assert ups[..k] == ups[..k - 1] + [ups[k - 1]];
      DialledConcat(ups[..k - 1], [ups[k - 1]]);
    }
  }

  lemma DialledConcat(a: seq<Upstream>, b: seq<Upstream>)
    ensures AllDialled(a + b) <==> AllDialled(a) && AllDialled(b)
  {
    forall i | 0 <= i < |a| ensures (a + b)[i] == a[i] {
    }
    forall i | 0 <= i < |b| ensures (a + b)[|a| + i] == b[i] {
    }
  }

  lemma RenderedDialled(ups: seq<Upstream>, extra: seq<Upstream>, ignoreOnOthers: seq<string>)
    ensures AllDialled(Rendered(ups, extra, ignoreOnOthers)) <==> AllDialled(ups) && AllDialled(extra)
  {
    var all := Rendered(ups, extra, ignoreOnOthers);
    assert all == all[..|ups|] + extra;
    DialledConcat(all[..|ups|], extra);
    forall i | 0 <= i < |ups| ensures EndpointOk(all[..|ups|][i]) <==> EndpointOk(ups[i]) {
    }
  }

  /** A network is fit when it has an upstream and every endpoint can be dialled, its routes' too. */
  lemma NetworkOkExactly(mods: seq<Module>, on: seq<string>, n: Network)
    ensures NetworkOk(mods, on, n) <==>
            n.upstreams != [] && AllDialled(n.upstreams) && AllDialled(RouteUpstreams(n.chain, Routes(mods, on, n.chain)))
  {
    var all, routes := WithRoutes(mods, on, n), Routes(mods, on, n.chain);
    EndpointsOkExactly(all, |all|);
    assert all[..|all|] == all;
    RenderedDialled(n.upstreams, RouteUpstreams(n.chain, routes), RoutedMethods(routes));
  }
}
