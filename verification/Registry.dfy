/** The modules that ship, and what the routing and naming of any gateway owe to that list. */
module Registry {
  import opened DistinctIds
  import opened GatewayIds
  import opened GatewayRoutes
  import opened ModuleRouting
  import opened Spaces
  import opened UpstreamTags
  import opened Wrappers

  const SEND := "eth_sendRawTransaction"

  const FLASHBOTS := Route("flashbots", "https://rpc.flashbots.net/fast", [SEND])
  const MEVBLOCKER := Route("mevblocker", "https://rpc.mevblocker.io", [SEND])

  const MSGBOARD := Module("msgboard", OnNode, ["msgboard"],
    [ModuleMethod("msgboard_addMessage", Write), ModuleMethod("msgboard_status", Read), ModuleMethod("msgboard_categories", Read),
     ModuleMethod("msgboard_contentPage", Read), ModuleMethod("msgboard_getMessage", Read), ModuleMethod("msgboard_content", Unbounded),
     ModuleMethod("msgboard_subscribe", Stream), ModuleMethod("msgboard_unsubscribe", Stream)],
    [369, 943], {}, ["reth"], map[])
  const EL_BOOTNODE := Module("el-bootnode", OnBox, [], [], [1, 369, 943, 560048], {}, [], map[])
  const CL_BOOTNODE := Module("cl-bootnode", OnBox, [], [], [1, 369, 943, 560048], {}, [], map[])
  const WATCH := Module("watch", OnBox, [], [], [], {}, [], map[])
  const PRIVATE_SEND := Module("private-send", OnGateway, [], [], [1], {560048, 369, 943}, [], map[1 := [FLASHBOTS, MEVBLOCKER]])
  const CHECKPOINTZ := Module("checkpointz", OnBox, [], [], [1, 560048, 369, 943], {369, 943}, [], map[])

  const REGISTRY := [MSGBOARD, EL_BOOTNODE, CL_BOOTNODE, WATCH, PRIVATE_SEND, CHECKPOINTZ]

  lemma {:induction false} Found(mods: seq<Module>, id: string)
    ensures var m := ModuleByID(mods, id); m.Some? ==> m.value in mods && m.value.id == id
    ensures ModuleByID(mods, id).None? ==> forall m :: m in mods ==> m.id != id
  {
    if mods != [] {
      Found(mods[1..], id);
    }
  }

  /** A gateway's modules can only be the one that ships for gateways. */
  lemma OnlyPrivateSend(on: seq<string>, nets: seq<Network>)
    requires ModulesFit(REGISTRY, on, nets)
    ensures on == [] || on == [PRIVATE_SEND.id]
  {
    forall i | 0 <= i < |on| ensures on[i] == PRIVATE_SEND.id {
      assert Misfit(REGISTRY, on[i], nets).None?;
      Found(REGISTRY, on[i]);
    }
    if on != [] {
      var last := |on| - 1;
      assert on[last] == on[0];
    }
  }

  lemma RoutesShipped(chain: int)
    ensures RoutesOf(REGISTRY, PRIVATE_SEND.id, chain) == if chain == 1 then [FLASHBOTS, MEVBLOCKER] else []
  {
    Found(REGISTRY, PRIVATE_SEND.id);
    assert PRIVATE_SEND in REGISTRY;
  }

  lemma UnlikeUpstream(id: string)
    requires id != "" && id[0] != 'h' && id[0] != 'w'
    ensures !NamedLikeUpstream(id)
  {
    forall p: Protocol, pos: nat ensures id != Numbered(p, pos) {
      assert Numbered(p, pos)[0] == Text(p)[0];
    }
  }

  lemma BothNamedApart()
    ensures NamedApart([FLASHBOTS, MEVBLOCKER])
  {
    UnlikeUpstream(FLASHBOTS.id);
    UnlikeUpstream(MEVBLOCKER.id);
    assert FLASHBOTS.id[0] != MEVBLOCKER.id[0];
  }

  lemma ShippedAreNamedApart(on: seq<string>, nets: seq<Network>, chain: int)
    requires ModulesFit(REGISTRY, on, nets)
    ensures NamedApart(Routes(REGISTRY, on, chain))
  {
    OnlyPrivateSend(on, nets);
    RoutesShipped(chain);
    BothNamedApart();
    if on != [] {
      RoutesOfOne(REGISTRY, PRIVATE_SEND.id, chain);
    }
  }

  lemma RoutesOfOne(mods: seq<Module>, id: string, chain: int)
    ensures Routes(mods, [id], chain) == RoutesOf(mods, id, chain)
  {
    assert [id][..0] == [] && [] + RoutesOf(mods, id, chain) == RoutesOf(mods, id, chain);
  }

  /**
   With the modules that ship, and no upstream named by hand, rendering never
   answers with a duplicate id, whatever the endpoints and however a URL is read.
   */
  lemma ShippedNeverDuplicates(on: seq<string>, nets: seq<Network>, generate: Generator, r: Reader)
    requires Generates(generate, r) && forall i :: 0 <= i < |nets| ==> Unnamed(nets[i])
    ensures !(ModulesFit(REGISTRY, on, nets) && DuplicateIn(REGISTRY, on, nets, generate))
  {
    if ModulesFit(REGISTRY, on, nets) {
      forall n | n in nets ensures NamedApart(Routes(REGISTRY, on, n.chain)) {
        ShippedAreNamedApart(on, nets, n.chain);
      }
      BlankNamesNeverClash(REGISTRY, on, nets, generate, r);
    }
  }

  /** So rendering such a gateway succeeds, or says what else is wrong with it. */
  method RenderShipped(on: seq<string>, nets: seq<Network>, generate: Generator, ghost r: Reader) returns (answer: Result<seq<Row>, RenderError>)
    requires Generates(generate, r) && forall i :: 0 <= i < |nets| ==> Unnamed(nets[i])
    ensures answer.Err? ==> !answer.error.DuplicateId?
    ensures answer.Ok? <==> nets != [] && ModulesFit(REGISTRY, on, nets) && EachFits(REGISTRY, on, nets)
  {
    answer := RenderGateway(REGISTRY, on, nets, generate);
    ShippedNeverDuplicates(on, nets, generate, r);
    SucceedsExactly(REGISTRY, on, nets, generate);
  }

  /** The registry meets what the routing of methods assumes of it. */
  lemma ShippedIsWellFormed()
    ensures WellFormed(REGISTRY)
  {
    forall k | 0 <= k < |MSGBOARD.methods| ensures Plain(MSGBOARD.methods[k].name) && InNamespace(MSGBOARD, MSGBOARD.methods[k].name) {
      assert MSGBOARD.namespaces[0] + "_" <= MSGBOARD.methods[k].name;
    }
  }

  // What an entry for gateways must keep to.

  const NODE := "https://a.mod.io"
  const NUMBERED := Module("numbered", OnGateway, [], [], [1], {}, [], map[1 := [Route("http-1", "https://b.io", [SEND])]])

  lemma NodeIsDialled(u: Upstream)
    requires u.endpoint == NODE || u.endpoint == "https://b.io"
    ensures TrimSpace(u.endpoint) == u.endpoint && EndpointOk(u)
  {
    assert "https://" in SCHEMES && "https://" <= u.endpoint;
  }

  /** One network with that endpoint and no id. */
  const ALONE := Network(1, [Upstream("", EXTERNAL, NODE, false, false, [], [])])

  /** A reader of URLs that finds the host in that endpoint. */
  ghost predicate Finds(r: Reader) {
    r.parse(NODE) == Some(Parsed("https", MOD_HOST)) && forall c :: 'a' <= c <= 'z' ==> r.lower(c) == c
  }

  lemma NumberedIsOn()
    ensures ModulesFit([NUMBERED], [NUMBERED.id], [ALONE])
    ensures Routes([NUMBERED], [NUMBERED.id], 1) == NUMBERED.routes[1]
  {
    RoutesOfOne([NUMBERED], NUMBERED.id, 1);
    assert ModuleByID([NUMBERED], NUMBERED.id) == Some(NUMBERED);
    assert Applies(NUMBERED, [ALONE][0].chain, "");
  }

  lemma NodeTakesTheRoute(r: Reader)
    requires Finds(r)
    ensures Takes(ALONE.upstreams[0], 0, NUMBERED.routes[1][0], r)
  {
    NodeIsDialled(ALONE.upstreams[0]);
    ModHostIsMod(NODE, Parsed("https", MOD_HOST), r);
    assert Lower("https", r.lower)[4] == 's';
    assert Lower("https", r.lower)[0] == 'h';
    assert Numbered(Http, 1) == "http-1";
  }

  lemma RouteMeetsNode(r: Reader)
    requires Finds(r)
    ensures SomeRouteMeets([NUMBERED], [NUMBERED.id], ALONE, r)
  {
    NumberedIsOn();
    NodeTakesTheRoute(r);
    BothAreDialled();
    assert NUMBERED.routes[1][..1] == NUMBERED.routes[1];
    assert MeetsAt([NUMBERED], [NUMBERED.id], ALONE, 1, r);
  }

  lemma BothAreDialled()
    ensures var all := WithRoutes([NUMBERED], [NUMBERED.id], ALONE); |all| == 2 && EndpointsOk(all, 2)
  {
    NumberedIsOn();
    var all := WithRoutes([NUMBERED], [NUMBERED.id], ALONE);
    NodeIsDialled(all[0]);
    NodeIsDialled(all[1]);
    assert EndpointsOk(all, 1);
  }

  /** With a route named as the first upstream over http is numbered, and an endpoint at a.mod.io, rendering answers with a duplicate id. */
  method NumberedRouteClashes(generate: Generator, ghost r: Reader) returns (answer: Result<seq<Row>, RenderError>)
    requires Generates(generate, r) && Finds(r)
    ensures answer.Err? && answer.error.DuplicateId?
  {
    answer := RenderGateway([NUMBERED], [NUMBERED.id], [ALONE], generate);
    NumberedIsOn();
    RouteMeetsNode(r);
    NumberedDuplicates([NUMBERED], [NUMBERED.id], ALONE, generate, r);
  }

  lemma NumberedDuplicates(mods: seq<Module>, on: seq<string>, n: Network, generate: Generator, r: Reader)
    requires Generates(generate, r) && n == ALONE && SomeRouteMeets(mods, on, n, r)
    ensures DuplicateIn(mods, on, [n], generate)
  {
    FirstDuplicates(mods, on, n, generate, r);
  }
}
