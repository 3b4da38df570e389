/**
 The merge as the source runs it. A gateway's networks are a slice, and each
 network's upstreams are another, over arrays that gateways may share; append
 writes into spare capacity. No method that is handed the caller's gateways
 modifies anything: cloning down to the inner slices before the first write is
 what lets them verify.
 */
module ConfigMerge {
  import opened GatewayMerge
  import opened Slices
  import opened UpstreamMerge

  datatype NetRef = NetRef(chainId: int, ups: Slice<Upstream>)

  /** v is the value of the networks of s, which are ns; the arrays they are held in are among f. */
  ghost predicate Shows(s: Slice<NetRef>, ns: seq<NetRef>, v: seq<Network>, f: set<object>)
    reads f
  {
    s.cells in f && Holds(s, ns) && |ns| == |v| &&
    forall i :: 0 <= i < |ns| ==>
      ns[i].ups.cells in f && ns[i].chainId == v[i].chainId && Holds(ns[i].ups, v[i].upstreams)
  }

  /** No two networks share an array of upstreams. */
  ghost predicate Apart(ns: seq<NetRef>) {
    forall i, j :: 0 <= i < j < |ns| ==> ns[i].ups.cells != ns[j].ups.cells
  }

  /** cloneNetworks: a copy that shares no array with the original, at either level. */
  method CloneNetworks(nets: Slice<NetRef>, ghost ns: seq<NetRef>, ghost v: seq<Network>, ghost f: set<object>)
    returns (copy: Slice<NetRef>, ghost cs: seq<NetRef>, ghost repr: set<object>)
    requires Shows(nets, ns, v, f)
    ensures fresh(repr) && Shows(copy, cs, v, repr) && Apart(cs)
  {
    var out := new NetRef[nets.len](i requires 0 <= i < nets.len <= nets.cells.Length reads nets.cells => nets.cells[i]);
    for i := 0 to nets.len
      invariant forall k :: i <= k < nets.len ==> out[k] == ns[k]
      invariant forall k :: 0 <= k < i ==> out[k].chainId == v[k].chainId && Holds(out[k].ups, v[k].upstreams) && fresh(out[k].ups.cells)
      invariant forall j, k :: 0 <= j < k < i ==> out[j].ups.cells != out[k].ups.cells
    {
      var ups := Copied(out[i].ups, v[i].upstreams);
      out[i] := NetRef(out[i].chainId, ups);
    }
    copy, cs := Slice(out, nets.len), out[..];
    repr := {out} + set k | 0 <= k < nets.len :: out[k].ups.cells;
    assert cs == out[..nets.len];
  }

  /** The last network of a chain, by scanning as the netAt map is filled. */
  method FindNetwork(nets: Slice<NetRef>, chain: int, ghost ns: seq<NetRef>, ghost v: seq<Network>, ghost f: set<object>) returns (at: int)
    requires Shows(nets, ns, v, f)
    ensures at == At(v, chain)
  {
    at := -1;
    for i := 0 to nets.len
      invariant at == At(v[..i], chain)
    {
      assert v[..i + 1][..i] == v[..i];
      assert nets.cells[i] == ns[i];
      if nets.cells[i].chainId == chain {
        at := i;
      }
    }
    assert v[..nets.len] == v;
  }

  /** One upstream appended to one network, in the array it has or in a new one. */
  method PushUpstream(nets: Slice<NetRef>, at: nat, u: Upstream, ghost ns: seq<NetRef>, ghost v: seq<Network>, ghost repr0: set<object>)
    returns (ghost ms: seq<NetRef>, ghost repr: set<object>)
    requires Shows(nets, ns, v, repr0) && Apart(ns) && at < |ns|
    modifies nets.cells, ns[at].ups.cells
    ensures Shows(nets, ms, v[at := v[at].(upstreams := v[at].upstreams + [u])], repr) && Apart(ms)
    ensures ms == ns[at := ms[at]] && (ms[at].ups.cells == ns[at].ups.cells || fresh(ms[at].ups.cells))
    ensures repr == repr0 + {ms[at].ups.cells}
  {
    var n := nets.cells[at];
    assert n == ns[at];
    var t := Append(n.ups, u, v[at].upstreams);
    nets.cells[at] := NetRef(n.chainId, t);
    ms, repr := ns[at := NetRef(n.chainId, t)], repr0 + {t.cells};
    assert nets.cells[..nets.len] == ms;
  }

  /** The inner loop of mergeConfigInto: the upstreams of one source network. */
  method AddUpstreamsTo(nets: Slice<NetRef>, at: nat, us: Slice<Upstream>, seen0: set<Key>, taken0: set<string>,
                        ghost ns: seq<NetRef>, ghost v: seq<Network>, ghost uv: seq<Upstream>, ghost repr0: set<object>)
    returns (seen: set<Key>, taken: set<string>, ghost ms: seq<NetRef>, ghost w: seq<Network>, ghost repr: set<object>)
    requires Shows(nets, ns, v, repr0) && Apart(ns) && at < |ns|
    requires Holds(us, uv) && us.cells != ns[at].ups.cells
    modifies nets.cells, ns[at].ups.cells
    ensures Shows(nets, ms, w, repr) && Apart(ms) && repr0 <= repr && fresh(repr - repr0)
    ensures Merge(w, seen, taken) == AddUpstreams(Merge(v, seen0, taken0), at, uv)
    ensures |ms| == |ns| && ms == ns[at := ms[at]] && (ms[at].ups.cells == ns[at].ups.cells || fresh(ms[at].ups.cells))
  {
    seen, taken, ms, w, repr := seen0, taken0, ns, v, repr0;
    for i := 0 to us.len
      invariant Shows(nets, ms, w, repr) && Apart(ms) && Holds(us, uv) && repr0 <= repr && fresh(repr - repr0)
      invariant Merge(w, seen, taken) == AddUpstreams(Merge(v, seen0, taken0), at, uv[..i])
      invariant |ms| == |ns| && ms == ns[at := ms[at]] && (ms[at].ups.cells == ns[at].ups.cells || fresh(ms[at].ups.cells))
    {
      assert uv[..i + 1][..i] == uv[..i];
      var u := us.cells[i];
      assert u == uv[i];
      if KeyOf(u) in seen {
        continue;
      }
      seen := seen + {KeyOf(u)};
      var id := UniqueUpstreamId(u.id, taken);
      u := u.(id := id);
      taken := taken + {id};
      ghost var before := w;
      ms, repr := PushUpstream(nets, at, u, ms, w, repr);
      w := before[at := before[at].(upstreams := before[at].upstreams + [u])];
    }
    assert uv[..us.len] == uv;
  }

  /** The upstreams a network starts with: the keys seen and the ids taken. */
  method Survey(us: Slice<Upstream>, ghost uv: seq<Upstream>) returns (keys: set<Key>, ids: set<string>)
    requires Holds(us, uv)
    ensures keys == set u | u in uv :: KeyOf(u)
    ensures ids == set u | u in uv :: u.id
  {
    keys, ids := {}, {};
    for i := 0 to us.len
      invariant keys == set u | u in uv[..i] :: KeyOf(u)
      invariant ids == set u | u in uv[..i] :: u.id
    {
      assert us.cells[i] == uv[i] && uv[..i + 1] == uv[..i] + [uv[i]];
      keys, ids := keys + {KeyOf(us.cells[i])}, ids + {us.cells[i].id};
    }
    assert uv[..us.len] == uv;
  }

  /** The first loop of mergeConfigInto. */
  method SurveyAll(nets: Slice<NetRef>, ghost ns: seq<NetRef>, ghost v: seq<Network>, ghost f: set<object>) returns (seen: set<Key>, taken: set<string>)
    requires Shows(nets, ns, v, f)
    ensures Merge(v, seen, taken) == StartOf(v)
  {
    seen, taken := {}, {};
    for i := 0 to nets.len
      invariant Merge(v[..i], seen, taken) == StartOf(v[..i])
    {
      assert nets.cells[i] == ns[i];
      var keys, ids := Survey(nets.cells[i].ups, v[i].upstreams);
      assert v[..i + 1] == v[..i] + [v[i]];
      StartSnoc(v[..i], v[i]);
      seen, taken := seen + keys, taken + ids;
    }
    assert v[..nets.len] == v;
  }

  lemma StartSnoc(v: seq<Network>, n: Network)
    ensures Keys(v + [n]) == Keys(v) + set u | u in n.upstreams :: KeyOf(u)
    ensures StartOf(v + [n]).taken == StartOf(v).taken + set u | u in n.upstreams :: u.id
  {
    assert (v + [n])[..|v|] == v;
    assert forall u :: u in n.upstreams ==> (n.chainId, u) in Items(v + [n]);
    IdsAre(n.upstreams);
  }

  lemma {:induction false} IdsAre(us: seq<Upstream>)
    ensures forall id :: id in IdsOf(us) <==> exists u :: u in us && u.id == id
  {
    if us != [] {
      IdsAre(us[..|us| - 1]);
      assert us == us[..|us| - 1] + [us[|us| - 1]];
    }
  }

  /** append to a slice of networks of one with no upstreams. */
  method AppendNetwork(nets: Slice<NetRef>, chain: int, ghost ns: seq<NetRef>, ghost v: seq<Network>, ghost repr0: set<object>)
    returns (out: Slice<NetRef>, ghost ms: seq<NetRef>, ghost repr: set<object>)
    requires Shows(nets, ns, v, repr0) && Apart(ns)
    modifies nets.cells
    ensures Shows(out, ms, v + [Network(chain, [])], repr) && Apart(ms)
    ensures repr0 <= repr && fresh(repr - repr0)
  {
    var none := new Upstream[0];
    var n := NetRef(chain, Slice(none, 0));
    ms := ns + [n];
    out := Append(nets, n, ns);
    repr := repr0 + {none, out.cells};
  }

  /** One turn of the outer loop of mergeConfigInto: one source network. */
  method MergeNetwork(nets: Slice<NetRef>, n: NetRef, seen0: set<Key>, taken0: set<string>,
                      ghost ns: seq<NetRef>, ghost v: seq<Network>, ghost nv: Network, ghost repr0: set<object>)
    returns (out: Slice<NetRef>, seen: set<Key>, taken: set<string>, ghost ms: seq<NetRef>, ghost w: seq<Network>, ghost repr: set<object>)
    requires Shows(nets, ns, v, repr0) && Apart(ns)
    requires n.chainId == nv.chainId && Holds(n.ups, nv.upstreams) && n.ups.cells !in repr0
    modifies repr0
    ensures Shows(out, ms, w, repr) && Apart(ms)
    ensures Merge(w, seen, taken) == AddNetwork(Merge(v, seen0, taken0), nv)
    ensures repr0 <= repr && fresh(repr - repr0)
  {
    out, ms, w, repr := nets, ns, v, repr0;
    var at := FindNetwork(out, n.chainId, ms, w, repr);
    if at < 0 {
      out, ms, repr := AppendNetwork(out, n.chainId, ms, w, repr);
      w := v + [Network(n.chainId, [])];
      at := FindNetwork(out, n.chainId, ms, w, repr);
    }
    seen, taken, ms, w, repr := AddUpstreamsTo(out, at, n.ups, seen0, taken0, ms, w, nv.upstreams, repr);
  }

  /** mergeConfigInto: it may write through dst's slices, and only through them. */
  method MergeConfigInto(dst: Slice<NetRef>, src: Slice<NetRef>, ghost dn: seq<NetRef>, ghost dv: seq<Network>, ghost sn: seq<NetRef>, ghost sv: seq<Network>,
                         ghost repr0: set<object>, ghost f: set<object>)
    returns (out: Slice<NetRef>, ghost ms: seq<NetRef>, ghost repr: set<object>)
    requires Shows(dst, dn, dv, repr0) && Apart(dn) && Shows(src, sn, sv, f) && (forall o :: o in f ==> o !in repr0)
    modifies repr0
    ensures Shows(out, ms, MergeInto(dv, sv), repr) && Apart(ms)
    ensures repr0 <= repr && fresh(repr - repr0)
  {
    var seen, taken := SurveyAll(dst, dn, dv, repr0);
    out, ms, repr := dst, dn, repr0;
    ghost var w := dv;
    for i := 0 to src.len
      invariant Shows(out, ms, w, repr) && Apart(ms) && Shows(src, sn, sv, f) && (forall o :: o in f ==> o !in repr)
      invariant Merge(w, seen, taken) == AddNetworks(StartOf(dv), sv[..i])
      invariant repr0 <= repr && fresh(repr - repr0)
    {
      assert sv[..i + 1][..i] == sv[..i];
      assert src.cells[i] == sn[i];
      assert sn[i].ups.cells in f;
      out, seen, taken, ms, w, repr := MergeNetwork(out, src.cells[i], seen, taken, ms, w, sv[i], repr);
    }
    assert sv[..src.len] == sv;
  }

  // Gateways

  /** A gateway as the configuration stores it. Gateways may share arrays, at either level. */
  datatype Stored = Stored(id: string, target: string, fronted: bool, door: string, nets: Slice<NetRef>)

  /** gws are the values of ss, whose networks are refs, all of it held in the arrays of f. */
  ghost predicate Reads(ss: seq<Stored>, refs: seq<seq<NetRef>>, gws: seq<Gateway>, f: set<object>)
    reads f
  {
    |ss| == |refs| == |gws| &&
    (forall i :: 0 <= i < |ss| ==>
      ss[i].id == gws[i].id && ss[i].target == gws[i].target && ss[i].fronted == gws[i].fronted && ss[i].door == gws[i].door) &&
    forall i {:trigger Shows(ss[i].nets, refs[i], gws[i].nets, f)} :: 0 <= i < |ss| ==> Shows(ss[i].nets, refs[i], gws[i].nets, f)
  }

  /** survivorIndex over the members of one target. */
  method SurvivorIndex(ms: seq<Stored>, ghost refs: seq<seq<NetRef>>, ghost before: seq<Gateway>, ghost f: set<object>) returns (keep: nat)
    requires ms != [] && Reads(ms, refs, before, f)
    ensures keep == Survivor(before)
  {
    for i := 0 to |ms|
      invariant forall k :: 0 <= k < i ==> !before[k].fronted
    {
      if ms[i].fronted {
        return i;
      }
    }
    for i := 0 to |ms|
      invariant forall k :: 0 <= k < i ==> before[k].id != DEFAULT_ID
    {
      if ms[i].id == DEFAULT_ID {
        return i;
      }
    }
    return 0;
  }

  /** A loser leaves its eRPC container, and its Caddy too when it was fronted. */
  method LeftBehind(s: Stored, into: string, names: Names, ghost g: Gateway) returns (orphans: seq<Orphan>)
    requires s.id == g.id && s.target == g.target && s.fronted == g.fronted
    ensures orphans == OrphansOf(g, into, names)
  {
    orphans := [Orphan(names.erpc(s.id), s.target, into)];
    if s.fronted {
      orphans := orphans + [Orphan(names.caddy(s.id), s.target, into)];
    }
  }

  /** One pass of the member loop: the survivor is skipped, any other is folded into the clone and listed. */
  method FoldMember(nets: Slice<NetRef>, listed: seq<Orphan>, ms: seq<Stored>, keep: nat, i: nat, names: Names,
                    ghost refs: seq<seq<NetRef>>, ghost before: seq<Gateway>, ghost ns: seq<NetRef>, ghost repr0: set<object>, ghost f: set<object>)
    returns (out: Slice<NetRef>, orphans: seq<Orphan>, ghost os: seq<NetRef>, ghost repr: set<object>)
    requires keep < |ms| && i < |ms| && Reads(ms, refs, before, f)
    requires Shows(nets, ns, FoldNets(before, keep, i), repr0) && Apart(ns) && (forall o :: o in f ==> o !in repr0)
    requires listed == FoldOrphans(before, keep, i, names)
    modifies repr0
    ensures Shows(out, os, FoldNets(before, keep, i + 1), repr) && Apart(os)
    ensures repr0 <= repr && fresh(repr - repr0)
    ensures orphans == FoldOrphans(before, keep, i + 1, names)
  {
    out, orphans, os, repr := nets, listed, ns, repr0;
    if i != keep {
      assert Shows(ms[i].nets, refs[i], before[i].nets, f);
      var left := LeftBehind(ms[i], ms[keep].id, names, before[i]);
      orphans := orphans + left;
      out, os, repr := MergeConfigInto(nets, ms[i].nets, ns, FoldNets(before, keep, i), refs[i], before[i].nets, repr0, f);
    }
  }

  /** The loop over one target's members, into a clone of the survivor's networks. */
  method FoldMembers(ms: seq<Stored>, keep: nat, names: Names, ghost refs: seq<seq<NetRef>>, ghost before: seq<Gateway>, ghost f: set<object>)
    returns (nets: Slice<NetRef>, orphans: seq<Orphan>, ghost ns: seq<NetRef>, ghost repr: set<object>)
    requires keep < |ms| && Reads(ms, refs, before, f)
    ensures fresh(repr) && Shows(nets, ns, FoldNets(before, keep, |ms|), repr)
    ensures orphans == FoldOrphans(before, keep, |ms|, names)
  {
    assert Shows(ms[keep].nets, refs[keep], before[keep].nets, f);
    nets, ns, repr := CloneNetworks(ms[keep].nets, refs[keep], before[keep].nets, f);
    orphans := [];
    for i := 0 to |ms|
      invariant fresh(repr) && (forall o :: o in f ==> o !in repr)
      invariant Shows(nets, ns, FoldNets(before, keep, i), repr) && Apart(ns)
      invariant orphans == FoldOrphans(before, keep, i, names)
    {
      nets, orphans, ns, repr := FoldMember(nets, orphans, ms, keep, i, names, refs, before, ns, repr, f);
    }
  }

  /** One target's group: clone the survivor's networks, fold the others in, and list what they leave behind. */
  method FoldGroup(ms: seq<Stored>, t: string, names: Names, ghost refs: seq<seq<NetRef>>, ghost before: seq<Gateway>, ghost f: set<object>)
    returns (out: seq<Stored>, orphans: seq<Orphan>, ghost outRefs: seq<seq<NetRef>>, ghost g: set<object>)
    requires ms != [] && Reads(ms, refs, before, f)
    ensures Reads(out, outRefs, Folded(before, t), g) && orphans == Orphaned(before, t, names)
  {
    if |ms| == 1 || t == "" {
      return ms, [], refs, f;
    }
    var keep := SurvivorIndex(ms, refs, before, f);
    var nets;
    ghost var ns, repr;
    nets, orphans, ns, repr := FoldMembers(ms, keep, names, refs, before, f);
    out, outRefs, g := [ms[keep].(nets := nets)], [ns], repr;
  }

  /** The positions of a target's members. */
  function Positions(gws: seq<Gateway>, t: string): seq<nat> {
    if gws == [] then []
    else Positions(gws[..|gws| - 1], t) + if gws[|gws| - 1].target == t then [|gws| - 1] else []
  }

  lemma {:induction false} PositionsOfMembers(gws: seq<Gateway>, t: string)
    ensures |Positions(gws, t)| == |Members(gws, t)|
    ensures forall k :: 0 <= k < |Positions(gws, t)| ==> Positions(gws, t)[k] < |gws| && gws[Positions(gws, t)[k]] == Members(gws, t)[k]
  {
    if gws != [] {
      var init := gws[..|gws| - 1];
      PositionsOfMembers(init, t);
      assert forall k :: 0 <= k < |init| ==> init[k] == gws[k];
    }
  }

  function Listed(groups: map<string, seq<nat>>, t: string): seq<nat> {
    if t in groups then groups[t] else []
  }

  /** The first loop: the targets in first-seen order, and where each one's members are. */
  method Group(gws: seq<Stored>, ghost refs: seq<seq<NetRef>>, ghost all: seq<Gateway>, ghost f: set<object>) returns (order: seq<string>, groups: map<string, seq<nat>>)
    requires Reads(gws, refs, all, f)
    ensures order == Targets(all)
    ensures forall t :: t in order ==> t in groups && groups[t] == Positions(all, t)
  {
    order, groups := [], map[];
    for i := 0 to |gws|
      invariant order == Targets(all[..i])
      invariant forall t :: Listed(groups, t) == Positions(all[..i], t)
      invariant forall t :: t in order <==> t in groups
    {
      assert all[..i + 1][..i] == all[..i];
      var t := gws[i].target;
      ghost var before := groups;
      if t !in groups {
        order := order + [t];
        groups := groups[t := []];
      }
      groups := groups[t := groups[t] + [i]];
      forall u ensures Listed(groups, u) == Positions(all[..i + 1], u) {
        assert Listed(before, u) == Positions(all[..i], u);
      }
    }
    assert all[..|gws|] == all;
  }

  /** One turn of the second loop: the members of one target, folded. */
  method FoldTarget(gws: seq<Stored>, t: string, at: seq<nat>, names: Names, ghost refs: seq<seq<NetRef>>, ghost all: seq<Gateway>, ghost f: set<object>)
    returns (out: seq<Stored>, orphans: seq<Orphan>, ghost outRefs: seq<seq<NetRef>>, ghost g: set<object>)
    requires Reads(gws, refs, all, f) && at == Positions(all, t) && Members(all, t) != []
    ensures Reads(out, outRefs, Folded(Members(all, t), t), g) && orphans == Orphaned(Members(all, t), t, names)
  {
    PositionsOfMembers(all, t);
    var ms := seq(|at|, k requires 0 <= k < |at| => gws[at[k]]);
    ghost var rs := seq(|at|, k requires 0 <= k < |at| => refs[at[k]]);
    forall k | 0 <= k < |at| ensures Shows(ms[k].nets, rs[k], Members(all, t)[k].nets, f) {
      assert Shows(gws[at[k]].nets, refs[at[k]], all[at[k]].nets, f);
    }
    out, orphans, outRefs, g := FoldGroup(ms, t, names, rs, Members(all, t), f);
  }

  /** mergeGatewaysPerTarget: group by target, then fold each group, in first-seen order. It writes to none of the caller's arrays. */
  method MergeGatewaysPerTarget(gws: seq<Stored>, names: Names, ghost refs: seq<seq<NetRef>>, ghost all: seq<Gateway>, ghost f: set<object>)
    returns (out: seq<Stored>, orphans: seq<Orphan>, ghost outRefs: seq<seq<NetRef>>, ghost g: set<object>)
    requires Reads(gws, refs, all, f)
    ensures Reads(out, outRefs, MergedGateways(all), g) && orphans == Orphans(all, names)
  {
    var order, groups := Group(gws, refs, all, f);
    TargetsList(all);
    out, orphans, outRefs, g := [], [], [], {};
    for i := 0 to |order|
      invariant Reads(out, outRefs, FoldAll(all, order[..i]), g)
      invariant orphans == OrphanAll(all, order[..i], names)
    {
      assert order[..i + 1][..i] == order[..i];
      ghost var before := FoldAll(all, order[..i]);
      var folded, left;
      ghost var newRefs, h;
      folded, left, newRefs, h := FoldTarget(gws, order[i], groups[order[i]], names, refs, all, f);
      ReadsConcat(out, outRefs, before, g, folded, newRefs, Folded(Members(all, order[i]), order[i]), h);
      out, orphans, outRefs, g := out + folded, orphans + left, outRefs + newRefs, g + h;
    }
    assert order[..|order|] == order;
  }

  lemma ReadsConcat(a: seq<Stored>, p: seq<seq<NetRef>>, x: seq<Gateway>, f: set<object>, b: seq<Stored>, q: seq<seq<NetRef>>, y: seq<Gateway>, g: set<object>)
    requires Reads(a, p, x, f) && Reads(b, q, y, g)
    ensures Reads(a + b, p + q, x + y, f + g)
  {
    forall i | 0 <= i < |a + b| ensures Shows((a + b)[i].nets, (p + q)[i], (x + y)[i].nets, f + g) {
      if i < |a| {
        assert Shows(a[i].nets, p[i], x[i].nets, f);
      } else {
        assert Shows(b[i - |a|].nets, q[i - |a|], y[i - |a|].nets, g);
      }
    }
  }
}
