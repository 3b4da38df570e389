/**
 Which row a merge leaves for each endpoint, however often it was probed, and
 exactly when merging the same probes again changes nothing.
 */
module MergeTwice {
  import opened Wrappers
  import opened Capabilities

  /** The probes of one endpoint, in order. */
  function ProbesOf(local: seq<Endpoint>, id: Identity, u: string): seq<Endpoint> {
    if local == [] then []
    else
      var last := local[|local| - 1];
      ProbesOf(local[..|local| - 1], id, u) + if id(last.url) == u then [last] else []
  }

  /** A row with probes merged into it, one after the other. */
  function FoldOnto(row: Endpoint, ps: seq<Endpoint>): Endpoint {
    if ps == [] then row else MergeEndpoint(FoldOnto(row, ps[..|ps| - 1]), ps[|ps| - 1])
  }

  // What folding gives, said without the order of its steps.

  function LastReach(ps: seq<Endpoint>): Option<Reach> {
    if ps == [] then None
    else if ps[|ps| - 1].reach.reachable then Some(ps[|ps| - 1].reach)
    else LastReach(ps[..|ps| - 1])
  }

  function FirstName(ps: seq<Endpoint>): string {
    if ps == [] then ""
    else if FirstName(ps[..|ps| - 1]) != "" then FirstName(ps[..|ps| - 1])
    else ps[|ps| - 1].name
  }

  function Cap(e: Endpoint, key: string): Option<Verdict> {
    if key in e.caps then Some(e.caps[key]) else None
  }

  /** The verdict of the last probe that reached the endpoint and answered key. */
  function LastAnswer(ps: seq<Endpoint>, key: string): Option<Verdict> {
    if ps == [] then None
    else if ps[|ps| - 1].reach.reachable && key in ps[|ps| - 1].caps then Some(ps[|ps| - 1].caps[key])
    else LastAnswer(ps[..|ps| - 1], key)
  }

  /** The first verdict of any probe. */
  function FirstAnswer(ps: seq<Endpoint>, key: string): Option<Verdict> {
    if ps == [] then None
    else if FirstAnswer(ps[..|ps| - 1], key).Some? then FirstAnswer(ps[..|ps| - 1], key)
    else Cap(ps[|ps| - 1], key)
  }

  /** Whose verdict a row ends with: the last of a probe that reached it, else the row's own, else the first of any. */
  function Chosen(held: Option<Verdict>, ps: seq<Endpoint>, key: string): Option<Verdict> {
    if LastAnswer(ps, key).Some? then LastAnswer(ps, key)
    else if held.Some? then held
    else FirstAnswer(ps, key)
  }

  lemma {:induction false} FoldOntoIs(row: Endpoint, ps: seq<Endpoint>, key: string)
    ensures var out := FoldOnto(row, ps);
            && out.url == row.url && out.source == row.source
            && out.reach == (if LastReach(ps).Some? then LastReach(ps).value else row.reach)
            && out.name == (if row.name != "" then row.name else FirstName(ps))
            && Cap(out, key) == Chosen(Cap(row, key), ps, key)
  {
    if ps != [] {
      FoldOntoIs(row, ps[..|ps| - 1], key);
      AnswersAgree(ps[..|ps| - 1], key);
    }
  }

  lemma {:induction false} AnswersAgree(ps: seq<Endpoint>, key: string)
    ensures LastAnswer(ps, key).Some? ==> FirstAnswer(ps, key).Some?
    ensures FirstAnswer(ps, key).Some? <==> exists p :: p in ps && key in p.caps
  {
    if ps != [] {
      AnswersAgree(ps[..|ps| - 1], key);
      assert ps == ps[..|ps| - 1] + [ps[|ps| - 1]];
    }
  }

  lemma SameCaps(a: Endpoint, b: Endpoint)
    requires forall key :: Cap(a, key) == Cap(b, key)
    ensures a.caps == b.caps
  {
    forall key ensures key in a.caps <==> key in b.caps {
      assert Cap(a, key) == Cap(b, key);
    }
    forall key | key in a.caps ensures a.caps[key] == b.caps[key] {
      assert Cap(a, key) == Cap(b, key);
    }
  }

  /** Probes already merged into a row change it no further. */
  lemma FoldOntoAgain(row: Endpoint, ps: seq<Endpoint>)
    ensures FoldOnto(FoldOnto(row, ps), ps) == FoldOnto(row, ps)
  {
    var once := FoldOnto(row, ps);
    var twice := FoldOnto(once, ps);
    forall key ensures Cap(twice, key) == Cap(once, key) {
      FoldOntoIs(row, ps, key);
      FoldOntoIs(once, ps, key);
    }
    SameCaps(twice, once);
    FoldOntoIs(row, ps, "");
    FoldOntoIs(once, ps, "");
  }

  /** Whether merging a under b leaves nothing of a: b reached if a did, is named if a is, and answers all that a does. */
  predicate Absorbs(b: Endpoint, a: Endpoint) {
    (a.reach.reachable ==> b.reach.reachable) && (b.name == "" ==> a.name == "") && a.caps.Keys <= b.caps.Keys
  }

  lemma {:induction false} ReachAndName(ps: seq<Endpoint>)
    ensures LastReach(ps).Some? <==> exists p :: p in ps && p.reach.reachable
    ensures LastReach(ps).Some? ==> LastReach(ps).value.reachable
    ensures FirstName(ps) == "" <==> forall p :: p in ps ==> p.name == ""
  {
    if ps != [] {
      ReachAndName(ps[..|ps| - 1]);
      assert ps == ps[..|ps| - 1] + [ps[|ps| - 1]];
    }
  }

  /** Probes of one endpoint folded onto the last of them leave it, exactly when it absorbs each. */
  lemma FoldOntoLast(ps: seq<Endpoint>)
    requires ps != []
    ensures var b := ps[|ps| - 1]; FoldOnto(b, ps) == b <==> forall a :: a in ps ==> Absorbs(b, a)
  {
    var b := ps[|ps| - 1];
    var out := FoldOnto(b, ps);
    assert b in ps;
    ReachAndName(ps);
    FoldOntoIs(b, ps, "");
    if forall a :: a in ps ==> Absorbs(b, a) {
      forall key ensures Cap(out, key) == Cap(b, key) {
        FoldOntoIs(b, ps, key);
        AnswersAgree(ps, key);
        if !b.reach.reachable {
          NoneReached(ps, key);
        }
      }
      SameCaps(out, b);
    }
    if out == b {
      forall a | a in ps ensures Absorbs(b, a) {
        forall key | key in a.caps ensures key in b.caps {
          FoldOntoIs(b, ps, key);
          AnswersAgree(ps, key);
        }
      }
    }
  }

  lemma {:induction false} NoneReached(ps: seq<Endpoint>, key: string)
    requires forall p :: p in ps ==> !p.reach.reachable
    ensures LastAnswer(ps, key).None?
  {
    if ps != [] {
      NoneReached(ps[..|ps| - 1], key);
    }
  }

  // The rows of a merge

  /** The row of an index entry, with all the probes of its endpoint folded onto it. */
  lemma {:induction false} RowIsFold(rows: seq<Endpoint>, index: map<string, nat>, local: seq<Endpoint>, id: Identity, u: string)
    requires forall v :: v in index ==> index[v] < |rows| && id(rows[index[v]].url) == v
    requires u in index
    ensures Merged(rows, index, local, id)[index[u]] == FoldOnto(rows[index[u]], ProbesOf(local, id, u))
  {
    if local != [] {
      var init, last := local[..|local| - 1], local[|local| - 1];
      assert local == init + [last];
      RowIsFold(rows, index, init, id, u);
      assert id(last.url) in index && index[id(last.url)] == index[u] ==> id(last.url) == u;
      MergedSnoc(rows, index, init, last, id);
      ProbesOneMore(init, last, id, u);
      if id(last.url) == u {
        FoldOneMore(rows[index[u]], ProbesOf(init, id, u), last);
      }
    }
  }

  lemma FoldOneMore(row: Endpoint, ps: seq<Endpoint>, p: Endpoint)
    ensures FoldOnto(row, ps + [p]) == MergeEndpoint(FoldOnto(row, ps), p)
  {
    assert (ps + [p])[..|ps|] == ps;
  }

  /** Every row keeps its URL, and one no index entry leads to is as it was. */
  lemma {:induction false} RowsKeepUrls(rows: seq<Endpoint>, index: map<string, nat>, local: seq<Endpoint>, id: Identity, i: nat)
    requires (forall u :: u in index ==> index[u] < |rows|) && i < |rows|
    ensures Merged(rows, index, local, id)[i].url == rows[i].url
    ensures (forall u :: u in index ==> index[u] != i) ==> Merged(rows, index, local, id)[i] == rows[i]
  {
    if local != [] {
      RowsKeepUrls(rows, index, local[..|local| - 1], id, i);
    }
  }

  lemma {:induction false} IndexOfConcat(a: seq<Endpoint>, b: seq<Endpoint>, id: Identity, u: string)
    ensures u in Index(a + b, id) <==> u in Index(a, id) || u in Index(b, id)
    ensures u in Index(b, id) ==> Index(a + b, id)[u] == |a| + Index(b, id)[u]
    ensures u in Index(a, id) && u !in Index(b, id) ==> Index(a + b, id)[u] == Index(a, id)[u]
  {
    if b == [] {
      assert a + b == a;
    } else {
      var init, last := b[..|b| - 1], b[|b| - 1];
      IndexOfConcat(a, init, id, u);
      LastOfConcat(a, b);
      if u == id(last.url) {
        assert Index(a + b, id)[u] == |a| + |init|;
      }
    }
  }

  lemma LastOfConcat<T>(a: seq<T>, b: seq<T>)
    requires b != []
    ensures (a + b)[..|a + b| - 1] == a + b[..|b| - 1] && (a + b)[|a + b| - 1] == b[|b| - 1]
  {
  }

  /** Rows with the same URLs have the same index. */
  lemma {:induction false} SameIndex(a: seq<Endpoint>, b: seq<Endpoint>, id: Identity)
    requires |a| == |b| && forall i :: 0 <= i < |a| ==> a[i].url == b[i].url
    ensures Index(a, id) == Index(b, id)
  {
    if a != [] {
      SameIndex(a[..|a| - 1], b[..|b| - 1], id);
    }
  }

  /** An index leads to the last row of an identity. */
  lemma {:induction false} IndexIsLast(rows: seq<Endpoint>, id: Identity, u: string)
    ensures u in Index(rows, id) <==> ProbesOf(rows, id, u) != []
    ensures u in Index(rows, id) ==> var ps := ProbesOf(rows, id, u); rows[Index(rows, id)[u]] == ps[|ps| - 1]
  {
    if rows != [] {
      var init, last := rows[..|rows| - 1], rows[|rows| - 1];
      assert rows == init + [last];
      IndexIsLast(init, id, u);
      ProbesOneMore(init, last, id, u);
    }
  }

  lemma {:induction false} LocalOnlyProbes(index: map<string, nat>, local: seq<Endpoint>, id: Identity, u: string)
    ensures ProbesOf(LocalOnly(index, local, id), id, u) == if u in index then [] else ProbesOf(local, id, u)
  {
    if local != [] {
      var init, last := local[..|local| - 1], local[|local| - 1];
      assert local == init + [last];
      LocalOnlyProbes(index, init, id, u);
      LocalOnlyOneMore(index, init, last, id);
      ProbesOneMore(init, last, id, u);
      ProbesOneMore(LocalOnly(index, init, id), last, id, u);
    }
  }

  lemma LocalOnlyOneMore(index: map<string, nat>, local: seq<Endpoint>, l: Endpoint, id: Identity)
    ensures LocalOnly(index, local + [l], id) == if id(l.url) in index then LocalOnly(index, local, id) else LocalOnly(index, local, id) + [l]
  {
    assert (local + [l])[..|local|] == local;
  }

  lemma ProbesOneMore(ps: seq<Endpoint>, p: Endpoint, id: Identity, u: string)
    ensures ProbesOf(ps + [p], id, u) == if id(p.url) == u then ProbesOf(ps, id, u) + [p] else ProbesOf(ps, id, u)
  {
    assert (ps + [p])[..|ps|] == ps;
  }

  /** at lists, in order, where those of es that are to be kept stand, and kept are those. */
  ghost predicate Lists(es: seq<Endpoint>, keep: Endpoint -> bool, kept: seq<Endpoint>, at: seq<nat>) {
    && |at| == |kept| && (forall j, k :: 0 <= j < k < |at| ==> at[j] < at[k])
    && (forall j :: 0 <= j < |at| ==> at[j] < |es| && kept[j] == es[at[j]] && keep(kept[j]))
    && forall i :: 0 <= i < |es| && keep(es[i]) ==> exists j :: 0 <= j < |at| && at[j] == i
  }

  lemma LocalOnlyExactly(index: map<string, nat>, local: seq<Endpoint>, id: Identity, keep: Endpoint -> bool) returns (at: seq<nat>)
    requires forall e :: keep(e) <==> id(e.url) !in index
    ensures Lists(local, keep, LocalOnly(index, local, id), at)
  {
    at := [];
    for k := 0 to |local|
      invariant Lists(local[..k], keep, LocalOnly(index, local[..k], id), at)
    {
      OneLonger(local, k);
      at := OneMoreLocal(index, local[..k], local[k], id, keep, at);
    }
    assert local[..|local|] == local;
  }

  lemma OneLonger(es: seq<Endpoint>, k: nat)
    requires k < |es|
    ensures es[..k + 1] == es[..k] + [es[k]]
  {
  }

  lemma OneMoreLocal(index: map<string, nat>, local: seq<Endpoint>, l: Endpoint, id: Identity, keep: Endpoint -> bool, before: seq<nat>) returns (at: seq<nat>)
    requires (keep(l) <==> id(l.url) !in index) && Lists(local, keep, LocalOnly(index, local, id), before)
    ensures Lists(local + [l], keep, LocalOnly(index, local + [l], id), at)
  {
    var added := LocalOnly(index, local, id);
    ListsOneMore(local, l, keep, added, before);
    assert (local + [l])[..|local|] == local;
    assert added + [] == added;
    at := if keep(l) then before + [|local|] else before;
  }

  lemma ListsOneMore(es: seq<Endpoint>, e: Endpoint, keep: Endpoint -> bool, kept: seq<Endpoint>, at: seq<nat>)
    requires Lists(es, keep, kept, at)
    ensures if keep(e) then Lists(es + [e], keep, kept + [e], at + [|es|]) else Lists(es + [e], keep, kept, at)
  {
    var more, longer := es + [e], at + [|es|];
    forall i | 0 <= i < |es| && keep(es[i]) ensures exists j :: 0 <= j < |at| && at[j] == i && longer[j] == i {
      var j :| 0 <= j < |at| && at[j] == i;
      assert longer[j] == i;
    }
    assert longer[|at|] == |es| && more[|es|] == e;
  }

  ghost predicate IsRemote(remote: seq<Endpoint>, id: Identity, e: Endpoint) {
    exists k :: 0 <= k < |remote| && id(remote[k].url) == id(e.url)
  }

  lemma IndexedIsRemote(remote: seq<Endpoint>, id: Identity, e: Endpoint)
    ensures id(e.url) in Index(remote, id) <==> IsRemote(remote, id, e)
  {
  }

  /** The order of a merge's rows: the probes of endpoints only this machine knows, then the remote rows, each in its place. */
  ghost predicate InOrder(remote: seq<Endpoint>, local: seq<Endpoint>, keep: Endpoint -> bool, rows: seq<Endpoint>, at: seq<nat>) {
    && |rows| == |at| + |remote| && Lists(local, keep, rows[..|at|], at)
    && forall k :: 0 <= k < |remote| ==> rows[|at| + k].url == remote[k].url
  }

  lemma RowOrder(remote: seq<Endpoint>, local: seq<Endpoint>, id: Identity, keep: Endpoint -> bool) returns (at: seq<nat>)
    requires forall e :: keep(e) <==> !IsRemote(remote, id, e)
    ensures InOrder(remote, local, keep, Rows(remote, local, id), at)
  {
    KeepsTheRest(remote, id, keep);
    at := OrderOf(remote, Index(remote, id), local, id, keep);
  }

  lemma KeepsTheRest(remote: seq<Endpoint>, id: Identity, keep: Endpoint -> bool)
    requires forall e :: keep(e) <==> !IsRemote(remote, id, e)
    ensures forall e :: keep(e) <==> id(e.url) !in Index(remote, id)
  {
    forall e ensures keep(e) <==> id(e.url) !in Index(remote, id) {
      IndexedIsRemote(remote, id, e);
    }
  }

  lemma OrderOf(remote: seq<Endpoint>, index: map<string, nat>, local: seq<Endpoint>, id: Identity, keep: Endpoint -> bool) returns (at: seq<nat>)
    requires (forall u :: u in index ==> index[u] < |remote|) && forall e :: keep(e) <==> id(e.url) !in index
    ensures InOrder(remote, local, keep, LocalOnly(index, local, id) + Merged(remote, index, local, id), at)
  {
    at := LocalOnlyExactly(index, local, id, keep);
    MergedUrls(remote, index, local, id);
    OneAfterOther(remote, local, keep, LocalOnly(index, local, id), Merged(remote, index, local, id), at);
  }

  lemma MergedUrls(remote: seq<Endpoint>, index: map<string, nat>, local: seq<Endpoint>, id: Identity)
    requires forall u :: u in index ==> index[u] < |remote|
    ensures var merged := Merged(remote, index, local, id); |merged| == |remote| && forall k :: 0 <= k < |remote| ==> merged[k].url == remote[k].url
  {
    forall k | 0 <= k < |remote| ensures Merged(remote, index, local, id)[k].url == remote[k].url {
      RowsKeepUrls(remote, index, local, id, k);
    }
  }

  lemma OneAfterOther(remote: seq<Endpoint>, local: seq<Endpoint>, keep: Endpoint -> bool, added: seq<Endpoint>, merged: seq<Endpoint>, at: seq<nat>)
    requires Lists(local, keep, added, at) && |merged| == |remote| && forall k :: 0 <= k < |remote| ==> merged[k].url == remote[k].url
    ensures InOrder(remote, local, keep, added + merged, at)
  {
    assert (added + merged)[..|at|] == added;
  }

  function RowFor(rows: seq<Endpoint>, id: Identity, u: string): Option<Endpoint> {
    if u in Index(rows, id) then Some(rows[Index(rows, id)[u]]) else None
  }

  /** After a merge an endpoint's row is its published one with its probes folded on, or else its last probe. */
  lemma RowAfterMerge(remote: seq<Endpoint>, local: seq<Endpoint>, id: Identity, u: string)
    ensures var held, ps := RowFor(remote, id, u), ProbesOf(local, id, u);
            RowFor(Rows(remote, local, id), id, u) ==
            if held.Some? then Some(FoldOnto(held.value, ps)) else if ps != [] then Some(ps[|ps| - 1]) else None
  {
    AfterMerge(remote, local, id, u);
    if u in Index(remote, id) {
      RowIsFold(remote, Index(remote, id), local, id, u);
    } else {
      LocalOnlyProbes(Index(remote, id), local, id, u);
      IndexIsLast(LocalOnly(Index(remote, id), local, id), id, u);
    }
  }

  /** Where an endpoint's row is after a merge: among the merged rows if it was published, else among those before them. */
  lemma AfterMerge(remote: seq<Endpoint>, local: seq<Endpoint>, id: Identity, u: string)
    ensures var index := Index(remote, id); var only := LocalOnly(index, local, id);
            RowFor(Rows(remote, local, id), id, u)
            == if u in index then Some(Merged(remote, index, local, id)[index[u]]) else RowFor(only, id, u)
  {
    var index := Index(remote, id);
    var merged := Merged(remote, index, local, id);
    forall i | 0 <= i < |remote| ensures merged[i].url == remote[i].url {
      RowsKeepUrls(remote, index, local, id, i);
    }
    SameIndex(merged, remote, id);
    RowOfConcat(LocalOnly(index, local, id), merged, id, u);
  }

  lemma RowOfConcat(a: seq<Endpoint>, b: seq<Endpoint>, id: Identity, u: string)
    ensures RowFor(a + b, id, u) == if u in Index(b, id) then RowFor(b, id, u) else RowFor(a, id, u)
  {
    IndexOfConcat(a, b, id, u);
    var k := if u in Index(b, id) then |a| + Index(b, id)[u] else if u in Index(a, id) then Index(a, id)[u] else 0;
    assert u in Index(a + b, id) ==> Index(a + b, id)[u] == k;
  }

  /** Whose verdict a published row ends with, however often it was probed: an unreachable probe replaces none it held, a reachable one's stand unless a later one answers too. */
  lemma WhoseVerdict(remote: seq<Endpoint>, local: seq<Endpoint>, id: Identity, u: string, key: string)
    ensures var held, ps := RowFor(remote, id, u), ProbesOf(local, id, u); var row := RowFor(Rows(remote, local, id), id, u);
            held.Some? ==>
              && row.Some? && Cap(row.value, key) == Chosen(Cap(held.value, key), ps, key)
              && row.value.reach == (if LastReach(ps).Some? then LastReach(ps).value else held.value.reach)
  {
    RowAfterMerge(remote, local, id, u);
    var held := RowFor(remote, id, u);
    if held.Some? {
      FoldOntoIs(held.value, ProbesOf(local, id, u), key);
    }
  }

  /** Merging probes of endpoints that all have rows changes nothing, exactly when each row absorbs its probes. */
  lemma RowsStayExactly(rows: seq<Endpoint>, local: seq<Endpoint>, id: Identity)
    requires forall l :: l in local ==> id(l.url) in Index(rows, id)
    ensures Rows(rows, local, id) == rows <==>
            forall u :: u in Index(rows, id) ==> FoldOnto(rows[Index(rows, id)[u]], ProbesOf(local, id, u)) == rows[Index(rows, id)[u]]
  {
    var index := Index(rows, id);
    var merged := Merged(rows, index, local, id);
    NoneLocalOnly(index, local, id);
    assert Rows(rows, local, id) == merged;
    MergedStays(rows, index, local, id);
    assert (forall u :: u in index ==> merged[index[u]] == rows[index[u]])
      <==> forall u :: u in index ==> FoldOnto(rows[index[u]], ProbesOf(local, id, u)) == rows[index[u]] by {
      forall u | u in index ensures merged[index[u]] == FoldOnto(rows[index[u]], ProbesOf(local, id, u)) {
        RowIsFold(rows, index, local, id, u);
      }
    }
  }

  lemma MergedStays(rows: seq<Endpoint>, index: map<string, nat>, local: seq<Endpoint>, id: Identity)
    requires forall u :: u in index ==> index[u] < |rows|
    ensures Merged(rows, index, local, id) == rows <==> forall u :: u in index ==> Merged(rows, index, local, id)[index[u]] == rows[index[u]]
  {
    var out := Merged(rows, index, local, id);
    if forall u :: u in index ==> out[index[u]] == rows[index[u]] {
      forall i | 0 <= i < |rows| ensures out[i] == rows[i] {
        RowsKeepUrls(rows, index, local, id, i);
      }
    }
  }

  lemma {:induction false} NoneLocalOnly(index: map<string, nat>, local: seq<Endpoint>, id: Identity)
    requires forall l :: l in local ==> id(l.url) in index
    ensures LocalOnly(index, local, id) == []
  {
    if local != [] {
      NoneLocalOnly(index, local[..|local| - 1], id);
    }
  }

  lemma {:induction false} ProbesHas(local: seq<Endpoint>, id: Identity, u: string, p: Endpoint)
    ensures p in ProbesOf(local, id, u) <==> p in local && id(p.url) == u
  {
    if local != [] {
      var init, last := local[..|local| - 1], local[|local| - 1];
      assert local == init + [last];
      ProbesHas(init, id, u, p);
      ProbesOneMore(init, last, id, u);
    }
  }

  /** Of each endpoint that is not published, the last probe absorbs the earlier ones. */
  ghost predicate LastAbsorbs(remote: seq<Endpoint>, local: seq<Endpoint>, id: Identity) {
    forall u :: u !in Index(remote, id) ==> AbsorbedByLast(ProbesOf(local, id, u))
  }

  predicate AbsorbedByLast(ps: seq<Endpoint>) {
    forall i :: 0 <= i < |ps| ==> Absorbs(ps[|ps| - 1], ps[i])
  }

  /** Merging the same probes again leaves every row, exactly when of each unpublished endpoint the last probe absorbs the others. */
  lemma RowsAgainExactly(remote: seq<Endpoint>, local: seq<Endpoint>, id: Identity)
    ensures Rows(Rows(remote, local, id), local, id) == Rows(remote, local, id) <==> LastAbsorbs(remote, local, id)
  {
    var rows := Rows(remote, local, id);
    forall l | l in local ensures id(l.url) in Index(rows, id) {
      RowAfterMerge(remote, local, id, id(l.url));
      ProbesHas(local, id, id(l.url), l);
    }
    RowsStayExactly(rows, local, id);
    forall u ensures u in Index(rows, id) && FoldOnto(rows[Index(rows, id)[u]], ProbesOf(local, id, u)) != rows[Index(rows, id)[u]]
                     <==> u !in Index(remote, id) && !AbsorbedByLast(ProbesOf(local, id, u)) {
      RowStaysExactly(remote, local, id, u);
    }
  }

  /** The same of one endpoint's row. */
  lemma RowStaysExactly(remote: seq<Endpoint>, local: seq<Endpoint>, id: Identity, u: string)
    ensures var row, ps := RowFor(Rows(remote, local, id), id, u), ProbesOf(local, id, u);
            row.Some? && FoldOnto(row.value, ps) != row.value <==> u !in Index(remote, id) && !AbsorbedByLast(ps)
  {
    var held, ps := RowFor(remote, id, u), ProbesOf(local, id, u);
    RowAfterMerge(remote, local, id, u);
    if held.Some? {
      FoldOntoAgain(held.value, ps);
    } else if ps != [] {
      FoldOntoLast(ps);
      assert AbsorbedByLast(ps) <==> forall a :: a in ps ==> Absorbs(ps[|ps| - 1], a);
    }
  }

  // The whole matrix

  /** Merging the same probes into the merged matrix gives it back, exactly when of each unpublished endpoint the last probe absorbs the others. */
  lemma MergeAgainExactly(once: Matrix, twice: Matrix, remote: Matrix, local: seq<Endpoint>, id: Identity, all: seq<string>)
    requires IsMerge(once, remote, local, id, all) && IsMerge(twice, once, local, id, all)
    ensures twice == once <==> LastAbsorbs(remote.endpoints, local, id)
  {
    RowsAgainExactly(remote.endpoints, local, id);
    if LastAbsorbs(remote.endpoints, local, id) {
      ColumnsAgain(once.columns, remote.columns, Present(once.endpoints), all);
      ColumnsAreSettled(once.columns, twice.columns, once.columns, Present(once.endpoints), all);
    }
  }

  ghost predicate Distinct(local: seq<Endpoint>, id: Identity) {
    forall i, j :: 0 <= i < j < |local| ==> id(local[i].url) != id(local[j].url)
  }

  /** In particular when each endpoint is probed once. */
  lemma DistinctMergesAgain(remote: seq<Endpoint>, local: seq<Endpoint>, id: Identity)
    requires Distinct(local, id)
    ensures LastAbsorbs(remote, local, id)
  {
    forall u ensures |ProbesOf(local, id, u)| <= 1 {
      DistinctProbes(local, id, u);
    }
  }

  lemma {:induction false} DistinctProbes(local: seq<Endpoint>, id: Identity, u: string)
    requires Distinct(local, id)
    ensures |ProbesOf(local, id, u)| <= 1
  {
    if local != [] {
      var n := |local| - 1;
      DistinctProbes(local[..n], id, u);
      if ProbesOf(local[..n], id, u) != [] {
        var p := ProbesOf(local[..n], id, u)[0];
        ProbesHas(local[..n], id, u, p);
        var k :| 0 <= k < n && local[..n][k] == p;
        assert local[k] == p;
      }
    }
  }

  /** And in particular whenever the endpoint is published, however its probes differ. */
  lemma PublishedMergesAgain(remote: seq<Endpoint>, local: seq<Endpoint>, id: Identity)
    requires forall l :: l in local ==> id(l.url) in Index(remote, id)
    ensures LastAbsorbs(remote, local, id)
  {
    forall u | u !in Index(remote, id) ensures ProbesOf(local, id, u) == [] {
      if ProbesOf(local, id, u) != [] {
        ProbesHas(local, id, u, ProbesOf(local, id, u)[0]);
      }
    }
  }

  /** Two probes of an unpublished endpoint, the first with a verdict the second lacks: a second merge adds it. */
  lemma MergeAgainChangesARow() returns (a: Endpoint, b: Endpoint, id: Identity)
    ensures Rows(Rows([], [a, b], id), [a, b], id) != Rows([], [a, b], id)
  {
    id := url => url;
    a := Endpoint("u", "", "", Reach(true, None, 0, "", Local), map["k" := Verdict(Supported, "", Said(""), Local)]);
    b := a.(caps := map[]);
    ProbesOneMore([], a, id, "u");
    ProbesOneMore([a], b, id, "u");
    assert [] + [a] == [a] && [a] + [b] == [a, b];
    assert !Absorbs(b, a) by {
      assert "k" in a.caps.Keys && "k" !in b.caps.Keys;
    }
    assert ProbesOf([a, b], id, "u") == [a, b] && [a, b][0] == a && [a, b][1] == b;
    assert !AbsorbedByLast([a, b]);
    assert "u" !in Index([], id);
    RowsAgainExactly([], [a, b], id);
  }
}
