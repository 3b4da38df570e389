/**
 What is known of a chain's endpoints, from two sources: a published matrix and
 local probing. Merging them keeps every row and, verdict by verdict, the one
 that is first-hand. A row's verdicts are a map that copies of the row share and
 that merging writes into; no method handed the caller's rows modifies anything.
 */
module Capabilities {
  import opened Wrappers

  /** Unknown stands for a status of some other build. */
  datatype Status = Supported | Unsupported | Inconclusive | Inconsistent | Unknown(name: string)

  datatype Origin = ValveCity | Local

  /** What came back, in words, or the counts of runs that disagreed. */
  datatype Detail = Said(text: string) | Counts(runs: nat, supported: nat, unsupported: nat, inconclusive: nat) | NoVerdict(key: string)

  datatype Verdict = Verdict(status: Status, method_: string, detail: Detail, origin: Origin)

  /** What was established about reaching an endpoint. */
  datatype Reach = Reach(reachable: bool, chainOK: Option<bool>, chainID: int, detail: string, origin: Origin)

  /** An endpoint, its verdicts held in a C. */
  datatype EndpointOf<C> = Endpoint(url: string, name: string, source: string, reach: Reach, caps: C)

  datatype MatrixOf<C> = Matrix(chainID: int, columns: seq<string>, chainlistTotal: int, chainlistProbed: int, remoteErr: Option<string>, endpoints: seq<EndpointOf<C>>)

  type Endpoint = EndpointOf<map<string, Verdict>>

  type Matrix = MatrixOf<map<string, Verdict>>

  /** A map of verdicts as rows share it. */
  class Verdicts {
    var of: map<string, Verdict>

    constructor (of: map<string, Verdict>)
      ensures this.of == of
    {
      this.of := of;
    }
  }

  /** An endpoint as it is handed around; null is a map never made. */
  type Row = EndpointOf<Verdicts?>

  function CapsOf(row: Row): map<string, Verdict>
    reads row.caps
  {
    if row.caps == null then map[] else row.caps.of
  }

  function Value(row: Row): Endpoint
    reads row.caps
  {
    Endpoint(row.url, row.name, row.source, row.reach, CapsOf(row))
  }

  /** v is what these rows hold, in maps among f. */
  ghost predicate Shows(rows: seq<Row>, v: seq<Endpoint>, f: set<Verdicts?>)
    reads f
  {
    |rows| == |v| && forall i :: 0 <= i < |rows| ==> rows[i].caps in f && Value(rows[i]) == v[i]
  }

  /** Each of these rows has a map, and no two share one. */
  ghost predicate Apart(rows: seq<Row>) {
    && (forall i :: 0 <= i < |rows| ==> rows[i].caps != null)
    && (forall i, j :: 0 <= i < j < |rows| ==> rows[i].caps != rows[j].caps)
  }

  /** normalizeURL: the identity endpoints are merged on. */
  type Identity = string -> string

  // One endpoint

  /** The verdicts of two sources: the local one where it was reached, or where it is the only one. */
  function MergeCaps(held: map<string, Verdict>, local: map<string, Verdict>, reached: bool): (out: map<string, Verdict>) {
    if reached then held + local else local + held
  }

  function MergeEndpoint(remote: Endpoint, local: Endpoint): Endpoint {
    remote.(
      reach := if local.reach.reachable then local.reach else remote.reach,
      name := if remote.name == "" then local.name else remote.name,
      caps := MergeCaps(remote.caps, local.caps, local.reach.reachable))
  }

  /** cloneEndpoint: a copy with a map of its own. */
  method Clone(row: Row) returns (copy: Row)
    ensures copy.caps != null && fresh(copy.caps) && Value(copy) == Value(row)
  {
    var caps := new Verdicts(CapsOf(row));
    copy := Endpoint(row.url, row.name, row.source, row.reach, caps);
  }

  /** mergeEndpoint, into the map of the row given; the probe's keys are met in any order. */
  method MergeInto(remote: Row, local: Row) returns (ep: Row)
    requires remote.caps != null && local.caps != remote.caps
    modifies remote.caps
    ensures ep.caps == remote.caps && Value(ep) == MergeEndpoint(old(Value(remote)), Value(local))
  {
    ep := remote;
    if local.reach.reachable {
      ep := ep.(reach := local.reach);
    }
    if local.name != "" && ep.name == "" {
      ep := ep.(name := local.name);
    }
    ghost var held := ep.caps.of;
    var probed := CapsOf(local);
    var left := probed.Keys;
    while left != {}
      invariant left <= probed.Keys
      invariant ep.caps.of.Keys == held.Keys + (probed.Keys - left)
      invariant forall k :: k in ep.caps.of ==>
                  ep.caps.of[k] == if k in probed && k !in left && (local.reach.reachable || k !in held) then probed[k]
                                   else if k in held then held[k] else probed[k]
      decreases left
    {
      var key :| key in left;
      left := left - {key};
      if key in ep.caps.of && !local.reach.reachable {
        continue;
      }
      ep.caps.of := ep.caps.of[key := probed[key]];
    }
    assert ep.caps.of == MergeCaps(held, probed, local.reach.reachable);
  }

  // The rows

  /** Which row a URL is found at: the last of those with its identity. */
  function Index(rows: seq<Endpoint>, id: Identity): (index: map<string, nat>)
    ensures forall u :: u in index ==> index[u] < |rows| && id(rows[index[u]].url) == u
    ensures forall i :: 0 <= i < |rows| ==> id(rows[i].url) in index
  {
    if rows == [] then map[] else Index(rows[..|rows| - 1], id)[id(rows[|rows| - 1].url) := |rows| - 1]
  }

  function MergedAt(rows: seq<Endpoint>, i: nat, local: Endpoint): seq<Endpoint>
    requires i < |rows|
  {
    rows[i := MergeEndpoint(rows[i], local)]
  }

  /** The remote rows with local probes merged into them. */
  function Merged(rows: seq<Endpoint>, index: map<string, nat>, local: seq<Endpoint>, id: Identity): (out: seq<Endpoint>)
    requires forall u :: u in index ==> index[u] < |rows|
    ensures |out| == |rows|
  {
    if local == [] then rows
    else
      var before, l := Merged(rows, index, local[..|local| - 1], id), local[|local| - 1];
      if id(l.url) in index then MergedAt(before, index[id(l.url)], l) else before
  }

  /** The probes of endpoints the matrix does not have. */
  function LocalOnly(index: map<string, nat>, local: seq<Endpoint>, id: Identity): seq<Endpoint> {
    if local == [] then []
    else
      var l := local[|local| - 1];
      LocalOnly(index, local[..|local| - 1], id) + if id(l.url) in index then [] else [l]
  }

  function Rows(remote: seq<Endpoint>, local: seq<Endpoint>, id: Identity): seq<Endpoint> {
    var index := Index(remote, id);
    LocalOnly(index, local, id) + Merged(remote, index, local, id)
  }

  /** A copy of this row after the others. */
  method Push(rows: seq<Row>, row: Row, ghost v: seq<Endpoint>, ghost repr0: set<Verdicts?>) returns (out: seq<Row>, ghost repr: set<Verdicts?>)
    requires Shows(rows, v, repr0) && Apart(rows)
    ensures Shows(out, v + [Value(row)], repr) && Apart(out) && repr0 <= repr && fresh(repr - repr0)
    ensures |out| == |rows| + 1 && out[..|rows|] == rows && fresh(out[|rows|].caps)
  {
    var copy := Clone(row);
    out, repr := rows + [copy], repr0 + {copy.caps};
  }

  /** Every row copied. */
  method CloneRows(rows: seq<Row>, ghost v: seq<Endpoint>, ghost f: set<Verdicts?>) returns (out: seq<Row>, ghost repr: set<Verdicts?>)
    requires Shows(rows, v, f)
    ensures Shows(out, v, repr) && Apart(out) && fresh(repr)
  {
    out, repr := [], {};
    for i := 0 to |rows|
      invariant Shows(out, v[..i], repr) && Apart(out) && fresh(repr)
    {
      assert v[..i + 1] == v[..i] + [v[i]];
      out, repr := Push(out, rows[i], v[..i], repr);
    }
    assert v[..|rows|] == v;
  }

  method MakeIndex(rows: seq<Row>, id: Identity, ghost v: seq<Endpoint>, ghost f: set<Verdicts?>) returns (index: map<string, nat>)
    requires Shows(rows, v, f)
    ensures index == Index(v, id)
  {
    index := map[];
    for i := 0 to |rows|
      invariant index == Index(v[..i], id)
    {
      assert v[..i + 1][..i] == v[..i];
      assert Value(rows[i]).url == v[i].url;
      index := index[id(rows[i].url) := i];
    }
    assert v[..|rows|] == v;
  }

  /** A probe of a row there is, merged into it. */
  method MergeAt(rows: seq<Row>, i: nat, local: Row, ghost v: seq<Endpoint>, ghost repr: set<Verdicts?>) returns (out: seq<Row>)
    requires Shows(rows, v, repr) && Apart(rows) && i < |rows| && local.caps !in repr
    modifies repr
    ensures Shows(out, MergedAt(v, i, Value(local)), repr) && Apart(out)
  {
    assert Value(rows[i]) == v[i];
    var ep := MergeInto(rows[i], local);
    out := rows[i := ep];
  }

  /** One turn of Merge's second loop. */
  method MergeProbe(rows: seq<Row>, added: seq<Row>, index: map<string, nat>, local: Row, id: Identity,
                    ghost v: seq<Endpoint>, ghost av: seq<Endpoint>, ghost own: set<Verdicts?>, ghost others0: set<Verdicts?>)
    returns (merged: seq<Row>, localOnly: seq<Row>, ghost others: set<Verdicts?>)
    requires Shows(rows, v, own) && Apart(rows) && Shows(added, av, others0) && Apart(added) && own !! others0
    requires local.caps !in own && (id(local.url) in index ==> index[id(local.url)] < |v|)
    modifies own
    ensures Shows(merged, if id(local.url) in index then MergedAt(v, index[id(local.url)], Value(local)) else v, own) && Apart(merged)
    ensures Shows(localOnly, av + if id(local.url) in index then [] else [Value(local)], others) && Apart(localOnly)
    ensures others0 <= others && fresh(others - others0)
  {
    merged, localOnly, others := rows, added, others0;
    if id(local.url) in index {
      assert rows[index[id(local.url)]].caps in own;
      merged := MergeAt(merged, index[id(local.url)], local, v, own);
    } else {
      localOnly, others := Push(localOnly, local, av, others);
    }
  }

  /** Merge's second loop: probes of a row there is are merged into it, the others are rows to add. */
  method MergeProbes(rows: seq<Row>, index: map<string, nat>, local: seq<Row>, id: Identity,
                     ghost rv: seq<Endpoint>, ghost lv: seq<Endpoint>, ghost own: set<Verdicts?>, ghost f: set<Verdicts?>)
    returns (merged: seq<Row>, localOnly: seq<Row>, ghost others: set<Verdicts?>)
    requires Shows(rows, rv, own) && Apart(rows) && Shows(local, lv, f) && f !! own
    requires forall u :: u in index ==> index[u] < |rv|
    modifies own
    ensures Shows(merged, Merged(rv, index, lv, id), own) && Apart(merged)
    ensures Shows(localOnly, LocalOnly(index, lv, id), others) && Apart(localOnly) && fresh(others)
  {
    merged, localOnly, others := rows, [], {};
    ghost var v, av: seq<Endpoint> := rv, [];
    for j := 0 to |local|
      invariant fresh(others) && Apart(localOnly) && Apart(merged) && Shows(local, lv, f)
      invariant Shows(localOnly, av, others) && Shows(merged, v, own)
      invariant |v| == |rv| && v == Merged(rv, index, lv[..j], id) && av == LocalOnly(index, lv[..j], id)
    {
      assert Value(local[j]) == lv[j] && local[j].caps in f;
      merged, localOnly, others := MergeProbe(merged, localOnly, index, local[j], id, v, av, own, others);
      v, av := OneMore(v, av, rv, index, lv, j, id);
    }
    assert lv[..|local|] == lv;
  }

  /** Merge, as far as the rows go: rows of its own, none of the caller's maps written. */
  method MergeRows(remote: seq<Row>, local: seq<Row>, id: Identity, ghost rv: seq<Endpoint>, ghost lv: seq<Endpoint>, ghost f: set<Verdicts?>)
    returns (rows: seq<Row>, ghost repr: set<Verdicts?>)
    requires Shows(remote, rv, f) && Shows(local, lv, f)
    ensures Shows(rows, Rows(rv, lv, id), repr) && Apart(rows) && fresh(repr)
  {
    var copies, own := CloneRows(remote, rv, f);
    var index := MakeIndex(remote, id, rv, f);
    var merged, localOnly, others := MergeProbes(copies, index, local, id, rv, lv, own, f);
    rows, repr := localOnly + merged, others + own;
    ShowsBoth(localOnly, merged, LocalOnly(index, lv, id), Merged(rv, index, lv, id), others, own);
  }

  lemma ShowsBoth(a: seq<Row>, b: seq<Row>, av: seq<Endpoint>, bv: seq<Endpoint>, f: set<Verdicts?>, g: set<Verdicts?>)
    requires Shows(a, av, f) && Shows(b, bv, g) && Apart(a) && Apart(b) && f !! g
    ensures Shows(a + b, av + bv, f + g) && Apart(a + b)
  {
  }

  lemma OneMore(v: seq<Endpoint>, av: seq<Endpoint>, rv: seq<Endpoint>, index: map<string, nat>, lv: seq<Endpoint>, j: nat, id: Identity)
    returns (w: seq<Endpoint>, aw: seq<Endpoint>)
    requires forall u :: u in index ==> index[u] < |rv|
    requires j < |lv| && v == Merged(rv, index, lv[..j], id) && av == LocalOnly(index, lv[..j], id)
    ensures |w| == |rv| && w == Merged(rv, index, lv[..j + 1], id) && aw == LocalOnly(index, lv[..j + 1], id)
    ensures w == if id(lv[j].url) in index then MergedAt(v, index[id(lv[j].url)], lv[j]) else v
    ensures aw == av + if id(lv[j].url) in index then [] else [lv[j]]
  {
    MergedSnoc(rv, index, lv[..j], lv[j], id);
    assert lv[..j + 1] == lv[..j] + [lv[j]];
    w, aw := Merged(rv, index, lv[..j + 1], id), LocalOnly(index, lv[..j + 1], id);
  }

  lemma MergedSnoc(rows: seq<Endpoint>, index: map<string, nat>, local: seq<Endpoint>, l: Endpoint, id: Identity)
    requires forall u :: u in index ==> index[u] < |rows|
    ensures var before := Merged(rows, index, local, id);
            Merged(rows, index, local + [l], id) ==
            if id(l.url) in index then MergedAt(before, index[id(l.url)], l) else before
    ensures LocalOnly(index, local + [l], id) == LocalOnly(index, local, id) + if id(l.url) in index then [] else [l]
  {
    assert (local + [l])[..|local|] == local;
  }

  // The columns

  function Present(rows: seq<Endpoint>): set<string> {
    if rows == [] then {} else Present(rows[..|rows| - 1]) + rows[|rows| - 1].caps.Keys
  }

  function Elements(keys: seq<string>): set<string> {
    set k | k in keys
  }

  /** The keys this build knows that are present and have no column yet, in its order. */
  function Known(keys: seq<string>, seen: set<string>, present: set<string>): (out: seq<string>)
    ensures forall k :: k in out <==> k in keys && k in present && k !in seen
  {
    if keys == [] then []
    else
      var before, k := Known(keys[..|keys| - 1], seen, present), keys[|keys| - 1];
      if k in present && k !in seen && k !in before then before + [k] else before
  }

  /** a is met before b among keys. */
  ghost predicate MetBefore(keys: seq<string>, a: string, b: string) {
    exists i :: 0 <= i < |keys| && keys[i] == a && b !in keys[..i + 1]
  }

  /** The known keys come in this build's order, each once. */
  lemma {:induction false} KnownInOrder(keys: seq<string>, seen: set<string>, present: set<string>, i: nat, j: nat)
    requires i < j < |Known(keys, seen, present)|
    ensures var out := Known(keys, seen, present); out[i] != out[j] && MetBefore(keys, out[i], out[j])
  {
    var init, k := keys[..|keys| - 1], keys[|keys| - 1];
    var before := Known(init, seen, present);
    if j < |before| {
      KnownInOrder(init, seen, present, i, j);
      MetAmongMore(init, k, before[i], before[j]);
      assert keys == init + [k];
    } else {
      assert before[i] in before && before[i] in init;
      var p :| 0 <= p < |init| && init[p] == before[i];
      NotMetYet(init, seen, present, k);
      assert keys[..p + 1] == init[..p + 1] && keys[p] == init[p];
    }
  }

  lemma MetAmongMore(keys: seq<string>, k: string, a: string, b: string)
    requires MetBefore(keys, a, b)
    ensures MetBefore(keys + [k], a, b)
  {
    var i :| 0 <= i < |keys| && keys[i] == a && b !in keys[..i + 1];
    assert (keys + [k])[..i + 1] == keys[..i + 1] && (keys + [k])[i] == keys[i];
  }

  lemma NotMetYet(keys: seq<string>, seen: set<string>, present: set<string>, k: string)
    requires k in present && k !in seen && k !in Known(keys, seen, present)
    ensures forall p :: 0 <= p <= |keys| ==> k !in keys[..p]
  {
    assert k !in keys;
  }

  /** The order of sort.Strings. */
  predicate Below(a: string, b: string) {
    b != "" && (a == "" || a[0] < b[0] || (a[0] == b[0] && Below(a[1..], b[1..])))
  }

  lemma {:induction false} BelowIsTotal(a: string, b: string)
    ensures a == b || Below(a, b) || Below(b, a)
    ensures !(Below(a, b) && Below(b, a)) && !Below(a, a)
  {
    if a != "" {
      BelowIsTotal(a[1..], a[1..]);
      if b != "" && a[0] == b[0] {
        BelowIsTotal(a[1..], b[1..]);
        assert a == [a[0]] + a[1..] && b == [b[0]] + b[1..];
      }
    }
  }

  lemma {:induction false} BelowIsTransitive(a: string, b: string, c: string)
    requires Below(a, b) && Below(b, c)
    ensures Below(a, c)
  {
    if a != "" && a[0] == b[0] == c[0] {
      BelowIsTransitive(a[1..], b[1..], c[1..]);
    }
  }

  /** keys in order, each once. */
  ghost predicate Sorted(keys: seq<string>, of: set<string>) {
    (forall k :: k in keys <==> k in of) && forall i, j :: 0 <= i < j < |keys| ==> Below(keys[i], keys[j])
  }

  method Least(keys: set<string>) returns (least: string)
    requires keys != {}
    ensures least in keys && forall k :: k in keys ==> k == least || Below(least, k)
  {
    least :| least in keys;
    var left := keys - {least};
    while left != {}
      invariant left <= keys && least in keys - left
      invariant forall k :: k in keys - left ==> k == least || Below(least, k)
      decreases left
    {
      var k :| k in left;
      left := left - {k};
      if Below(k, least) {
        forall x | x in keys - left && x != k ensures Below(k, x) {
          if x != least {
            BelowIsTransitive(k, least, x);
          }
        }
        least := k;
      } else {
        BelowIsTotal(k, least);
      }
    }
  }

  method Sort(keys: set<string>) returns (out: seq<string>)
    ensures Sorted(out, keys)
  {
    out := [];
    var left := keys;
    while left != {}
      invariant left <= keys && Sorted(out, keys - left)
      invariant forall i, k :: 0 <= i < |out| && k in left ==> Below(out[i], k)
      decreases left
    {
      var k := Least(left);
      left := left - {k};
      out := out + [k];
    }
  }

  /** What mergeKeys gives: the published columns, then known ones, then the rest in order. */
  ghost predicate IsColumns(cols: seq<string>, remote: seq<string>, present: set<string>, all: seq<string>) {
    var named := remote + Known(all, Elements(remote), present);
    named <= cols && Sorted(cols[|named|..], present - Elements(named))
  }

  method MergeKeys(remote: seq<string>, rows: seq<Row>, all: seq<string>, ghost v: seq<Endpoint>, ghost f: set<Verdicts?>) returns (cols: seq<string>)
    requires Shows(rows, v, f)
    ensures IsColumns(cols, remote, Present(v), all)
  {
    var present: set<string> := {};
    for i := 0 to |rows|
      invariant present == Present(v[..i])
    {
      assert v[..i + 1][..i] == v[..i];
      assert Value(rows[i]) == v[i];
      present := present + CapsOf(rows[i]).Keys;
    }
    assert v[..|rows|] == v;
    var known: seq<string> := [];
    for i := 0 to |all|
      invariant known == Known(all[..i], Elements(remote), present)
    {
      assert all[..i + 1][..i] == all[..i];
      if all[i] in present && all[i] !in remote && all[i] !in known {
        known := known + [all[i]];
      }
    }
    assert all[..|all|] == all;
    var named := remote + known;
    var extra := Sort(present - Elements(named));
    cols := named + extra;
    assert cols[|named|..] == extra;
  }

  lemma {:induction false} SortedOnce(a: seq<string>, b: seq<string>, keys: set<string>)
    requires Sorted(a, keys) && Sorted(b, keys)
    ensures a == b
  {
    assert a != [] ==> a[0] in b;
    assert b != [] ==> b[0] in a;
    if a != [] {
      SameFirst(a, b, keys);
      BelowIsTotal(a[0], a[0]);
      RestSorted(a, keys);
      RestSorted(b, keys);
      SortedOnce(a[1..], b[1..], keys - {a[0]});
      assert a == [a[0]] + a[1..] && b == [b[0]] + b[1..];
    }
  }

  lemma SameFirst(a: seq<string>, b: seq<string>, keys: set<string>)
    requires Sorted(a, keys) && Sorted(b, keys) && a != [] && b != []
    ensures a[0] == b[0]
  {
    assert a[0] in b && b[0] in a;
    var i :| 0 <= i < |b| && b[i] == a[0];
    var j :| 0 <= j < |a| && a[j] == b[0];
    BelowIsTotal(a[0], b[0]);
  }

  lemma RestSorted(a: seq<string>, keys: set<string>)
    requires Sorted(a, keys) && a != []
    ensures Sorted(a[1..], keys - {a[0]})
  {
    BelowIsTotal(a[0], a[0]);
    forall k ensures k in a[1..] <==> k in keys - {a[0]} {
      if k in a[1..] {
        var i :| 0 <= i < |a[1..]| && a[1..][i] == k;
        assert Below(a[0], a[i + 1]);
      }
      if k in keys - {a[0]} {
        var i :| 0 <= i < |a| && a[i] == k;
        assert a[1..][i - 1] == k;
      }
    }
  }

  /** The columns are settled by what is present, whatever order the keys were met in. */
  lemma ColumnsAreSettled(a: seq<string>, b: seq<string>, remote: seq<string>, present: set<string>, all: seq<string>)
    requires IsColumns(a, remote, present, all) && IsColumns(b, remote, present, all)
    ensures a == b
  {
    var n := |remote + Known(all, Elements(remote), present)|;
    SortedOnce(a[n..], b[n..], present - Elements(a[..n]));
    assert a == a[..n] + a[n..] && b == b[..n] + b[n..];
  }

  /** Every verdict has a column, the published ones keep their place, and none is added that nothing has. */
  lemma ColumnsCover(cols: seq<string>, remote: seq<string>, present: set<string>, all: seq<string>)
    requires IsColumns(cols, remote, present, all)
    ensures remote <= cols && (forall k :: k in cols <==> k in remote || k in present)
  {
    var named := remote + Known(all, Elements(remote), present);
    assert cols == named + cols[|named|..];
  }

  lemma Inhabited(keys: seq<string>)
    requires keys != []
    ensures exists k :: k in keys
  {
    assert keys[0] in keys;
  }

  /** Columns that cover what is present are left as they are. */
  lemma ColumnsAgain(cols: seq<string>, remote: seq<string>, present: set<string>, all: seq<string>)
    requires IsColumns(cols, remote, present, all)
    ensures IsColumns(cols, cols, present, all)
  {
    ColumnsCover(cols, remote, present, all);
    var known := Known(all, Elements(cols), present);
    if known != [] {
      Inhabited(known);
    }
    assert cols + [] == cols;
    assert cols[|cols|..] == [];
  }

  // The whole

  ghost predicate IsMerge(out: Matrix, remote: Matrix, local: seq<Endpoint>, id: Identity, all: seq<string>) {
    && out == remote.(endpoints := Rows(remote.endpoints, local, id), columns := out.columns)
    && IsColumns(out.columns, remote.columns, Present(out.endpoints), all)
  }

  type Table = MatrixOf<Verdicts?>

  /** v is what this matrix holds, in maps among f. */
  ghost predicate Holds(m: Table, v: Matrix, f: set<Verdicts?>)
    reads f
  {
    Shows(m.endpoints, v.endpoints, f) && v == Matrix(m.chainID, m.columns, m.chainlistTotal, m.chainlistProbed, m.remoteErr, v.endpoints)
  }

  method Merge(remote: Table, local: seq<Row>, id: Identity, all: seq<string>, ghost rv: Matrix, ghost lv: seq<Endpoint>, ghost f: set<Verdicts?>)
    returns (out: Table, ghost v: Matrix, ghost repr: set<Verdicts?>)
    requires Holds(remote, rv, f) && Shows(local, lv, f)
    ensures Holds(out, v, repr) && IsMerge(v, rv, lv, id, all) && Apart(out.endpoints) && fresh(repr)
  {
    var rows;
    rows, repr := MergeRows(remote.endpoints, local, id, rv.endpoints, lv, f);
    v := rv.(endpoints := Rows(rv.endpoints, lv, id));
    var cols := MergeKeys(remote.columns, rows, all, v.endpoints, repr);
    out := Matrix(remote.chainID, cols, remote.chainlistTotal, remote.chainlistProbed, remote.remoteErr, rows);
    v := v.(columns := cols);
  }
}
