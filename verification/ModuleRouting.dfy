/**
 Which upstream may serve which method. The gateway is told only through two
 lists per upstream, so what those lists close, and what they leave open, is
 everything the modules promise about exposure.
 */
module ModuleRouting {
  import opened Wrappers

  datatype MethodClass = Read | Unbounded | Write | Stream

  datatype ModuleMethod = ModuleMethod(name: string, class_: MethodClass)

  datatype Placement = OnNode | OnBox | OnGateway

  datatype Route = Route(id: string, endpoint: string, methods: seq<string>)

  datatype Module = Module(id: string, placement: Placement, namespaces: seq<string>, methods: seq<ModuleMethod>,
                           chains: seq<int>, unsupported: set<int>, clients: seq<string>, routes: map<int, seq<Route>>)

  datatype Tier = Local | Private | Public

  datatype NodeModule = NodeModule(id: string, exposure: string)

  /** A managed node's module settings. */
  datatype Wire = Wire(modules: seq<NodeModule>)

  const MANAGED_NODE := "managed-node"
  const EXTERNAL := "external"

  datatype Upstream = Upstream(id: string, kind: string, endpoint: string, local: bool, recentOnly: bool, ignore: seq<string>, allow: seq<string>)

  // How the gateway reads the lists.

  predicate Matches(pattern: string, x: string) {
    if pattern != "" && pattern[|pattern| - 1] == '*' then pattern[..|pattern| - 1] <= x else pattern == x
  }

  predicate Listed(patterns: seq<string>, x: string) {
    exists i :: 0 <= i < |patterns| && Matches(patterns[i], x)
  }

  /** A method is served when it is allowed or not ignored. */
  predicate Serves(u: Upstream, x: string) {
    Listed(u.allow, x) || !Listed(u.ignore, x)
  }

  predicate Plain(name: string) {
    name != "" && name[|name| - 1] != '*'
  }

  predicate InNamespace(m: Module, x: string) {
    exists i :: 0 <= i < |m.namespaces| && m.namespaces[i] + "_" <= x
  }

  predicate IsMethod(m: Module, x: string, classes: set<MethodClass>) {
    exists i :: 0 <= i < |m.methods| && m.methods[i].name == x && m.methods[i].class_ in classes
  }

  // What the lists are built from.

  function HasModule(w: Wire, id: string): bool {
    exists i :: 0 <= i < |w.modules| && w.modules[i].id == id
  }

  function Exposure(modules: seq<NodeModule>, id: string): string {
    if modules == [] then "" else if modules[0].id == id then modules[0].exposure else Exposure(modules[1..], id)
  }

  /** A node's setting for a module is its first entry for it, and empty without one. */
  lemma {:induction false} ExposureExactly(modules: seq<NodeModule>, id: string)
    ensures forall i :: 0 <= i < |modules| && modules[i].id == id && (forall k :: 0 <= k < i ==> modules[k].id != id) ==>
              Exposure(modules, id) == modules[i].exposure
    ensures (forall i :: 0 <= i < |modules| ==> modules[i].id != id) ==> Exposure(modules, id) == ""
  {
    if modules != [] && modules[0].id != id {
      ExposureExactly(modules[1..], id);
      forall i | 0 <= i < |modules| && modules[i].id == id && (forall k :: 0 <= k < i ==> modules[k].id != id)
        ensures Exposure(modules, id) == modules[i].exposure
      {
        assert modules[1..][i - 1] == modules[i];
      }
    }
  }

  /** Whether this upstream is a node that serves the module. */
  predicate ServedBy(m: Module, u: Upstream, w: Option<Wire>) {
    u.kind == MANAGED_NODE && w.Some? && HasModule(w.value, m.id)
  }

  /** The method classes closed on a node that serves the module; None when its whole namespace is. */
  function ClosedClasses(m: Module, tier: Tier, u: Upstream, w: Option<Wire>): Option<set<MethodClass>> {
    if !ServedBy(m, u, w) then None
    else if !tier.Public? then Some({Stream})
    else if Exposure(w.value.modules, m.id) == "read" then Some({Write, Unbounded, Stream})
    else if Exposure(w.value.modules, m.id) == "post" then Some({Unbounded, Stream})
    else None
  }

  function Wildcards(namespaces: seq<string>): (r: seq<string>)
    ensures |r| == |namespaces| && forall i :: 0 <= i < |r| ==> r[i] == namespaces[i] + "_*"
  {
    if namespaces == [] then [] else Wildcards(namespaces[..|namespaces| - 1]) + [namespaces[|namespaces| - 1] + "_*"]
  }

  function NamesOf(methods: seq<ModuleMethod>, classes: set<MethodClass>): (r: seq<string>)
    ensures forall x :: x in r <==> exists i :: 0 <= i < |methods| && methods[i].name == x && methods[i].class_ in classes
  {
    if methods == [] then []
    else
      var last := methods[|methods| - 1];
      NamesOf(methods[..|methods| - 1], classes) + if last.class_ in classes then [last.name] else []
  }

  function ModuleIgnores(m: Module, tier: Tier, u: Upstream, w: Option<Wire>): seq<string> {
    if !m.placement.OnNode? then []
    else match ClosedClasses(m, tier, u, w)
      case None => Wildcards(m.namespaces)
      case Some(classes) => NamesOf(m.methods, classes)
  }

  function AllIgnores(mods: seq<Module>, tier: Tier, u: Upstream, w: Option<Wire>): seq<string> {
    if mods == [] then []
    else AllIgnores(mods[..|mods| - 1], tier, u, w) + ModuleIgnores(mods[|mods| - 1], tier, u, w)
  }

  /** nsWildcards. */
  method NsWildcards(m: Module) returns (out: seq<string>)
    ensures out == Wildcards(m.namespaces)
  {
    out := [];
    for i := 0 to |m.namespaces|
      invariant out == Wildcards(m.namespaces[..i])
    {
      assert m.namespaces[..i + 1][..i] == m.namespaces[..i];
      out := out + [m.namespaces[i] + "_*"];
    }
    assert m.namespaces[..|m.namespaces|] == m.namespaces;
  }

  /** methodsOf. */
  method MethodsOf(m: Module, classes: set<MethodClass>) returns (out: seq<string>)
    ensures out == NamesOf(m.methods, classes)
  {
    out := [];
    for i := 0 to |m.methods|
      invariant out == NamesOf(m.methods[..i], classes)
    {
      assert m.methods[..i + 1][..i] == m.methods[..i];
      if m.methods[i].class_ in classes {
        out := out + [m.methods[i].name];
      }
    }
    assert m.methods[..|m.methods|] == m.methods;
  }

  /** moduleIgnoreMethods: the ignore list of one upstream. */
  method ModuleIgnoreMethods(mods: seq<Module>, tier: Tier, u: Upstream, w: Option<Wire>) returns (out: seq<string>)
    ensures out == AllIgnores(mods, tier, u, w)
  {
    out := [];
    for i := 0 to |mods|
      invariant out == AllIgnores(mods[..i], tier, u, w)
    {
      assert mods[..i + 1][..i] == mods[..i];
      var m := mods[i];
      if !m.placement.OnNode? {
        continue;
      }
      var more;
      if u.kind != MANAGED_NODE || w.None? || !HasModule(w.value, m.id) {
        more := NsWildcards(m);
      } else if !tier.Public? {
        more := MethodsOf(m, {Stream});
      } else {
        match Exposure(w.value.modules, m.id) {
          case "read" => more := MethodsOf(m, {Write, Unbounded, Stream});
          case "post" => more := MethodsOf(m, {Unbounded, Stream});
          case _ => more := NsWildcards(m);
        }
      }
      out := out + more;
    }
    assert mods[..|mods|] == mods;
  }

  // ApplyModuleIgnores

  function WireAt(wires: seq<Option<Wire>>, i: nat): Option<Wire> {
    if i < |wires| then wires[i] else None
  }

  predicate ServedOnChain(wires: seq<Option<Wire>>, id: string) {
    exists i :: 0 <= i < |wires| && wires[i].Some? && HasModule(wires[i].value, id)
  }

  /** Whether a node module's list is kept on this chain. */
  predicate Kept(m: Module, wires: seq<Option<Wire>>, anyModules: bool) {
    anyModules || ServedOnChain(wires, m.id)
  }

  function Unserved(mods: seq<Module>, wires: seq<Option<Wire>>, anyModules: bool): set<string> {
    if mods == [] then {}
    else
      var m := mods[|mods| - 1];
      Unserved(mods[..|mods| - 1], wires, anyModules)
      + if m.placement.OnNode? && !Kept(m, wires, anyModules) then (set x | x in Wildcards(m.namespaces)) else {}
  }

  /** Whether p is a pattern of a node module whose list is dropped on this chain. */
  predicate DroppedWith(m: Module, wires: seq<Option<Wire>>, anyModules: bool, p: string) {
    m.placement.OnNode? && !Kept(m, wires, anyModules) && p in Wildcards(m.namespaces)
  }

  function Without(xs: seq<string>, dropped: set<string>): (r: seq<string>)
    ensures forall x :: x in r <==> x in xs && x !in dropped
  {
    if xs == [] then []
    else Without(xs[..|xs| - 1], dropped) + if xs[|xs| - 1] in dropped then [] else [xs[|xs| - 1]]
  }

  function IgnoresFor(mods: seq<Module>, tier: Tier, u: Upstream, wires: seq<Option<Wire>>, i: nat, anyModules: bool): seq<string> {
    Without(AllIgnores(mods, tier, u, WireAt(wires, i)), Unserved(mods, wires, anyModules))
  }

  method ApplyModuleIgnores(mods: seq<Module>, tier: Tier, ups: seq<Upstream>, wires: seq<Option<Wire>>, anyModules: bool) returns (out: seq<Upstream>)
    ensures |out| == |ups|
    ensures forall i :: 0 <= i < |ups| ==> out[i] == ups[i].(ignore := IgnoresFor(mods, tier, ups[i], wires, i, anyModules))
  {
    var served := ServedIds(wires);
    var unserved := UnservedPatterns(mods, served, wires, anyModules);
    out := ups;
    for i := 0 to |ups|
      invariant |out| == |ups| && forall k :: i <= k < |ups| ==> out[k] == ups[k]
      invariant forall k :: 0 <= k < i ==> out[k] == ups[k].(ignore := IgnoresFor(mods, tier, ups[k], wires, k, anyModules))
    {
      var all := ModuleIgnoreMethods(mods, tier, out[i], WireAt(wires, i));
      var keep := Drop(all, unserved);
      out := out[i := out[i].(ignore := keep)];
    }
  }

  /** The first loop of ApplyModuleIgnores: the modules some node of the chain has. */
  method ServedIds(wires: seq<Option<Wire>>) returns (served: set<string>)
    ensures forall id :: id in served <==> ServedOnChain(wires, id)
  {
    served := {};
    for i := 0 to |wires|
      invariant forall id :: id in served <==> ServedOnChain(wires[..i], id)
    {
      if wires[i].Some? {
        var ids := set k | 0 <= k < |wires[i].value.modules| :: wires[i].value.modules[k].id;
        served := served + ids;
      }
      assert wires[..i + 1] == wires[..i] + [wires[i]];
    }
    assert wires[..|wires|] == wires;
  }

  /** The second: the patterns of the node modules that none has. */
  method UnservedPatterns(mods: seq<Module>, served: set<string>, wires: seq<Option<Wire>>, anyModules: bool) returns (unserved: set<string>)
    requires forall id :: id in served <==> ServedOnChain(wires, id)
    ensures unserved == Unserved(mods, wires, anyModules)
  {
    unserved := {};
    for i := 0 to |mods|
      invariant unserved == Unserved(mods[..i], wires, anyModules)
    {
      assert mods[..i + 1][..i] == mods[..i];
      if !anyModules && mods[i].placement.OnNode? && mods[i].id !in served {
        var patterns := NsWildcards(mods[i]);
        unserved := unserved + set x | x in patterns;
      }
    }
    assert mods[..|mods|] == mods;
  }

  /** The innermost: a list without those patterns. */
  method Drop(all: seq<string>, unserved: set<string>) returns (keep: seq<string>)
    ensures keep == Without(all, unserved)
  {
    keep := [];
    for k := 0 to |all|
      invariant keep == Without(all[..k], unserved)
    {
      assert all[..k + 1][..k] == all[..k];
      if all[k] !in unserved {
        keep := keep + [all[k]];
      }
    }
    assert all[..|all|] == all;
  }

  // What the registry must be for the lists to mean what they should.

  predicate Apart(m: Module, n: Module) {
    forall i, j :: 0 <= i < |m.namespaces| && 0 <= j < |n.namespaces| ==>
      !(m.namespaces[i] + "_" <= n.namespaces[j] + "_") && !(n.namespaces[j] + "_" <= m.namespaces[i] + "_")
  }

  /** Node modules have namespaces of their own, one not within another's, and name methods inside them. */
  ghost predicate WellFormed(mods: seq<Module>) {
    && (forall i, j :: 0 <= i < j < |mods| && mods[i].placement.OnNode? && mods[j].placement.OnNode? ==> Apart(mods[i], mods[j]))
    && (forall i, k :: 0 <= i < |mods| && mods[i].placement.OnNode? && 0 <= k < |mods[i].methods| ==>
         Plain(mods[i].methods[k].name) && InNamespace(mods[i], mods[i].methods[k].name))
  }

  /** What module m closes on one upstream. */
  predicate Closes(m: Module, tier: Tier, u: Upstream, w: Option<Wire>, x: string) {
    match ClosedClasses(m, tier, u, w)
    case None => InNamespace(m, x)
    case Some(classes) => IsMethod(m, x, classes)
  }

  lemma WildcardMatches(ns: string, x: string)
    ensures Matches(ns + "_*", x) <==> ns + "_" <= x
  {
    assert (ns + "_*")[..|ns| + 1] == ns + "_";
  }

  /** One module's list closes what the module should close, and nothing else. */
  lemma ModuleIgnoresClose(m: Module, tier: Tier, u: Upstream, w: Option<Wire>, x: string)
    requires m.placement.OnNode? && forall k :: 0 <= k < |m.methods| ==> Plain(m.methods[k].name)
    ensures (exists p :: p in ModuleIgnores(m, tier, u, w) && Matches(p, x)) <==> Closes(m, tier, u, w, x)
  {
    var classes := ClosedClasses(m, tier, u, w);
    match classes
    case None =>
      forall i | 0 <= i < |m.namespaces| ensures Wildcards(m.namespaces)[i] in Wildcards(m.namespaces)
                                         ensures Matches(Wildcards(m.namespaces)[i], x) <==> m.namespaces[i] + "_" <= x {
        WildcardMatches(m.namespaces[i], x);
      }
    case Some(cs) =>
      assert forall p :: p in NamesOf(m.methods, cs) ==> (Matches(p, x) <==> p == x);
      if IsMethod(m, x, cs) {
        assert Matches(x, x) && x in NamesOf(m.methods, cs);
      }
  }

  lemma {:induction false} AllIgnoresExactly(mods: seq<Module>, tier: Tier, u: Upstream, w: Option<Wire>, p: string)
    ensures p in AllIgnores(mods, tier, u, w) <==> exists k :: 0 <= k < |mods| && p in ModuleIgnores(mods[k], tier, u, w)
  {
    if mods != [] {
      var init := mods[..|mods| - 1];
      AllIgnoresExactly(init, tier, u, w, p);
      if k :| 0 <= k < |init| && p in ModuleIgnores(init[k], tier, u, w) {
        assert mods[k] == init[k];
      }
    }
  }

  lemma {:induction false} UnservedExactly(mods: seq<Module>, wires: seq<Option<Wire>>, anyModules: bool, p: string)
    ensures p in Unserved(mods, wires, anyModules) <==>
            exists k :: 0 <= k < |mods| && DroppedWith(mods[k], wires, anyModules, p)
  {
    if mods != [] {
      var init := mods[..|mods| - 1];
      UnservedExactly(init, wires, anyModules, p);
      if k :| 0 <= k < |init| && DroppedWith(init[k], wires, anyModules, p) {
        assert mods[k] == init[k];
      }
    }
  }

  lemma SharedWildcard(a: seq<string>, b: seq<string>, p: string)
    requires p in Wildcards(a) && p in Wildcards(b)
    ensures exists i, j :: 0 <= i < |a| && 0 <= j < |b| && a[i] == b[j]
  {
    var i :| 0 <= i < |a| && p == a[i] + "_*";
    var j :| 0 <= j < |b| && p == b[j] + "_*";
    SameBeforeSuffix(a[i], b[j]);
  }

  lemma SameBeforeSuffix(a: string, b: string)
    requires a + "_*" == b + "_*"
    ensures a == b
  {
    assert a == (a + "_*")[..|a|];
    assert b == (b + "_*")[..|b|];
  }

  lemma WildcardsApart(m: Module, n: Module, p: string)
    requires Apart(m, n)
    ensures p !in Wildcards(m.namespaces) || p !in Wildcards(n.namespaces)
  {
    if p in Wildcards(m.namespaces) && p in Wildcards(n.namespaces) {
      SharedWildcard(m.namespaces, n.namespaces, p);
    }
  }

  lemma WildcardsAreNotPlain(namespaces: seq<string>, p: string)
    requires p in Wildcards(namespaces)
    ensures !Plain(p)
  {
  }

  /** A kept module's entry is never mistaken for one of a module whose list is dropped. */
  lemma KeptEntrySurvives(mods: seq<Module>, tier: Tier, u: Upstream, wires: seq<Option<Wire>>, w: Option<Wire>, anyModules: bool, k: nat, p: string)
    requires WellFormed(mods) && k < |mods| && mods[k].placement.OnNode? && Kept(mods[k], wires, anyModules)
    requires p in ModuleIgnores(mods[k], tier, u, w)
    ensures p !in Unserved(mods, wires, anyModules)
  {
    UnservedExactly(mods, wires, anyModules, p);
    if j :| 0 <= j < |mods| && DroppedWith(mods[j], wires, anyModules, p) {
      WildcardsAreNotPlain(mods[j].namespaces, p);
      if j < k {
        WildcardsApart(mods[j], mods[k], p);
      } else {
        WildcardsApart(mods[k], mods[j], p);
      }
    }
  }

  /** Whether a method is closed on the i-th upstream of a chain by some node module. */
  predicate ClosedOn(mods: seq<Module>, tier: Tier, u: Upstream, wires: seq<Option<Wire>>, i: nat, anyModules: bool, x: string) {
    exists k :: 0 <= k < |mods| && mods[k].placement.OnNode? && Kept(mods[k], wires, anyModules)
      && Closes(mods[k], tier, u, WireAt(wires, i), x)
  }

  /** What an ignore list closes, some kept node module closes. */
  lemma ListedIsClosed(mods: seq<Module>, tier: Tier, u: Upstream, wires: seq<Option<Wire>>, i: nat, anyModules: bool, x: string)
    requires WellFormed(mods) && Listed(IgnoresFor(mods, tier, u, wires, i, anyModules), x)
    ensures ClosedOn(mods, tier, u, wires, i, anyModules, x)
  {
    var w, list := WireAt(wires, i), IgnoresFor(mods, tier, u, wires, i, anyModules);
    var n :| 0 <= n < |list| && Matches(list[n], x);
    var p := list[n];
    AllIgnoresExactly(mods, tier, u, w, p);
    var k :| 0 <= k < |mods| && p in ModuleIgnores(mods[k], tier, u, w);
    ModuleIgnoresClose(mods[k], tier, u, w, x);
    if !Kept(mods[k], wires, anyModules) {
      UnkeptClosesAll(mods[k], tier, u, wires, i, anyModules);
      assert DroppedWith(mods[k], wires, anyModules, p);
      UnservedExactly(mods, wires, anyModules, p);
    }
  }

  /** Where no upstream serves a module, each closes its whole namespace. */
  lemma UnkeptClosesAll(m: Module, tier: Tier, u: Upstream, wires: seq<Option<Wire>>, i: nat, anyModules: bool)
    requires !Kept(m, wires, anyModules)
    ensures ClosedClasses(m, tier, u, WireAt(wires, i)).None?
  {
  }

  /** The ignore list of an upstream closes exactly what the kept node modules close on it. */
  lemma IgnoresCloseExactly(mods: seq<Module>, tier: Tier, u: Upstream, wires: seq<Option<Wire>>, i: nat, anyModules: bool, x: string)
    requires WellFormed(mods)
    ensures Listed(IgnoresFor(mods, tier, u, wires, i, anyModules), x) <==> ClosedOn(mods, tier, u, wires, i, anyModules, x)
  {
    var w, list := WireAt(wires, i), IgnoresFor(mods, tier, u, wires, i, anyModules);
    if Listed(list, x) {
      ListedIsClosed(mods, tier, u, wires, i, anyModules, x);
    }
    if k :| 0 <= k < |mods| && mods[k].placement.OnNode? && Kept(mods[k], wires, anyModules) && Closes(mods[k], tier, u, w, x) {
      ModuleIgnoresClose(mods[k], tier, u, w, x);
      var p :| p in ModuleIgnores(mods[k], tier, u, w) && Matches(p, x);
      AllIgnoresExactly(mods, tier, u, w, p);
      KeptEntrySurvives(mods, tier, u, wires, w, anyModules, k, p);
      assert p in list;
    }
  }

  // What that means for exposure.

  function Closed(mods: seq<Module>, tier: Tier, u: Upstream, wires: seq<Option<Wire>>, i: nat, anyModules: bool): Upstream {
    u.(ignore := IgnoresFor(mods, tier, u, wires, i, anyModules))
  }

  lemma PrefixesCompare(a: string, b: string, x: string)
    requires a <= x && b <= x
    ensures a <= b || b <= a
  {
    if |a| <= |b| {
      assert a == x[..|a|] == b[..|a|];
    } else {
      assert b == x[..|b|] == a[..|b|];
    }
  }

  lemma NotInBoth(m: Module, n: Module, x: string)
    requires Apart(m, n)
    ensures !InNamespace(m, x) || !InNamespace(n, x)
  {
    if InNamespace(m, x) && InNamespace(n, x) {
      var a :| 0 <= a < |m.namespaces| && m.namespaces[a] + "_" <= x;
      var b :| 0 <= b < |n.namespaces| && n.namespaces[b] + "_" <= x;
      PrefixesCompare(m.namespaces[a] + "_", n.namespaces[b] + "_", x);
    }
  }

  /** A method of one node module is in no other's namespace. */
  lemma OneNamespaceOnly(mods: seq<Module>, j: nat, k: nat, x: string)
    requires WellFormed(mods) && j < |mods| && k < |mods| && mods[j].placement.OnNode? && mods[k].placement.OnNode?
    requires InNamespace(mods[j], x) && InNamespace(mods[k], x)
    ensures j == k
  {
    if j < k {
      NotInBoth(mods[j], mods[k], x);
    } else if k < j {
      NotInBoth(mods[k], mods[j], x);
    }
  }

  /** A node module's own settings alone decide whether one of its methods is served. */
  lemma ServedExactly(mods: seq<Module>, tier: Tier, u: Upstream, wires: seq<Option<Wire>>, i: nat, anyModules: bool, k: nat, x: string)
    requires WellFormed(mods) && k < |mods| && mods[k].placement.OnNode? && InNamespace(mods[k], x) && u.allow == []
    ensures Serves(Closed(mods, tier, u, wires, i, anyModules), x)
            <==> !Kept(mods[k], wires, anyModules) || !Closes(mods[k], tier, u, WireAt(wires, i), x)
  {
    IgnoresCloseExactly(mods, tier, u, wires, i, anyModules, x);
    if j :| 0 <= j < |mods| && mods[j].placement.OnNode? && Kept(mods[j], wires, anyModules) && Closes(mods[j], tier, u, WireAt(wires, i), x) {
      ClosesOwnNamespace(mods, j, tier, u, WireAt(wires, i), x);
      OneNamespaceOnly(mods, j, k, x);
    }
  }

  lemma ClosesOwnNamespace(mods: seq<Module>, j: nat, tier: Tier, u: Upstream, w: Option<Wire>, x: string)
    requires WellFormed(mods) && j < |mods| && mods[j].placement.OnNode? && Closes(mods[j], tier, u, w, x)
    ensures InNamespace(mods[j], x)
  {
  }

  /** The class the registry gives x in m: at most one, as the registry lists a method once. */
  ghost predicate HasClass(m: Module, x: string, c: MethodClass) {
    forall d :: IsMethod(m, x, {d}) <==> d == c
  }

  /** On a chain the module's list is kept on: which upstream serves a method of each class, and at which tier. */
  lemma ExposureByClass(mods: seq<Module>, tier: Tier, u: Upstream, wires: seq<Option<Wire>>, i: nat, anyModules: bool, k: nat, x: string, c: MethodClass)
    requires WellFormed(mods) && k < |mods| && mods[k].placement.OnNode? && u.allow == []
    requires Kept(mods[k], wires, anyModules) && HasClass(mods[k], x, c)
    ensures Serves(Closed(mods, tier, u, wires, i, anyModules), x) <==>
            && ServedBy(mods[k], u, WireAt(wires, i)) && !c.Stream?
            && (tier.Public? ==>
                  var exposure := Exposure(WireAt(wires, i).value.modules, mods[k].id);
                  (exposure == "post" && !c.Unbounded?) || (exposure == "read" && c.Read?))
  {
    assert IsMethod(mods[k], x, {c});
    assert InNamespace(mods[k], x);
    ServedExactly(mods, tier, u, wires, i, anyModules, k, x);
    ClassIn(mods[k], x, c, {Stream});
    ClassIn(mods[k], x, c, {Unbounded, Stream});
    ClassIn(mods[k], x, c, {Write, Unbounded, Stream});
  }

  lemma ClassIn(m: Module, x: string, c: MethodClass, classes: set<MethodClass>)
    requires HasClass(m, x, c)
    ensures IsMethod(m, x, classes) <==> c in classes
  {
    assert IsMethod(m, x, {c});
    if IsMethod(m, x, classes) {
      var i :| 0 <= i < |m.methods| && m.methods[i].name == x && m.methods[i].class_ in classes;
      assert IsMethod(m, x, {m.methods[i].class_});
    }
  }

  /** A method of no node module keeps every upstream it had, whatever the modules' settings. */
  lemma OtherMethodsUntouched(mods: seq<Module>, tier: Tier, u: Upstream, wires: seq<Option<Wire>>, i: nat, anyModules: bool, x: string)
    requires WellFormed(mods) && forall k :: 0 <= k < |mods| && mods[k].placement.OnNode? ==> !InNamespace(mods[k], x)
    ensures Serves(Closed(mods, tier, u, wires, i, anyModules), x)
  {
    IgnoresCloseExactly(mods, tier, u, wires, i, anyModules, x);
    ClosedInNamespace(mods, tier, u, wires, i, anyModules, x);
  }

  lemma ClosedInNamespace(mods: seq<Module>, tier: Tier, u: Upstream, wires: seq<Option<Wire>>, i: nat, anyModules: bool, x: string)
    requires WellFormed(mods)
    ensures ClosedOn(mods, tier, u, wires, i, anyModules, x) ==>
            exists k :: 0 <= k < |mods| && mods[k].placement.OnNode? && InNamespace(mods[k], x)
  {
    if j :| 0 <= j < |mods| && mods[j].placement.OnNode? && Kept(mods[j], wires, anyModules) && Closes(mods[j], tier, u, WireAt(wires, i), x) {
      ClosesOwnNamespace(mods, j, tier, u, WireAt(wires, i), x);
    }
  }

  /** Without any module every list stays empty. */
  lemma NoModulesNoLists(mods: seq<Module>, tier: Tier, u: Upstream, wires: seq<Option<Wire>>, i: nat)
    requires WellFormed(mods) && forall k :: 0 <= k < |wires| && wires[k].Some? ==> wires[k].value.modules == []
    ensures IgnoresFor(mods, tier, u, wires, i, false) == []
  {
    var list := IgnoresFor(mods, tier, u, wires, i, false);
    if list != [] {
      var p, w := list[0], WireAt(wires, i);
      assert p in list;
      AllIgnoresExactly(mods, tier, u, w, p);
      var k :| 0 <= k < |mods| && p in ModuleIgnores(mods[k], tier, u, w);
      assert ClosedClasses(mods[k], tier, u, w).None?;
      assert DroppedWith(mods[k], wires, false, p);
      UnservedExactly(mods, wires, false, p);
    }
  }
}
