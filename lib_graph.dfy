/** The build-order function of `src/lib/graph/index.ts`: Kahn's algorithm
    over every given package, without a whitelist. Packages are looked up
    by name only when the name is non-empty, a dependency counts when a
    package of that name is looked up, and a package's dependencies are the
    keys of its merged `dependencies` and `devDependencies` objects. A
    failed sort throws a fixed message after logging the manifest names of
    the packages left out. */
module LibGraph {
  import opened Wrappers
  import opened Seqs
  import opened NodePackages
  import opened Kahn
  import opened KahnProperties

  const CircularMessage: string :=
    "Error: Circular dependency detected in workspace packages. A valid build order cannot be determined"

  /** The thrown message and the names logged just before it. */
  datatype CycleError = CycleError(message: string, logged: seq<string>)

  /** The keys of `{...dependencies, ...devDependencies}`: a key of both
      objects keeps its place among the `dependencies` keys. */
  function MergedDeps(pkg: NodePackage): (r: seq<string>)
    ensures Distinct(r)
    ensures forall d :: d in r <==> d in pkg.packageJson.dependencies || d in pkg.packageJson.devDependencies
  {
    Dedup(pkg.packageJson.dependencies + pkg.packageJson.devDependencies)
  }

  function MergedDepsOf(): NodePackage -> seq<string> {
    p => MergedDeps(p)
  }

  /** Every name, as an edge condition: the unfiltered variant checks only
      the lookup map. */
  function AnyName(): string -> bool {
    n => true
  }

  /** The names a dependency may take to become an edge: names of looked-up
      packages (non-empty) that pass `accept`. */
  function Eligible(nodes: seq<NodePackage>, accept: string -> bool): set<string> {
    set n | n in NameSet(nodes) && n != "" && accept(n)
  }

  /** The known dependencies of each package. */
  function GraphPreds(nodes: seq<NodePackage>, accept: string -> bool): Preds {
    PredsOf(nodes, MergedDepsOf(), Eligible(nodes, accept))
  }

  /** Manifest names, as the failure is logged. */
  function ManifestNames(s: seq<NodePackage>): (r: seq<string>)
    ensures |r| == |s|
    ensures forall i :: 0 <= i < |s| ==> r[i] == s[i].packageJson.name
  {
    seq(|s|, i requires 0 <= i < |s| => s[i].packageJson.name)
  }

  /** A package whose name is outside a set, as a predicate value. */
  function Outside(names: set<string>): NodePackage -> bool {
    (p: NodePackage) => p.packageName !in names
  }

  /** A package missing from an order, as a predicate value. */
  function NotListed(order: seq<NodePackage>): NodePackage -> bool {
    (p: NodePackage) => p !in order
  }

  /** The packages Kahn's loop cannot build, in list order. */
  ghost function Unsorted(nodes: seq<NodePackage>, accept: string -> bool): seq<NodePackage> {
    Filter(nodes, Outside(Buildable(GraphPreds(nodes, accept), NameSet(nodes) - {""})))
  }

  /** The lookup map: every package under its name, except for an empty
      name. */
  method LookupMap(nodes: seq<NodePackage>) returns (packageMap: map<string, NodePackage>)
    ensures packageMap.Keys == NameSet(nodes) - {""}
    ensures forall n :: n in packageMap ==> packageMap[n] in nodes && packageMap[n].packageName == n
  {
    packageMap := map[];
    for i := 0 to |nodes|
      invariant packageMap.Keys == NameSet(nodes[..i]) - {""}
      invariant forall n :: n in packageMap ==> packageMap[n] in nodes && packageMap[n].packageName == n
    {
      NamePrefix(nodes, i);
      if nodes[i].packageName != "" {
        packageMap := packageMap[nodes[i].packageName := nodes[i]];
      }
    }
    assert nodes[..|nodes|] == nodes;
  }

  /** No dependents and in-degree 0 for every package name. */
  method EmptyTables(nodes: seq<NodePackage>) returns (adj: Adjacency, inDegree: map<string, int>)
    ensures adj.Keys == NameSet(nodes) && inDegree.Keys == NameSet(nodes)
    ensures forall n :: n in adj ==> adj[n] == []
    ensures forall n :: n in inDegree ==> inDegree[n] == 0
  {
    adj, inDegree := map[], map[];
    for i := 0 to |nodes|
      invariant adj.Keys == NameSet(nodes[..i]) && inDegree.Keys == NameSet(nodes[..i])
      invariant forall n :: n in adj ==> adj[n] == []
      invariant forall n :: n in inDegree ==> inDegree[n] == 0
    {
      NamePrefix(nodes, i);
      adj := adj[nodes[i].packageName := []];
      inDegree := inDegree[nodes[i].packageName := 0];
    }
    assert nodes[..|nodes|] == nodes;
  }

  /** The graph is sortable when it has no cycle and a package with an
      empty name (never looked up, so never queued once it waits for a
      dependency) has no known dependency. */
  ghost predicate Sortable(preds: Preds) {
    Acyclic(preds) && ("" in preds ==> preds[""] == {})
  }

  /** Lookup map, empty tables, and edges for the dependencies that pass
      `accept` and are looked up: the tables Kahn's loop starts from. */
  method BuildGraph(nodes: seq<NodePackage>, accept: string -> bool)
    returns (packageMap: map<string, NodePackage>, adj: Adjacency, inDegree: map<string, int>)
    requires Distinct(Names(nodes))
    ensures Graph(nodes, GraphPreds(nodes, accept), packageMap)
    ensures packageMap.Keys == NameSet(nodes) - {""}
    ensures adj.Keys == GraphPreds(nodes, accept).Keys
    ensures AdjSound(adj, GraphPreds(nodes, accept)) && AdjComplete(adj, GraphPreds(nodes, accept))
    ensures AdjExact(adj, Names(nodes), GraphPreds(nodes, accept))
    ensures Startable(nodes, packageMap, adj, inDegree, GraphPreds(nodes, accept))
    ensures inDegree.Keys == GraphPreds(nodes, accept).Keys
    ensures forall n :: n in GraphPreds(nodes, accept) ==> inDegree[n] == |GraphPreds(nodes, accept)[n]|
  {
    packageMap := LookupMap(nodes);
    adj, inDegree := EmptyTables(nodes);
    var known := set n | n in packageMap.Keys && accept(n);
    assert known == Eligible(nodes, accept);
    adj, inDegree := ConnectEdges(nodes, MergedDepsOf(), known, adj, inDegree);
  }

  /** The tables, Kahn's loop, and the check on the order's length. The
      order is complete exactly when the graph is sortable; it is then a
      rearrangement of the packages with no package before one of its
      dependencies. Otherwise the manifest names of exactly the packages
      Kahn's loop cannot build are logged and the fixed message thrown. */
  method SortPackages(nodes: seq<NodePackage>, accept: string -> bool) returns (r: Result<seq<NodePackage>, CycleError>)
    requires Distinct(Names(nodes))
    ensures r.Success? <==> Sortable(GraphPreds(nodes, accept))
    ensures r.Success? ==> multiset(r.value) == multiset(nodes)
    ensures r.Success? ==> NoLaterDependency(GraphPreds(nodes, accept), Names(r.value))
    ensures r.Success? ==> FifoOrder(GraphPreds(nodes, accept), Names(nodes), Names(r.value))
    ensures r.Failure? ==> r.error == CycleError(CircularMessage, ManifestNames(Unsorted(nodes, accept)))
  {
    var packageMap, adj, inDegree := BuildGraph(nodes, accept);
    var sorted;
    sorted, inDegree := Drain(nodes, packageMap, adj, inDegree, GraphPreds(nodes, accept));
    Verdict(nodes, GraphPreds(nodes, accept), packageMap, sorted);
    if |sorted| != |nodes| {
      var cyclePackages := Filter(nodes, NotListed(sorted));
      r := Failure(CycleError(CircularMessage, ManifestNames(cyclePackages)));
    } else {
      r := Success(sorted);
    }
  }

  /** What the outcome of Kahn's loop means here. */
  lemma Verdict(nodes: seq<NodePackage>, preds: Preds, packageMap: map<string, NodePackage>, sorted: seq<NodePackage>)
    requires Graph(nodes, preds, packageMap) && Outcome(nodes, preds, packageMap, sorted)
    requires packageMap.Keys == NameSet(nodes) - {""}
    ensures |sorted| == |nodes| <==> Sortable(preds)
    ensures |sorted| == |nodes| ==> multiset(sorted) == multiset(nodes) && NoLaterDependency(preds, Names(sorted))
    ensures Filter(nodes, NotListed(sorted)) == Filter(nodes, Outside(Buildable(preds, NameSet(nodes) - {""})))
  {
    CompleteIffAcyclic(nodes, preds, packageMap, sorted);
    LookedUpUnlessEmpty(nodes, preds, packageMap);
    LeftOut(nodes, preds, packageMap, sorted);
    if |sorted| == |nodes| {
      CompleteIsPermutation(nodes, preds, packageMap, sorted);
      CompleteIffAllNames(nodes, preds, packageMap, sorted);
      NameSetNames(sorted);
      DepsFirstNoLater(preds, Names(sorted));
    }
  }

  /** With every non-empty name looked up, a package waiting for a
      dependency is looked up unless its name is empty. */
  lemma LookedUpUnlessEmpty(nodes: seq<NodePackage>, preds: Preds, packageMap: map<string, NodePackage>)
    requires preds.Keys == NameSet(nodes) && packageMap.Keys == NameSet(nodes) - {""}
    ensures AllLookedUp(preds, packageMap) <==> ("" in preds ==> preds[""] == {})
  {
  }

  /** The packages missing from the order are the packages Kahn's loop
      cannot build. */
  lemma LeftOut(nodes: seq<NodePackage>, preds: Preds, packageMap: map<string, NodePackage>, sorted: seq<NodePackage>)
    requires Graph(nodes, preds, packageMap) && Outcome(nodes, preds, packageMap, sorted)
    requires packageMap.Keys == NameSet(nodes) - {""}
    ensures Filter(nodes, NotListed(sorted)) == Filter(nodes, Outside(Buildable(preds, NameSet(nodes) - {""})))
  {
    OutcomeBuildable(nodes, preds, packageMap, sorted);
    forall p | p in nodes ensures NotListed(sorted)(p) == Outside(NameSet(sorted))(p) {
      if p !in sorted && p.packageName in NameSet(sorted) {
        var q :| q in sorted && q.packageName == p.packageName;
        SameNameSamePackage(nodes, p, q);
      }
    }
    FilterCongruent(nodes, NotListed(sorted), Outside(NameSet(sorted)));
  }

  /** `dependencyBuildOrder`: every given package takes part. */
  method DependencyBuildOrder(nodePackages: seq<NodePackage>) returns (r: Result<seq<NodePackage>, CycleError>)
    requires Distinct(Names(nodePackages))
    ensures r.Success? <==> Sortable(GraphPreds(nodePackages, AnyName()))
    ensures r.Success? ==> multiset(r.value) == multiset(nodePackages)
    ensures r.Success? ==> NoLaterDependency(GraphPreds(nodePackages, AnyName()), Names(r.value))
    ensures r.Success? ==> FifoOrder(GraphPreds(nodePackages, AnyName()), Names(nodePackages), Names(r.value))
    ensures r.Failure? ==> r.error == CycleError(CircularMessage, ManifestNames(Unsorted(nodePackages, AnyName())))
  {
    r := SortPackages(nodePackages, AnyName());
  }

  /** Edges come only from dependencies that name a looked-up package that
      passes `accept`; a package with an empty name is never a dependency,
      so nothing waits for it. */
  lemma KnownEdges(nodes: seq<NodePackage>, accept: string -> bool)
    ensures forall n, d :: n in GraphPreds(nodes, accept) && d in GraphPreds(nodes, accept)[n] ==>
      d in NameSet(nodes) && d != "" && accept(d)
  {
  }

  /** A package's known dependencies are the names among its merged
      dependency keys that are eligible; a name declared both as a
      dependency and as a dev dependency counts once. */
  lemma MergedPreds(nodes: seq<NodePackage>, accept: string -> bool, p: NodePackage)
    requires Distinct(Names(nodes)) && p in nodes
    ensures GraphPreds(nodes, accept)[p.packageName] ==
      set d | (d in p.packageJson.dependencies || d in p.packageJson.devDependencies) && d in Eligible(nodes, accept)
  {
  }
}
