/** The workspace dependency graph of `src/graph/KhansDependencyGraph.ts`: a
    class that keeps a lookup map, the dependents of each package and an
    in-degree per package, builds the edges from the packages' dependency
    lists (optionally restricted to a whitelist of package names), sorts the
    packages with Kahn's algorithm, and selects the packages affected by a
    set of changed packages. A thrown error is a `Failure` carrying the
    names the error message lists. The loops run in module-level methods
    over the maps' values; the class methods hand them the fields and store
    what they return. */
module KhansGraph {
  import opened Wrappers
  import opened Seqs
  import opened NodePackages
  import opened Kahn
  import opened KahnProperties

  /** Membership in a list of names, as a predicate value. */
  function InList(names: seq<string>): string -> bool {
    n => n in names
  }

  /** Non-membership in a set of names, as a predicate value. */
  function NotIn(names: set<string>): string -> bool {
    n => n !in names
  }

  /** Membership of a package's name in a set, as a predicate value. */
  function Picks(names: set<string>): NodePackage -> bool {
    (p: NodePackage) => p.packageName in names
  }

  /** The dependency names of a package the graph looks at: the keys of
      `dependencies` followed by those of `devDependencies`, each kept only
      when it is whitelisted (an empty whitelist keeps all), each name once,
      at its first position. */
  function UniqueWorkspaceDeps(whitelist: seq<string>, pkg: NodePackage): (r: seq<string>)
    ensures Distinct(r)
    ensures forall d :: d in r <==>
      (d in pkg.packageJson.dependencies || d in pkg.packageJson.devDependencies) &&
      (|whitelist| == 0 || d in whitelist)
  {
    if |whitelist| == 0 then
      Dedup(pkg.packageJson.dependencies + pkg.packageJson.devDependencies)
    else
      Dedup(Filter(pkg.packageJson.dependencies, InList(whitelist)) +
            Filter(pkg.packageJson.devDependencies, InList(whitelist)))
  }

  /** `UniqueWorkspaceDeps` for a fixed whitelist, as a function value. */
  function DepsOf(whitelist: seq<string>): NodePackage -> seq<string> {
    p => UniqueWorkspaceDeps(whitelist, p)
  }

  /** One lookup entry, one empty list of dependents and in-degree 0 per
      package name; with a repeated name the later package wins the lookup
      entry. */
  method InitialMaps(nodes: seq<NodePackage>)
    returns (packageMap: map<string, NodePackage>, adj: Adjacency, inDegree: map<string, int>)
    ensures Initialized(nodes, |nodes|, packageMap, adj, inDegree)
  {
    packageMap, adj, inDegree := map[], map[], map[];
    for i := 0 to |nodes|
      invariant Initialized(nodes, i, packageMap, adj, inDegree)
    {
      var pkg := nodes[i];
      InitStep(nodes, i, packageMap, adj, inDegree);
      packageMap := packageMap[pkg.packageName := pkg];
      adj := adj[pkg.packageName := []];
      inDegree := inDegree[pkg.packageName := 0];
    }
  }

  /** The maps hold one entry per name of the first `i` packages: the lookup
      entry is a package of that name, the dependents are none and the
      in-degree is 0. */
  ghost predicate Initialized(nodes: seq<NodePackage>, i: int, packageMap: map<string, NodePackage>,
                              adj: Adjacency, inDegree: map<string, int>)
  {
    && 0 <= i <= |nodes|
    && packageMap.Keys == NameSet(nodes[..i]) && adj.Keys == NameSet(nodes[..i]) && inDegree.Keys == NameSet(nodes[..i])
    && (forall n :: n in packageMap ==> packageMap[n] in nodes && packageMap[n].packageName == n)
    && (forall n :: n in adj ==> adj[n] == [])
    && (forall n :: n in inDegree ==> inDegree[n] == 0)
  }

  lemma InitStep(nodes: seq<NodePackage>, i: int, packageMap: map<string, NodePackage>,
                 adj: Adjacency, inDegree: map<string, int>)
    requires Initialized(nodes, i, packageMap, adj, inDegree) && i < |nodes|
    ensures Initialized(nodes, i + 1, packageMap[nodes[i].packageName := nodes[i]],
                        adj[nodes[i].packageName := []], inDegree[nodes[i].packageName := 0])
  {
    var name := nodes[i].packageName;
    var pm := packageMap[name := nodes[i]];
    KeysStep(nodes, i, packageMap, nodes[i]);
    KeysStep(nodes, i, adj, []);
    KeysStep(nodes, i, inDegree, 0);
    forall n | n in pm ensures pm[n] in nodes && pm[n].packageName == n {
      if n == name {
        assert nodes[i] in nodes;
      }
    }
  }

  /** Entering the next package's name in a map keyed by the names so far. */
  lemma KeysStep<V>(nodes: seq<NodePackage>, i: int, m: map<string, V>, v: V)
    requires 0 <= i < |nodes| && m.Keys == NameSet(nodes[..i])
    ensures m[nodes[i].packageName := v].Keys == NameSet(nodes[..i + 1])
  {
    NamePrefix(nodes, i);
  }

  /** Once every package is entered, the maps are keyed by exactly the
      package names, and with no dependent recorded they are ready for
      edges. */
  lemma InitDone(nodes: seq<NodePackage>, whitelist: seq<string>, packageMap: map<string, NodePackage>,
                 adj: Adjacency, inDegree: map<string, int>)
    requires Distinct(Names(nodes))
    requires Initialized(nodes, |nodes|, packageMap, adj, inDegree)
    ensures ReadyTables(nodes, whitelist, packageMap, adj, inDegree)
  {
    assert nodes[..|nodes|] == nodes;
  }

  /** The names of the packages missing from the order, in list order. */
  function CircularOffenders(nodes: seq<NodePackage>, sorted: seq<NodePackage>): (offenders: seq<string>)
    ensures forall n :: n in offenders <==> n in Names(nodes) && n !in NameSet(sorted)
    ensures Subseq(offenders, Names(nodes))
  {
    FilterIsSubseq(Names(nodes), NotIn(NameSet(sorted)));
    Filter(Names(nodes), NotIn(NameSet(sorted)))
  }

  /** The names of the packages Kahn's loop cannot build, in list order:
      what a failed sort reports. */
  ghost function Unsortable(nodes: seq<NodePackage>, whitelist: seq<string>): seq<string> {
    Filter(Names(nodes), NotIn(Buildable(KnownPreds(nodes, whitelist), NameSet(nodes))))
  }

  /** The tables of the graph: distinct package names, a lookup map holding
      every package under its name, and one adjacency and in-degree entry
      per package. */
  ghost predicate Tables(nodes: seq<NodePackage>, packageMap: map<string, NodePackage>,
                         adj: Adjacency, inDegree: map<string, int>)
  {
    && Distinct(Names(nodes))
    && packageMap.Keys == NameSet(nodes)
    && (forall n :: n in packageMap ==> packageMap[n] in nodes && packageMap[n].packageName == n)
    && adj.Keys == NameSet(nodes)
    && inDegree.Keys == NameSet(nodes)
  }

  /** The known dependencies of each package: the whitelisted dependencies
      that are packages of the graph. */
  function KnownPreds(nodes: seq<NodePackage>, whitelist: seq<string>): Preds {
    PredsOf(nodes, DepsOf(whitelist), NameSet(nodes))
  }

  /** The tables before edges are built: every in-degree 0 and every
      recorded dependent a real dependent. */
  ghost predicate ReadyTables(nodes: seq<NodePackage>, whitelist: seq<string>, packageMap: map<string, NodePackage>,
                              adj: Adjacency, inDegree: map<string, int>)
  {
    && Tables(nodes, packageMap, adj, inDegree)
    && (forall n :: n in inDegree ==> inDegree[n] == 0)
    && AdjSound(adj, KnownPreds(nodes, whitelist))
    && AdjEmptyOrExact(adj, Names(nodes), KnownPreds(nodes, whitelist))
  }

  /** The tables after edges are built: all edges recorded and each
      in-degree equal to the number of known dependencies. */
  ghost predicate BuiltTables(nodes: seq<NodePackage>, whitelist: seq<string>, packageMap: map<string, NodePackage>,
                              adj: Adjacency, inDegree: map<string, int>)
  {
    && Tables(nodes, packageMap, adj, inDegree)
    && AdjSound(adj, KnownPreds(nodes, whitelist))
    && AdjComplete(adj, KnownPreds(nodes, whitelist))
    && AdjExact(adj, Names(nodes), KnownPreds(nodes, whitelist))
    && (forall n :: n in inDegree ==> inDegree[n] == |KnownPreds(nodes, whitelist)[n]|)
  }

  /** Records every edge between the packages and counts every package's
      known dependencies. */
  method BuildTables(nodes: seq<NodePackage>, whitelist: seq<string>, packageMap: map<string, NodePackage>,
                     adj0: Adjacency, inDegree0: map<string, int>)
    returns (adj: Adjacency, inDegree: map<string, int>)
    requires ReadyTables(nodes, whitelist, packageMap, adj0, inDegree0)
    ensures BuiltTables(nodes, whitelist, packageMap, adj, inDegree)
  {
    ReadyToConnect(nodes, whitelist, packageMap, adj0, inDegree0);
    adj, inDegree := ConnectEdges(nodes, DepsOf(whitelist), packageMap.Keys, adj0, inDegree0);
  }

  lemma ReadyToConnect(nodes: seq<NodePackage>, whitelist: seq<string>, packageMap: map<string, NodePackage>,
                       adj0: Adjacency, inDegree0: map<string, int>)
    requires ReadyTables(nodes, whitelist, packageMap, adj0, inDegree0)
    ensures packageMap.Keys <= NameSet(nodes)
    ensures forall p :: p in nodes ==> Distinct(DepsOf(whitelist)(p))
    ensures AdjSound(adj0, PredsOf(nodes, DepsOf(whitelist), packageMap.Keys))
    ensures AdjEmptyOrExact(adj0, Names(nodes), PredsOf(nodes, DepsOf(whitelist), packageMap.Keys))
  {
    assert packageMap.Keys == NameSet(nodes);
  }

  /** The facts Kahn's loop needs, read off built tables. */
  lemma BuiltGraph(nodes: seq<NodePackage>, whitelist: seq<string>, packageMap: map<string, NodePackage>,
                   adj: Adjacency, inDegree: map<string, int>)
    requires BuiltTables(nodes, whitelist, packageMap, adj, inDegree)
    ensures Graph(nodes, KnownPreds(nodes, whitelist), packageMap)
    ensures adj.Keys == KnownPreds(nodes, whitelist).Keys
    ensures AdjExact(adj, Names(nodes), KnownPreds(nodes, whitelist))
    ensures inDegree.Keys == KnownPreds(nodes, whitelist).Keys
    ensures forall n :: n in KnownPreds(nodes, whitelist) ==> inDegree[n] == |KnownPreds(nodes, whitelist)[n]|
    ensures AllLookedUp(KnownPreds(nodes, whitelist), packageMap)
    ensures Startable(nodes, packageMap, adj, inDegree, KnownPreds(nodes, whitelist))
  {
  }

  /** Kahn's loop over built tables, then the check on the order's length:
      the build order when it holds every package, otherwise the names of
      the packages left out. The order is complete exactly when the graph
      has no cycle; it is then a rearrangement of the packages that puts no
      package before one of its dependencies, and the tables are ready for
      another round. An incomplete order reports every package that lies
      on a cycle. */
  method SortBuilt(nodes: seq<NodePackage>, whitelist: seq<string>, packageMap: map<string, NodePackage>,
                   adj: Adjacency, inDegree0: map<string, int>)
    returns (r: Result<seq<NodePackage>, seq<string>>, inDegree: map<string, int>)
    requires BuiltTables(nodes, whitelist, packageMap, adj, inDegree0)
    ensures Tables(nodes, packageMap, adj, inDegree)
    ensures r.Success? <==> Acyclic(KnownPreds(nodes, whitelist))
    ensures r.Success? ==> multiset(r.value) == multiset(nodes)
    ensures r.Success? ==> NoLaterDependency(KnownPreds(nodes, whitelist), Names(r.value))
    ensures r.Success? ==> FifoOrder(KnownPreds(nodes, whitelist), Names(nodes), Names(r.value))
    ensures r.Success? ==> ReadyTables(nodes, whitelist, packageMap, adj, inDegree)
    ensures r.Failure? ==> r.error == Unsortable(nodes, whitelist) && r.error != []
    ensures r.Failure? ==> forall c, k :: IsCycle(KnownPreds(nodes, whitelist), c) && 0 <= k < |c| ==> c[k] in r.error
  {
    BuiltGraph(nodes, whitelist, packageMap, adj, inDegree0);
    var sorted;
    sorted, inDegree := Drain(nodes, packageMap, adj, inDegree0, KnownPreds(nodes, whitelist));
    DrainedVerdict(nodes, whitelist, packageMap, adj, inDegree0, sorted, inDegree);
    r := LengthCheck(nodes, sorted);
  }

  /** The check on the order's length: the order itself when it holds as
      many packages as the graph, otherwise the circular-dependency error
      naming the packages missing from it. */
  function LengthCheck(nodes: seq<NodePackage>, sorted: seq<NodePackage>): (r: Result<seq<NodePackage>, seq<string>>)
    ensures r.Success? <==> |sorted| == |nodes|
    ensures r.Success? ==> r.value == sorted
    ensures r.Failure? ==> forall n :: n in r.error <==> n in Names(nodes) && n !in NameSet(sorted)
  {
    if |sorted| != |nodes| then Failure(CircularOffenders(nodes, sorted)) else Success(sorted)
  }

  /** What the outcome of Kahn's loop over built tables means. */
  lemma DrainedVerdict(nodes: seq<NodePackage>, whitelist: seq<string>, packageMap: map<string, NodePackage>,
                       adj: Adjacency, inDegree0: map<string, int>, sorted: seq<NodePackage>, inDegree: map<string, int>)
    requires BuiltTables(nodes, whitelist, packageMap, adj, inDegree0)
    requires Outcome(nodes, KnownPreds(nodes, whitelist), packageMap, sorted)
    requires inDegree.Keys == KnownPreds(nodes, whitelist).Keys
    requires forall n :: n in KnownPreds(nodes, whitelist) ==>
      inDegree[n] == Pending(KnownPreds(nodes, whitelist)[n], NameSet(sorted))
    ensures Tables(nodes, packageMap, adj, inDegree)
    ensures LengthCheck(nodes, sorted).Success? <==> Acyclic(KnownPreds(nodes, whitelist))
    ensures LengthCheck(nodes, sorted).Success? ==> multiset(LengthCheck(nodes, sorted).value) == multiset(nodes)
    ensures LengthCheck(nodes, sorted).Success? ==>
      NoLaterDependency(KnownPreds(nodes, whitelist), Names(LengthCheck(nodes, sorted).value))
    ensures LengthCheck(nodes, sorted).Success? ==> ReadyTables(nodes, whitelist, packageMap, adj, inDegree)
    ensures LengthCheck(nodes, sorted).Success? ==> LengthCheck(nodes, sorted).value == sorted
    ensures LengthCheck(nodes, sorted).Failure? ==>
      LengthCheck(nodes, sorted).error == Unsortable(nodes, whitelist) && LengthCheck(nodes, sorted).error != []
    ensures LengthCheck(nodes, sorted).Failure? ==>
      forall c, k :: IsCycle(KnownPreds(nodes, whitelist), c) && 0 <= k < |c| ==> c[k] in LengthCheck(nodes, sorted).error
  {
    DrainedTables(nodes, whitelist, packageMap, adj, inDegree0, inDegree);
    if |sorted| != |nodes| {
      DrainedIncomplete(nodes, whitelist, packageMap, adj, inDegree0, sorted);
    } else {
      DrainedComplete(nodes, whitelist, packageMap, adj, inDegree0, sorted, inDegree);
    }
  }

  /** Kahn's loop over built tables that leaves packages out has met a cycle. */
  lemma DrainedIncomplete(nodes: seq<NodePackage>, whitelist: seq<string>, packageMap: map<string, NodePackage>,
                          adj: Adjacency, inDegree0: map<string, int>, sorted: seq<NodePackage>)
    requires BuiltTables(nodes, whitelist, packageMap, adj, inDegree0)
    requires Outcome(nodes, KnownPreds(nodes, whitelist), packageMap, sorted)
    requires |sorted| != |nodes|
    ensures !Acyclic(KnownPreds(nodes, whitelist))
    ensures CircularOffenders(nodes, sorted) == Unsortable(nodes, whitelist) != []
    ensures forall c, k :: IsCycle(KnownPreds(nodes, whitelist), c) && 0 <= k < |c| ==> c[k] in CircularOffenders(nodes, sorted)
  {
    BuiltGraph(nodes, whitelist, packageMap, adj, inDegree0);
    CompleteIffAcyclic(nodes, KnownPreds(nodes, whitelist), packageMap, sorted);
    SortFailed(nodes, whitelist, packageMap, sorted);
  }

  /** Kahn's loop over built tables that places every package has found an
      order with no dependency after its dependent. */
  lemma DrainedComplete(nodes: seq<NodePackage>, whitelist: seq<string>, packageMap: map<string, NodePackage>,
                        adj: Adjacency, inDegree0: map<string, int>, sorted: seq<NodePackage>, inDegree: map<string, int>)
    requires BuiltTables(nodes, whitelist, packageMap, adj, inDegree0)
    requires Outcome(nodes, KnownPreds(nodes, whitelist), packageMap, sorted)
    requires inDegree.Keys == KnownPreds(nodes, whitelist).Keys
    requires forall n :: n in KnownPreds(nodes, whitelist) ==>
      inDegree[n] == Pending(KnownPreds(nodes, whitelist)[n], NameSet(sorted))
    requires |sorted| == |nodes|
    ensures Acyclic(KnownPreds(nodes, whitelist))
    ensures multiset(sorted) == multiset(nodes)
    ensures NoLaterDependency(KnownPreds(nodes, whitelist), Names(sorted))
    ensures ReadyTables(nodes, whitelist, packageMap, adj, inDegree)
  {
    BuiltGraph(nodes, whitelist, packageMap, adj, inDegree0);
    CompleteIffAcyclic(nodes, KnownPreds(nodes, whitelist), packageMap, sorted);
    CompleteOrder(nodes, whitelist, packageMap, adj, sorted, inDegree);
  }

  /** An incomplete order leaves out the unsortable packages, at least one,
      among them every package on a cycle. */
  lemma SortFailed(nodes: seq<NodePackage>, whitelist: seq<string>, packageMap: map<string, NodePackage>,
                   sorted: seq<NodePackage>)
    requires Graph(nodes, KnownPreds(nodes, whitelist), packageMap)
    requires Outcome(nodes, KnownPreds(nodes, whitelist), packageMap, sorted)
    requires packageMap.Keys == NameSet(nodes)
    requires |sorted| != |nodes|
    ensures CircularOffenders(nodes, sorted) == Unsortable(nodes, whitelist) != []
    ensures forall c, k :: IsCycle(KnownPreds(nodes, whitelist), c) && 0 <= k < |c| ==> c[k] in CircularOffenders(nodes, sorted)
  {
    Offenders(nodes, KnownPreds(nodes, whitelist), packageMap, sorted, CircularOffenders(nodes, sorted));
    OffendersUnsortable(nodes, whitelist, packageMap, sorted);
  }

  /** The packages Kahn's loop leaves out are the unsortable ones. */
  lemma OffendersUnsortable(nodes: seq<NodePackage>, whitelist: seq<string>, packageMap: map<string, NodePackage>,
                            sorted: seq<NodePackage>)
    requires Graph(nodes, KnownPreds(nodes, whitelist), packageMap)
    requires Outcome(nodes, KnownPreds(nodes, whitelist), packageMap, sorted)
    requires packageMap.Keys == NameSet(nodes)
    ensures CircularOffenders(nodes, sorted) == Unsortable(nodes, whitelist)
  {
    OutcomeBuildable(nodes, KnownPreds(nodes, whitelist), packageMap, sorted);
  }

  /** Kahn's loop leaves the tables' keys as they were. */
  lemma DrainedTables(nodes: seq<NodePackage>, whitelist: seq<string>, packageMap: map<string, NodePackage>,
                      adj: Adjacency, inDegree0: map<string, int>, inDegree: map<string, int>)
    requires Tables(nodes, packageMap, adj, inDegree0)
    requires inDegree.Keys == KnownPreds(nodes, whitelist).Keys
    ensures Tables(nodes, packageMap, adj, inDegree)
  {
  }

  /** A complete order is a permutation of the packages with no dependency
      after its dependent, and it leaves every in-degree at 0. */
  lemma CompleteOrder(nodes: seq<NodePackage>, whitelist: seq<string>, packageMap: map<string, NodePackage>,
                      adj: Adjacency, sorted: seq<NodePackage>, inDegree: map<string, int>)
    requires Graph(nodes, KnownPreds(nodes, whitelist), packageMap)
    requires Outcome(nodes, KnownPreds(nodes, whitelist), packageMap, sorted)
    requires |sorted| == |nodes|
    requires Tables(nodes, packageMap, adj, inDegree) && AdjSound(adj, KnownPreds(nodes, whitelist))
    requires AdjExact(adj, Names(nodes), KnownPreds(nodes, whitelist))
    requires forall n :: n in KnownPreds(nodes, whitelist) ==>
      inDegree[n] == Pending(KnownPreds(nodes, whitelist)[n], NameSet(sorted))
    ensures multiset(sorted) == multiset(nodes)
    ensures NoLaterDependency(KnownPreds(nodes, whitelist), Names(sorted))
    ensures ReadyTables(nodes, whitelist, packageMap, adj, inDegree)
  {
    ghost var preds := KnownPreds(nodes, whitelist);
    CompleteIsPermutation(nodes, preds, packageMap, sorted);
    CompleteIffAllNames(nodes, preds, packageMap, sorted);
    DepsFirstNoLater(preds, Names(sorted));
    forall n | n in inDegree ensures inDegree[n] == 0 {
      PendingZero(preds[n], NameSet(sorted));
    }
  }

  /** The sort as the source writes it: the statement meant to append the
      dequeued package appends nothing, so the order stays empty and any
      non-empty package list is reported as circular, listing every
      package. */
  method SortBuiltAsWritten(nodes: seq<NodePackage>, whitelist: seq<string>, packageMap: map<string, NodePackage>,
                            adj: Adjacency, inDegree0: map<string, int>)
    returns (r: Result<seq<NodePackage>, seq<string>>, inDegree: map<string, int>)
    requires BuiltTables(nodes, whitelist, packageMap, adj, inDegree0)
    ensures nodes == [] ==> r == Success([])
    ensures nodes != [] ==> r == Failure(Names(nodes))
  {
    BuiltGraph(nodes, whitelist, packageMap, adj, inDegree0);
    var drained;
    drained, inDegree := Drain(nodes, packageMap, adj, inDegree0, KnownPreds(nodes, whitelist));
    var sorted: seq<NodePackage> := [];
    if |sorted| != |nodes| {
      r := Failure(CircularOffenders(nodes, sorted));
      assert NameSet(sorted) == {};
      FilterAll(Names(nodes), NotIn({}));
    } else {
      r := Success(sorted);
    }
  }

  /** The offenders of an incomplete order: at least one, and every package
      on a cycle among them. */
  lemma Offenders(nodes: seq<NodePackage>, preds: Preds, packageMap: map<string, NodePackage>,
                  sorted: seq<NodePackage>, offenders: seq<string>)
    requires Graph(nodes, preds, packageMap) && Outcome(nodes, preds, packageMap, sorted)
    requires |sorted| != |nodes|
    requires forall n :: n in offenders <==> n in Names(nodes) && n !in NameSet(sorted)
    ensures offenders != []
    ensures forall c, k :: IsCycle(preds, c) && 0 <= k < |c| ==> c[k] in offenders
  {
    CompleteIffAllNames(nodes, preds, packageMap, sorted);
    NameSetNames(nodes);
    OutcomeNames(nodes, preds, packageMap, sorted);
    var n :| n in preds.Keys && n !in NameSet(sorted);
    assert n in offenders;
    CyclesOffend(preds, Names(nodes), sorted, offenders);
  }

  /** No package on a cycle is built, so each is reported. */
  lemma CyclesOffend(preds: Preds, names: seq<string>, sorted: seq<NodePackage>, offenders: seq<string>)
    requires DepsFirst(preds, Names(sorted)) && Distinct(Names(sorted))
    requires forall n :: n in preds ==> n in names
    requires forall n :: n in offenders <==> n in names && n !in NameSet(sorted)
    ensures forall c, k :: IsCycle(preds, c) && 0 <= k < |c| ==> c[k] in offenders
  {
    NameSetNames(sorted);
    forall c, k | IsCycle(preds, c) && 0 <= k < |c| ensures c[k] in offenders {
      CycleNeverSorted(preds, Names(sorted), c);
      assert c[k] in preds by {
        if k == |c| - 1 {
          assert c[k] == c[0];
        }
      }
    }
  }

  /** Every package of `nodes` that has a dependency in `affected` is itself
      in `affected`. */
  ghost predicate ClosedUnder(nodes: seq<NodePackage>, whitelist: seq<string>, affected: set<string>) {
    forall p, d :: p in nodes && d in UniqueWorkspaceDeps(whitelist, p) && d in affected ==> p.packageName in affected
  }

  /** `affected` holds only names every closed superset of `changed` holds. */
  ghost predicate Forced(nodes: seq<NodePackage>, whitelist: seq<string>, changed: set<string>, affected: set<string>) {
    forall c :: ClosedUnder(nodes, whitelist, c) && changed <= c ==> affected <= c
  }

  /** The least superset of the changed names closed under "has an affected
      dependency". */
  ghost function LeastAffected(nodes: seq<NodePackage>, whitelist: seq<string>, changed: set<string>): set<string> {
    set n | n in changed + NameSet(nodes) &&
      forall c :: ClosedUnder(nodes, whitelist, c) && changed <= c ==> n in c
  }

  /** The changed names, grown pass by pass until a pass adds nothing: the
      least superset closed under "has an affected dependency". */
  method ExpandAffected(nodes: seq<NodePackage>, whitelist: seq<string>, changedNames: seq<string>)
    returns (affected: set<string>)
    ensures affected == LeastAffected(nodes, whitelist, Elems(changedNames))
  {
    var changed := Elems(changedNames);
    ghost var universe := changed + NameSet(nodes);
    affected := changed;
    var growing := true;
    while growing
      invariant changed <= affected <= universe
      invariant Forced(nodes, whitelist, changed, affected)
      invariant !growing ==> ClosedUnder(nodes, whitelist, affected)
      decreases 2 * |universe - affected| + (if growing then 1 else 0)
    {
      var sizeBefore := |affected|;
      ghost var before := affected;
      affected := AffectPass(nodes, whitelist, affected, changed);
      growing := |affected| > sizeBefore;
      if !growing {
        SubsetCard(before, affected);
        SameSizeSubset(before, affected);
      } else {
        DifferenceCard(universe, affected);
        DifferenceCard(universe, before);
      }
    }
    LeastAffectedIs(nodes, whitelist, changed, affected);
  }

  /** One pass over the packages: a package with a dependency already
      affected (possibly by an earlier package of the same pass) becomes
      affected. A pass that adds nothing finds the set closed. */
  method AffectPass(nodes: seq<NodePackage>, whitelist: seq<string>, affected0: set<string>, ghost changed: set<string>)
    returns (affected: set<string>)
    requires Forced(nodes, whitelist, changed, affected0)
    ensures affected0 <= affected <= affected0 + NameSet(nodes)
    ensures Forced(nodes, whitelist, changed, affected)
    ensures affected == affected0 ==> ClosedUnder(nodes, whitelist, affected)
  {
    affected := affected0;
    for i := 0 to |nodes|
      invariant affected0 <= affected <= affected0 + NameSet(nodes)
      invariant Forced(nodes, whitelist, changed, affected)
      invariant Covered(nodes[..i], whitelist, affected0, affected)
    {
      NamePrefix(nodes, i);
      ghost var before := affected;
      affected := AffectPackage(nodes, i, whitelist, affected0, affected, changed);
      CoveredStep(nodes, i, whitelist, affected0, before, affected);
    }
    PassDone(nodes, whitelist, affected0, affected);
  }

  /** The inner loop of a pass, over one package's dependencies: the
      package becomes affected when one of them already is. */
  method AffectPackage(nodes: seq<NodePackage>, i: nat, whitelist: seq<string>, ghost affected0: set<string>,
                       affectedBefore: set<string>, ghost changed: set<string>)
    returns (affected: set<string>)
    requires i < |nodes|
    requires affected0 <= affectedBefore
    requires Forced(nodes, whitelist, changed, affectedBefore)
    ensures affectedBefore <= affected <= affectedBefore + {nodes[i].packageName}
    ensures Forced(nodes, whitelist, changed, affected)
    ensures forall d :: d in UniqueWorkspaceDeps(whitelist, nodes[i]) && d in affected0 ==> nodes[i].packageName in affected
  {
    var pkg := nodes[i];
    var deps := UniqueWorkspaceDeps(whitelist, pkg);
    affected := affectedBefore;
    for j := 0 to |deps|
      invariant affectedBefore <= affected <= affectedBefore + {pkg.packageName}
      invariant Forced(nodes, whitelist, changed, affected)
      invariant forall d :: d in deps[..j] && d in affected0 ==> pkg.packageName in affected
    {
      if deps[j] in affected {
        ForcedAdd(nodes, whitelist, changed, affected, pkg, deps[j]);
        affected := affected + {pkg.packageName};
      }
      assert deps[..j + 1] == deps[..j] + [deps[j]];
    }
    assert deps[..|deps|] == deps;
  }

  /** Every package of `ps` with a dependency in `affected0` is in
      `affected`. */
  ghost predicate Covered(ps: seq<NodePackage>, whitelist: seq<string>, affected0: set<string>, affected: set<string>) {
    forall p, d :: p in ps && d in UniqueWorkspaceDeps(whitelist, p) && d in affected0 ==> p.packageName in affected
  }

  /** Covering survives growth of the set and extends to the next package
      once that package is handled. */
  lemma CoveredStep(nodes: seq<NodePackage>, i: int, whitelist: seq<string>, affected0: set<string>,
                    before: set<string>, affected: set<string>)
    requires 0 <= i < |nodes| && Covered(nodes[..i], whitelist, affected0, before) && before <= affected
    requires forall d :: d in UniqueWorkspaceDeps(whitelist, nodes[i]) && d in affected0 ==> nodes[i].packageName in affected
    ensures Covered(nodes[..i + 1], whitelist, affected0, affected)
  {
    assert nodes[..i + 1] == nodes[..i] + [nodes[i]];
  }

  /** A pass that covered every package and added nothing found the set
      closed. */
  lemma PassDone(nodes: seq<NodePackage>, whitelist: seq<string>, affected0: set<string>, affected: set<string>)
    requires Covered(nodes[..|nodes|], whitelist, affected0, affected)
    ensures affected == affected0 ==> ClosedUnder(nodes, whitelist, affected)
  {
    assert nodes[..|nodes|] == nodes;
  }

  /** Adding a package that has an affected dependency keeps the set forced. */
  lemma ForcedAdd(nodes: seq<NodePackage>, whitelist: seq<string>, changed: set<string>, affected: set<string>,
                  pkg: NodePackage, d: string)
    requires Forced(nodes, whitelist, changed, affected)
    requires pkg in nodes && d in UniqueWorkspaceDeps(whitelist, pkg) && d in affected
    ensures Forced(nodes, whitelist, changed, affected + {pkg.packageName})
  {
  }

  /** A closed superset of the changed names that every closed superset
      includes is the least one. */
  lemma LeastAffectedIs(nodes: seq<NodePackage>, whitelist: seq<string>, changed: set<string>, affected: set<string>)
    requires changed <= affected <= changed + NameSet(nodes)
    requires ClosedUnder(nodes, whitelist, affected)
    requires Forced(nodes, whitelist, changed, affected)
    ensures affected == LeastAffected(nodes, whitelist, changed)
  {
  }

  /** Keeping the affected packages of a build order keeps a distinct list
      of exactly those packages, still with no package before one of its
      dependencies. */
  lemma PickedOrder(nodes: seq<NodePackage>, preds: Preds, order: seq<NodePackage>, affected: set<string>)
    requires Distinct(Names(nodes))
    requires multiset(order) == multiset(nodes)
    requires NoLaterDependency(preds, Names(order))
    ensures forall p :: p in Filter(order, Picks(affected)) <==> p in nodes && p.packageName in affected
    ensures Distinct(Filter(order, Picks(affected)))
    ensures NoLaterDependency(preds, Names(Filter(order, Picks(affected))))
  {
    var picked := Filter(order, Picks(affected));
    forall p ensures p in order <==> p in nodes {
      assert p in order <==> p in multiset(order);
    }
    DistinctNamesDistinct(nodes);
    PermutationDistinct(nodes, order);
    FilterDistinct(order, Picks(affected));
    FilterIsSubseq(order, Picks(affected));
    SubseqNames(picked, order);
    var rel := NotDependency(preds);
    forall i, j | 0 <= i < j < |Names(order)| ensures rel(Names(order)[i], Names(order)[j]) { }
    SubseqKeepsPairs(Names(picked), Names(order), rel);
    forall i, j | 0 <= i < j < |Names(picked)| && Names(picked)[i] in preds
      ensures Names(picked)[j] !in preds[Names(picked)[i]]
    {
      assert rel(Names(picked)[i], Names(picked)[j]);
    }
  }

  /** The build order is determined by the packages, their list order and
      the whitelist: any two rearrangements of the packages that put no
      package before one of its dependencies and follow Kahn's FIFO queue
      are the same list. */
  lemma BuildOrderUnique(nodes: seq<NodePackage>, whitelist: seq<string>, s: seq<NodePackage>, t: seq<NodePackage>)
    requires Distinct(Names(nodes)) && Acyclic(KnownPreds(nodes, whitelist))
    requires multiset(s) == multiset(nodes) && multiset(t) == multiset(nodes)
    requires NoLaterDependency(KnownPreds(nodes, whitelist), Names(s))
    requires NoLaterDependency(KnownPreds(nodes, whitelist), Names(t))
    requires FifoOrder(KnownPreds(nodes, whitelist), Names(nodes), Names(s))
    requires FifoOrder(KnownPreds(nodes, whitelist), Names(nodes), Names(t))
    ensures s == t
  {
    var preds := KnownPreds(nodes, whitelist);
    PermutedNames(nodes, s);
    PermutedNames(nodes, t);
    FifoUnique(preds, Names(nodes), Names(s), Names(t));
    assert |s| == |multiset(s)| == |multiset(t)| == |t|;
    forall i | 0 <= i < |s| ensures s[i] == t[i] {
      assert s[i] in multiset(nodes) && t[i] in multiset(nodes);
      assert Names(s)[i] == Names(t)[i];
      SameNameSamePackage(nodes, s[i], t[i]);
    }
  }

  /** "The second name is not a dependency of the first", as a relation value. */
  ghost function NotDependency(preds: Preds): (string, string) -> bool {
    (a, b) => a in preds ==> b !in preds[a]
  }

  class KhansDependencyGraph {
    const nodePackages: seq<NodePackage>
    const packageWhitelist: seq<string>
    /** Filled by the constructor and only read afterwards. */
    const packageMap: map<string, NodePackage>
    /** The dependents recorded for each package. */
    var adj: Adjacency
    var inDegree: map<string, int>

    /** The known dependencies of each package. */
    ghost function Preds(): Preds {
      KnownPreds(nodePackages, packageWhitelist)
    }

    ghost predicate Valid()
      reads this
    {
      Tables(nodePackages, packageMap, adj, inDegree)
    }

    /** The state in which edges can be built. This holds after
        construction and again after every successful sort. */
    ghost predicate Ready()
      reads this
    {
      ReadyTables(nodePackages, packageWhitelist, packageMap, adj, inDegree)
    }

    /** The state in which Kahn's loop can run. */
    ghost predicate Built()
      reads this
    {
      BuiltTables(nodePackages, packageWhitelist, packageMap, adj, inDegree)
    }

    /** A whitelist that is given replaces the empty default. */
    constructor(nodePackages: seq<NodePackage>, packageWhitelist: Option<seq<string>>)
      requires Distinct(Names(nodePackages))
      ensures this.nodePackages == nodePackages
      ensures this.packageWhitelist == if packageWhitelist.Some? then packageWhitelist.value else []
      ensures Ready()
      ensures forall n :: n in adj ==> adj[n] == []
    {
      this.nodePackages := nodePackages;
      var whitelist := if packageWhitelist.Some? then packageWhitelist.value else [];
      this.packageWhitelist := whitelist;
      var pm, a, d := InitialMaps(nodePackages);
      InitDone(nodePackages, whitelist, pm, a, d);
      packageMap, adj, inDegree := pm, a, d;
      new;
      assert ReadyTables(nodePackages, whitelist, packageMap, adj, inDegree);
    }

    /** Records every edge and counts every package's known dependencies. */
    method BuildEdges()
      requires Ready()
      modifies this
      ensures Built()
    {
      var a, d := BuildTables(nodePackages, packageWhitelist, packageMap, adj, inDegree);
      adj, inDegree := a, d;
      assert BuiltTables(nodePackages, packageWhitelist, packageMap, adj, inDegree);
    }

    /** Kahn's loop over the built graph; see `SortBuilt`. */
    method TopologicalSort() returns (r: Result<seq<NodePackage>, seq<string>>)
      requires Built()
      modifies this
      ensures Valid() && adj == old(adj)
      ensures r.Success? <==> Acyclic(Preds())
      ensures r.Success? ==> multiset(r.value) == multiset(nodePackages)
      ensures r.Success? ==> NoLaterDependency(Preds(), Names(r.value))
      ensures r.Success? ==> FifoOrder(Preds(), Names(nodePackages), Names(r.value))
      ensures r.Success? ==> Ready()
      ensures r.Failure? ==> r.error == Unsortable(nodePackages, packageWhitelist) && r.error != []
      ensures r.Failure? ==> forall c, k :: IsCycle(Preds(), c) && 0 <= k < |c| ==> c[k] in r.error
    {
      var d;
      r, d := SortBuilt(nodePackages, packageWhitelist, packageMap, adj, inDegree);
      inDegree := d;
      assert Tables(nodePackages, packageMap, adj, inDegree);
      assert r.Success? ==> ReadyTables(nodePackages, packageWhitelist, packageMap, adj, inDegree);
    }

    /** Builds the edges and sorts. */
    method GetBuildOrder() returns (r: Result<seq<NodePackage>, seq<string>>)
      requires Ready()
      modifies this
      ensures Valid()
      ensures r.Success? <==> Acyclic(Preds())
      ensures r.Success? ==> multiset(r.value) == multiset(nodePackages)
      ensures r.Success? ==> NoLaterDependency(Preds(), Names(r.value))
      ensures r.Success? ==> FifoOrder(Preds(), Names(nodePackages), Names(r.value))
      ensures r.Success? ==> Ready()
      ensures r.Failure? ==> r.error == Unsortable(nodePackages, packageWhitelist) && r.error != []
      ensures r.Failure? ==> forall c, k :: IsCycle(Preds(), c) && 0 <= k < |c| ==> c[k] in r.error
    {
      BuildEdges();
      r := TopologicalSort();
    }

    /** The packages affected by the changed ones, in build order. */
    method GetAffectedPackages(changedNames: seq<string>)
      returns (r: Result<seq<NodePackage>, seq<string>>, ghost order: seq<NodePackage>)
      requires Ready()
      modifies this
      ensures Valid()
      ensures r.Success? <==> Acyclic(Preds())
      ensures r.Success? ==> multiset(order) == multiset(nodePackages)
      ensures r.Success? ==> NoLaterDependency(Preds(), Names(order))
      ensures r.Success? ==> FifoOrder(Preds(), Names(nodePackages), Names(order))
      ensures r.Success? ==>
        r.value == Filter(order, Picks(LeastAffected(nodePackages, packageWhitelist, Elems(changedNames))))
      ensures r.Success? ==> forall p :: p in r.value <==>
        p in nodePackages && p.packageName in LeastAffected(nodePackages, packageWhitelist, Elems(changedNames))
      ensures r.Success? ==> Distinct(r.value)
      ensures r.Success? ==> NoLaterDependency(Preds(), Names(r.value))
      ensures r.Success? ==> Ready()
      ensures r.Failure? ==> r.error == Unsortable(nodePackages, packageWhitelist)
    {
      var affected := ExpandAffected(nodePackages, packageWhitelist, changedNames);
      var sorted := GetBuildOrder();
      if sorted.Failure? {
        r, order := sorted, [];
      } else {
        PickedOrder(nodePackages, Preds(), sorted.value, affected);
        r, order := Success(Filter(sorted.value, Picks(affected))), sorted.value;
      }
    }
  }
}
