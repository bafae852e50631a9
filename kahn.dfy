/** Kahn's topological sort as the three dependency-graph implementations of
    the deployer run it: one node per package, an edge from a dependency to
    each dependent, an in-degree per node, a FIFO queue seeded with the
    packages of in-degree 0, and a package appended to the build order each
    time it leaves the queue. Maps keyed by package name stand for the
    JavaScript `Map`s; a `seq` without repetitions stands for each `Set` of
    dependents, iterated in insertion order.

    `preds[n]` is the set of dependencies of package `n` that are packages of
    the graph: the edges Kahn's loop follows, read backwards. */
module Kahn {
  import opened Seqs
  import opened NodePackages

  /** Dependents of each package, in the order they were recorded. */
  type Adjacency = map<string, seq<string>>

  /** Known dependencies of each package. */
  type Preds = map<string, set<string>>

  /** The dependencies in `deps` that name a package of the graph. */
  function KnownDeps(deps: seq<string>, known: set<string>): set<string> {
    set d | d in deps && d in known
  }

  /** The known dependencies of every package, keyed by package name. */
  function PredsOf(nodes: seq<NodePackage>, depsOf: NodePackage -> seq<string>, known: set<string>): (preds: Preds)
    ensures preds.Keys == NameSet(nodes)
    ensures forall n :: n in preds ==> preds[n] <= known
    ensures Distinct(Names(nodes)) ==>
      forall p :: p in nodes ==> preds[p.packageName] == KnownDeps(depsOf(p), known)
    decreases |nodes|
  {
    if nodes == [] then map[]
    else
      var rest := PredsOf(nodes[1..], depsOf, known);
      NamesCons(nodes);
      rest[nodes[0].packageName := KnownDeps(depsOf(nodes[0]), known)]
  }

  /** The names of a non-empty list are its head's name and the tail's names. */
  lemma NamesCons(nodes: seq<NodePackage>)
    requires nodes != []
    ensures NameSet(nodes) == {nodes[0].packageName} + NameSet(nodes[1..])
    ensures Distinct(Names(nodes)) ==> Distinct(Names(nodes[1..]))
    ensures Distinct(Names(nodes)) ==> forall p :: p in nodes[1..] ==> p.packageName != nodes[0].packageName
    ensures forall p :: p in nodes ==> p == nodes[0] || p in nodes[1..]
  {
    assert Names(nodes) == [nodes[0].packageName] + Names(nodes[1..]);
    if Distinct(Names(nodes)) {
      forall p | p in nodes[1..] ensures p.packageName != nodes[0].packageName {
        NameListed(nodes[1..], p);
      }
    }
  }

  /** Walking the list one package further adds that package's name, which
      with distinct names is new. */
  lemma NamePrefix(nodes: seq<NodePackage>, i: int)
    requires 0 <= i < |nodes|
    ensures nodes[i].packageName in NameSet(nodes)
    ensures NameSet(nodes[..i + 1]) == NameSet(nodes[..i]) + {nodes[i].packageName}
    ensures Distinct(Names(nodes)) ==> nodes[i].packageName !in NameSet(nodes[..i])
  {
    NameListed(nodes, nodes[i]);
    assert nodes[..i + 1] == nodes[..i] + [nodes[i]];
    NamesConcat(nodes[..i], [nodes[i]]);
    assert Names(nodes[..i]) == Names(nodes)[..i];
    NameSetNames(nodes[..i]);
  }

  /** The facts about the graph Kahn's loop relies on: distinct node names,
      one predecessor set per node naming only packages of the lookup map,
      and a lookup map that sends each name to the package of that name. */
  ghost predicate Graph(nodes: seq<NodePackage>, preds: Preds, packageMap: map<string, NodePackage>) {
    && Distinct(Names(nodes))
    && preds.Keys == NameSet(nodes)
    && (forall n :: n in preds ==> preds[n] <= packageMap.Keys)
    && (forall n :: n in packageMap ==> n in preds && packageMap[n] in nodes && packageMap[n].packageName == n)
  }

  /** Every recorded dependent `x` of `d` has `d` among its predecessors, and
      no dependent is recorded twice. */
  ghost predicate AdjSound(adj: Adjacency, preds: Preds) {
    && (forall d :: d in adj ==> Distinct(adj[d]))
    && (forall d, x :: d in adj && x in adj[d] ==> x in preds && d in preds[x])
  }

  /** Every edge is recorded among the dependents of its dependency. */
  ghost predicate AdjComplete(adj: Adjacency, preds: Preds) {
    forall x, d :: x in preds && d in preds[x] ==> d in adj && x in adj[d]
  }

  /** The in-degree Kahn's loop keeps for a package with predecessors `ps`
      once the packages `done` have left the queue. */
  function Pending(ps: set<string>, done: set<string>): nat {
    |ps - done|
  }

  /** A package's in-degree is 0 exactly when all its predecessors are done. */
  lemma PendingZero(ps: set<string>, done: set<string>)
    ensures Pending(ps, done) == 0 <==> ps <= done
  {
    if !(ps <= done) {
      var x :| x in ps && x !in done;
      assert x in ps - done;
    }
  }

  /** Dequeuing `d` lowers the in-degree of a package by one exactly when
      `d` is one of its predecessors that had not left the queue yet. */
  lemma PendingStep(ps: set<string>, done: set<string>, d: string)
    ensures Pending(ps, done + {d}) == if d in ps && d !in done then Pending(ps, done) - 1 else Pending(ps, done)
  {
    if d in ps && d !in done {
      assert ps - done == (ps - (done + {d})) + {d};
    } else {
      assert ps - done == ps - (done + {d});
    }
  }

  /** The edge-building loop: for each package, for each of its dependencies
      that is a package of the graph, record the package as a dependent of
      the dependency (a `Set` add, so at most once) and add one to the
      package's in-degree. */
  method ConnectEdges(nodes: seq<NodePackage>, depsOf: NodePackage -> seq<string>, known: set<string>,
                      adj0: Adjacency, inDegree0: map<string, int>)
    returns (adj: Adjacency, inDegree: map<string, int>)
    requires Distinct(Names(nodes))
    requires known <= NameSet(nodes)
    requires forall p :: p in nodes ==> Distinct(depsOf(p))
    requires adj0.Keys == NameSet(nodes) && inDegree0.Keys == NameSet(nodes)
    requires forall n :: n in inDegree0 ==> inDegree0[n] == 0
    requires AdjSound(adj0, PredsOf(nodes, depsOf, known))
    requires AdjEmptyOrExact(adj0, Names(nodes), PredsOf(nodes, depsOf, known))
    ensures adj.Keys == NameSet(nodes) && inDegree.Keys == NameSet(nodes)
    ensures AdjSound(adj, PredsOf(nodes, depsOf, known))
    ensures AdjComplete(adj, PredsOf(nodes, depsOf, known))
    ensures AdjExact(adj, Names(nodes), PredsOf(nodes, depsOf, known))
    ensures forall n :: n in inDegree ==> inDegree[n] == |PredsOf(nodes, depsOf, known)[n]|
  {
    ghost var preds := PredsOf(nodes, depsOf, known);
    adj, inDegree := adj0, inDegree0;
    ghost var seen: set<string> := {};
    for i := 0 to |nodes|
      invariant Connected(nodes, preds, adj, inDegree, seen, i)
      invariant ConnectedExact(nodes, preds, adj0, adj, i)
    {
      adj, inDegree := ConnectNext(nodes, depsOf, known, adj0, adj, inDegree, seen, i);
      seen := seen + {nodes[i].packageName};
    }
    ConnectDone(nodes, depsOf, known, adj, inDegree, seen);
    ConnectExactDone(nodes, preds, adj0, adj);
  }

  /** One turn of the edge-building loop: the edges of the `i`-th package. */
  method ConnectNext(nodes: seq<NodePackage>, depsOf: NodePackage -> seq<string>, known: set<string>,
                     adj0: Adjacency, adjBefore: Adjacency, inDegreeBefore: map<string, int>, ghost seen: set<string>,
                     i: int)
    returns (adj: Adjacency, inDegree: map<string, int>)
    requires Distinct(Names(nodes)) && known <= NameSet(nodes) && 0 <= i < |nodes|
    requires forall p :: p in nodes ==> Distinct(depsOf(p))
    requires Connected(nodes, PredsOf(nodes, depsOf, known), adjBefore, inDegreeBefore, seen, i)
    requires AdjEmptyOrExact(adj0, Names(nodes), PredsOf(nodes, depsOf, known))
    requires ConnectedExact(nodes, PredsOf(nodes, depsOf, known), adj0, adjBefore, i)
    ensures Connected(nodes, PredsOf(nodes, depsOf, known), adj, inDegree, seen + {nodes[i].packageName}, i + 1)
    ensures ConnectedExact(nodes, PredsOf(nodes, depsOf, known), adj0, adj, i + 1)
  {
    ghost var preds := PredsOf(nodes, depsOf, known);
    ConnectReady(nodes, depsOf, known, adjBefore, inDegreeBefore, seen, i);
    adj, inDegree := ConnectPackage(nodes[i].packageName, depsOf(nodes[i]), known, adjBefore, inDegreeBefore, preds);
    ConnectStep(nodes, preds, adjBefore, inDegreeBefore, seen, i, adj, inDegree);
    ConnectExactStep(nodes, preds, adj0, adjBefore, i, adj);
  }

  /** After the first `i` packages, a list that started empty holds the
      dependents among those packages in list order, and a list that
      started exact is unchanged. */
  ghost predicate ConnectedExact(nodes: seq<NodePackage>, preds: Preds, adj0: Adjacency, adj: Adjacency, i: int) {
    && 0 <= i <= |nodes|
    && adj.Keys == adj0.Keys
    && forall d :: d in adj0 ==>
         adj[d] == if adj0[d] == [] then DependentsIn(Names(nodes)[..i], preds, d) else adj0[d]
  }

  lemma ConnectExactStep(nodes: seq<NodePackage>, preds: Preds, adj0: Adjacency, adjBefore: Adjacency, i: int,
                         adj: Adjacency)
    requires Distinct(Names(nodes)) && 0 <= i < |nodes| && nodes[i].packageName in preds
    requires AdjEmptyOrExact(adj0, Names(nodes), preds)
    requires ConnectedExact(nodes, preds, adj0, adjBefore, i)
    requires adj.Keys == adjBefore.Keys
    requires forall d :: d in adjBefore ==>
      adj[d] == if d in preds[nodes[i].packageName] && nodes[i].packageName !in adjBefore[d]
                then adjBefore[d] + [nodes[i].packageName] else adjBefore[d]
    ensures ConnectedExact(nodes, preds, adj0, adj, i + 1)
  {
    var names, x := Names(nodes), nodes[i].packageName;
    assert names[i] == x;
    assert x !in names[..i] by {
      forall k | 0 <= k < i ensures names[k] != x { }
    }
    forall d | d in adj0
      ensures adj[d] == if adj0[d] == [] then DependentsIn(names[..i + 1], preds, d) else adj0[d]
    {
      FilterPrefix(names, i, DependsOn(preds, d));
      if adj0[d] != [] {
        assert adj0[d] == DependentsIn(names, preds, d);
        assert d in preds[x] ==> x in adjBefore[d];
      }
    }
  }

  lemma ConnectExactDone(nodes: seq<NodePackage>, preds: Preds, adj0: Adjacency, adj: Adjacency)
    requires AdjEmptyOrExact(adj0, Names(nodes), preds)
    requires ConnectedExact(nodes, preds, adj0, adj, |nodes|)
    ensures AdjExact(adj, Names(nodes), preds)
  {
    assert Names(nodes)[..|nodes|] == Names(nodes);
  }

  /** The edge-building loop's invariant after the first `i` packages. */
  ghost predicate Connected(nodes: seq<NodePackage>, preds: Preds, adj: Adjacency, inDegree: map<string, int>, seen: set<string>, i: int) {
    && 0 <= i <= |nodes|
    && seen == NameSet(nodes[..i])
    && adj.Keys == preds.Keys && inDegree.Keys == preds.Keys
    && (forall n :: n in preds ==> preds[n] <= preds.Keys)
    && AdjSound(adj, preds)
    && (forall x, d :: x in preds && x in seen && d in preds[x] ==> x in adj[d])
    && (forall n :: n in inDegree ==> inDegree[n] == if n in seen then |preds[n]| else 0)
  }

  lemma ConnectReady(nodes: seq<NodePackage>, depsOf: NodePackage -> seq<string>, known: set<string>,
                     adj: Adjacency, inDegree: map<string, int>, seen: set<string>, i: int)
    requires Distinct(Names(nodes)) && known <= NameSet(nodes)
    requires Connected(nodes, PredsOf(nodes, depsOf, known), adj, inDegree, seen, i) && i < |nodes|
    ensures nodes[i].packageName in PredsOf(nodes, depsOf, known)
    ensures PredsOf(nodes, depsOf, known)[nodes[i].packageName] == KnownDeps(depsOf(nodes[i]), known)
    ensures known <= adj.Keys && nodes[i].packageName in inDegree
  {
    NamePrefix(nodes, i);
    assert nodes[i] in nodes;
  }

  lemma ConnectStep(nodes: seq<NodePackage>, preds: Preds, adj0: Adjacency, inDegree0: map<string, int>, seen: set<string>, i: int,
                    adj: Adjacency, inDegree: map<string, int>)
    requires Distinct(Names(nodes))
    requires Connected(nodes, preds, adj0, inDegree0, seen, i) && i < |nodes|
    requires nodes[i].packageName in preds
    requires adj.Keys == adj0.Keys && AdjSound(adj, preds)
    requires forall d, y :: d in adj0 && y in adj0[d] ==> y in adj[d]
    requires forall d :: d in preds[nodes[i].packageName] ==> nodes[i].packageName in adj[d]
    requires inDegree.Keys == inDegree0.Keys && inDegree[nodes[i].packageName] == inDegree0[nodes[i].packageName] + |preds[nodes[i].packageName]|
    requires forall n :: n in inDegree0 && n != nodes[i].packageName ==> inDegree[n] == inDegree0[n]
    ensures Connected(nodes, preds, adj, inDegree, seen + {nodes[i].packageName}, i + 1)
  {
    NamePrefix(nodes, i);
  }

  lemma ConnectDone(nodes: seq<NodePackage>, depsOf: NodePackage -> seq<string>, known: set<string>,
                    adj: Adjacency, inDegree: map<string, int>, seen: set<string>)
    requires known <= NameSet(nodes)
    requires Connected(nodes, PredsOf(nodes, depsOf, known), adj, inDegree, seen, |nodes|)
    ensures adj.Keys == NameSet(nodes) && inDegree.Keys == NameSet(nodes)
    ensures AdjSound(adj, PredsOf(nodes, depsOf, known))
    ensures AdjComplete(adj, PredsOf(nodes, depsOf, known))
    ensures forall n :: n in inDegree ==> inDegree[n] == |PredsOf(nodes, depsOf, known)[n]|
  {
    assert nodes[..|nodes|] == nodes;
  }

  /** The inner loop of edge building, for the package named `x` with the
      dependency list `deps`. The in-degree is raised for every known
      dependency whether or not the edge was new: the source tests the value
      of `Set.prototype.add`, which is the set itself and always truthy. */
  method ConnectPackage(x: string, deps: seq<string>, known: set<string>,
                        adj0: Adjacency, inDegree0: map<string, int>, ghost preds: Preds)
    returns (adj: Adjacency, inDegree: map<string, int>)
    requires x in preds && preds[x] == KnownDeps(deps, known)
    requires Distinct(deps) && known <= adj0.Keys && x in inDegree0
    requires AdjSound(adj0, preds)
    ensures adj.Keys == adj0.Keys && AdjSound(adj, preds)
    ensures forall d, y :: d in adj0 && y in adj0[d] ==> y in adj[d]
    ensures forall d :: d in preds[x] ==> x in adj[d]
    ensures forall d :: d in adj0 ==> adj[d] == if d in preds[x] && x !in adj0[d] then adj0[d] + [x] else adj0[d]
    ensures inDegree.Keys == inDegree0.Keys && inDegree[x] == inDegree0[x] + |preds[x]|
    ensures forall n :: n in inDegree0 && n != x ==> inDegree[n] == inDegree0[n]
  {
    adj, inDegree := adj0, inDegree0;
    for j := 0 to |deps|
      invariant Linked(x, deps, known, adj0, inDegree0, preds, adj, inDegree, j)
    {
      var depName := deps[j];
      ghost var adjBefore, inDegreeBefore := adj, inDegree;
      if depName in known {
        if x !in adj[depName] {
          adj := adj[depName := adj[depName] + [x]];
        }
        inDegree := inDegree[x := inDegree[x] + 1];
      }
      LinkStep(x, deps, known, adj0, inDegree0, preds, adjBefore, inDegreeBefore, j, adj, inDegree);
    }
    assert deps[..|deps|] == deps;
  }

  /** The inner loop's invariant after the first `j` dependencies of `x`. */
  ghost predicate Linked(x: string, deps: seq<string>, known: set<string>, adj0: Adjacency, inDegree0: map<string, int>,
                         preds: Preds, adj: Adjacency, inDegree: map<string, int>, j: int) {
    && 0 <= j <= |deps|
    && LinkedAdj(x, deps, known, adj0, preds, adj, j)
    && LinkedExact(x, deps, known, adj0, adj, j)
    && LinkedDegrees(x, deps, known, inDegree0, inDegree, j)
  }

  /** `x` is appended, once, to the list of each dependency seen so far
      that did not list it yet; no other list changes. */
  ghost predicate LinkedExact(x: string, deps: seq<string>, known: set<string>, adj0: Adjacency, adj: Adjacency, j: int)
    requires 0 <= j <= |deps|
  {
    && adj.Keys == adj0.Keys
    && forall d :: d in adj0 ==>
         adj[d] == if d in KnownDeps(deps[..j], known) && x !in adj0[d] then adj0[d] + [x] else adj0[d]
  }

  ghost predicate LinkedAdj(x: string, deps: seq<string>, known: set<string>, adj0: Adjacency, preds: Preds,
                            adj: Adjacency, j: int)
    requires 0 <= j <= |deps|
  {
    && adj.Keys == adj0.Keys && AdjSound(adj, preds)
    && (forall d, y :: d in adj0 && y in adj0[d] ==> y in adj[d])
    && (forall d :: d in KnownDeps(deps[..j], known) ==> d in adj && x in adj[d])
  }

  ghost predicate LinkedDegrees(x: string, deps: seq<string>, known: set<string>, inDegree0: map<string, int>,
                                inDegree: map<string, int>, j: int)
    requires 0 <= j <= |deps|
  {
    && inDegree.Keys == inDegree0.Keys && x in inDegree && x in inDegree0
    && inDegree[x] == inDegree0[x] + |KnownDeps(deps[..j], known)|
    && (forall n :: n in inDegree0 && n != x ==> inDegree[n] == inDegree0[n])
  }

  lemma LinkStep(x: string, deps: seq<string>, known: set<string>, adj0: Adjacency, inDegree0: map<string, int>,
                 preds: Preds, adjBefore: Adjacency, inDegreeBefore: map<string, int>, j: int,
                 adj: Adjacency, inDegree: map<string, int>)
    requires x in preds && preds[x] == KnownDeps(deps, known)
    requires Distinct(deps) && known <= adj0.Keys && x in inDegree0
    requires Linked(x, deps, known, adj0, inDegree0, preds, adjBefore, inDegreeBefore, j) && j < |deps|
    requires deps[j] in known ==> deps[j] in adjBefore
    requires adj == (if deps[j] in known && x !in adjBefore[deps[j]]
                     then adjBefore[deps[j] := adjBefore[deps[j]] + [x]] else adjBefore)
    requires inDegree == (if deps[j] in known then inDegreeBefore[x := inDegreeBefore[x] + 1] else inDegreeBefore)
    ensures Linked(x, deps, known, adj0, inDegree0, preds, adj, inDegree, j + 1)
  {
    KnownDepsSnoc(deps, j, known);
    LinkAdjStep(x, deps, known, adj0, preds, adjBefore, j, adj);
    LinkExactStep(x, deps, known, adj0, adjBefore, j, adj);
    LinkDegreesStep(x, deps, known, inDegree0, inDegreeBefore, j, inDegree);
  }

  lemma LinkAdjStep(x: string, deps: seq<string>, known: set<string>, adj0: Adjacency, preds: Preds,
                    adjBefore: Adjacency, j: int, adj: Adjacency)
    requires x in preds && preds[x] == KnownDeps(deps, known)
    requires 0 <= j < |deps| && LinkedAdj(x, deps, known, adj0, preds, adjBefore, j)
    requires deps[j] in known ==> deps[j] in adjBefore && deps[j] in KnownDeps(deps, known)
    requires KnownDeps(deps[..j + 1], known) == KnownDeps(deps[..j], known) + (if deps[j] in known then {deps[j]} else {})
    requires adj == (if deps[j] in known && x !in adjBefore[deps[j]]
                     then adjBefore[deps[j] := adjBefore[deps[j]] + [x]] else adjBefore)
    ensures LinkedAdj(x, deps, known, adj0, preds, adj, j + 1)
  {
    if deps[j] in known && x !in adjBefore[deps[j]] {
      AdjAdd(adjBefore, preds, deps[j], x);
    }
  }

  lemma LinkExactStep(x: string, deps: seq<string>, known: set<string>, adj0: Adjacency,
                      adjBefore: Adjacency, j: int, adj: Adjacency)
    requires 0 <= j < |deps| && LinkedExact(x, deps, known, adj0, adjBefore, j)
    requires deps[j] !in KnownDeps(deps[..j], known)
    requires KnownDeps(deps[..j + 1], known) == KnownDeps(deps[..j], known) + (if deps[j] in known then {deps[j]} else {})
    requires deps[j] in known ==> deps[j] in adjBefore
    requires adj == (if deps[j] in known && x !in adjBefore[deps[j]]
                     then adjBefore[deps[j] := adjBefore[deps[j]] + [x]] else adjBefore)
    ensures LinkedExact(x, deps, known, adj0, adj, j + 1)
  {
  }

  lemma LinkDegreesStep(x: string, deps: seq<string>, known: set<string>, inDegree0: map<string, int>,
                        inDegreeBefore: map<string, int>, j: int, inDegree: map<string, int>)
    requires 0 <= j < |deps| && LinkedDegrees(x, deps, known, inDegree0, inDegreeBefore, j)
    requires deps[j] !in KnownDeps(deps[..j], known)
    requires KnownDeps(deps[..j + 1], known) == KnownDeps(deps[..j], known) + (if deps[j] in known then {deps[j]} else {})
    requires inDegree == (if deps[j] in known then inDegreeBefore[x := inDegreeBefore[x] + 1] else inDegreeBefore)
    ensures LinkedDegrees(x, deps, known, inDegree0, inDegree, j + 1)
  {
  }

  /** One more dependency adds itself to the known ones when it is known; with
      distinct dependencies it was not known before. */
  lemma KnownDepsSnoc(deps: seq<string>, j: int, known: set<string>)
    requires 0 <= j < |deps|
    ensures KnownDeps(deps[..j + 1], known) == KnownDeps(deps[..j], known) + (if deps[j] in known then {deps[j]} else {})
    ensures Distinct(deps) ==> deps[j] !in KnownDeps(deps[..j], known)
    ensures deps[j] in known ==> deps[j] in KnownDeps(deps, known)
  {
    assert deps[..j + 1] == deps[..j] + [deps[j]];
    assert deps[j] in deps;
  }

  /** Recording a new dependent along an edge of the graph keeps the
      adjacency sound. */
  lemma AdjAdd(adj: Adjacency, preds: Preds, d: string, x: string)
    requires AdjSound(adj, preds)
    requires d in adj && x !in adj[d] && x in preds && d in preds[x]
    ensures AdjSound(adj[d := adj[d] + [x]], preds)
  {
    var adj' := adj[d := adj[d] + [x]];
    forall e, y | e in adj' && y in adj'[e] ensures y in preds && e in preds[y] {
      if e == d && y !in adj[d] {
        assert y == x;
      }
    }
  }

  /** `s` lists every package after all of its predecessors. */
  ghost predicate DepsFirst(preds: Preds, s: seq<string>) {
    forall i :: 0 <= i < |s| ==> s[i] in preds && forall d :: d in preds[s[i]] ==> d in s[..i]
  }

  /** The position of `x` in `names` (its first occurrence), or `|names|`
      when it is absent. */
  function Rank(names: seq<string>, x: string): (k: nat)
    ensures k <= |names|
    ensures k < |names| ==> names[k] == x
    ensures forall i :: 0 <= i < k ==> names[i] != x
    decreases |names|
  {
    if names == [] then 0 else if names[0] == x then 0 else 1 + Rank(names[1..], x)
  }

  /** In a list of distinct names, a name's rank is its index. */
  lemma RankAt(names: seq<string>, i: int)
    requires Distinct(names) && 0 <= i < |names|
    ensures Rank(names, names[i]) == i
  {
  }

  /** Along a subsequence of distinct names, ranks increase. */
  lemma RanksIncrease(a: seq<string>, names: seq<string>)
    requires Distinct(names) && Subseq(a, names)
    ensures forall i, j :: 0 <= i < j < |a| ==> Rank(names, a[i]) < Rank(names, a[j])
  {
    var earlier := (x, y) => Rank(names, x) < Rank(names, y);
    forall i, j | 0 <= i < j < |names| ensures earlier(names[i], names[j]) {
      RankAt(names, i);
      RankAt(names, j);
    }
    SubseqKeepsPairs(a, names, earlier);
  }

  /** Whether a package name has `d` among its known dependencies. */
  ghost function DependsOn(preds: Preds, d: string): string -> bool {
    x => x in preds && d in preds[x]
  }

  /** The dependents of `d`, in the order of the list `names`. */
  ghost function DependentsIn(names: seq<string>, preds: Preds, d: string): seq<string> {
    Filter(names, DependsOn(preds, d))
  }

  /** Each package's list of dependents holds exactly its dependents, in the
      order of the package list: the order in which edge building visits
      the packages. */
  ghost predicate AdjExact(adj: Adjacency, names: seq<string>, preds: Preds) {
    forall d :: d in adj ==> adj[d] == DependentsIn(names, preds, d)
  }

  /** Each list of dependents is empty (edges not built yet) or exact
      (edges built before). */
  ghost predicate AdjEmptyOrExact(adj: Adjacency, names: seq<string>, preds: Preds) {
    forall d :: d in adj ==> adj[d] == [] || adj[d] == DependentsIn(names, preds, d)
  }

  /** A package with no known dependency: one the queue starts with. */
  ghost function IsRoot(preds: Preds): NodePackage -> bool {
    (p: NodePackage) => p.packageName in preds && preds[p.packageName] == {}
  }

  /** The position in the build order `s` of the last of the names `ps`,
      or -1 when none of them is in it. */
  function LastBuilt(ps: set<string>, s: seq<string>): (k: int)
    ensures -1 <= k < |s|
    ensures 0 <= k ==> s[k] in ps
    ensures forall i :: k < i < |s| ==> s[i] !in ps
    decreases |s|
  {
    if s == [] then -1
    else if s[|s| - 1] in ps then |s| - 1
    else LastBuilt(ps, s[..|s| - 1])
  }

  /** Building one more package moves the last built of `ps` to it exactly
      when it is one of them. */
  lemma LastBuiltSnoc(ps: set<string>, s: seq<string>, d: string)
    ensures LastBuilt(ps, s + [d]) == if d in ps then |s| else LastBuilt(ps, s)
  {
    assert (s + [d])[..|s|] == s;
  }

  /** With a FIFO queue, package `x` leaves the queue before package `y`
      when its last dependency was built earlier than `y`'s, or when that is
      the same dependency (or neither has one) and `x` comes first in the
      package list. Positions are taken in the build order `s`. */
  ghost predicate Earlier(preds: Preds, names: seq<string>, s: seq<string>, x: string, y: string) {
    && x in preds && y in preds
    && (|| LastBuilt(preds[x], s) < LastBuilt(preds[y], s)
        || (LastBuilt(preds[x], s) == LastBuilt(preds[y], s) && Rank(names, x) < Rank(names, y)))
  }

  /** Every name of `e` is `Earlier` than every later one, positions taken in
      the build order `s`. */
  ghost predicate FifoAfter(preds: Preds, names: seq<string>, s: seq<string>, e: seq<string>) {
    forall i, j {:trigger Earlier(preds, names, s, e[i], e[j])} :: 0 <= i < j < |e| ==> Earlier(preds, names, s, e[i], e[j])
  }

  /** The build order `s` is the order of Kahn's FIFO queue: packages
      ordered by the position of their last-built dependency, ties (among
      them the packages without dependencies) in package-list order. */
  ghost predicate FifoOrder(preds: Preds, names: seq<string>, s: seq<string>) {
    FifoAfter(preds, names, s, s)
  }

  /** What Kahn's loop leaves behind: a build order of distinct packages of
      the graph, each after its predecessors, each either in the lookup map
      or without predecessors; and every package left out either has a
      predecessor left out, or has predecessors but no lookup entry, so it
      was never queued when its in-degree reached 0. */
  ghost predicate Outcome(nodes: seq<NodePackage>, preds: Preds, packageMap: map<string, NodePackage>, sorted: seq<NodePackage>) {
    && (forall p :: p in sorted ==> p in nodes)
    && Distinct(Names(sorted))
    && DepsFirst(preds, Names(sorted))
    && (forall p :: p in sorted ==> p.packageName in packageMap || (p.packageName in preds && preds[p.packageName] == {}))
    && (forall n :: n in preds && n !in NameSet(sorted) ==>
          !(preds[n] <= NameSet(sorted)) || (n !in packageMap && preds[n] != {}))
  }

  /** What Kahn's loop starts from: the graph; every edge recorded once, the
      dependents of each package in list order; and each in-degree equal to
      the number of known dependencies. */
  ghost predicate Startable(nodes: seq<NodePackage>, packageMap: map<string, NodePackage>, adj: Adjacency,
                            inDegree0: map<string, int>, preds: Preds) {
    && Graph(nodes, preds, packageMap)
    && adj.Keys == preds.Keys && AdjSound(adj, preds) && AdjComplete(adj, preds)
    && AdjExact(adj, Names(nodes), preds)
    && inDegree0.Keys == preds.Keys && (forall n :: n in preds ==> inDegree0[n] == |preds[n]|)
  }

  /** The loop of Kahn's algorithm: seed the queue with the packages of
      in-degree 0, in list order; then, until the queue is empty, take its
      first package, append it to the build order, and lower the in-degree
      of each of its dependents, queueing the dependent's package (when the
      lookup map has one) as its in-degree reaches 0. */
  method Drain(nodes: seq<NodePackage>, packageMap: map<string, NodePackage>, adj: Adjacency,
               inDegree0: map<string, int>, ghost preds: Preds)
    returns (sorted: seq<NodePackage>, inDegree: map<string, int>)
    requires Startable(nodes, packageMap, adj, inDegree0, preds)
    ensures Outcome(nodes, preds, packageMap, sorted)
    ensures Filter(nodes, IsRoot(preds)) <= sorted
    ensures FifoOrder(preds, Names(nodes), Names(sorted))
    ensures inDegree.Keys == preds.Keys
    ensures forall n :: n in preds ==> inDegree[n] == Pending(preds[n], NameSet(sorted))
  {
    inDegree := inDegree0;
    var queue := Seed(nodes, inDegree, preds);
    sorted := [];
    SeedDone(nodes, preds, packageMap, inDegree, queue);
    FifoSeed(nodes, preds, queue);
    while queue != []
      invariant Draining(nodes, preds, packageMap, inDegree, sorted, queue)
      invariant DrainFifo(nodes, preds, sorted, queue)
      decreases |nodes| - |sorted|
    {
      DequeueReady(nodes, preds, packageMap, adj, inDegree, sorted, queue);
      var pkg := queue[0];
      ghost var sortedBefore, queueBefore, inDegreeBefore := sorted, queue, inDegree;
      queue := queue[1..];
      sorted := sorted + [pkg];
      var dependents := adj[pkg.packageName];
      inDegree, queue := Release(pkg.packageName, dependents, packageMap, inDegree, queue, preds, NameSet(sortedBefore));
      DrainStep(nodes, preds, packageMap, adj, inDegreeBefore, sortedBefore, queueBefore, inDegree, queue);
      FifoStep(nodes, preds, adj, sortedBefore, queueBefore, queue);
    }
    DrainDone(nodes, preds, packageMap, inDegree, sorted);
    assert sorted + queue == sorted;
  }

  /** The packages of in-degree 0, in list order. */
  method Seed(nodes: seq<NodePackage>, inDegree: map<string, int>, ghost preds: Preds) returns (queue: seq<NodePackage>)
    requires Distinct(Names(nodes)) && preds.Keys == NameSet(nodes)
    requires inDegree.Keys == preds.Keys && forall n :: n in preds ==> inDegree[n] == |preds[n]|
    ensures Seeded(nodes, preds, queue, |nodes|)
    ensures queue == Filter(nodes, IsRoot(preds))
  {
    queue := [];
    for i := 0 to |nodes|
      invariant Seeded(nodes, preds, queue, i)
    {
      NamePrefix(nodes, i);
      ghost var queueBefore := queue;
      if inDegree[nodes[i].packageName] == 0 {
        queue := queue + [nodes[i]];
      }
      SeedStep(nodes, preds, queueBefore, i, queue);
    }
    assert nodes[..|nodes|] == nodes;
  }

  /** The seeding loop's invariant after the first `i` packages. */
  ghost predicate Seeded(nodes: seq<NodePackage>, preds: Preds, queue: seq<NodePackage>, i: int) {
    && 0 <= i <= |nodes|
    && Distinct(Names(queue))
    && queue == Filter(nodes[..i], IsRoot(preds))
  }

  lemma SeedStep(nodes: seq<NodePackage>, preds: Preds, queue0: seq<NodePackage>, i: int, queue: seq<NodePackage>)
    requires Distinct(Names(nodes)) && preds.Keys == NameSet(nodes)
    requires Seeded(nodes, preds, queue0, i) && i < |nodes|
    requires queue == queue0 + [nodes[i]] || queue == queue0
    requires queue == queue0 + [nodes[i]] <==> preds[nodes[i].packageName] == {}
    ensures Seeded(nodes, preds, queue, i + 1)
  {
    NamePrefix(nodes, i);
    SeedFilterStep(nodes, preds, queue0, i, queue);
    if queue != queue0 {
      SeedMembers(nodes, preds, queue0, i);
      SeedNamesStep(nodes, preds, queue0, i);
    }
  }

  /** The filtered prefix holds exactly the prefix's packages without
      known dependencies. */
  lemma SeedMembers(nodes: seq<NodePackage>, preds: Preds, queue: seq<NodePackage>, i: int)
    requires 0 <= i <= |nodes| && queue == Filter(nodes[..i], IsRoot(preds))
    ensures forall q :: q in queue ==> q in nodes[..i] && q.packageName in preds && preds[q.packageName] == {}
    ensures forall k :: 0 <= k < i && nodes[k].packageName in preds && preds[nodes[k].packageName] == {} ==> nodes[k] in queue
  {
    forall k | 0 <= k < i && nodes[k].packageName in preds && preds[nodes[k].packageName] == {}
      ensures nodes[k] in queue
    {
      assert nodes[..i][k] == nodes[k];
      assert IsRoot(preds)(nodes[k]);
    }
  }

  /** The queue after one more package is the longer prefix, filtered. */
  lemma SeedFilterStep(nodes: seq<NodePackage>, preds: Preds, queue0: seq<NodePackage>, i: int, queue: seq<NodePackage>)
    requires 0 <= i < |nodes| && nodes[i].packageName in preds
    requires queue0 == Filter(nodes[..i], IsRoot(preds))
    requires queue == queue0 + [nodes[i]] || queue == queue0
    requires queue == queue0 + [nodes[i]] <==> preds[nodes[i].packageName] == {}
    ensures queue == Filter(nodes[..i + 1], IsRoot(preds))
  {
    FilterPrefix(nodes, i, IsRoot(preds));
  }

  /** Queueing a package whose name is new keeps the queued names distinct. */
  lemma SeedNamesStep(nodes: seq<NodePackage>, preds: Preds, queue0: seq<NodePackage>, i: int)
    requires Distinct(Names(nodes)) && 0 <= i < |nodes|
    requires Distinct(Names(queue0)) && forall q :: q in queue0 ==> q in nodes[..i]
    ensures Distinct(Names(queue0 + [nodes[i]]))
  {
    NamePrefix(nodes, i);
    NamesConcat(queue0, [nodes[i]]);
    forall n | n in Names(queue0) ensures n != nodes[i].packageName {
      var j :| 0 <= j < |queue0| && Names(queue0)[j] == n;
      assert queue0[j] in queue0;
      assert queue0[j] in nodes[..i];
      NameListed(nodes[..i], queue0[j]);
      NameSetNames(nodes[..i]);
    }
    DistinctConcat(Names(queue0), [nodes[i].packageName]);
  }

  lemma SeedDone(nodes: seq<NodePackage>, preds: Preds, packageMap: map<string, NodePackage>,
                 inDegree: map<string, int>, queue: seq<NodePackage>)
    requires Graph(nodes, preds, packageMap) && Seeded(nodes, preds, queue, |nodes|)
    requires inDegree.Keys == preds.Keys && forall n :: n in preds ==> inDegree[n] == |preds[n]|
    ensures Draining(nodes, preds, packageMap, inDegree, [], queue)
  {
    SeedMembers(nodes, preds, queue, |nodes|);
    assert nodes[..|nodes|] == nodes;
    assert NameSet([]) == {};
    assert [] + queue == queue;
    forall n | n in preds && inDegree[n] == 0 ensures n in Names(queue) {
      var p :| p in nodes && p.packageName == n;
      assert preds[n] == {};
      NameListed(queue, p);
    }
    DistinctNamesBound(queue, nodes);
  }

  /** The invariant of the draining loop: the in-degrees count the
      predecessors not built yet; built and queued packages are distinct
      packages of the graph; the build order puts dependencies first; every
      queued package has all its predecessors built; built and queued
      packages are looked up or have no predecessors; and every package of
      in-degree 0 that could be queued, and is not built, is queued. */
  ghost predicate Draining(nodes: seq<NodePackage>, preds: Preds, packageMap: map<string, NodePackage>,
                           inDegree: map<string, int>, sorted: seq<NodePackage>, queue: seq<NodePackage>) {
    && DrainDegrees(preds, inDegree, sorted)
    && DrainPackages(nodes, sorted, queue)
    && DrainOrder(preds, sorted, queue)
    && DrainMapped(preds, packageMap, sorted, queue)
    && DrainComplete(preds, packageMap, inDegree, sorted, queue)
  }

  ghost predicate DrainDegrees(preds: Preds, inDegree: map<string, int>, sorted: seq<NodePackage>) {
    && inDegree.Keys == preds.Keys
    && (forall n :: n in preds ==> inDegree[n] == Pending(preds[n], NameSet(sorted)))
  }

  ghost predicate DrainPackages(nodes: seq<NodePackage>, sorted: seq<NodePackage>, queue: seq<NodePackage>) {
    && (forall p :: p in sorted ==> p in nodes)
    && (forall q :: q in queue ==> q in nodes)
    && Distinct(Names(sorted + queue))
    && |sorted| + |queue| <= |nodes|
  }

  ghost predicate DrainOrder(preds: Preds, sorted: seq<NodePackage>, queue: seq<NodePackage>) {
    && DepsFirst(preds, Names(sorted))
    && (forall q :: q in queue ==> q.packageName in preds && preds[q.packageName] <= NameSet(sorted))
  }

  ghost predicate DrainMapped(preds: Preds, packageMap: map<string, NodePackage>, sorted: seq<NodePackage>, queue: seq<NodePackage>) {
    && (forall p :: p in sorted ==> p.packageName in packageMap || (p.packageName in preds && preds[p.packageName] == {}))
    && (forall q :: q in queue ==> q.packageName in packageMap || (q.packageName in preds && preds[q.packageName] == {}))
  }

  ghost predicate DrainComplete(preds: Preds, packageMap: map<string, NodePackage>, inDegree: map<string, int>,
                                sorted: seq<NodePackage>, queue: seq<NodePackage>) {
    forall n :: n in preds && n in inDegree && n !in NameSet(sorted) && inDegree[n] == 0 && (n in packageMap || preds[n] == {}) ==>
      n in Names(queue)
  }

  /** The head of the queue is a package of the graph that was not built. */
  lemma DequeueReady(nodes: seq<NodePackage>, preds: Preds, packageMap: map<string, NodePackage>, adj: Adjacency,
                     inDegree: map<string, int>, sorted: seq<NodePackage>, queue: seq<NodePackage>)
    requires forall n :: n in packageMap ==> packageMap[n].packageName == n
    requires adj.Keys == preds.Keys && AdjSound(adj, preds)
    requires DrainDegrees(preds, inDegree, sorted) && DrainPackages(nodes, sorted, queue)
    requires DrainOrder(preds, sorted, queue) && queue != []
    ensures queue[0].packageName in preds && queue[0].packageName in adj
    ensures queue[0].packageName !in NameSet(sorted)
    ensures ReleasePre(queue[0].packageName, adj[queue[0].packageName], packageMap, inDegree, preds, NameSet(sorted))
    ensures |sorted| < |nodes|
  {
    assert queue[0] in queue;
    HeadNotBuilt(sorted, queue);
    ReleaseReadyAt(queue[0].packageName, packageMap, adj, inDegree, preds, NameSet(sorted));
  }

  lemma ReleaseReadyAt(d: string, packageMap: map<string, NodePackage>, adj: Adjacency,
                       inDegree: map<string, int>, preds: Preds, done: set<string>)
    requires forall n :: n in packageMap ==> packageMap[n].packageName == n
    requires AdjSound(adj, preds) && d in adj && d !in done
    requires inDegree.Keys == preds.Keys && forall n :: n in preds ==> inDegree[n] == Pending(preds[n], done)
    ensures ReleasePre(d, adj[d], packageMap, inDegree, preds, done)
  {
  }

  lemma HeadNotBuilt(sorted: seq<NodePackage>, queue: seq<NodePackage>)
    requires Distinct(Names(sorted + queue)) && queue != []
    ensures queue[0].packageName !in NameSet(sorted)
  {
    NamesConcat(sorted, queue);
    NameSetNames(sorted);
    forall i | 0 <= i < |sorted| ensures Names(sorted)[i] != queue[0].packageName {
      assert Names(sorted + queue)[i] == Names(sorted)[i];
      assert Names(sorted + queue)[|sorted|] == queue[0].packageName;
    }
  }


  /** The inner loop of Kahn's algorithm for the dequeued package `d`: lower
      the in-degree of each dependent and queue the dependent's package when
      the in-degree reaches 0 and the lookup map has it. Every dependent is
      a key of the in-degree map, so the `|| 0` fallback never applies. */
  method Release(d: string, dependents: seq<string>, packageMap: map<string, NodePackage>,
                 inDegree0: map<string, int>, queue0: seq<NodePackage>, ghost preds: Preds, ghost done0: set<string>)
    returns (inDegree: map<string, int>, queue: seq<NodePackage>)
    requires ReleasePre(d, dependents, packageMap, inDegree0, preds, done0)
    ensures Released(d, dependents, packageMap, inDegree0, queue0, preds, done0, inDegree, queue, |dependents|)
  {
    inDegree, queue := inDegree0, queue0;
    for j := 0 to |dependents|
      invariant Released(d, dependents, packageMap, inDegree0, queue0, preds, done0, inDegree, queue, j)
    {
      var x := dependents[j];
      ghost var inDegreeBefore, queueBefore := inDegree, queue;
      ReleaseReady(d, dependents, packageMap, inDegree0, queue0, preds, done0, inDegree, queue, j);
      var newInDegree := inDegree[x] - 1;
      inDegree := inDegree[x := newInDegree];
      if newInDegree == 0 {
        if x in packageMap {
          queue := queue + [packageMap[x]];
        }
      }
      ReleaseStep(d, dependents, packageMap, inDegree0, queue0, preds, done0, inDegreeBefore, queueBefore, j, inDegree, queue);
    }
  }

  /** What the inner loop needs: distinct dependents of `d`, which is not
      built yet; in-degrees that count the predecessors not built; a lookup
      map keyed by package name. */
  ghost predicate ReleasePre(d: string, dependents: seq<string>, packageMap: map<string, NodePackage>,
                             inDegree0: map<string, int>, preds: Preds, done0: set<string>) {
    && Distinct(dependents)
    && (forall x :: x in dependents ==> x in preds && d in preds[x])
    && d !in done0
    && inDegree0.Keys == preds.Keys
    && (forall n :: n in preds ==> inDegree0[n] == Pending(preds[n], done0))
    && (forall n :: n in packageMap ==> packageMap[n].packageName == n)
  }

  /** The inner loop's invariant after the first `j` dependents: those have
      their in-degree lowered, and the packages queued meanwhile are exactly
      the looked-up packages of those of them whose in-degree reached 0. */
  ghost predicate Released(d: string, dependents: seq<string>, packageMap: map<string, NodePackage>,
                           inDegree0: map<string, int>, queue0: seq<NodePackage>, preds: Preds, done0: set<string>,
                           inDegree: map<string, int>, queue: seq<NodePackage>, j: int) {
    && ReleasedDegrees(d, dependents, inDegree0, preds, done0, inDegree, j)
    && ReleasedQueue(d, dependents, packageMap, queue0, preds, done0, queue, j)
  }

  ghost predicate ReleasedDegrees(d: string, dependents: seq<string>, inDegree0: map<string, int>, preds: Preds,
                                  done0: set<string>, inDegree: map<string, int>, j: int) {
    && 0 <= j <= |dependents|
    && inDegree.Keys == inDegree0.Keys
    && (forall n :: n in preds && n in inDegree ==>
          inDegree[n] == if n in dependents[..j] then Pending(preds[n], done0 + {d}) else inDegree0[n])
  }

  ghost predicate ReleasedQueue(d: string, dependents: seq<string>, packageMap: map<string, NodePackage>,
                                queue0: seq<NodePackage>, preds: Preds, done0: set<string>, queue: seq<NodePackage>, j: int) {
    && 0 <= j <= |dependents|
    && |queue0| <= |queue| && queue[..|queue0|] == queue0
    && (forall k :: |queue0| <= k < |queue| ==>
          && queue[k].packageName in dependents[..j]
          && queue[k].packageName in packageMap && queue[k] == packageMap[queue[k].packageName]
          && queue[k].packageName in preds && Pending(preds[queue[k].packageName], done0 + {d}) == 0)
    && Distinct(Names(queue[|queue0|..]))
    && Subseq(Names(queue[|queue0|..]), dependents[..j])
    && (forall x :: x in preds && x in dependents[..j] && x in packageMap && Pending(preds[x], done0 + {d}) == 0 ==>
          x in Names(queue[|queue0|..]))
  }

  lemma ReleaseReady(d: string, dependents: seq<string>, packageMap: map<string, NodePackage>,
                     inDegree0: map<string, int>, queue0: seq<NodePackage>, preds: Preds, done0: set<string>,
                     inDegree: map<string, int>, queue: seq<NodePackage>, j: int)
    requires forall x :: x in dependents ==> x in preds && d in preds[x]
    requires inDegree0.Keys == preds.Keys
    requires Released(d, dependents, packageMap, inDegree0, queue0, preds, done0, inDegree, queue, j) && j < |dependents|
    ensures dependents[j] in inDegree
  {
    assert dependents[j] in dependents;
  }

  lemma ReleaseStep(d: string, dependents: seq<string>, packageMap: map<string, NodePackage>,
                    inDegree0: map<string, int>, queue0: seq<NodePackage>, preds: Preds, done0: set<string>,
                    inDegreeBefore: map<string, int>, queueBefore: seq<NodePackage>, j: int,
                    inDegree: map<string, int>, queue: seq<NodePackage>)
    requires Distinct(dependents)
    requires forall x :: x in dependents ==> x in preds && d in preds[x]
    requires d !in done0
    requires inDegree0.Keys == preds.Keys
    requires forall n :: n in preds ==> inDegree0[n] == Pending(preds[n], done0)
    requires forall n :: n in packageMap ==> packageMap[n].packageName == n
    requires Released(d, dependents, packageMap, inDegree0, queue0, preds, done0, inDegreeBefore, queueBefore, j) && j < |dependents|
    requires dependents[j] in inDegreeBefore
    requires inDegree == inDegreeBefore[dependents[j] := inDegreeBefore[dependents[j]] - 1]
    requires queue == (if inDegree[dependents[j]] == 0 && dependents[j] in packageMap
                       then queueBefore + [packageMap[dependents[j]]] else queueBefore)
    ensures Released(d, dependents, packageMap, inDegree0, queue0, preds, done0, inDegree, queue, j + 1)
  {
    var x := dependents[j];
    assert x in dependents;
    assert x !in dependents[..j] by {
      forall k | 0 <= k < j ensures dependents[k] != x { }
    }
    PendingStep(preds[x], done0, d);
    ReleaseDegreesStep(d, dependents, inDegree0, preds, done0, inDegreeBefore, j, inDegree);
    ReleaseQueueStep(d, dependents, packageMap, queue0, preds, done0, queueBefore, j, queue);
  }

  lemma ReleaseDegreesStep(d: string, dependents: seq<string>, inDegree0: map<string, int>, preds: Preds,
                           done0: set<string>, inDegreeBefore: map<string, int>, j: int, inDegree: map<string, int>)
    requires ReleasedDegrees(d, dependents, inDegree0, preds, done0, inDegreeBefore, j) && j < |dependents|
    requires dependents[j] in preds && dependents[j] in inDegreeBefore && dependents[j] !in dependents[..j]
    requires inDegree0[dependents[j]] - 1 == Pending(preds[dependents[j]], done0 + {d})
    requires inDegree == inDegreeBefore[dependents[j] := inDegreeBefore[dependents[j]] - 1]
    ensures ReleasedDegrees(d, dependents, inDegree0, preds, done0, inDegree, j + 1)
    ensures inDegree[dependents[j]] == Pending(preds[dependents[j]], done0 + {d})
  {
    var x := dependents[j];
    assert dependents[..j + 1] == dependents[..j] + [x];
    forall n | n in preds && n in inDegree
      ensures inDegree[n] == if n in dependents[..j + 1] then Pending(preds[n], done0 + {d}) else inDegree0[n]
    {
      if n != x {
        assert n in dependents[..j + 1] <==> n in dependents[..j];
      }
    }
  }

  lemma ReleaseQueueStep(d: string, dependents: seq<string>, packageMap: map<string, NodePackage>,
                         queue0: seq<NodePackage>, preds: Preds, done0: set<string>,
                         queueBefore: seq<NodePackage>, j: int, queue: seq<NodePackage>)
    requires ReleasedQueue(d, dependents, packageMap, queue0, preds, done0, queueBefore, j) && j < |dependents|
    requires dependents[j] in preds && dependents[j] !in dependents[..j]
    requires forall n :: n in packageMap ==> packageMap[n].packageName == n
    requires queue == (if Pending(preds[dependents[j]], done0 + {d}) == 0 && dependents[j] in packageMap
                       then queueBefore + [packageMap[dependents[j]]] else queueBefore)
    ensures ReleasedQueue(d, dependents, packageMap, queue0, preds, done0, queue, j + 1)
  {
    var x := dependents[j];
    if queue != queueBefore {
      ReleaseQueuePush(d, dependents, packageMap, queue0, preds, done0, queueBefore, j, queue);
    } else {
      assert queue[|queue0|..] == queueBefore[|queue0|..];
      assert dependents[..j + 1] == dependents[..j] + [x];
      SubseqGrow(Names(queue[|queue0|..]), dependents[..j], x);
      forall y | y in preds && y in dependents[..j + 1] && y in packageMap && Pending(preds[y], done0 + {d}) == 0
        ensures y in Names(queue[|queue0|..])
      {
        assert y != x;
      }
    }
  }

  lemma ReleaseQueuePush(d: string, dependents: seq<string>, packageMap: map<string, NodePackage>,
                         queue0: seq<NodePackage>, preds: Preds, done0: set<string>,
                         queueBefore: seq<NodePackage>, j: int, queue: seq<NodePackage>)
    requires ReleasedQueue(d, dependents, packageMap, queue0, preds, done0, queueBefore, j) && j < |dependents|
    requires dependents[j] in preds && dependents[j] !in dependents[..j]
    requires forall n :: n in packageMap ==> packageMap[n].packageName == n
    requires Pending(preds[dependents[j]], done0 + {d}) == 0 && dependents[j] in packageMap
    requires queue == queueBefore + [packageMap[dependents[j]]]
    ensures ReleasedQueue(d, dependents, packageMap, queue0, preds, done0, queue, j + 1)
  {
    ReleasePushEntries(d, dependents, packageMap, queue0, preds, done0, queueBefore, j, queue);
    AppendName(queue0, queueBefore, packageMap[dependents[j]], queue);
    assert dependents[..j + 1] == dependents[..j] + [dependents[j]];
    SubseqSnoc(Names(queueBefore[|queue0|..]), dependents[..j], dependents[j]);
    ReleasePushCovers(d, dependents, packageMap, queue0, preds, done0, queueBefore, j, queue);
  }

  /** The pushed package is a released dependent like those before it. */
  lemma ReleasePushEntries(d: string, dependents: seq<string>, packageMap: map<string, NodePackage>,
                           queue0: seq<NodePackage>, preds: Preds, done0: set<string>,
                           queueBefore: seq<NodePackage>, j: int, queue: seq<NodePackage>)
    requires ReleasedQueue(d, dependents, packageMap, queue0, preds, done0, queueBefore, j) && j < |dependents|
    requires dependents[j] in preds && Pending(preds[dependents[j]], done0 + {d}) == 0 && dependents[j] in packageMap
    requires forall n :: n in packageMap ==> packageMap[n].packageName == n
    requires dependents[j] !in dependents[..j]
    requires queue == queueBefore + [packageMap[dependents[j]]]
    ensures queue[..|queue0|] == queue0
    ensures packageMap[dependents[j]].packageName == dependents[j]
    ensures forall k :: |queue0| <= k < |queueBefore| ==> queueBefore[k].packageName != packageMap[dependents[j]].packageName
    ensures forall k :: |queue0| <= k < |queue| ==>
          && queue[k].packageName in dependents[..j + 1]
          && queue[k].packageName in packageMap && queue[k] == packageMap[queue[k].packageName]
          && queue[k].packageName in preds && Pending(preds[queue[k].packageName], done0 + {d}) == 0
  {
    assert dependents[..j + 1] == dependents[..j] + [dependents[j]];
    forall k | |queue0| <= k < |queue|
      ensures && queue[k].packageName in dependents[..j + 1]
              && queue[k].packageName in packageMap && queue[k] == packageMap[queue[k].packageName]
              && queue[k].packageName in preds && Pending(preds[queue[k].packageName], done0 + {d}) == 0
    {
      if k < |queueBefore| {
        assert queue[k] == queueBefore[k];
      }
    }
  }

  /** Every released dependent up to the pushed one is queued. */
  lemma ReleasePushCovers(d: string, dependents: seq<string>, packageMap: map<string, NodePackage>,
                          queue0: seq<NodePackage>, preds: Preds, done0: set<string>,
                          queueBefore: seq<NodePackage>, j: int, queue: seq<NodePackage>)
    requires ReleasedQueue(d, dependents, packageMap, queue0, preds, done0, queueBefore, j) && j < |dependents|
    requires |queueBefore| <= |queue|
    requires Names(queue[|queue0|..]) == Names(queueBefore[|queue0|..]) + [dependents[j]]
    ensures forall x :: x in preds && x in dependents[..j + 1] && x in packageMap && Pending(preds[x], done0 + {d}) == 0 ==>
          x in Names(queue[|queue0|..])
  {
    assert dependents[..j + 1] == dependents[..j] + [dependents[j]];
  }

  /** Appending a package with a new name to the added part of a queue
      keeps the added names distinct. */
  lemma AppendName(queue0: seq<NodePackage>, queueBefore: seq<NodePackage>, p: NodePackage, queue: seq<NodePackage>)
    requires |queue0| <= |queueBefore| && queue == queueBefore + [p]
    requires Distinct(Names(queueBefore[|queue0|..]))
    requires forall k :: |queue0| <= k < |queueBefore| ==> queueBefore[k].packageName != p.packageName
    ensures Names(queue[|queue0|..]) == Names(queueBefore[|queue0|..]) + [p.packageName]
    ensures Distinct(Names(queue[|queue0|..]))
  {
    var added0 := queueBefore[|queue0|..];
    assert queue[|queue0|..] == added0 + [p];
    NamesConcat(added0, [p]);
    forall n | n in Names(added0) ensures n != p.packageName {
      var k :| 0 <= k < |added0| && Names(added0)[k] == n;
      assert queueBefore[|queue0| + k].packageName == n;
    }
    DistinctConcat(Names(added0), [p.packageName]);
  }

  /** The FIFO part of the draining loop's invariant: the packages without
      dependencies, in list order, begin the sequence of packages ever
      queued (built, then still queued), and that sequence is in FIFO
      order. */
  ghost predicate DrainFifo(nodes: seq<NodePackage>, preds: Preds, sorted: seq<NodePackage>, queue: seq<NodePackage>) {
    && Filter(nodes, IsRoot(preds)) <= sorted + queue
    && FifoAfter(preds, Names(nodes), Names(sorted), Names(sorted + queue))
  }

  /** The seeded queue is in FIFO order: no package has a dependency built,
      and the list order is kept. */
  lemma FifoSeed(nodes: seq<NodePackage>, preds: Preds, queue: seq<NodePackage>)
    requires Distinct(Names(nodes)) && queue == Filter(nodes, IsRoot(preds))
    ensures DrainFifo(nodes, preds, [], queue)
  {
    assert [] + queue == queue;
    FilterIsSubseq(nodes, IsRoot(preds));
    SubseqNames(queue, nodes);
    RanksIncrease(Names(queue), Names(nodes));
    forall k | 0 <= k < |queue| ensures Names(queue)[k] in preds {
      assert queue[k] in queue;
    }
  }

  /** One turn of the draining loop keeps the FIFO order: the packages
      queued meanwhile are dependents of the package just built, so their
      last-built dependency is the newest, and they are queued in list
      order. */
  lemma FifoStep(nodes: seq<NodePackage>, preds: Preds, adj: Adjacency,
                 sorted0: seq<NodePackage>, queue0: seq<NodePackage>, queue: seq<NodePackage>)
    requires Distinct(Names(nodes))
    requires AdjExact(adj, Names(nodes), preds)
    requires DrainOrder(preds, sorted0, queue0) && Distinct(Names(sorted0 + queue0)) && queue0 != []
    requires DrainFifo(nodes, preds, sorted0, queue0)
    requires queue0[0].packageName in adj && queue0[0].packageName !in NameSet(sorted0)
    requires |queue0[1..]| <= |queue| && queue[..|queue0[1..]|] == queue0[1..]
    requires Subseq(Names(queue[|queue0[1..]|..]), adj[queue0[0].packageName][..|adj[queue0[0].packageName]|])
    ensures DrainFifo(nodes, preds, sorted0 + [queue0[0]], queue)
  {
    var d, q1 := queue0[0].packageName, queue0[1..];
    var added := queue[|q1|..];
    var s0, e0 := Names(sorted0), Names(sorted0 + queue0);
    assert queue == q1 + added;
    assert queue0 == [queue0[0]] + q1;
    assert (sorted0 + [queue0[0]]) + queue == (sorted0 + queue0) + added;
    NamesConcat(sorted0 + queue0, added);
    NamesConcat(sorted0, [queue0[0]]);
    assert Names(sorted0 + [queue0[0]]) == s0 + [d];
    FifoOldKeys(preds, sorted0, queue0, d);
    FifoAddedKeys(nodes, preds, adj, d, s0, Names(added));
    FifoExtend(preds, Names(nodes), s0, s0 + [d], e0, Names(added));
  }

  /** The names queued before the turn keep their last-built position. */
  lemma FifoOldKeys(preds: Preds, sorted0: seq<NodePackage>, queue0: seq<NodePackage>, d: string)
    requires DrainOrder(preds, sorted0, queue0) && d !in NameSet(sorted0)
    ensures forall k :: 0 <= k < |Names(sorted0 + queue0)| ==>
      && Names(sorted0 + queue0)[k] in preds
      && LastBuilt(preds[Names(sorted0 + queue0)[k]], Names(sorted0) + [d]) == LastBuilt(preds[Names(sorted0 + queue0)[k]], Names(sorted0))
      && LastBuilt(preds[Names(sorted0 + queue0)[k]], Names(sorted0)) < |sorted0|
  {
    NameSetNames(sorted0);
    forall k | 0 <= k < |sorted0 + queue0|
      ensures (sorted0 + queue0)[k].packageName in preds && d !in preds[(sorted0 + queue0)[k].packageName]
    {
      if k < |sorted0| {
        assert Names(sorted0)[k] == (sorted0 + queue0)[k].packageName;
      } else {
        assert queue0[k - |sorted0|] in queue0;
      }
    }
    forall k | 0 <= k < |sorted0 + queue0| {
      LastBuiltSnoc(preds[(sorted0 + queue0)[k].packageName], Names(sorted0), d);
    }
  }

  /** The names queued during the turn are dependents of `d`, in list
      order, and `d` is their last-built dependency. */
  lemma FifoAddedKeys(nodes: seq<NodePackage>, preds: Preds, adj: Adjacency, d: string, s0: seq<string>, a: seq<string>)
    requires Distinct(Names(nodes)) && AdjExact(adj, Names(nodes), preds) && d in adj
    requires Subseq(a, adj[d][..|adj[d]|])
    ensures forall k :: 0 <= k < |a| ==> a[k] in preds && LastBuilt(preds[a[k]], s0 + [d]) == |s0|
    ensures forall i, j :: 0 <= i < j < |a| ==> Rank(Names(nodes), a[i]) < Rank(Names(nodes), a[j])
  {
    assert adj[d][..|adj[d]|] == adj[d];
    FilterIsSubseq(Names(nodes), DependsOn(preds, d));
    SubseqTransitive(a, adj[d], Names(nodes));
    RanksIncrease(a, Names(nodes));
    SubseqElems(a, adj[d]);
    forall k | 0 <= k < |a| ensures a[k] in preds && LastBuilt(preds[a[k]], s0 + [d]) == |s0| {
      assert a[k] in a;
      LastBuiltSnoc(preds[a[k]], s0, d);
    }
  }

  /** Appending names whose last-built dependency is the newest, in list
      order, to a sequence in FIFO order keeps it in FIFO order. */
  lemma FifoExtend(preds: Preds, names: seq<string>, s0: seq<string>, s: seq<string>, e0: seq<string>, a: seq<string>)
    requires FifoAfter(preds, names, s0, e0)
    requires forall k :: 0 <= k < |e0| ==>
      e0[k] in preds && LastBuilt(preds[e0[k]], s) == LastBuilt(preds[e0[k]], s0) && LastBuilt(preds[e0[k]], s0) < |s0|
    requires forall k :: 0 <= k < |a| ==> a[k] in preds && LastBuilt(preds[a[k]], s) == |s0|
    requires forall i, j :: 0 <= i < j < |a| ==> Rank(names, a[i]) < Rank(names, a[j])
    ensures FifoAfter(preds, names, s, e0 + a)
  {
    var e := e0 + a;
    forall i, j | 0 <= i < j < |e| ensures Earlier(preds, names, s, e[i], e[j]) {
      if j < |e0| {
        assert e[i] == e0[i] && e[j] == e0[j];
        assert Earlier(preds, names, s0, e0[i], e0[j]);
      } else if i < |e0| {
        assert e[i] == e0[i] && e[j] == a[j - |e0|];
      } else {
        assert e[i] == a[i - |e0|] && e[j] == a[j - |e0|];
      }
    }
  }

  /** One turn of the draining loop keeps its invariant. */
  lemma DrainStep(nodes: seq<NodePackage>, preds: Preds, packageMap: map<string, NodePackage>, adj: Adjacency,
                  inDegree0: map<string, int>, sorted0: seq<NodePackage>, queue0: seq<NodePackage>,
                  inDegree: map<string, int>, queue: seq<NodePackage>)
    requires Graph(nodes, preds, packageMap)
    requires adj.Keys == preds.Keys && AdjSound(adj, preds) && AdjComplete(adj, preds)
    requires Draining(nodes, preds, packageMap, inDegree0, sorted0, queue0) && queue0 != []
    requires queue0[0].packageName in preds && queue0[0].packageName in adj
    requires queue0[0].packageName !in NameSet(sorted0)
    requires Released(queue0[0].packageName, adj[queue0[0].packageName], packageMap, inDegree0, queue0[1..], preds,
                      NameSet(sorted0), inDegree, queue, |adj[queue0[0].packageName]|)
    ensures Draining(nodes, preds, packageMap, inDegree, sorted0 + [queue0[0]], queue)
  {
    StepDegrees(preds, adj, inDegree0, sorted0, queue0[0], inDegree);
    PushedEntries(queue0[0].packageName, adj[queue0[0].packageName], packageMap, queue0[1..], preds,
                  NameSet(sorted0), queue);
    StepPushed(nodes, preds, packageMap, adj, sorted0, queue0, queue);
    PushedShape(queue0[0].packageName, adj[queue0[0].packageName], packageMap, queue0, preds, NameSet(sorted0), queue);
    StepPackages(nodes, preds, sorted0, queue0, queue);
    StepOrder(nodes, preds, sorted0, queue0, queue);
    StepMapped(preds, packageMap, sorted0, queue0, queue);
    StepComplete(preds, packageMap, adj, inDegree0, sorted0, queue0, inDegree, queue);
  }

  lemma StepDegrees(preds: Preds, adj: Adjacency, inDegree0: map<string, int>, sorted0: seq<NodePackage>,
                    pkg: NodePackage, inDegree: map<string, int>)
    requires AdjComplete(adj, preds) && pkg.packageName in adj && pkg.packageName !in NameSet(sorted0)
    requires DrainDegrees(preds, inDegree0, sorted0)
    requires ReleasedDegrees(pkg.packageName, adj[pkg.packageName], inDegree0, preds, NameSet(sorted0), inDegree,
                             |adj[pkg.packageName]|)
    ensures DrainDegrees(preds, inDegree, sorted0 + [pkg])
  {
    var d := pkg.packageName;
    var deps := adj[d];
    assert deps[..|deps|] == deps;
    NameSetSnoc(sorted0, pkg);
    forall n | n in preds ensures inDegree[n] == Pending(preds[n], NameSet(sorted0 + [pkg])) {
      PendingStep(preds[n], NameSet(sorted0), d);
    }
  }

  /** The packages queued in a turn: looked-up dependents of the dequeued
      package, neither built nor queued before, with all predecessors built. */
  ghost predicate PushedReady(nodes: seq<NodePackage>, preds: Preds, sorted0: seq<NodePackage>, queue0: seq<NodePackage>,
                              pushed: seq<NodePackage>) {
    queue0 != [] &&
    forall k :: 0 <= k < |pushed| ==>
      && pushed[k] in nodes && pushed[k].packageName in preds
      && queue0[0].packageName in preds[pushed[k].packageName]
      && pushed[k].packageName !in Names(sorted0 + queue0)
      && preds[pushed[k].packageName] <= NameSet(sorted0 + [queue0[0]])
  }

  lemma StepPushed(nodes: seq<NodePackage>, preds: Preds, packageMap: map<string, NodePackage>, adj: Adjacency,
                   sorted0: seq<NodePackage>, queue0: seq<NodePackage>, queue: seq<NodePackage>)
    requires Graph(nodes, preds, packageMap) && AdjSound(adj, preds)
    requires queue0 != [] && queue0[0].packageName in adj && queue0[0].packageName !in NameSet(sorted0)
    requires DrainOrder(preds, sorted0, queue0)
    requires |queue0| - 1 <= |queue|
    requires forall k :: |queue0| - 1 <= k < |queue| ==>
      && queue[k].packageName in adj[queue0[0].packageName]
      && queue[k].packageName in packageMap && queue[k] == packageMap[queue[k].packageName]
      && queue[k].packageName in preds
      && Pending(preds[queue[k].packageName], NameSet(sorted0) + {queue0[0].packageName}) == 0
    ensures PushedReady(nodes, preds, sorted0, queue0, queue[|queue0| - 1..])
  {
    var d := queue0[0].packageName;
    var pushed := queue[|queue0| - 1..];
    forall k | 0 <= k < |pushed|
      ensures && pushed[k] in nodes && pushed[k].packageName in preds
              && d in preds[pushed[k].packageName]
              && pushed[k].packageName !in Names(sorted0 + queue0)
              && preds[pushed[k].packageName] <= NameSet(sorted0 + [queue0[0]])
    {
      assert queue[|queue0| - 1 + k] == pushed[k];
      PushedOne(nodes, preds, packageMap, adj, sorted0, queue0, pushed[k]);
    }
  }

  /** One package queued by the release of the dequeued package `d`: a
      package of the graph that depends on `d`, neither built nor queued
      before, with every dependency built once `d` is. */
  lemma PushedOne(nodes: seq<NodePackage>, preds: Preds, packageMap: map<string, NodePackage>, adj: Adjacency,
                  sorted0: seq<NodePackage>, queue0: seq<NodePackage>, p: NodePackage)
    requires Graph(nodes, preds, packageMap) && AdjSound(adj, preds)
    requires queue0 != [] && queue0[0].packageName in adj && queue0[0].packageName !in NameSet(sorted0)
    requires DrainOrder(preds, sorted0, queue0)
    requires p.packageName in adj[queue0[0].packageName]
    requires p.packageName in packageMap && p == packageMap[p.packageName] && p.packageName in preds
    requires Pending(preds[p.packageName], NameSet(sorted0) + {queue0[0].packageName}) == 0
    ensures p in nodes && p.packageName in preds && queue0[0].packageName in preds[p.packageName]
    ensures p.packageName !in Names(sorted0 + queue0)
    ensures preds[p.packageName] <= NameSet(sorted0 + [queue0[0]])
  {
    NameSetSnoc(sorted0, queue0[0]);
    NameSetNames(sorted0);
    PendingZero(preds[p.packageName], NameSet(sorted0 + [queue0[0]]));
    NotBuiltNorQueued(preds, queue0[0].packageName, p.packageName, sorted0, queue0);
  }

  /** Each package queued by the release of `d` is a looked-up dependent of
      `d` with no dependency left to build. */
  lemma PushedEntries(d: string, dependents: seq<string>, packageMap: map<string, NodePackage>,
                      rest: seq<NodePackage>, preds: Preds, done0: set<string>, queue: seq<NodePackage>)
    requires ReleasedQueue(d, dependents, packageMap, rest, preds, done0, queue, |dependents|)
    ensures |rest| <= |queue|
    ensures forall k :: |rest| <= k < |queue| ==>
      && queue[k].packageName in dependents
      && queue[k].packageName in packageMap && queue[k] == packageMap[queue[k].packageName]
      && queue[k].packageName in preds && Pending(preds[queue[k].packageName], done0 + {d}) == 0
  {
    assert dependents[..|dependents|] == dependents;
  }

  lemma PushedShape(d: string, dependents: seq<string>, packageMap: map<string, NodePackage>,
                    queue0: seq<NodePackage>, preds: Preds, done0: set<string>, queue: seq<NodePackage>)
    requires queue0 != []
    requires ReleasedQueue(d, dependents, packageMap, queue0[1..], preds, done0, queue, |dependents|)
    ensures |queue0| - 1 <= |queue| && queue[..|queue0| - 1] == queue0[1..]
    ensures Distinct(Names(queue[|queue0| - 1..]))
    ensures forall k :: |queue0| - 1 <= k < |queue| ==> queue[k].packageName in packageMap
  {
  }

  /** A package that depends on an unbuilt package is neither built nor
      queued. */
  lemma NotBuiltNorQueued(preds: Preds, d: string, x: string, sorted0: seq<NodePackage>, queue0: seq<NodePackage>)
    requires x in preds && d in preds[x] && d !in Names(sorted0) && d !in NameSet(sorted0)
    requires DepsFirst(preds, Names(sorted0))
    requires forall q :: q in queue0 ==> q.packageName in preds && preds[q.packageName] <= NameSet(sorted0)
    ensures x !in Names(sorted0 + queue0)
  {
    NamesConcat(sorted0, queue0);
    forall i | 0 <= i < |sorted0| ensures Names(sorted0)[i] != x {
      assert d !in Names(sorted0)[..i];
    }
    forall i | 0 <= i < |queue0| ensures Names(queue0)[i] != x {
      assert queue0[i] in queue0;
    }
  }

  lemma StepPackages(nodes: seq<NodePackage>, preds: Preds, sorted0: seq<NodePackage>, queue0: seq<NodePackage>,
                     queue: seq<NodePackage>)
    requires DrainPackages(nodes, sorted0, queue0) && queue0 != []
    requires Distinct(Names(nodes))
    requires |queue0| - 1 <= |queue| && queue[..|queue0| - 1] == queue0[1..]
    requires Distinct(Names(queue[|queue0| - 1..]))
    requires PushedReady(nodes, preds, sorted0, queue0, queue[|queue0| - 1..])
    ensures DrainPackages(nodes, sorted0 + [queue0[0]], queue)
  {
    var pushed := queue[|queue0| - 1..];
    forall n | n in Names(pushed) ensures n !in Names(sorted0 + queue0) {
      var k :| 0 <= k < |pushed| && Names(pushed)[k] == n;
    }
    StepNamesDistinct(sorted0, queue0, queue);
    StepInNodes(nodes, preds, sorted0, queue0, queue);
    DistinctNamesBound((sorted0 + [queue0[0]]) + queue, nodes);
  }

  lemma StepNamesDistinct(sorted0: seq<NodePackage>, queue0: seq<NodePackage>, queue: seq<NodePackage>)
    requires Distinct(Names(sorted0 + queue0)) && queue0 != []
    requires |queue0| - 1 <= |queue| && queue[..|queue0| - 1] == queue0[1..]
    requires Distinct(Names(queue[|queue0| - 1..]))
    requires forall n :: n in Names(queue[|queue0| - 1..]) ==> n !in Names(sorted0 + queue0)
    ensures Distinct(Names((sorted0 + [queue0[0]]) + queue))
  {
    var pushed := queue[|queue0| - 1..];
    assert queue == queue0[1..] + pushed;
    assert (sorted0 + [queue0[0]]) + queue == (sorted0 + queue0) + pushed;
    NamesConcat(sorted0 + queue0, pushed);
    DistinctConcat(Names(sorted0 + queue0), Names(pushed));
  }

  lemma StepInNodes(nodes: seq<NodePackage>, preds: Preds, sorted0: seq<NodePackage>, queue0: seq<NodePackage>,
                    queue: seq<NodePackage>)
    requires (forall p :: p in sorted0 ==> p in nodes) && (forall q :: q in queue0 ==> q in nodes) && queue0 != []
    requires |queue0| - 1 <= |queue| && queue[..|queue0| - 1] == queue0[1..]
    requires PushedReady(nodes, preds, sorted0, queue0, queue[|queue0| - 1..])
    ensures forall p :: p in sorted0 + [queue0[0]] ==> p in nodes
    ensures forall q :: q in queue ==> q in nodes
  {
    var rest := queue0[1..];
    var pushed := queue[|rest|..];
    assert queue == rest + pushed;
    forall q | q in queue ensures q in nodes {
      if q in rest {
        assert q in queue0;
      } else {
        var k :| 0 <= k < |pushed| && pushed[k] == q;
      }
    }
    assert queue0[0] in queue0;
  }

  lemma StepOrder(nodes: seq<NodePackage>, preds: Preds, sorted0: seq<NodePackage>, queue0: seq<NodePackage>,
                  queue: seq<NodePackage>)
    requires DrainOrder(preds, sorted0, queue0) && queue0 != []
    requires |queue0| - 1 <= |queue| && queue[..|queue0| - 1] == queue0[1..]
    requires PushedReady(nodes, preds, sorted0, queue0, queue[|queue0| - 1..])
    ensures DrainOrder(preds, sorted0 + [queue0[0]], queue)
  {
    var pkg := queue0[0];
    var sorted := sorted0 + [pkg];
    var rest := queue0[1..];
    var pushed := queue[|rest|..];
    assert pkg in queue0;
    NameSetSnoc(sorted0, pkg);
    NameSetNames(sorted0);
    NamesConcat(sorted0, [pkg]);
    forall i | 0 <= i < |Names(sorted)|
      ensures Names(sorted)[i] in preds && forall e :: e in preds[Names(sorted)[i]] ==> e in Names(sorted)[..i]
    {
      if i < |sorted0| {
        assert Names(sorted)[..i] == Names(sorted0)[..i];
      } else {
        assert Names(sorted)[..i] == Names(sorted0);
      }
    }
    forall q | q in queue ensures q.packageName in preds && preds[q.packageName] <= NameSet(sorted) {
      if q in rest {
        assert q in queue0;
      } else {
        assert queue == rest + pushed;
        var k :| 0 <= k < |pushed| && pushed[k] == q;
      }
    }
  }

  lemma StepMapped(preds: Preds, packageMap: map<string, NodePackage>, sorted0: seq<NodePackage>, queue0: seq<NodePackage>,
                   queue: seq<NodePackage>)
    requires DrainMapped(preds, packageMap, sorted0, queue0) && queue0 != []
    requires |queue0| - 1 <= |queue| && queue[..|queue0| - 1] == queue0[1..]
    requires forall k :: |queue0| - 1 <= k < |queue| ==> queue[k].packageName in packageMap
    ensures DrainMapped(preds, packageMap, sorted0 + [queue0[0]], queue)
  {
    assert queue0[0] in queue0;
    forall q | q in queue
      ensures q.packageName in packageMap || (q.packageName in preds && preds[q.packageName] == {})
    {
      var k :| 0 <= k < |queue| && queue[k] == q;
      if k < |queue0| - 1 {
        assert queue0[k + 1] in queue0;
      }
    }
  }

  lemma StepComplete(preds: Preds, packageMap: map<string, NodePackage>, adj: Adjacency, inDegree0: map<string, int>,
                     sorted0: seq<NodePackage>, queue0: seq<NodePackage>, inDegree: map<string, int>, queue: seq<NodePackage>)
    requires AdjSound(adj, preds) && queue0 != [] && queue0[0].packageName in adj
    requires DrainDegrees(preds, inDegree0, sorted0)
    requires DrainComplete(preds, packageMap, inDegree0, sorted0, queue0)
    requires ReleasedDegrees(queue0[0].packageName, adj[queue0[0].packageName], inDegree0, preds, NameSet(sorted0),
                             inDegree, |adj[queue0[0].packageName]|)
    requires ReleasedQueue(queue0[0].packageName, adj[queue0[0].packageName], packageMap, queue0[1..], preds,
                           NameSet(sorted0), queue, |adj[queue0[0].packageName]|)
    ensures DrainComplete(preds, packageMap, inDegree, sorted0 + [queue0[0]], queue)
  {
    var pkg := queue0[0];
    var d := pkg.packageName;
    var deps := adj[d];
    var rest := queue0[1..];
    var pushed := queue[|rest|..];
    assert deps[..|deps|] == deps;
    assert queue == rest + pushed;
    assert queue0 == [pkg] + rest;
    NamesConcat(rest, pushed);
    NamesConcat([pkg], rest);
    NameSetSnoc(sorted0, pkg);
    forall n | n in preds && n in inDegree && n !in NameSet(sorted0 + [pkg]) && inDegree[n] == 0 &&
               (n in packageMap || preds[n] == {})
      ensures n in Names(queue)
    {
      if n in deps {
        assert d in preds[n];
        assert n in Names(pushed);
      } else {
        assert n in Names(queue0);
        assert n in Names(rest);
      }
    }
  }

  /** With the queue empty the invariant gives the outcome. */
  lemma DrainDone(nodes: seq<NodePackage>, preds: Preds, packageMap: map<string, NodePackage>,
                  inDegree: map<string, int>, sorted: seq<NodePackage>)
    requires Graph(nodes, preds, packageMap)
    requires Draining(nodes, preds, packageMap, inDegree, sorted, [])
    ensures Outcome(nodes, preds, packageMap, sorted)
  {
    assert sorted + [] == sorted;
    forall n | n in preds && n !in NameSet(sorted)
      ensures !(preds[n] <= NameSet(sorted)) || (n !in packageMap && preds[n] != {})
    {
      PendingZero(preds[n], NameSet(sorted));
      assert Names([]) == [];
    }
  }
}
