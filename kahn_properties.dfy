/** What the outcome of Kahn's loop means for the dependency graph: the build
    order is complete exactly when the graph has no cycle and every package
    with known dependencies can be looked up; a complete order is a
    permutation of the packages; and no package ever comes before one of its
    dependencies. */
module KahnProperties {
  import opened Seqs
  import opened NodePackages
  import opened Kahn

  /** `c` walks from each package to one of its known dependencies and ends
      where it started. */
  ghost predicate IsCycle(preds: Preds, c: seq<string>) {
    && |c| >= 2
    && c[0] == c[|c| - 1]
    && forall k :: 0 <= k < |c| - 1 ==> c[k] in preds && c[k + 1] in preds[c[k]]
  }

  ghost predicate Acyclic(preds: Preds) {
    forall c :: !IsCycle(preds, c)
  }

  /** Every package with known dependencies has an entry in the lookup map,
      so it can be queued once its in-degree reaches 0. */
  ghost predicate AllLookedUp(preds: Preds, packageMap: map<string, NodePackage>) {
    forall n :: n in preds && preds[n] != {} ==> n in packageMap
  }

  /** No package of the order comes before one of its dependencies. */
  ghost predicate NoLaterDependency(preds: Preds, s: seq<string>) {
    forall i, j :: 0 <= i < j < |s| && s[i] in preds ==> s[j] !in preds[s[i]]
  }

  /** Dependencies first, with no name twice, means no dependency later. */
  lemma DepsFirstNoLater(preds: Preds, s: seq<string>)
    requires DepsFirst(preds, s) && Distinct(s)
    ensures NoLaterDependency(preds, s)
  {
    forall i, j | 0 <= i < j < |s| && s[i] in preds ensures s[j] !in preds[s[i]] {
      forall k | 0 <= k < i ensures s[k] != s[j] { }
      assert s[j] !in s[..i];
    }
  }

  /** Following a cycle forward from a built package reaches packages built
      strictly earlier at every step. */
  lemma {:induction false} Descent(preds: Preds, s: seq<string>, c: seq<string>, k0: int, p: int, m: int)
    returns (q: int)
    requires DepsFirst(preds, s) && IsCycle(preds, c)
    requires 0 <= k0 <= m < |c| && 0 <= p < |s| && s[p] == c[k0]
    ensures 0 <= q <= p - (m - k0) && s[q] == c[m]
    decreases m - k0
  {
    if m == k0 {
      q := p;
    } else {
      var q' := Descent(preds, s, c, k0, p, m - 1);
      assert c[m] in preds[s[q']];
      assert c[m] in s[..q'];
      q :| 0 <= q < q' && s[q] == c[m];
    }
  }

  /** No package on a cycle is ever built. */
  lemma CycleNeverSorted(preds: Preds, s: seq<string>, c: seq<string>)
    requires DepsFirst(preds, s) && Distinct(s) && IsCycle(preds, c)
    ensures forall k :: 0 <= k < |c| ==> c[k] !in s
  {
    forall k | 0 <= k < |c| ensures c[k] !in s {
      if c[k] in s {
        var p :| 0 <= p < |s| && s[p] == c[k];
        var q1 := Descent(preds, s, c, k, p, |c| - 1);
        var q2 := Descent(preds, s, c, 0, q1, k);
      }
    }
  }

  /** Each package left out has a dependency left out. */
  ghost predicate Stuck(preds: Preds, done: set<string>) {
    forall n :: n in preds && n !in done ==> !(preds[n] <= done)
  }

  /** Every known dependency is itself a package of the graph. */
  ghost predicate Closed(preds: Preds) {
    forall n :: n in preds ==> preds[n] <= preds.Keys
  }

  /** From a package left out, a walk of any length along known dependencies
      through packages left out. */
  lemma {:induction false} Walk(preds: Preds, done: set<string>, n: string, len: nat) returns (w: seq<string>)
    requires Closed(preds) && Stuck(preds, done) && n in preds && n !in done
    ensures |w| == len + 1 && w[0] == n
    ensures forall k :: 0 <= k < |w| ==> w[k] in preds && w[k] !in done
    ensures forall k :: 0 <= k < |w| - 1 ==> w[k + 1] in preds[w[k]]
    decreases len
  {
    if len == 0 {
      w := [n];
    } else {
      var d :| d in preds[n] && d !in done;
      var rest := Walk(preds, done, d, len - 1);
      w := [n] + rest;
      forall k | 0 <= k < |w| ensures w[k] in preds && w[k] !in done {
        if k > 0 {
          assert w[k] == rest[k - 1];
        }
      }
      forall k | 0 <= k < |w| - 1 ensures w[k + 1] in preds[w[k]] {
        if k > 0 {
          assert w[k] == rest[k - 1] && w[k + 1] == rest[k];
        }
      }
    }
  }

  /** A walk that visits a package twice contains a cycle. */
  lemma CycleInWalk(preds: Preds, w: seq<string>, i: int, j: int)
    requires 0 <= i < j < |w| && w[i] == w[j]
    requires forall k :: 0 <= k < |w| ==> w[k] in preds
    requires forall k :: 0 <= k < |w| - 1 ==> w[k + 1] in preds[w[k]]
    ensures IsCycle(preds, w[i..j + 1])
  {
    var c := w[i..j + 1];
    forall k | 0 <= k < |c| - 1 ensures c[k] in preds && c[k + 1] in preds[c[k]] {
      assert c[k] == w[i + k] && c[k + 1] == w[i + k + 1];
    }
  }

  /** A graph where every package left out waits for another one left out
      has a cycle through the packages left out. */
  lemma StuckCycle(preds: Preds, done: set<string>, n: string) returns (c: seq<string>)
    requires Closed(preds) && Stuck(preds, done) && n in preds && n !in done
    ensures IsCycle(preds, c)
  {
    var w := Walk(preds, done, n, |preds.Keys|);
    Pigeonhole(w, preds.Keys);
    var i, j :| 0 <= i < j < |w| && w[i] == w[j];
    CycleInWalk(preds, w, i, j);
    c := w[i..j + 1];
  }

  /** The names of a list with distinct names are as many as its packages. */
  lemma NameSetSize(s: seq<NodePackage>)
    requires Distinct(Names(s))
    ensures |NameSet(s)| == |s|
  {
    NameSetNames(s);
    assert NameSet(s) == Elems(Names(s));
    DistinctCard(Names(s));
  }

  /** The build order holds every package exactly when it holds every name. */
  lemma CompleteIffAllNames(nodes: seq<NodePackage>, preds: Preds, packageMap: map<string, NodePackage>,
                            sorted: seq<NodePackage>)
    requires Graph(nodes, preds, packageMap) && Outcome(nodes, preds, packageMap, sorted)
    ensures |sorted| == |nodes| <==> NameSet(sorted) == preds.Keys
  {
    NameSetSize(sorted);
    NameSetSize(nodes);
    assert NameSet(sorted) <= NameSet(nodes);
    if |sorted| == |nodes| {
      SameSizeSubset(NameSet(sorted), NameSet(nodes));
    }
  }

  /** Kahn's loop builds every package exactly when the graph has no cycle
      and every package with known dependencies can be looked up. */
  lemma CompleteIffAcyclic(nodes: seq<NodePackage>, preds: Preds, packageMap: map<string, NodePackage>,
                           sorted: seq<NodePackage>)
    requires Graph(nodes, preds, packageMap) && Outcome(nodes, preds, packageMap, sorted)
    ensures |sorted| == |nodes| <==> Acyclic(preds) && AllLookedUp(preds, packageMap)
  {
    CompleteIffAllNames(nodes, preds, packageMap, sorted);
    if NameSet(sorted) == preds.Keys {
      CompleteIsAcyclic(nodes, preds, packageMap, sorted);
    }
    if Acyclic(preds) && AllLookedUp(preds, packageMap) {
      AcyclicIsComplete(nodes, preds, packageMap, sorted);
    }
  }

  lemma CompleteIsAcyclic(nodes: seq<NodePackage>, preds: Preds, packageMap: map<string, NodePackage>,
                          sorted: seq<NodePackage>)
    requires Graph(nodes, preds, packageMap) && Outcome(nodes, preds, packageMap, sorted)
    requires NameSet(sorted) == preds.Keys
    ensures Acyclic(preds) && AllLookedUp(preds, packageMap)
  {
    NameSetNames(sorted);
    forall c ensures !IsCycle(preds, c) {
      if IsCycle(preds, c) {
        CycleNeverSorted(preds, Names(sorted), c);
      }
    }
    forall n | n in preds && preds[n] != {} ensures n in packageMap {
      var p :| p in sorted && p.packageName == n;
    }
  }

  lemma AcyclicIsComplete(nodes: seq<NodePackage>, preds: Preds, packageMap: map<string, NodePackage>,
                          sorted: seq<NodePackage>)
    requires Graph(nodes, preds, packageMap) && Outcome(nodes, preds, packageMap, sorted)
    requires Acyclic(preds) && AllLookedUp(preds, packageMap)
    ensures NameSet(sorted) == preds.Keys
  {
    var done := NameSet(sorted);
    assert Closed(preds);
    forall n | n in preds && n !in done ensures !(preds[n] <= done) { }
    forall n | n in preds ensures n in done {
      if n !in done {
        var c := StuckCycle(preds, done, n);
      }
    }
    forall n | n in done ensures n in preds {
      var p :| p in sorted && p.packageName == n;
      assert p in nodes;
    }
  }

  /** A complete build order is a permutation of the packages. */
  lemma CompleteIsPermutation(nodes: seq<NodePackage>, preds: Preds, packageMap: map<string, NodePackage>,
                              sorted: seq<NodePackage>)
    requires Graph(nodes, preds, packageMap) && Outcome(nodes, preds, packageMap, sorted)
    requires |sorted| == |nodes|
    ensures multiset(sorted) == multiset(nodes)
  {
    CompleteIffAllNames(nodes, preds, packageMap, sorted);
    NameSetNames(sorted);
    forall p | p in nodes ensures p in sorted {
      assert p.packageName in NameSet(nodes);
      assert p.packageName in NameSet(sorted);
      var q :| q in sorted && q.packageName == p.packageName;
      SameNameSamePackage(nodes, p, q);
    }
    DistinctNamesDistinct(sorted);
    DistinctNamesDistinct(nodes);
    DistinctSameElems(sorted, nodes);
  }

  /** `built` is closed under the step of Kahn's loop: a package whose known
      dependencies are all in `built`, and that is looked up or has no known
      dependencies, is in `built`. */
  ghost predicate BuildClosed(preds: Preds, looked: set<string>, built: set<string>) {
    forall n :: n in preds && preds[n] <= built && (n in looked || preds[n] == {}) ==> n in built
  }

  /** The packages Kahn's loop can build: the least set closed under its
      step. `looked` is the set of names the lookup map holds. */
  ghost function Buildable(preds: Preds, looked: set<string>): set<string> {
    set n | n in preds && forall built :: BuildClosed(preds, looked, built) ==> n in built
  }

  /** The names of the order are names of the graph. */
  lemma OutcomeNames(nodes: seq<NodePackage>, preds: Preds, packageMap: map<string, NodePackage>,
                     sorted: seq<NodePackage>)
    requires Graph(nodes, preds, packageMap) && Outcome(nodes, preds, packageMap, sorted)
    ensures NameSet(sorted) <= preds.Keys
  {
    forall n | n in NameSet(sorted) ensures n in preds.Keys {
      var p :| p in sorted && p.packageName == n;
      assert p in nodes;
    }
  }

  /** Every package of an order that puts dependencies first, each looked up
      or without dependencies, lies in every set closed under the step. */
  lemma {:induction false} OrderedInClosed(preds: Preds, looked: set<string>, s: seq<string>, built: set<string>, i: int)
    requires DepsFirst(preds, s)
    requires forall k :: 0 <= k < |s| ==> s[k] in looked || preds[s[k]] == {}
    requires BuildClosed(preds, looked, built)
    requires 0 <= i < |s|
    ensures s[i] in built
    decreases i
  {
    forall d | d in preds[s[i]] ensures d in built {
      assert d in s[..i];
      var k :| 0 <= k < i && s[k] == d;
      OrderedInClosed(preds, looked, s, built, k);
    }
  }

  /** Kahn's loop builds exactly the buildable packages. */
  lemma OutcomeBuildable(nodes: seq<NodePackage>, preds: Preds, packageMap: map<string, NodePackage>,
                         sorted: seq<NodePackage>)
    requires Graph(nodes, preds, packageMap) && Outcome(nodes, preds, packageMap, sorted)
    ensures NameSet(sorted) == Buildable(preds, packageMap.Keys)
  {
    var done := NameSet(sorted);
    var s := Names(sorted);
    OutcomeNames(nodes, preds, packageMap, sorted);
    NameSetNames(sorted);
    forall n | n in preds && preds[n] <= done && (n in packageMap.Keys || preds[n] == {}) ensures n in done {
    }
    assert BuildClosed(preds, packageMap.Keys, done);
    forall k | 0 <= k < |s| ensures s[k] in packageMap.Keys || preds[s[k]] == {} {
      assert sorted[k] in sorted;
    }
    forall n | n in done ensures n in Buildable(preds, packageMap.Keys) {
      var i :| 0 <= i < |s| && s[i] == n;
      forall built | BuildClosed(preds, packageMap.Keys, built) ensures n in built {
        OrderedInClosed(preds, packageMap.Keys, s, built, i);
      }
    }
  }

  /** Names past position `k` that are none of `ps` leave the last built of
      `ps` where the first `k` names put it. */
  lemma {:induction false} LastBuiltPrefix(ps: set<string>, s: seq<string>, k: int)
    requires 0 <= k <= |s|
    requires forall i :: k <= i < |s| ==> s[i] !in ps
    ensures LastBuilt(ps, s) == LastBuilt(ps, s[..k])
    decreases |s| - k
  {
    if k < |s| {
      var init := s[..|s| - 1];
      assert s == init + [s[|s| - 1]];
      LastBuiltSnoc(ps, init, s[|s| - 1]);
      LastBuiltPrefix(ps, init, k);
      assert init[..k] == s[..k];
    }
  }

  /** In two dependency-first orders of a closed, acyclic graph that agree
      on their first `k` names, every dependency of the `k`-th name of `s`
      lies among those first `k` names in both orders. */
  lemma DepsBeforeInBoth(preds: Preds, s: seq<string>, t: seq<string>, k: int)
    requires Closed(preds) && Acyclic(preds)
    requires Distinct(s) && Distinct(t) && Elems(s) == preds.Keys
    requires NoLaterDependency(preds, s)
    requires 0 <= k < |s| && k <= |t| && s[..k] == t[..k]
    ensures forall i :: k <= i < |s| ==> s[i] !in preds[s[k]]
    ensures forall i :: k <= i < |t| ==> t[i] !in preds[s[k]]
  {
    var x := s[k];
    assert x in Elems(s);
    if x in preds[x] {
      assert IsCycle(preds, [x, x]);
    }
    forall d | d in preds[x] ensures d in s[..k] {
      assert d in Elems(s);
      var m :| 0 <= m < |s| && s[m] == d;
      assert m < k;
      assert s[..k][m] == d;
    }
    forall i | k <= i < |t| ensures t[i] !in t[..k] {
      forall m | 0 <= m < k ensures t[..k][m] != t[i] { }
    }
  }

  /** Where two orders of distinct names agree on their first `k` names,
      the `k`-th name of `t` sits at or after position `k` in `s`. */
  lemma LaterPosition(s: seq<string>, t: seq<string>, k: int) returns (i: int)
    requires Distinct(t) && Elems(t) <= Elems(s)
    requires 0 <= k < |t| && k <= |s| && s[..k] == t[..k]
    ensures k <= i < |s| && s[i] == t[k]
  {
    assert t[k] in Elems(s);
    forall m | 0 <= m < k ensures s[m] == t[m] {
      assert s[..k][m] == t[..k][m];
    }
    i :| 0 <= i < |s| && s[i] == t[k];
  }

  /** With the last-built positions the same in both orders, `x` cannot be
      `Earlier` than `y` in one order and `y` than `x` in the other. */
  lemma EarlierAsymmetric(preds: Preds, names: seq<string>, s: seq<string>, t: seq<string>, x: string, y: string)
    requires x in preds && y in preds
    requires LastBuilt(preds[x], s) == LastBuilt(preds[x], t)
    requires LastBuilt(preds[y], s) == LastBuilt(preds[y], t)
    ensures !(Earlier(preds, names, s, x, y) && Earlier(preds, names, t, y, x))
  {
  }

  /** Two FIFO build orders of the same closed, acyclic graph that agree on
      their first `k` names agree on the next one. */
  lemma FifoAgree(preds: Preds, names: seq<string>, s: seq<string>, t: seq<string>, k: int)
    requires Closed(preds) && Acyclic(preds)
    requires Distinct(s) && Distinct(t) && Elems(s) == preds.Keys && Elems(t) == preds.Keys
    requires NoLaterDependency(preds, s) && NoLaterDependency(preds, t)
    requires FifoOrder(preds, names, s) && FifoOrder(preds, names, t)
    requires 0 <= k < |s| && k < |t| && s[..k] == t[..k]
    ensures s[k] == t[k]
  {
    if s[k] != t[k] {
      var i := LaterPosition(s, t, k);
      var j := LaterPosition(t, s, k);
      assert Earlier(preds, names, s, s[k], s[i]);
      assert Earlier(preds, names, t, t[k], t[j]);
      SameLastBuilt(preds, s, t, k);
      EarlierAsymmetric(preds, names, s, t, s[k], t[k]);
    }
  }

  /** Two dependency-first orders of a closed, acyclic graph that agree on
      their first `k` names put the last-built dependency of their `k`-th
      names at the same position. */
  lemma SameLastBuilt(preds: Preds, s: seq<string>, t: seq<string>, k: int)
    requires Closed(preds) && Acyclic(preds)
    requires Distinct(s) && Distinct(t) && Elems(s) == preds.Keys && Elems(t) == preds.Keys
    requires NoLaterDependency(preds, s) && NoLaterDependency(preds, t)
    requires 0 <= k < |s| && k < |t| && s[..k] == t[..k]
    ensures LastBuilt(preds[s[k]], s) == LastBuilt(preds[s[k]], t)
    ensures LastBuilt(preds[t[k]], s) == LastBuilt(preds[t[k]], t)
  {
    assert s[k] in Elems(s) && t[k] in Elems(t);
    DepsBeforeInBoth(preds, s, t, k);
    DepsBeforeInBoth(preds, t, s, k);
    LastBuiltPrefix(preds[s[k]], s, k);
    LastBuiltPrefix(preds[s[k]], t, k);
    LastBuiltPrefix(preds[t[k]], s, k);
    LastBuiltPrefix(preds[t[k]], t, k);
  }

  /** Two FIFO build orders of the same closed, acyclic graph agree on
      their first `k` names. */
  lemma {:induction false} FifoAgreePrefix(preds: Preds, names: seq<string>, s: seq<string>, t: seq<string>, k: int)
    requires Closed(preds) && Acyclic(preds)
    requires Distinct(s) && Distinct(t) && Elems(s) == preds.Keys && Elems(t) == preds.Keys
    requires NoLaterDependency(preds, s) && NoLaterDependency(preds, t)
    requires FifoOrder(preds, names, s) && FifoOrder(preds, names, t)
    requires 0 <= k <= |s| && k <= |t|
    ensures s[..k] == t[..k]
  {
    if k > 0 {
      FifoAgreePrefix(preds, names, s, t, k - 1);
      FifoAgree(preds, names, s, t, k - 1);
      assert s[..k] == s[..k - 1] + [s[k - 1]];
      assert t[..k] == t[..k - 1] + [t[k - 1]];
    }
  }

  /** Kahn's FIFO order is determined by the graph and the package list:
      there is only one dependency-first order of the packages in which
      every package is `Earlier` than the ones after it. */
  lemma FifoUnique(preds: Preds, names: seq<string>, s: seq<string>, t: seq<string>)
    requires Closed(preds) && Acyclic(preds)
    requires Distinct(s) && Distinct(t) && Elems(s) == preds.Keys && Elems(t) == preds.Keys
    requires NoLaterDependency(preds, s) && NoLaterDependency(preds, t)
    requires FifoOrder(preds, names, s) && FifoOrder(preds, names, t)
    ensures s == t
  {
    DistinctCard(s);
    DistinctCard(t);
    FifoAgreePrefix(preds, names, s, t, |s|);
    assert s == s[..|s|] && t == t[..|t|];
  }
}
