/** The build-order function of `src/graph.ts`: the same Kahn's algorithm as
    `src/lib/graph/index.ts`, over only the packages whose name starts with
    the workspace prefix, and with an edge only for a dependency that has
    the prefix and names one of those packages. Packages without the
    prefix are left out of the result without an error. */
module PrefixGraph {
  import opened Wrappers
  import opened Seqs
  import opened NodePackages
  import opened Kahn
  import opened KahnProperties
  import opened LibGraph

  const WorkspacePrefix: string := "@perseverancia/"

  /** `name.startsWith(WorkspacePrefix)`. */
  predicate HasPrefix(name: string) {
    |WorkspacePrefix| <= |name| && name[..|WorkspacePrefix|] == WorkspacePrefix
  }

  function HasPrefixFn(): string -> bool {
    n => HasPrefix(n)
  }

  function IsWorkspacePackage(): NodePackage -> bool {
    (p: NodePackage) => HasPrefix(p.packageName)
  }

  /** The packages that take part, in list order. */
  function Workspace(nodePackages: seq<NodePackage>): (w: seq<NodePackage>)
    ensures forall p :: p in w <==> p in nodePackages && HasPrefix(p.packageName)
    ensures Subseq(w, nodePackages)
  {
    FilterIsSubseq(nodePackages, IsWorkspacePackage());
    Filter(nodePackages, IsWorkspacePackage())
  }

  /** The known dependencies of each workspace package. */
  function WorkspacePreds(nodePackages: seq<NodePackage>): Preds {
    GraphPreds(Workspace(nodePackages), HasPrefixFn())
  }

  /** `dependencyBuildOrder`: the workspace packages are sorted, the rest
      ignored. The order is complete exactly when the workspace graph has no
      cycle; it is then a rearrangement of the workspace packages with no
      package before one of its dependencies, in the order of Kahn's FIFO
      queue. Otherwise the manifest names
      of exactly the workspace packages that cannot be built are logged and
      the fixed message thrown. */
  method DependencyBuildOrder(nodePackages: seq<NodePackage>) returns (r: Result<seq<NodePackage>, CycleError>)
    requires Distinct(Names(Workspace(nodePackages)))
    ensures r.Success? <==> Acyclic(WorkspacePreds(nodePackages))
    ensures r.Success? ==> multiset(r.value) == multiset(Workspace(nodePackages))
    ensures r.Success? ==> NoLaterDependency(WorkspacePreds(nodePackages), Names(r.value))
    ensures r.Success? ==> FifoOrder(WorkspacePreds(nodePackages), Names(Workspace(nodePackages)), Names(r.value))
    ensures r.Failure? ==> r.error == CycleError(CircularMessage, ManifestNames(Unsorted(Workspace(nodePackages), HasPrefixFn())))
  {
    var workspacePackages := Filter(nodePackages, IsWorkspacePackage());
    NoEmptyName(nodePackages);
    r := SortPackages(workspacePackages, HasPrefixFn());
  }

  /** No workspace package has the empty name, so each is looked up. */
  lemma NoEmptyName(nodePackages: seq<NodePackage>)
    ensures "" !in WorkspacePreds(nodePackages)
  {
  }

  /** Every package of a successful order has the prefix; packages without
      it never appear. */
  lemma OnlyWorkspace(nodePackages: seq<NodePackage>, order: seq<NodePackage>)
    requires multiset(order) == multiset(Workspace(nodePackages))
    ensures forall p :: p in order <==> p in nodePackages && HasPrefix(p.packageName)
  {
    forall p ensures p in order <==> p in Workspace(nodePackages) {
      assert p in order <==> p in multiset(order);
      assert p in Workspace(nodePackages) <==> p in multiset(Workspace(nodePackages));
    }
  }

  /** An edge needs a dependency that has the prefix and names a workspace
      package. */
  lemma WorkspaceEdges(nodePackages: seq<NodePackage>)
    ensures forall n, d :: n in WorkspacePreds(nodePackages) && d in WorkspacePreds(nodePackages)[n] ==>
      HasPrefix(d) && d in NameSet(Workspace(nodePackages))
  {
    KnownEdges(Workspace(nodePackages), HasPrefixFn());
  }
}
