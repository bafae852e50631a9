/** The deployment filter of `src/packageDeployer/PackagesFilter.ts`: the
    configured repository policy (whitelist or blacklist of folder names,
    optionally skipping private packages), the packages whose version is
    newer than the ledger's, and the incremental build order: every package
    affected by those, in build order, under the policy. The filter holds
    the configuration object by reference and reads it at each call. */
module PackagesFilters {
  import opened Wrappers
  import opened Seqs
  import opened SemVer
  import opened NodePackages
  import opened NodePackageLists
  import opened ConfigRecords
  import opened Kahn
  import opened KahnProperties
  import opened KhansGraph
  import Configuration

  /** The policy for one package: its folder name is whitelisted (whitelist
      mode) or not blacklisted (blacklist mode), and with `ignoreApps` it is
      not private. */
  predicate Passes(listing: RepositoriesListing, ignoreApps: bool, pkg: NodePackage) {
    && (if listing.use == UseWhitelist then pkg.name in listing.whitelist else pkg.name !in listing.blacklist)
    && (ignoreApps ==> !pkg.packageJson.isPrivate)
  }

  function PassesFn(listing: RepositoriesListing, ignoreApps: bool): NodePackage -> bool {
    (p: NodePackage) => Passes(listing, ignoreApps, p)
  }

  /** The packages that pass the policy, in the given order. */
  function PolicyFilter(nodePackages: seq<NodePackage>, listing: RepositoriesListing, ignoreApps: bool): (r: seq<NodePackage>)
    ensures forall p :: p in r <==> p in nodePackages && Passes(listing, ignoreApps, p)
    ensures Subseq(r, nodePackages)
  {
    FilterIsSubseq(nodePackages, PassesFn(listing, ignoreApps));
    Filter(nodePackages, PassesFn(listing, ignoreApps))
  }

  /** Filtering twice is filtering once. */
  lemma PolicyIdempotent(nodePackages: seq<NodePackage>, listing: RepositoriesListing, ignoreApps: bool)
    ensures PolicyFilter(PolicyFilter(nodePackages, listing, ignoreApps), listing, ignoreApps) ==
      PolicyFilter(nodePackages, listing, ignoreApps)
  {
    FilterAll(PolicyFilter(nodePackages, listing, ignoreApps), PassesFn(listing, ignoreApps));
  }

  /** In whitelist mode an empty whitelist lets nothing through, and in
      blacklist mode an empty blacklist lets everything through unless
      private packages are skipped. */
  lemma EmptyLists(nodePackages: seq<NodePackage>, listing: RepositoriesListing, ignoreApps: bool)
    ensures listing.use == UseWhitelist && listing.whitelist == [] ==> PolicyFilter(nodePackages, listing, ignoreApps) == []
    ensures listing.use == UseBlacklist && listing.blacklist == [] && !ignoreApps ==>
      PolicyFilter(nodePackages, listing, ignoreApps) == nodePackages
  {
    if listing.use == UseWhitelist && listing.whitelist == [] {
      FilterNone(nodePackages, PassesFn(listing, ignoreApps));
    }
    if listing.use == UseBlacklist && listing.blacklist == [] && !ignoreApps {
      FilterAll(nodePackages, PassesFn(listing, ignoreApps));
    }
  }

  /** A package with no ledger entry, or a version above the recorded one. */
  predicate NeedsDeployment(deployed: map<string, Version>, pkg: NodePackage) {
    pkg.packageName !in deployed || Gt(pkg.version, deployed[pkg.packageName])
  }

  function NeedsDeploymentFn(deployed: map<string, Version>): NodePackage -> bool {
    (p: NodePackage) => NeedsDeployment(deployed, p)
  }

  /** The packages that have a ledger entry, as a predicate value. */
  function Recorded(deployed: map<string, Version>): NodePackage -> bool {
    (p: NodePackage) => p.packageName in deployed
  }

  /** The error `semver.gt` throws when its second argument is undefined.
      Its text depends on the semver release, which the repository does not
      pin: older releases say `Invalid Version: undefined`, 7.x releases
      throw a `TypeError` that names the argument's type. The model uses the
      older text as one fixed representative; only the failure itself is
      what the source determines. */
  const InvalidVersion: string := "Invalid Version: undefined"

  /** A local package with a ledger entry and what `affectedPackages` makes
      of it as written: the ledger map holds version strings, and their
      `.version` is undefined, so `semver.gt` throws as soon as one local
      package has an entry. */
  function AffectedPackagesAsWritten(local: seq<NodePackage>, deployed: map<string, Version>): (r: Result<seq<NodePackage>, string>)
    ensures r.Failure? <==> exists p :: p in local && p.packageName in deployed
    ensures r.Failure? ==> r.error == InvalidVersion
    ensures r.Success? ==> r.value == local
  {
    if Filter(local, Recorded(deployed)) != [] then
      var p := Filter(local, Recorded(deployed))[0];
      assert p in Filter(local, Recorded(deployed));
      Failure(InvalidVersion)
    else
      FilterAll(local, NeedsDeploymentFn(deployed));
      Success(Filter(local, NeedsDeploymentFn(deployed)))
  }

  /** As written, a ledger entry for any local package makes incremental
      deployment throw, up-to-date or not. */
  lemma AsWrittenThrowsOnceDeployed(p: NodePackage, version: Version)
    ensures AffectedPackagesAsWritten([p], map[p.packageName := version]).Failure?
    ensures !NeedsDeployment(map[p.packageName := version], p) ==> !Gt(p.version, version)
  {
    assert p in [p];
  }

  /** The packages to deploy by version: those not in the ledger or newer
      than their entry, in list order. */
  function AffectedPackages(local: seq<NodePackage>, deployed: map<string, Version>): (r: seq<NodePackage>)
    ensures forall p :: p in r <==> p in local && (p.packageName !in deployed || Gt(p.version, deployed[p.packageName]))
    ensures Subseq(r, local)
  {
    FilterIsSubseq(local, NeedsDeploymentFn(deployed));
    Filter(local, NeedsDeploymentFn(deployed))
  }

  /** With every local package recorded at its own version, nothing is
      affected; a package recorded at an older version is. */
  lemma AffectedByVersion(local: seq<NodePackage>, deployed: map<string, Version>)
    ensures (forall p :: p in local ==> p.packageName in deployed && deployed[p.packageName] == p.version) ==>
      AffectedPackages(local, deployed) == []
    ensures forall p :: p in local && p.packageName in deployed && Gt(p.version, deployed[p.packageName]) ==>
      p in AffectedPackages(local, deployed)
  {
    if forall p :: p in local ==> p.packageName in deployed && deployed[p.packageName] == p.version {
      forall p ensures !NeedsDeploymentFn(deployed)(p) || p !in local {
        if p in local {
          GtStrictTotalOrder(p.version, p.version, p.version);
        }
      }
      FilterNone(local, NeedsDeploymentFn(deployed));
    }
  }

  /** Nothing changed means nothing affected. */
  lemma NothingChanged(nodes: seq<NodePackage>, whitelist: seq<string>)
    ensures LeastAffected(nodes, whitelist, {}) == {}
  {
    assert ClosedUnder(nodes, whitelist, {});
  }

  /** Every changed name is affected. */
  lemma ChangedAffected(nodes: seq<NodePackage>, whitelist: seq<string>, changed: set<string>)
    ensures changed <= LeastAffected(nodes, whitelist, changed)
  {
  }

  /** Filtering a list keeps its order, so no dependency comes later. */
  lemma FilterKeepsOrder(preds: Preds, s: seq<NodePackage>, f: NodePackage -> bool)
    requires NoLaterDependency(preds, Names(s))
    ensures NoLaterDependency(preds, Names(Filter(s, f)))
  {
    var kept := Filter(s, f);
    FilterIsSubseq(s, f);
    SubseqNames(kept, s);
    var rel := NotDependency(preds);
    forall i, j | 0 <= i < j < |Names(s)| ensures rel(Names(s)[i], Names(s)[j]) { }
    SubseqKeepsPairs(Names(kept), Names(s), rel);
    forall i, j | 0 <= i < j < |Names(kept)| && Names(kept)[i] in preds
      ensures Names(kept)[j] !in preds[Names(kept)[i]]
    {
      assert rel(Names(kept)[i], Names(kept)[j]);
    }
  }

  class PackagesFilter {
    const config: Configuration.PackageDeployerConfiguration
    const localNodePackages: NodePackageList
    const deployedPackages: map<string, Version>
    const ignoreApps: bool

    /** `ignoreApps` is set only when the option is given as true. */
    constructor(config: Configuration.PackageDeployerConfiguration, localNodePackages: NodePackageList,
                deployedPackages: map<string, Version>, ignoreAppsOption: Option<bool>)
      ensures this.config == config && this.localNodePackages == localNodePackages
      ensures this.deployedPackages == deployedPackages
      ensures this.ignoreApps <==> ignoreAppsOption == Some(true)
    {
      this.config := config;
      this.localNodePackages := localNodePackages;
      this.deployedPackages := deployedPackages;
      this.ignoreApps := ignoreAppsOption == Some(true);
    }

    /** The given packages under the configuration's current policy. */
    function FilterGivenPackagesByConfiguration(nodePackages: seq<NodePackage>): (r: seq<NodePackage>)
      reads config
      ensures r == PolicyFilter(nodePackages, config.configuration.repositoriesListing, ignoreApps)
    {
      Filter(nodePackages, PassesFn(config.configuration.repositoriesListing, ignoreApps))
    }

    /** The local packages under the policy. */
    function FilterByConfiguration(): (r: seq<NodePackage>)
      reads config
      ensures forall p :: p in r <==> p in localNodePackages.nodePackages && Passes(config.configuration.repositoriesListing, ignoreApps, p)
      ensures Subseq(r, localNodePackages.nodePackages)
    {
      FilterGivenPackagesByConfiguration(GetNodePackages(localNodePackages))
    }

    /** `affectedPackages`, with the recorded version compared directly. */
    function DirectlyAffected(): (r: seq<NodePackage>)
      ensures r == AffectedPackages(localNodePackages.nodePackages, deployedPackages)
    {
      Filter(GetNodePackages(localNodePackages), NeedsDeploymentFn(deployedPackages))
    }

    /** `getIncrementalBuildOrder`: a dependency graph over all local
        packages without a whitelist, the packages affected by the directly
        affected ones in build order, then the policy. A cycle is the
        graph's error. */
    method GetIncrementalBuildOrder() returns (r: Result<seq<NodePackage>, seq<string>>, ghost order: seq<NodePackage>)
      requires Distinct(Names(localNodePackages.nodePackages))
      ensures r.Success? <==> Acyclic(KnownPreds(localNodePackages.nodePackages, []))
      ensures r.Success? ==> multiset(order) == multiset(localNodePackages.nodePackages)
      ensures r.Success? ==> NoLaterDependency(KnownPreds(localNodePackages.nodePackages, []), Names(order))
      ensures r.Success? ==>
        FifoOrder(KnownPreds(localNodePackages.nodePackages, []), Names(localNodePackages.nodePackages), Names(order))
      ensures r.Success? ==> r.value == PolicyFilter(
        Filter(order, Picks(LeastAffected(localNodePackages.nodePackages, [],
          Elems(Names(AffectedPackages(localNodePackages.nodePackages, deployedPackages)))))),
        config.configuration.repositoriesListing, ignoreApps)
      ensures r.Success? ==> forall p :: p in r.value <==>
        && p in localNodePackages.nodePackages
        && p.packageName in LeastAffected(localNodePackages.nodePackages, [],
             Elems(Names(AffectedPackages(localNodePackages.nodePackages, deployedPackages))))
        && Passes(config.configuration.repositoriesListing, ignoreApps, p)
      ensures r.Success? ==> Distinct(r.value)
      ensures r.Success? ==> NoLaterDependency(KnownPreds(localNodePackages.nodePackages, []), Names(r.value))
      ensures r.Failure? ==> r.error == Unsortable(localNodePackages.nodePackages, [])
    {
      var allPackages := GetNodePackages(localNodePackages);
      var directlyAffected := DirectlyAffected();
      var names := Names(directlyAffected);
      var graph := new KhansDependencyGraph(allPackages, None);
      var affected;
      affected, order := graph.GetAffectedPackages(names);
      if affected.Failure? {
        return Failure(affected.error), order;
      }
      var policy := PassesFn(config.configuration.repositoriesListing, ignoreApps);
      FilterDistinct(affected.value, policy);
      FilterKeepsOrder(KnownPreds(allPackages, []), affected.value, policy);
      r := Success(FilterGivenPackagesByConfiguration(affected.value));
    }
  }

  /** With every local package recorded at its own version, the incremental
      build order is empty. */
  lemma UpToDateDeploysNothing(local: seq<NodePackage>, deployed: map<string, Version>, order: seq<NodePackage>,
                               listing: RepositoriesListing, ignoreApps: bool)
    requires Distinct(order)
    requires forall p :: p in local ==> p.packageName in deployed && deployed[p.packageName] == p.version
    requires forall p :: p in order <==>
      && p in local
      && p.packageName in LeastAffected(local, [], Elems(Names(AffectedPackages(local, deployed))))
      && Passes(listing, ignoreApps, p)
    ensures order == []
  {
    AffectedByVersion(local, deployed);
    assert Elems(Names(AffectedPackages(local, deployed))) == {};
    NothingChanged(local, []);
    assert Elems(order) == {};
    DistinctCard(order);
  }
}
