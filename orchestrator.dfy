/** The orchestrator of `src/packageDeployer/PackageDeployerOrchestrator.ts`:
    it picks the packages to deploy (all of them, those under the
    configured policy, or the incremental build order), runs the deployer
    on them, and records every successful deployment in the ledger before
    saving it. */
module Orchestrators {
  import opened Wrappers
  import opened Seqs
  import opened Paths
  import opened SemVer
  import opened PackageManager
  import opened NodePackages
  import opened NodePackageLists
  import opened Kahn
  import opened KahnProperties
  import opened KhansGraph
  import opened DeploymentStates
  import opened PackagesFilters
  import opened PackageDeployers
  import Configuration

  /** The ledger after recording, in order, the version of every successful
      result. */
  function ApplyResults(ledger: map<string, Version>, results: seq<TaskResult>): map<string, Version> {
    if results == [] then ledger
    else
      var last := results[|results| - 1];
      var before := ApplyResults(ledger, results[..|results| - 1]);
      if last.success then before[last.packageName := last.version] else before
  }

  /** A successful result, as a predicate value. */
  function Succeeded(): TaskResult -> bool {
    (t: TaskResult) => t.success
  }

  /** The names of the successful results. */
  function SucceededNames(results: seq<TaskResult>): set<string> {
    set t | t in results && t.success :: t.packageName
  }

  /** The ledger gains the names of the successful results and nothing
      else; an entry no successful result names keeps its version. */
  lemma {:induction false} ApplyResultsKeys(ledger: map<string, Version>, results: seq<TaskResult>)
    ensures ApplyResults(ledger, results).Keys == ledger.Keys + SucceededNames(results)
    ensures forall n :: n in ledger && n !in SucceededNames(results) ==> ApplyResults(ledger, results)[n] == ledger[n]
  {
    if results != [] {
      var init := results[..|results| - 1];
      ApplyResultsKeys(ledger, init);
      assert results == init + [results[|results| - 1]];
      assert SucceededNames(results) == SucceededNames(init) +
        (if results[|results| - 1].success then {results[|results| - 1].packageName} else {});
    }
  }

  /** One more result. */
  lemma ApplySnoc(ledger: map<string, Version>, results: seq<TaskResult>, t: TaskResult)
    ensures ApplyResults(ledger, results + [t]) ==
      if t.success then ApplyResults(ledger, results)[t.packageName := t.version] else ApplyResults(ledger, results)
  {
    assert (results + [t])[..|results|] == results;
  }

  /** Failed results change nothing. */
  lemma {:induction false} FailuresIgnored(ledger: map<string, Version>, results: seq<TaskResult>)
    ensures ApplyResults(ledger, results) == ApplyResults(ledger, Filter(results, Succeeded()))
  {
    if results != [] {
      var n := |results| - 1;
      var init, last := results[..n], results[n];
      FailuresIgnored(ledger, init);
      FilterPrefix(results, n, Succeeded());
      assert results[..n + 1] == results;
      var kept := Filter(init, Succeeded());
      ApplySnoc(ledger, kept, last);
      if !last.success {
        assert kept + [] == kept;
      }
    }
  }

  /** The last successful result for a name sets its entry. */
  lemma {:induction false} LastSuccessWins(ledger: map<string, Version>, results: seq<TaskResult>, i: int)
    requires 0 <= i < |results| && results[i].success
    requires forall j :: i < j < |results| && results[j].success ==> results[j].packageName != results[i].packageName
    ensures results[i].packageName in ApplyResults(ledger, results)
    ensures ApplyResults(ledger, results)[results[i].packageName] == results[i].version
  {
    var init := results[..|results| - 1];
    if i < |results| - 1 {
      LastSuccessWins(ledger, init, i);
    }
  }

  /** After a deployment of packages with distinct names, every package
      that deployed is recorded at its own version. */
  lemma DeployedRecorded(ledger: map<string, Version>, packages: seq<NodePackage>, results: seq<TaskResult>,
                         hasLockFile: Path -> bool, platform: Platform, exitsOk: Spawn -> bool, i: int)
    requires Distinct(Names(packages))
    requires |results| == |packages|
    requires forall k :: 0 <= k < |packages| ==>
      results[k] == ResultOf(packages[k], Deploys(packages[k], hasLockFile, platform, exitsOk))
    requires 0 <= i < |packages| && Deploys(packages[i], hasLockFile, platform, exitsOk)
    ensures packages[i].packageName in ApplyResults(ledger, results)
    ensures ApplyResults(ledger, results)[packages[i].packageName] == packages[i].version
  {
    forall j | i < j < |results| && results[j].success ensures results[j].packageName != results[i].packageName {
      assert Names(packages)[i] != Names(packages)[j];
    }
    LastSuccessWins(ledger, results, i);
  }

  class PackageDeployerOrchestrator {
    const config: Configuration.PackageDeployerConfiguration
    const packageList: NodePackageList
    const deployedState: DeploymentState
    const packageFilter: PackagesFilter
    const ignoreApps: bool

    /** The filter works on this orchestrator's configuration, package list
        and `ignoreApps`. */
    ghost predicate Valid() {
      packageFilter.config == config && packageFilter.localNodePackages == packageList && packageFilter.ignoreApps == ignoreApps
    }

    /** The filter gets the configuration, the package list, a copy of the
        ledger as it is now, and `ignoreApps`, which is set only when the
        option is given as true. */
    constructor(config: Configuration.PackageDeployerConfiguration, packageList: NodePackageList,
                deploymentState: DeploymentState, ignoreAppsOption: Option<bool>)
      ensures this.config == config && this.packageList == packageList && this.deployedState == deploymentState
      ensures ignoreApps <==> ignoreAppsOption == Some(true)
      ensures packageFilter.config == config && packageFilter.localNodePackages == packageList
      ensures packageFilter.deployedPackages == deploymentState.deploymentState
      ensures packageFilter.ignoreApps == ignoreApps
      ensures Valid()
    {
      this.config := config;
      this.packageList := packageList;
      this.deployedState := deploymentState;
      var ignore := ignoreAppsOption == Some(true);
      this.ignoreApps := ignore;
      var stateMap := deploymentState.GetDeploymentStateAsMap();
      this.packageFilter := new PackagesFilter(config, packageList, stateMap, Some(ignore));
    }

    /** Records the version of every successful result, in order, then
        saves the ledger. */
    method SaveSuccessfullyDeployedPackages(results: seq<TaskResult>) returns (written: map<string, Version>)
      modifies deployedState
      ensures deployedState.deploymentState == ApplyResults(old(deployedState.deploymentState), results)
      ensures written == deployedState.deploymentState
    {
      ghost var ledger := deployedState.deploymentState;
      for i := 0 to |results|
        invariant deployedState.deploymentState == ApplyResults(ledger, results[..i])
      {
        var task := results[i];
        assert results[..i + 1][..i] == results[..i];
        if task.success {
          var _ := deployedState.SetPackageState(task.packageName, task.version);
        }
      }
      assert results[..|results|] == results;
      written := deployedState.Save();
    }

    /** Deploys every local package. */
    method DeployAll(hasLockFile: Path -> bool, platform: Platform, exitsOk: Spawn -> bool) returns (results: seq<TaskResult>)
      modifies deployedState
      ensures |results| == |packageList.nodePackages|
      ensures forall i :: 0 <= i < |results| ==>
        results[i] == ResultOf(packageList.nodePackages[i], Deploys(packageList.nodePackages[i], hasLockFile, platform, exitsOk))
      ensures deployedState.deploymentState == ApplyResults(old(deployedState.deploymentState), results)
    {
      var deployer := new PackageDeployer(GetNodePackages(packageList));
      var ran;
      results, ran := deployer.Deploy(hasLockFile, platform, exitsOk);
      var _ := SaveSuccessfullyDeployedPackages(results);
    }

    /** Deploys the local packages that pass the configured policy. */
    method Deploy(hasLockFile: Path -> bool, platform: Platform, exitsOk: Spawn -> bool) returns (results: seq<TaskResult>)
      modifies deployedState
      ensures |results| == |packageFilter.FilterByConfiguration()|
      ensures forall i :: 0 <= i < |results| ==>
        results[i] == ResultOf(packageFilter.FilterByConfiguration()[i],
          Deploys(packageFilter.FilterByConfiguration()[i], hasLockFile, platform, exitsOk))
      ensures deployedState.deploymentState == ApplyResults(old(deployedState.deploymentState), results)
    {
      var deployer := new PackageDeployer(packageFilter.FilterByConfiguration());
      var ran;
      results, ran := deployer.Deploy(hasLockFile, platform, exitsOk);
      var _ := SaveSuccessfullyDeployedPackages(results);
    }

    /** Deploys the incremental build order. A cycle is the graph's error
        and leaves the ledger alone; an empty order deploys nothing and
        saves nothing. `order` is the incremental build order computed:
        the affected packages that pass the policy, in the order of the full
        build order `buildOrder`. */
    method IncrementalDeployment(hasLockFile: Path -> bool, platform: Platform, exitsOk: Spawn -> bool)
      returns (order: Result<seq<NodePackage>, seq<string>>, results: Option<seq<TaskResult>>,
               ghost buildOrder: seq<NodePackage>)
      requires Distinct(Names(packageList.nodePackages))
      requires Valid()
      modifies deployedState
      ensures order.Failure? ==> order.error == Unsortable(packageList.nodePackages, [])
      ensures order.Success? ==> multiset(buildOrder) == multiset(packageList.nodePackages)
      ensures order.Success? ==> NoLaterDependency(KnownPreds(packageList.nodePackages, []), Names(buildOrder))
      ensures order.Success? ==>
        FifoOrder(KnownPreds(packageList.nodePackages, []), Names(packageList.nodePackages), Names(buildOrder))
      ensures order.Success? ==> order.value == PolicyFilter(
        Filter(buildOrder, Picks(LeastAffected(packageList.nodePackages, [],
          Elems(Names(AffectedPackages(packageList.nodePackages, packageFilter.deployedPackages)))))),
        config.configuration.repositoriesListing, ignoreApps)
      ensures order.Success? ==> forall p :: p in order.value <==>
        && p in packageList.nodePackages
        && p.packageName in LeastAffected(packageList.nodePackages, [],
             Elems(Names(AffectedPackages(packageList.nodePackages, packageFilter.deployedPackages))))
        && Passes(config.configuration.repositoriesListing, ignoreApps, p)
      ensures order.Success? ==> NoLaterDependency(KnownPreds(packageList.nodePackages, []), Names(order.value))
      ensures results.Some? <==> order.Success? && order.value != []
      ensures results.Some? ==> |results.value| == |order.value| && forall i :: 0 <= i < |order.value| ==>
        results.value[i] == ResultOf(order.value[i], Deploys(order.value[i], hasLockFile, platform, exitsOk))
      ensures results.Some? ==> deployedState.deploymentState == ApplyResults(old(deployedState.deploymentState), results.value)
      ensures results.None? ==> deployedState.deploymentState == old(deployedState.deploymentState)
    {
      order, buildOrder := packageFilter.GetIncrementalBuildOrder();
      ghost var ledger := deployedState.deploymentState;
      if order.Failure? || order.value == [] {
        return order, None, buildOrder;
      }
      var deployer := new PackageDeployer(order.value);
      var deployed, ran := deployer.Deploy(hasLockFile, platform, exitsOk);
      var _ := SaveSuccessfullyDeployedPackages(deployed);
      assert deployedState.deploymentState == ApplyResults(ledger, deployed);
      results := Some(deployed);
    }
  }
}
