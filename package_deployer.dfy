/** The deployment loop of `src/packageDeployer/PackageDeployer.ts`: for
    each package in turn, install, build and, unless the package is
    private, publish; the first step that fails ends that package's
    deployment as a failure and the loop goes on with the next package.
    Processes are not run: `exitsOk` says whether a spawned step exits
    successfully, and `hasLockFile` whether a package folder holds
    `package-lock.json`. */
module PackageDeployers {
  import opened Wrappers
  import Seqs
  import opened Paths
  import opened SemVer
  import opened PackageManager
  import opened NodePackages

  /** One entry of the deployment result. */
  datatype TaskResult = TaskResult(packageName: string, name: string, version: Version, success: bool)

  /** The steps tried on a package, in order: install, build, and publish
      for a package that is not private. */
  function Steps(pkg: NodePackage, lockFileExists: bool, platform: Platform): (s: seq<Spawn>)
    ensures |s| == if pkg.packageJson.isPrivate then 2 else 3
    ensures forall i :: 0 <= i < |s| ==> s[i].cwd == pkg.path && s[i].program == Program(lockFileExists)
  {
    var shell := platform == Win32;
    [Spawn(Program(lockFileExists), ["install", NoLockFlag(lockFileExists)], pkg.path, shell),
     Spawn(Program(lockFileExists), ["run", "build"], pkg.path, shell)] +
    (if pkg.packageJson.isPrivate then [] else [Spawn(Program(lockFileExists), ["publish"], pkg.path, shell)])
  }

  /** Every step exits successfully. */
  predicate AllSucceed(steps: seq<Spawn>, exitsOk: Spawn -> bool) {
    forall i :: 0 <= i < |steps| ==> exitsOk(steps[i])
  }

  /** The steps actually run: up to and including the first that fails. */
  function RunUntilFailure(steps: seq<Spawn>, exitsOk: Spawn -> bool): (ran: seq<Spawn>)
    ensures |ran| <= |steps| && ran == steps[..|ran|]
    ensures forall i :: 0 <= i < |ran| - 1 ==> exitsOk(ran[i])
    ensures |ran| < |steps| ==> ran != [] && !exitsOk(ran[|ran| - 1])
    ensures AllSucceed(steps, exitsOk) <==> ran == steps && (ran == [] || exitsOk(ran[|ran| - 1]))
  {
    if steps == [] then []
    else if !exitsOk(steps[0]) then [steps[0]]
    else [steps[0]] + RunUntilFailure(steps[1..], exitsOk)
  }

  /** One package: its steps in order, stopping at the first failure. */
  method DeployPackage(pkg: NodePackage, lockFileExists: bool, platform: Platform, exitsOk: Spawn -> bool)
    returns (success: bool, ran: seq<Spawn>)
    ensures success == AllSucceed(Steps(pkg, lockFileExists, platform), exitsOk)
    ensures ran == RunUntilFailure(Steps(pkg, lockFileExists, platform), exitsOk)
  {
    var steps := Steps(pkg, lockFileExists, platform);
    var install := Install(pkg, lockFileExists, platform);
    ran := [install.value];
    assert install.value == steps[0];
    if !exitsOk(install.value) {
      return false, ran;
    }
    var build := Build(pkg, lockFileExists, platform);
    ran := ran + [build.value];
    assert build.value == steps[1];
    if !exitsOk(build.value) {
      assert steps[1..][1..] == steps[2..];
      return false, ran;
    }
    if !pkg.packageJson.isPrivate {
      var publish := Publish(pkg, lockFileExists, platform);
      ran := ran + [publish.value];
      assert publish.value == steps[2];
      if !exitsOk(publish.value) {
        assert steps[1..][1..] == steps[2..];
        return false, ran;
      }
    }
    assert steps[1..][1..] == steps[2..];
    success := true;
  }

  /** One package with `publish` as written: the TypeError it throws is
      caught like any failed step, so a public package never deploys,
      whatever its steps would do, and only install and build are run. */
  method DeployPackageAsWritten(pkg: NodePackage, lockFileExists: bool, platform: Platform, exitsOk: Spawn -> bool)
    returns (success: bool, ran: seq<Spawn>)
    ensures !pkg.packageJson.isPrivate ==> !success
    ensures success == (pkg.packageJson.isPrivate && AllSucceed(Steps(pkg, lockFileExists, platform), exitsOk))
    ensures ran == RunUntilFailure(Steps(pkg, lockFileExists, platform)[..2], exitsOk)
  {
    var steps := Steps(pkg, lockFileExists, platform);
    var install := Install(pkg, lockFileExists, platform);
    ran := [install.value];
    assert install.value == steps[..2][0];
    if !exitsOk(install.value) {
      return false, ran;
    }
    var build := Build(pkg, lockFileExists, platform);
    ran := ran + [build.value];
    assert build.value == steps[..2][1];
    assert steps[..2][1..][1..] == [];
    if !exitsOk(build.value) {
      return false, ran;
    }
    if !pkg.packageJson.isPrivate {
      var publish := PublishAsWritten(pkg, lockFileExists, platform);
      if publish.Failure? {
        return false, ran;
      }
      assert false;
    }
    assert steps[1..][1..] == steps[2..];
    success := true;
  }

  /** The entry recorded for a package. */
  function ResultOf(pkg: NodePackage, success: bool): TaskResult {
    TaskResult(pkg.packageName, pkg.name, pkg.version, success)
  }

  /** Whether a package deploys. */
  predicate Deploys(pkg: NodePackage, hasLockFile: Path -> bool, platform: Platform, exitsOk: Spawn -> bool) {
    AllSucceed(Steps(pkg, hasLockFile(pkg.path), platform), exitsOk)
  }

  /** The steps run for the packages, package after package. */
  function AllRuns(packages: seq<NodePackage>, hasLockFile: Path -> bool, platform: Platform, exitsOk: Spawn -> bool): seq<Spawn> {
    if packages == [] then []
    else
      var last := packages[|packages| - 1];
      AllRuns(packages[..|packages| - 1], hasLockFile, platform, exitsOk) +
        RunUntilFailure(Steps(last, hasLockFile(last.path), platform), exitsOk)
  }

  /** The runs of one more package. */
  lemma AllRunsPrefix(packages: seq<NodePackage>, k: nat, hasLockFile: Path -> bool, platform: Platform, exitsOk: Spawn -> bool)
    requires k < |packages|
    ensures AllRuns(packages[..k + 1], hasLockFile, platform, exitsOk) ==
      AllRuns(packages[..k], hasLockFile, platform, exitsOk) +
      RunUntilFailure(Steps(packages[k], hasLockFile(packages[k].path), platform), exitsOk)
  {
    assert packages[..k + 1][..k] == packages[..k];
  }

  /** `results` and `ran` are what deploying `done`, in order, records and runs. */
  predicate Deployed(done: seq<NodePackage>, results: seq<TaskResult>, ran: seq<Spawn>,
                     hasLockFile: Path -> bool, platform: Platform, exitsOk: Spawn -> bool) {
    |results| == |done| &&
    (forall k :: 0 <= k < |done| ==> results[k] == ResultOf(done[k], Deploys(done[k], hasLockFile, platform, exitsOk))) &&
    ran == AllRuns(done, hasLockFile, platform, exitsOk)
  }

  /** One more package of the loop. */
  method DeployNext(packages: seq<NodePackage>, i: nat, results0: seq<TaskResult>, ran0: seq<Spawn>,
                    hasLockFile: Path -> bool, platform: Platform, exitsOk: Spawn -> bool)
    returns (results: seq<TaskResult>, ran: seq<Spawn>)
    requires i < |packages|
    requires Deployed(packages[..i], results0, ran0, hasLockFile, platform, exitsOk)
    ensures Deployed(packages[..i + 1], results, ran, hasLockFile, platform, exitsOk)
  {
    var pkg := packages[i];
    var success, steps := DeployPackage(pkg, hasLockFile(pkg.path), platform, exitsOk);
    AllRunsPrefix(packages, i, hasLockFile, platform, exitsOk);
    results := results0 + [ResultOf(pkg, success)];
    ran := ran0 + steps;
    ghost var done, done1 := packages[..i], packages[..i + 1];
    assert success == Deploys(pkg, hasLockFile, platform, exitsOk);
    forall k | 0 <= k < i + 1
      ensures results[k] == ResultOf(done1[k], Deploys(done1[k], hasLockFile, platform, exitsOk))
    {
      if k < i {
        assert done1[k] == done[k] && results[k] == results0[k];
      }
    }
  }

  /** `deploy`'s loop: one entry per package, in the given order, marked
      successful exactly when every step of that package exits
      successfully; a failing package does not stop the others. */
  method DeployPackages(packages: seq<NodePackage>, hasLockFile: Path -> bool, platform: Platform, exitsOk: Spawn -> bool)
    returns (results: seq<TaskResult>, ran: seq<Spawn>)
    ensures |results| == |packages|
    ensures forall i :: 0 <= i < |packages| ==>
      results[i] == ResultOf(packages[i], Deploys(packages[i], hasLockFile, platform, exitsOk))
    ensures ran == AllRuns(packages, hasLockFile, platform, exitsOk)
  {
    results, ran := [], [];
    for i := 0 to |packages|
      invariant Deployed(packages[..i], results, ran, hasLockFile, platform, exitsOk)
    {
      results, ran := DeployNext(packages, i, results, ran, hasLockFile, platform, exitsOk);
    }
    assert packages[..|packages|] == packages;
  }

  /** A private package is never published. */
  lemma PrivateNeverPublished(pkg: NodePackage, lockFileExists: bool, platform: Platform, exitsOk: Spawn -> bool)
    requires pkg.packageJson.isPrivate
    ensures forall s :: s in RunUntilFailure(Steps(pkg, lockFileExists, platform), exitsOk) ==> s.argv != ["publish"]
  {
    var steps := Steps(pkg, lockFileExists, platform);
    var ran := RunUntilFailure(steps, exitsOk);
    forall s | s in ran ensures s.argv != ["publish"] {
      var k :| 0 <= k < |ran| && ran[k] == s;
      assert s == steps[k];
    }
  }

  /** A package is published only once it has been installed and built
      successfully, and publishing is its last step. */
  lemma PublishAfterBuild(pkg: NodePackage, lockFileExists: bool, platform: Platform, exitsOk: Spawn -> bool, k: int)
    requires 0 <= k < |RunUntilFailure(Steps(pkg, lockFileExists, platform), exitsOk)|
    requires RunUntilFailure(Steps(pkg, lockFileExists, platform), exitsOk)[k].argv == ["publish"]
    ensures k == 2 && !pkg.packageJson.isPrivate
    ensures exitsOk(Steps(pkg, lockFileExists, platform)[0]) && exitsOk(Steps(pkg, lockFileExists, platform)[1])
  {
    var steps := Steps(pkg, lockFileExists, platform);
    var ran := RunUntilFailure(steps, exitsOk);
    assert ran[k] == steps[k];
  }

  /** The runs of a list of packages are the runs of its parts, one after
      the other. */
  lemma {:induction false} AllRunsConcat(a: seq<NodePackage>, b: seq<NodePackage>, hasLockFile: Path -> bool, platform: Platform, exitsOk: Spawn -> bool)
    ensures AllRuns(a + b, hasLockFile, platform, exitsOk) ==
      AllRuns(a, hasLockFile, platform, exitsOk) + AllRuns(b, hasLockFile, platform, exitsOk)
    decreases |b|
  {
    if b != [] {
      var init, last := b[..|b| - 1], b[|b| - 1];
      assert (a + b)[..|a + b| - 1] == a + init;
      assert (a + b)[|a + b| - 1] == last;
      AllRunsConcat(a, init, hasLockFile, platform, exitsOk);
      Seqs.ConcatAssoc(AllRuns(a, hasLockFile, platform, exitsOk), AllRuns(init, hasLockFile, platform, exitsOk),
        RunUntilFailure(Steps(last, hasLockFile(last.path), platform), exitsOk));
    } else {
      assert a + b == a;
    }
  }

  class PackageDeployer {
    const packages: seq<NodePackage>

    constructor(nodePackages: seq<NodePackage>)
      ensures packages == nodePackages
    {
      packages := nodePackages;
    }

    /** `deploy`; see `DeployPackages`. */
    method Deploy(hasLockFile: Path -> bool, platform: Platform, exitsOk: Spawn -> bool)
      returns (results: seq<TaskResult>, ran: seq<Spawn>)
      ensures |results| == |packages|
      ensures forall i :: 0 <= i < |packages| ==>
        results[i] == ResultOf(packages[i], Deploys(packages[i], hasLockFile, platform, exitsOk))
      ensures ran == AllRuns(packages, hasLockFile, platform, exitsOk)
    {
      results, ran := DeployPackages(packages, hasLockFile, platform, exitsOk);
    }
  }
}
