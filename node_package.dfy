/** A discovered package: its folder, its parsed manifest and the fields the
    deployer derives from them, plus the package-manager steps run on it. */
module NodePackages {
  import opened Wrappers
  import opened Seqs
  import opened Paths
  import opened SemVer
  import opened PackageManager

  /** The parts of a `package.json` the deployer reads. A missing `name` is the
      empty string; `dependencies` and `devDependencies` are the key lists of
      those objects; `isPrivate` is whether `private` is truthy; `workspaces`
      is `None` when the key is absent. */
  datatype Manifest = Manifest(
    name: string,
    version: Version,
    dependencies: seq<string>,
    devDependencies: seq<string>,
    isPrivate: bool,
    workspaces: Option<seq<string>>)

  /** `packageName` is the manifest name, `name` the folder name. */
  datatype NodePackage = NodePackage(
    path: Path,
    packageJson: Manifest,
    packageName: string,
    version: Version,
    name: string)

  /** The `NodePackage` constructor. A nameless manifest only draws a warning. */
  function FromManifest(appPath: Path, packageJson: Manifest): NodePackage {
    NodePackage(appPath, packageJson, packageJson.name, packageJson.version, Basename(appPath))
  }

  /** A package found as `entry` inside a directory is named after that entry and
      carries its manifest's name and version. */
  lemma FolderNameOfListedPackage(dir: Path, entry: string, m: Manifest)
    requires '/' !in entry
    ensures FromManifest(Join(dir, entry), m).name == entry
    ensures FromManifest(Join(dir, entry), m).packageName == m.name
    ensures FromManifest(Join(dir, entry), m).version == m.version
  {
    BasenameOfJoin(dir, entry);
  }

  /** Package names, in order. */
  function Names(s: seq<NodePackage>): (r: seq<string>)
    ensures |r| == |s|
    ensures forall i :: 0 <= i < |s| ==> r[i] == s[i].packageName
  {
    seq(|s|, i requires 0 <= i < |s| => s[i].packageName)
  }

  /** Package names, as a set. */
  function NameSet(s: seq<NodePackage>): set<string> {
    set p | p in s :: p.packageName
  }

  /** The name set holds exactly the names of the name list. */
  lemma NameSetNames(s: seq<NodePackage>)
    ensures forall n :: n in NameSet(s) <==> n in Names(s)
  {
    forall n | n in Names(s) ensures n in NameSet(s) {
      var i :| 0 <= i < |s| && Names(s)[i] == n;
      assert s[i] in s;
    }
    forall n | n in NameSet(s) ensures n in Names(s) {
      var p :| p in s && p.packageName == n;
      NameListed(s, p);
    }
  }

  lemma NameSetSnoc(s: seq<NodePackage>, p: NodePackage)
    ensures NameSet(s + [p]) == NameSet(s) + {p.packageName}
  {
    assert forall q :: q in s + [p] <==> q in s || q == p;
  }

  lemma NamesConcat(a: seq<NodePackage>, b: seq<NodePackage>)
    ensures Names(a + b) == Names(a) + Names(b)
  {
  }

  /** Names of a subsequence form a subsequence of the names. */
  lemma {:induction false} SubseqNames(a: seq<NodePackage>, b: seq<NodePackage>)
    requires Subseq(a, b)
    ensures Subseq(Names(a), Names(b))
    decreases |b|
  {
    if a != [] {
      assert Names(a)[1..] == Names(a[1..]) && Names(b)[1..] == Names(b[1..]);
      if a[0] == b[0] && Subseq(a[1..], b[1..]) {
        SubseqNames(a[1..], b[1..]);
      } else {
        SubseqNames(a, b[1..]);
      }
    }
  }

  /** The name of every listed package is among the listed names. */
  lemma NameListed(s: seq<NodePackage>, p: NodePackage)
    requires p in s
    ensures p.packageName in Names(s)
  {
    var i :| 0 <= i < |s| && s[i] == p;
    assert Names(s)[i] == p.packageName;
  }

  /** When names are distinct, the name determines the package. */
  lemma SameNameSamePackage(s: seq<NodePackage>, p: NodePackage, q: NodePackage)
    requires Distinct(Names(s))
    requires p in s && q in s && p.packageName == q.packageName
    ensures p == q
  {
    var i :| 0 <= i < |s| && s[i] == p;
    var j :| 0 <= j < |s| && s[j] == q;
    assert Names(s)[i] == Names(s)[j];
  }

  /** A rearrangement of packages with distinct names has distinct names,
      the same ones. */
  lemma PermutedNames(nodes: seq<NodePackage>, s: seq<NodePackage>)
    requires Distinct(Names(nodes)) && multiset(s) == multiset(nodes)
    ensures Distinct(Names(s)) && Elems(Names(s)) == NameSet(nodes)
  {
    DistinctNamesDistinct(nodes);
    PermutationDistinct(nodes, s);
    forall p ensures p in s <==> p in nodes {
      assert p in s <==> p in multiset(s);
    }
    forall i, j | 0 <= i < j < |s| ensures Names(s)[i] != Names(s)[j] {
      if Names(s)[i] == Names(s)[j] {
        SameNameSamePackage(nodes, s[i], s[j]);
      }
    }
    NameSetNames(s);
    assert NameSet(s) == NameSet(nodes);
  }

  /** Distinct names make distinct packages. */
  lemma DistinctNamesDistinct(s: seq<NodePackage>)
    requires Distinct(Names(s))
    ensures Distinct(s)
  {
    forall i, j | 0 <= i < j < |s| ensures s[i] != s[j] {
      assert Names(s)[i] != Names(s)[j];
    }
  }

  /** A list of packages with distinct names drawn from a list with
      distinct names is no longer than it. */
  lemma DistinctNamesBound(s: seq<NodePackage>, nodes: seq<NodePackage>)
    requires Distinct(Names(s)) && Distinct(Names(nodes))
    requires forall p :: p in s ==> p in nodes
    ensures |s| <= |nodes|
  {
    forall n | n in Elems(Names(s)) ensures n in Elems(Names(nodes)) {
      var i :| 0 <= i < |s| && Names(s)[i] == n;
      NameListed(nodes, s[i]);
    }
    DistinctCard(Names(s));
    DistinctCard(Names(nodes));
    SubsetCard(Elems(Names(s)), Elems(Names(nodes)));
  }

  /** The engine picked for a package folder. */
  datatype Engine = NpmEngine(npm: NPM) | PnpmEngine(pnpm: PNPM)

  /** npm when the folder holds `package-lock.json`, pnpm otherwise. */
  method CreatePackageManager(packagePath: Path, lockFileExists: bool) returns (e: Engine)
    ensures e.NpmEngine? <==> lockFileExists
    ensures e.NpmEngine? ==> fresh(e.npm) && e.npm.packagePath == packagePath && e.npm.commands == ["npm"] && e.npm.args == []
    ensures e.PnpmEngine? ==> fresh(e.pnpm) && e.pnpm.packagePath == packagePath && e.pnpm.commands == ["pnpm"] && e.pnpm.args == []
  {
    if lockFileExists {
      var m := new NPM(packagePath);
      e := NpmEngine(m);
    } else {
      var m := new PNPM(packagePath);
      e := PnpmEngine(m);
    }
  }

  function Program(lockFileExists: bool): string {
    if lockFileExists then "npm" else "pnpm"
  }

  function NoLockFlag(lockFileExists: bool): string {
    if lockFileExists then "--no-package-lock" else "--frozen-lockfile"
  }

  /** `install`: the engine's install step, always without updating the lock file. */
  method Install(pkg: NodePackage, lockFileExists: bool, platform: Platform) returns (r: Result<Spawn, string>)
    ensures r == Success(Spawn(Program(lockFileExists), ["install", NoLockFlag(lockFileExists)], pkg.path, platform == Win32))
  {
    var e := CreatePackageManager(pkg.path, lockFileExists);
    match e
    case NpmEngine(m) =>
      var b := m.Install();
      b := b.NoPackageLock();
      assert m.commands == ["npm", "install"];
      r := b.Run(platform);
      assert m.commands == ["install"];
      assert m.args == [NoLockFlag(lockFileExists)];
      assert m.commands + m.args == ["install", NoLockFlag(lockFileExists)];
      assert m.packagePath == pkg.path;
    case PnpmEngine(m) =>
      var b := m.Install();
      b := b.NoPackageLock();
      assert m.commands == ["pnpm", "install"];
      r := b.Run(platform);
      assert m.commands == ["install"];
      assert m.args == [NoLockFlag(lockFileExists)];
      assert m.commands + m.args == ["install", NoLockFlag(lockFileExists)];
      assert m.packagePath == pkg.path;
  }

  /** `build`: the engine's `run build`. */
  method Build(pkg: NodePackage, lockFileExists: bool, platform: Platform) returns (r: Result<Spawn, string>)
    ensures r == Success(Spawn(Program(lockFileExists), ["run", "build"], pkg.path, platform == Win32))
  {
    var e := CreatePackageManager(pkg.path, lockFileExists);
    match e
    case NpmEngine(m) =>
      var b := m.RunCommand();
      b := b.Build();
      assert m.commands == ["npm", "run", "build"];
      r := b.Run(platform);
      assert m.commands + m.args == ["run", "build"];
      assert m.packagePath == pkg.path;
    case PnpmEngine(m) =>
      var b := m.RunCommand();
      b := b.Build();
      assert m.commands == ["pnpm", "run", "build"];
      r := b.Run(platform);
      assert m.commands + m.args == ["run", "build"];
      assert m.packagePath == pkg.path;
  }

  /** `publish` as written: it calls a `publish()` builder step that neither
      engine defines, so the call throws a TypeError whichever engine is picked. */
  method PublishAsWritten(pkg: NodePackage, lockFileExists: bool, platform: Platform) returns (r: Result<Spawn, string>)
    ensures r.Failure?
  {
    var e := CreatePackageManager(pkg.path, lockFileExists);
    r := Failure("pkgMng.publish is not a function");
  }

  /** `publish` with the engine's publish step: `npm publish` or `pnpm publish`
      in the package folder. */
  method Publish(pkg: NodePackage, lockFileExists: bool, platform: Platform) returns (r: Result<Spawn, string>)
    ensures r == Success(Spawn(Program(lockFileExists), ["publish"], pkg.path, platform == Win32))
  {
    var e := CreatePackageManager(pkg.path, lockFileExists);
    match e
    case NpmEngine(m) =>
      var b := m.Publish();
      assert m.commands == ["npm", "publish"];
      r := b.Run(platform);
      assert m.commands + m.args == ["publish"];
      assert m.packagePath == pkg.path;
    case PnpmEngine(m) =>
      var b := m.Publish();
      assert m.commands == ["pnpm", "publish"];
      r := b.Run(platform);
      assert m.commands + m.args == ["publish"];
      assert m.packagePath == pkg.path;
  }
}
