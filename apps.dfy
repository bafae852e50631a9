/** Package discovery of `src/lib/apps.ts`, over a model of the file system:
    the folders that exist, each with the entries `readdirSync` lists for it
    in listing order, and the parsed `package.json` of every folder that has
    one. Reading and parsing files is not modelled. */
module Apps {
  import opened Wrappers
  import opened Seqs
  import opened Paths
  import opened SemVer
  import opened NodePackages

  datatype FileSystem = FileSystem(dirs: map<Path, seq<string>>, manifests: map<Path, Manifest>)

  /** Directory entries are plain names: non-empty and without a separator. */
  predicate WellFormed(fs: FileSystem) {
    forall d :: d in fs.dirs ==> forall e :: e in fs.dirs[d] ==> e != "" && '/' !in e
  }

  /** `IPackageInfo`: what discovery records about a package. */
  datatype PackageInfo = PackageInfo(isPrivate: bool, version: Version, packageName: string, name: string, path: Path)

  /** The entries of a folder; a folder that does not exist lists nothing. */
  function Listing(fs: FileSystem, dir: Path): seq<string> {
    if dir in fs.dirs then fs.dirs[dir] else []
  }

  /** `getAppInfo`: nothing for a folder without a manifest or with a
      nameless one; otherwise the folder name, the manifest name, the
      folder, and the manifest's `private` and `version`. */
  function GetAppInfo(fs: FileSystem, appPath: Path): (r: Option<PackageInfo>)
    ensures r.None? <==> appPath !in fs.manifests || fs.manifests[appPath].name == ""
    ensures r.Some? ==> r.value.path == appPath && r.value.packageName != ""
  {
    if appPath !in fs.manifests then None
    else
      var m := fs.manifests[appPath];
      if m.name == "" then None
      else Some(PackageInfo(m.isPrivate, m.version, m.name, Basename(appPath), appPath))
  }

  /** A package found at the folder it names is described by that folder's manifest. */
  predicate Found(fs: FileSystem, p: PackageInfo) {
    GetAppInfo(fs, p.path) == Some(p)
  }

  /** The info of a package listed as `entry` inside `dir`: it is named
      after the entry and carries its manifest's name, flag and version. */
  lemma ListedAppInfo(fs: FileSystem, dir: Path, entry: string)
    requires '/' !in entry
    requires GetAppInfo(fs, Join(dir, entry)).Some?
    ensures GetAppInfo(fs, Join(dir, entry)).value.name == entry
    ensures GetAppInfo(fs, Join(dir, entry)).value.packageName == fs.manifests[Join(dir, entry)].name
    ensures GetAppInfo(fs, Join(dir, entry)).value.isPrivate == fs.manifests[Join(dir, entry)].isPrivate
    ensures GetAppInfo(fs, Join(dir, entry)).value.version == fs.manifests[Join(dir, entry)].version
  {
    BasenameOfJoin(dir, entry);
  }

  /** The entry `e` of `dir` passes both blacklists and holds a named package. */
  predicate Accepted(fs: FileSystem, dir: Path, blacklist: seq<string>, packageNameBlacklist: seq<string>, e: string) {
    e !in blacklist &&
    var info := GetAppInfo(fs, Join(dir, e));
    info.Some? && info.value.packageName !in packageNameBlacklist
  }

  function AcceptedFn(fs: FileSystem, dir: Path, blacklist: seq<string>, packageNameBlacklist: seq<string>): string -> bool {
    e => Accepted(fs, dir, blacklist, packageNameBlacklist, e)
  }

  /** The entries of `dir` whose packages are taken, in listing order. */
  function Kept(fs: FileSystem, dir: Path, blacklist: seq<string>, packageNameBlacklist: seq<string>): seq<string> {
    Filter(Listing(fs, dir), AcceptedFn(fs, dir, blacklist, packageNameBlacklist))
  }

  /** `infos` describe the packages of `entries` of `dir`, one for one and in order. */
  predicate InfosOf(fs: FileSystem, dir: Path, entries: seq<string>, infos: seq<PackageInfo>) {
    |infos| == |entries| &&
    forall i :: 0 <= i < |entries| ==> GetAppInfo(fs, Join(dir, entries[i])) == Some(infos[i])
  }

  /** One more entry, one more info. */
  lemma InfosSnoc(fs: FileSystem, dir: Path, entries: seq<string>, infos: seq<PackageInfo>, e: string, info: PackageInfo)
    requires InfosOf(fs, dir, entries, infos)
    requires GetAppInfo(fs, Join(dir, e)) == Some(info)
    ensures InfosOf(fs, dir, entries + [e], infos + [info])
  {
  }

  /** The entries determine their infos. */
  lemma InfosUnique(fs: FileSystem, dir: Path, entries: seq<string>, a: seq<PackageInfo>, b: seq<PackageInfo>)
    requires InfosOf(fs, dir, entries, a) && InfosOf(fs, dir, entries, b)
    ensures a == b
  {
    assert forall i :: 0 <= i < |a| ==> Some(a[i]) == Some(b[i]);
  }

  /** The infos of the accepted ones among `entries`. */
  function Collect(fs: FileSystem, dir: Path, entries: seq<string>, blacklist: seq<string>, packageNameBlacklist: seq<string>): (r: seq<PackageInfo>)
    ensures InfosOf(fs, dir, Filter(entries, AcceptedFn(fs, dir, blacklist, packageNameBlacklist)), r)
  {
    if entries == [] then []
    else
      var rest := Collect(fs, dir, entries[1..], blacklist, packageNameBlacklist);
      if Accepted(fs, dir, blacklist, packageNameBlacklist, entries[0])
      then [GetAppInfo(fs, Join(dir, entries[0])).value] + rest
      else rest
  }

  /** What `getAppsInfoAtPath` returns: one info per kept entry, in
      listing order; nothing for a folder that does not exist. */
  function AppsAt(fs: FileSystem, dir: Path, blacklist: seq<string>, packageNameBlacklist: seq<string>): (r: seq<PackageInfo>)
    ensures InfosOf(fs, dir, Kept(fs, dir, blacklist, packageNameBlacklist), r)
    ensures dir !in fs.dirs ==> r == []
  {
    Collect(fs, dir, Listing(fs, dir), blacklist, packageNameBlacklist)
  }

  /** `getAppsInfoAtPath`: the folder's entries in listing order, skipping
      blacklisted folder names, folders without a named manifest and
      blacklisted package names. */
  method GetAppsInfoAtPath(fs: FileSystem, appsPath: Path, blacklist: seq<string>, packageNameBlacklist: seq<string>)
    returns (apps: seq<PackageInfo>)
    ensures apps == AppsAt(fs, appsPath, blacklist, packageNameBlacklist)
  {
    apps := [];
    if appsPath in fs.dirs {
      var foundApps := fs.dirs[appsPath];
      ghost var accept := AcceptedFn(fs, appsPath, blacklist, packageNameBlacklist);
      for k := 0 to |foundApps|
        invariant InfosOf(fs, appsPath, Filter(foundApps[..k], accept), apps)
      {
        var appName := foundApps[k];
        FilterPrefix(foundApps, k, accept);
        if appName in blacklist {
          assert !accept(appName);
          continue;
        }
        var appPath := Join(appsPath, appName);
        var appInfo := GetAppInfo(fs, appPath);
        assert accept(appName) <==> appInfo.Some? && appInfo.value.packageName !in packageNameBlacklist;
        if appInfo.Some? {
          if appInfo.value.packageName in packageNameBlacklist {
            continue;
          }
          InfosSnoc(fs, appsPath, Filter(foundApps[..k], accept), apps, appName, appInfo.value);
          apps := apps + [appInfo.value];
        }
      }
      assert foundApps[..|foundApps|] == foundApps;
    }
    InfosUnique(fs, appsPath, Kept(fs, appsPath, blacklist, packageNameBlacklist), apps, AppsAt(fs, appsPath, blacklist, packageNameBlacklist));
  }

  /** A package is discovered in `dir` exactly when some listed entry is
      accepted and holds it. */
  lemma AppsAtMembership(fs: FileSystem, dir: Path, blacklist: seq<string>, packageNameBlacklist: seq<string>, p: PackageInfo)
    ensures p in AppsAt(fs, dir, blacklist, packageNameBlacklist) <==>
      exists e :: e in Listing(fs, dir) && Accepted(fs, dir, blacklist, packageNameBlacklist, e) && GetAppInfo(fs, Join(dir, e)) == Some(p)
  {
    var kept := Kept(fs, dir, blacklist, packageNameBlacklist);
    var r := AppsAt(fs, dir, blacklist, packageNameBlacklist);
    if p in r {
      var i :| 0 <= i < |r| && r[i] == p;
      assert kept[i] in kept;
    }
    if exists e :: e in Listing(fs, dir) && Accepted(fs, dir, blacklist, packageNameBlacklist, e) && GetAppInfo(fs, Join(dir, e)) == Some(p) {
      var e :| e in Listing(fs, dir) && Accepted(fs, dir, blacklist, packageNameBlacklist, e) && GetAppInfo(fs, Join(dir, e)) == Some(p);
      assert e in kept;
      var i :| 0 <= i < |kept| && kept[i] == e;
      assert r[i] == p;
    }
  }

  /** With plain entry names, a discovered package is a listed folder of
      `dir` whose name passes the folder blacklist, and whose package name is
      non-empty and passes the package-name blacklist. */
  lemma AppsAtNames(fs: FileSystem, dir: Path, blacklist: seq<string>, packageNameBlacklist: seq<string>, p: PackageInfo)
    requires WellFormed(fs)
    requires p in AppsAt(fs, dir, blacklist, packageNameBlacklist)
    ensures p.name in Listing(fs, dir) && p.path == Join(dir, p.name)
    ensures p.name !in blacklist && p.packageName !in packageNameBlacklist && p.packageName != ""
    ensures Found(fs, p)
  {
    AppsAtMembership(fs, dir, blacklist, packageNameBlacklist, p);
    var e :| e in Listing(fs, dir) && Accepted(fs, dir, blacklist, packageNameBlacklist, e) && GetAppInfo(fs, Join(dir, e)) == Some(p);
    ListedAppInfo(fs, dir, e);
  }

  /** Every discovered package is described by its own folder's manifest. */
  lemma AppsAtFound(fs: FileSystem, dir: Path, blacklist: seq<string>, packageNameBlacklist: seq<string>)
    ensures forall p :: p in AppsAt(fs, dir, blacklist, packageNameBlacklist) ==> Found(fs, p)
  {
    forall p | p in AppsAt(fs, dir, blacklist, packageNameBlacklist)
      ensures Found(fs, p)
    {
      AppsAtMembership(fs, dir, blacklist, packageNameBlacklist, p);
    }
  }

  /** The folder read for a workspace entry: the joined path without its
      last two characters. */
  function WorkspaceFolder(appPath: Path, workspace: string): (f: Path)
    ensures |workspace| >= 2 && workspace[|workspace| - 2..] == "/*" ==>
      f == Join(appPath, workspace[..|workspace| - 2])
  {
    if |workspace| >= 2 && workspace[|workspace| - 2..] == "/*" then
      var w := workspace[..|workspace| - 2];
      assert workspace == w + "/*";
      WorkspaceGlobFolder(appPath, w);
      DropLast2(Join(appPath, workspace))
    else DropLast2(Join(appPath, workspace))
  }

  /** What `getWorkspacesPackages` returns: the packages of each workspace
      folder, workspace after workspace, with no blacklist. */
  function WorkspaceApps(fs: FileSystem, appPath: Path, workspaces: seq<string>): seq<PackageInfo> {
    if workspaces == [] then []
    else
      var last := workspaces[|workspaces| - 1];
      WorkspaceApps(fs, appPath, workspaces[..|workspaces| - 1]) + AppsAt(fs, WorkspaceFolder(appPath, last), [], [])
  }

  method GetWorkspacesPackages(fs: FileSystem, appPath: Path, workspaces: seq<string>) returns (newApps: seq<PackageInfo>)
    ensures newApps == WorkspaceApps(fs, appPath, workspaces)
  {
    newApps := [];
    for k := 0 to |workspaces|
      invariant newApps == WorkspaceApps(fs, appPath, workspaces[..k])
    {
      var workspacePathA := Join(appPath, workspaces[k]);
      var workspacePath := DropLast2(workspacePathA);
      var appsInfo := GetAppsInfoAtPath(fs, workspacePath, [], []);
      WorkspaceAppsPrefix(fs, appPath, workspaces, k);
      newApps := newApps + appsInfo;
    }
    assert workspaces[..|workspaces|] == workspaces;
  }

  /** A package is a workspace package exactly when some listed entry of
      some workspace folder holds it: no blacklist applies. */
  lemma {:induction false} WorkspaceAppsMembership(fs: FileSystem, appPath: Path, workspaces: seq<string>, p: PackageInfo)
    ensures p in WorkspaceApps(fs, appPath, workspaces) <==>
      exists w, e :: w in workspaces && e in Listing(fs, WorkspaceFolder(appPath, w)) &&
        GetAppInfo(fs, Join(WorkspaceFolder(appPath, w), e)) == Some(p)
    decreases |workspaces|
  {
    if workspaces != [] {
      var init := workspaces[..|workspaces| - 1];
      var last := workspaces[|workspaces| - 1];
      WorkspaceAppsMembership(fs, appPath, init, p);
      AppsAtMembership(fs, WorkspaceFolder(appPath, last), [], [], p);
      assert forall w :: w in workspaces <==> w in init || w == last;
    }
  }

  /** The manifest's workspace list, as `getAllApps` reads it again. */
  function WorkspacesOf(fs: FileSystem, appPath: Path): Option<seq<string>> {
    if appPath in fs.manifests then fs.manifests[appPath].workspaces else None
  }

  /** What one package is replaced by: a workspace root by the packages of
      its workspaces, any other package by itself. */
  function ExpandOne(fs: FileSystem, app: PackageInfo): seq<PackageInfo> {
    var ws := WorkspacesOf(fs, app.path);
    if ws.Some? then WorkspaceApps(fs, app.path, ws.value) else [app]
  }

  /** Each package in turn, replaced as `ExpandOne` says. */
  function Expand(fs: FileSystem, apps: seq<PackageInfo>): seq<PackageInfo> {
    if apps == [] then []
    else Expand(fs, apps[..|apps| - 1]) + ExpandOne(fs, apps[|apps| - 1])
  }

  /** What `getAllApps` returns. */
  function AllApps(fs: FileSystem, appsPath: Path, blacklist: seq<string>, packageNameBlacklist: seq<string>): seq<PackageInfo> {
    Expand(fs, AppsAt(fs, appsPath, blacklist, packageNameBlacklist))
  }

  /** `getAllApps`: the packages at `appsPath`, each workspace root replaced
      by its workspace packages. */
  method GetAllApps(fs: FileSystem, appsPath: Path, blacklist: seq<string>, packageNameBlacklist: seq<string>)
    returns (newApps: seq<PackageInfo>)
    ensures newApps == AllApps(fs, appsPath, blacklist, packageNameBlacklist)
  {
    var apps := GetAppsInfoAtPath(fs, appsPath, blacklist, packageNameBlacklist);
    newApps := [];
    for k := 0 to |apps|
      invariant newApps == Expand(fs, apps[..k])
    {
      var app := apps[k];
      var workspaces := WorkspacesOf(fs, app.path);
      ExpandPrefix(fs, apps, k);
      if workspaces.Some? {
        var workspacePackages := GetWorkspacesPackages(fs, app.path, workspaces.value);
        newApps := newApps + workspacePackages;
      } else {
        newApps := newApps + [app];
      }
    }
    assert apps[..|apps|] == apps;
  }

  /** `getAllPackages`: another name for `getAllApps`. */
  method GetAllPackages(fs: FileSystem, packagesPath: Path, blacklist: seq<string>, packageNameBlacklist: seq<string>)
    returns (packages: seq<PackageInfo>)
    ensures packages == AllApps(fs, packagesPath, blacklist, packageNameBlacklist)
  {
    packages := GetAllApps(fs, packagesPath, blacklist, packageNameBlacklist);
  }

  /** Expanding one more package of a list appends what it is replaced by. */
  lemma ExpandPrefix(fs: FileSystem, s: seq<PackageInfo>, k: nat)
    requires k < |s|
    ensures Expand(fs, s[..k + 1]) == Expand(fs, s[..k]) + ExpandOne(fs, s[k])
  {
    assert s[..k + 1][..k] == s[..k];
  }

  /** The same, one more workspace. */
  lemma WorkspaceAppsPrefix(fs: FileSystem, appPath: Path, ws: seq<string>, k: nat)
    requires k < |ws|
    ensures WorkspaceApps(fs, appPath, ws[..k + 1]) ==
      WorkspaceApps(fs, appPath, ws[..k]) + AppsAt(fs, WorkspaceFolder(appPath, ws[k]), [], [])
  {
    assert ws[..k + 1][..k] == ws[..k];
  }

  /** A package ends up in the result exactly when it is listed and no
      workspace root, or it is a workspace package of a listed root. Roots
      themselves are dropped, and workspace packages are taken as found:
      their own workspaces are not expanded. */
  lemma {:induction false} ExpandMembership(fs: FileSystem, apps: seq<PackageInfo>, p: PackageInfo)
    ensures p in Expand(fs, apps) <==>
      (p in apps && WorkspacesOf(fs, p.path).None?) ||
      (exists a :: a in apps && WorkspacesOf(fs, a.path).Some? && p in WorkspaceApps(fs, a.path, WorkspacesOf(fs, a.path).value))
    decreases |apps|
  {
    if apps != [] {
      var init := apps[..|apps| - 1];
      var last := apps[|apps| - 1];
      ExpandMembership(fs, init, p);
      assert forall a :: a in apps <==> a in init || a == last;
    }
  }

  /** Every package `getAllApps` returns is described by its own folder's
      manifest. */
  lemma AllAppsFound(fs: FileSystem, appsPath: Path, blacklist: seq<string>, packageNameBlacklist: seq<string>)
    ensures forall p :: p in AllApps(fs, appsPath, blacklist, packageNameBlacklist) ==> Found(fs, p)
  {
    var apps := AppsAt(fs, appsPath, blacklist, packageNameBlacklist);
    AppsAtFound(fs, appsPath, blacklist, packageNameBlacklist);
    forall p | p in AllApps(fs, appsPath, blacklist, packageNameBlacklist)
      ensures Found(fs, p)
    {
      ExpandMembership(fs, apps, p);
      if !(p in apps) {
        var a :| a in apps && WorkspacesOf(fs, a.path).Some? && p in WorkspaceApps(fs, a.path, WorkspacesOf(fs, a.path).value);
        WorkspaceAppsMembership(fs, a.path, WorkspacesOf(fs, a.path).value, p);
      }
    }
  }

  /** The packages built from the discovered folders, one per folder and in
      order, when every folder has a manifest. */
  predicate ConvertedFrom(fs: FileSystem, packages: seq<PackageInfo>, nodePackages: seq<NodePackage>)
    requires forall p :: p in packages ==> p.path in fs.manifests
  {
    |nodePackages| == |packages| &&
    forall i :: 0 <= i < |packages| ==> nodePackages[i] == FromManifest(packages[i].path, fs.manifests[packages[i].path])
  }

  /** `appsToNodePackages`: one package per info, read from its folder, in
      order; `None` when some folder has no manifest to read. */
  method AppsToNodePackages(fs: FileSystem, packages: seq<PackageInfo>) returns (r: Option<seq<NodePackage>>)
    ensures r.Some? <==> forall p :: p in packages ==> p.path in fs.manifests
    ensures r.Some? ==> ConvertedFrom(fs, packages, r.value)
  {
    var nodePackages := [];
    for k := 0 to |packages|
      invariant forall p :: p in packages[..k] ==> p.path in fs.manifests
      invariant ConvertedFrom(fs, packages[..k], nodePackages)
    {
      var path := packages[k].path;
      if path !in fs.manifests {
        assert packages[k] in packages;
        return None;
      }
      assert packages[..k + 1] == packages[..k] + [packages[k]];
      nodePackages := nodePackages + [FromManifest(path, fs.manifests[path])];
    }
    assert packages[..|packages|] == packages;
    r := Some(nodePackages);
  }

  /** Converting discovered packages never fails, and each package keeps the
      discovered folder, folder name, package name, version and privacy. */
  lemma DiscoveredConvert(fs: FileSystem, packages: seq<PackageInfo>, nodePackages: seq<NodePackage>)
    requires forall p :: p in packages ==> Found(fs, p)
    ensures forall p :: p in packages ==> p.path in fs.manifests
    ensures ConvertedFrom(fs, packages, nodePackages) ==>
      forall i :: 0 <= i < |packages| ==>
        nodePackages[i].path == packages[i].path && nodePackages[i].name == packages[i].name &&
        nodePackages[i].packageName == packages[i].packageName && nodePackages[i].version == packages[i].version &&
        nodePackages[i].packageJson.isPrivate == packages[i].isPrivate
  {
    forall i | 0 <= i < |packages|
      ensures Found(fs, packages[i])
    {
      assert packages[i] in packages;
    }
  }
}
