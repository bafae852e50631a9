/** The older package discovery of `src/apps.ts`: the same folder walk as
    `src/lib/apps.ts`, with a folder-name blacklist only, recording only the
    package name, the folder name and the folder. Each operation is proved
    to return what the newer discovery returns with an empty package-name
    blacklist, cut down to those three fields. */
module LegacyApps {
  import opened Wrappers
  import opened Seqs
  import opened Paths
  import opened NodePackages
  import Apps

  /** `IAppInfo`. */
  datatype AppInfo = AppInfo(packageName: string, name: string, path: Path)

  /** The newer record cut down to the older one. */
  function Project(p: Apps.PackageInfo): AppInfo {
    AppInfo(p.packageName, p.name, p.path)
  }

  function ProjectAll(s: seq<Apps.PackageInfo>): (r: seq<AppInfo>)
    ensures |r| == |s|
    ensures forall i :: 0 <= i < |s| ==> r[i] == Project(s[i])
  {
    seq(|s|, i requires 0 <= i < |s| => Project(s[i]))
  }

  lemma ProjectAllConcat(a: seq<Apps.PackageInfo>, b: seq<Apps.PackageInfo>)
    ensures ProjectAll(a + b) == ProjectAll(a) + ProjectAll(b)
  {
  }

  /** `getAppInfo`: nothing for a folder without a manifest or with a
      nameless one; otherwise the manifest name, the folder name and the
      folder. */
  function GetAppInfo(fs: Apps.FileSystem, appPath: Path): (r: Option<AppInfo>)
    ensures r.None? <==> appPath !in fs.manifests || fs.manifests[appPath].name == ""
  {
    if appPath !in fs.manifests then None
    else
      var m := fs.manifests[appPath];
      if m.name == "" then None
      else Some(AppInfo(m.name, Basename(appPath), appPath))
  }

  /** The older record is the newer one cut down. */
  lemma InfoAgrees(fs: Apps.FileSystem, appPath: Path)
    ensures GetAppInfo(fs, appPath).Some? <==> Apps.GetAppInfo(fs, appPath).Some?
    ensures GetAppInfo(fs, appPath).Some? ==> GetAppInfo(fs, appPath).value == Project(Apps.GetAppInfo(fs, appPath).value)
  {
  }

  /** `infos` describe the packages of `entries` of `dir`, one for one and in order. */
  predicate InfosOf(fs: Apps.FileSystem, dir: Path, entries: seq<string>, infos: seq<AppInfo>) {
    |infos| == |entries| &&
    forall i :: 0 <= i < |entries| ==> GetAppInfo(fs, Join(dir, entries[i])) == Some(infos[i])
  }

  /** One more entry, one more info. */
  lemma InfosSnoc(fs: Apps.FileSystem, dir: Path, entries: seq<string>, infos: seq<AppInfo>, e: string, info: AppInfo)
    requires InfosOf(fs, dir, entries, infos)
    requires GetAppInfo(fs, Join(dir, e)) == Some(info)
    ensures InfosOf(fs, dir, entries + [e], infos + [info])
  {
  }

  /** The infos of the kept entries are the newer discovery's, cut down. */
  lemma InfosProject(fs: Apps.FileSystem, dir: Path, blacklist: seq<string>, infos: seq<AppInfo>)
    requires InfosOf(fs, dir, Apps.Kept(fs, dir, blacklist, []), infos)
    ensures infos == ProjectAll(Apps.AppsAt(fs, dir, blacklist, []))
  {
    var kept := Apps.Kept(fs, dir, blacklist, []);
    var newer := Apps.AppsAt(fs, dir, blacklist, []);
    forall i | 0 <= i < |infos|
      ensures infos[i] == Project(newer[i])
    {
      InfoAgrees(fs, Join(dir, kept[i]));
    }
  }

  /** `getAppsInfoAtPath`: the folder's entries in listing order, skipping
      blacklisted folder names and folders without a named manifest; a
      folder that does not exist gives nothing. */
  method GetAppsInfoAtPath(fs: Apps.FileSystem, appsPath: Path, blacklist: seq<string>) returns (apps: seq<AppInfo>)
    ensures apps == ProjectAll(Apps.AppsAt(fs, appsPath, blacklist, []))
  {
    apps := [];
    if appsPath in fs.dirs {
      var foundApps := fs.dirs[appsPath];
      ghost var accept := Apps.AcceptedFn(fs, appsPath, blacklist, []);
      for k := 0 to |foundApps|
        invariant InfosOf(fs, appsPath, Filter(foundApps[..k], accept), apps)
      {
        var appName := foundApps[k];
        FilterPrefix(foundApps, k, accept);
        if appName in blacklist {
          assert !accept(appName);
          continue;
        }
        var appPath := Join(appsPath, appName);
        var appInfo := GetAppInfo(fs, appPath);
        InfoAgrees(fs, appPath);
        assert accept(appName) <==> appInfo.Some?;
        if appInfo.Some? {
          InfosSnoc(fs, appsPath, Filter(foundApps[..k], accept), apps, appName, appInfo.value);
          apps := apps + [appInfo.value];
        }
      }
      assert foundApps[..|foundApps|] == foundApps;
    }
    InfosProject(fs, appsPath, blacklist, apps);
  }

  /** `getWorkspacesPackages`: the packages of each workspace folder (the
      joined path without its last two characters), workspace after
      workspace, with no blacklist. */
  method GetWorkspacesPackages(fs: Apps.FileSystem, appPath: Path, workspaces: seq<string>) returns (newApps: seq<AppInfo>)
    ensures newApps == ProjectAll(Apps.WorkspaceApps(fs, appPath, workspaces))
  {
    newApps := [];
    for k := 0 to |workspaces|
      invariant newApps == ProjectAll(Apps.WorkspaceApps(fs, appPath, workspaces[..k]))
    {
      var workspacePathA := Join(appPath, workspaces[k]);
      var workspacePath := DropLast2(workspacePathA);
      var appsInfo := GetAppsInfoAtPath(fs, workspacePath, []);
      Apps.WorkspaceAppsPrefix(fs, appPath, workspaces, k);
      ProjectAllConcat(Apps.WorkspaceApps(fs, appPath, workspaces[..k]), Apps.AppsAt(fs, workspacePath, [], []));
      newApps := newApps + appsInfo;
    }
    assert workspaces[..|workspaces|] == workspaces;
  }

  /** `getAllApps`: the packages at `appsPath`, each workspace root
      replaced by its workspace packages, one level deep. */
  method GetAllApps(fs: Apps.FileSystem, appsPath: Path, blacklist: seq<string>) returns (newApps: seq<AppInfo>)
    ensures newApps == ProjectAll(Apps.AllApps(fs, appsPath, blacklist, []))
  {
    var apps := GetAppsInfoAtPath(fs, appsPath, blacklist);
    ghost var found := Apps.AppsAt(fs, appsPath, blacklist, []);
    newApps := [];
    for k := 0 to |apps|
      invariant newApps == ProjectAll(Apps.Expand(fs, found[..k]))
    {
      var app := apps[k];
      var workspaces := Apps.WorkspacesOf(fs, app.path);
      Apps.ExpandPrefix(fs, found, k);
      ProjectAllConcat(Apps.Expand(fs, found[..k]), Apps.ExpandOne(fs, found[k]));
      if workspaces.Some? {
        var workspacePackages := GetWorkspacesPackages(fs, app.path, workspaces.value);
        newApps := newApps + workspacePackages;
      } else {
        newApps := newApps + [app];
      }
    }
    assert found[..|found|] == found;
  }

  /** With plain entry names, a package found in `dir` is a listed folder
      whose name is not blacklisted, with a named manifest, and its record
      holds the manifest name, that folder name and the folder. */
  lemma AppsAtNames(fs: Apps.FileSystem, dir: Path, blacklist: seq<string>, a: AppInfo)
    requires Apps.WellFormed(fs)
    requires a in ProjectAll(Apps.AppsAt(fs, dir, blacklist, []))
    ensures a.name in Apps.Listing(fs, dir) && a.name !in blacklist
    ensures a.path == Join(dir, a.name)
    ensures a.path in fs.manifests && a.packageName == fs.manifests[a.path].name != ""
  {
    var found := Apps.AppsAt(fs, dir, blacklist, []);
    var i :| 0 <= i < |found| && ProjectAll(found)[i] == a;
    assert found[i] in found;
    Apps.AppsAtNames(fs, dir, blacklist, [], found[i]);
  }
}
