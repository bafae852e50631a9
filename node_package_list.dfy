/** The package collection of `src/package/NodePackageList.ts`: a list of
    packages and three order-preserving filters over it, by package name
    or by folder name. */
module NodePackageLists {
  import opened Seqs
  import opened NodePackages
  import opened Wrappers
  import Paths
  import Apps

  datatype NodePackageList = NodePackageList(nodePackages: seq<NodePackage>)

  /** A package whose package name is listed, as a predicate value. */
  function NameListedIn(names: seq<string>): NodePackage -> bool {
    (p: NodePackage) => p.packageName in names
  }

  /** A package whose folder name is listed, as a predicate value. */
  function FolderListedIn(names: seq<string>): NodePackage -> bool {
    (p: NodePackage) => p.name in names
  }

  /** A package whose folder name is not listed, as a predicate value. */
  function FolderNotListedIn(names: seq<string>): NodePackage -> bool {
    (p: NodePackage) => p.name !in names
  }

  /** `fromPackagesPath`: every package under the folder, workspace
      packages included and no blacklist, read into packages in discovery
      order; `None` when a discovered folder has no manifest to read. */
  method FromPackagesPath(fs: Apps.FileSystem, packagesPath: Paths.Path) returns (r: Option<NodePackageList>)
    ensures r.Some? <==> forall p :: p in Apps.AllApps(fs, packagesPath, [], []) ==> p.path in fs.manifests
    ensures r.Some? ==> Apps.ConvertedFrom(fs, Apps.AllApps(fs, packagesPath, [], []), r.value.nodePackages)
  {
    var allPackages := Apps.GetAllPackages(fs, packagesPath, [], []);
    var nodePackages := Apps.AppsToNodePackages(fs, allPackages);
    if nodePackages.None? {
      return None;
    }
    r := Some(NodePackageList(nodePackages.value));
  }

  /** The held list itself. */
  function GetNodePackages(l: NodePackageList): (r: seq<NodePackage>)
    ensures r == l.nodePackages
  {
    l.nodePackages
  }

  /** The packages whose package name is in the whitelist, in list order. */
  function GetNodePackagesWhitelist(l: NodePackageList, whitelist: seq<string>): (r: seq<NodePackage>)
    ensures forall p :: p in r <==> p in l.nodePackages && p.packageName in whitelist
    ensures Subseq(r, l.nodePackages)
  {
    FilterIsSubseq(l.nodePackages, NameListedIn(whitelist));
    Filter(l.nodePackages, NameListedIn(whitelist))
  }

  /** The packages whose folder name is in the whitelist, in list order. */
  function GetNodePackagesFolderNameWhitelisted(l: NodePackageList, whitelist: seq<string>): (r: seq<NodePackage>)
    ensures forall p :: p in r <==> p in l.nodePackages && p.name in whitelist
    ensures Subseq(r, l.nodePackages)
  {
    FilterIsSubseq(l.nodePackages, FolderListedIn(whitelist));
    Filter(l.nodePackages, FolderListedIn(whitelist))
  }

  /** The packages whose folder name is not in the blacklist, in list order. */
  function GetNodePackagesFolderNameBlacklisted(l: NodePackageList, blacklist: seq<string>): (r: seq<NodePackage>)
    ensures forall p :: p in r <==> p in l.nodePackages && p.name !in blacklist
    ensures Subseq(r, l.nodePackages)
  {
    FilterIsSubseq(l.nodePackages, FolderNotListedIn(blacklist));
    Filter(l.nodePackages, FolderNotListedIn(blacklist))
  }

  /** For one list of folder names, whitelisting and blacklisting split the
      packages between them: together they hold every package exactly as
      often as the collection does. */
  lemma FolderListsPartition(l: NodePackageList, names: seq<string>)
    ensures multiset(GetNodePackagesFolderNameWhitelisted(l, names)) +
            multiset(GetNodePackagesFolderNameBlacklisted(l, names)) == multiset(l.nodePackages)
    ensures |GetNodePackagesFolderNameWhitelisted(l, names)| + |GetNodePackagesFolderNameBlacklisted(l, names)| == |l.nodePackages|
  {
    FilterPartition(l.nodePackages, FolderListedIn(names), FolderNotListedIn(names));
    assert |multiset(l.nodePackages)| == |l.nodePackages|;
  }

  /** An empty whitelist keeps nothing; an empty blacklist keeps everything. */
  lemma EmptyLists(l: NodePackageList)
    ensures GetNodePackagesWhitelist(l, []) == []
    ensures GetNodePackagesFolderNameWhitelisted(l, []) == []
    ensures GetNodePackagesFolderNameBlacklisted(l, []) == l.nodePackages
  {
    FilterNone(l.nodePackages, NameListedIn([]));
    FilterNone(l.nodePackages, FolderListedIn([]));
    FilterAll(l.nodePackages, FolderNotListedIn([]));
  }
}
