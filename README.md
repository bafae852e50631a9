# package-deployer, modelled in Dafny

package-deployer finds the Node packages under a folder of repositories,
including the packages of npm/pnpm workspaces. It orders them by their
dependencies with Kahn's topological sort, and for each package installs,
builds and (unless the package is private) publishes it to a Verdaccio
registry. A deployment ledger records the version of every package that
deployed successfully. An incremental deployment deploys only the packages
whose version is newer than the ledger's, plus every package that depends
on them, still in build order and still under the configured policy. The
policy is a whitelist or a blacklist of repository folder names, and can
also skip private packages.

The model has one module per source file, plus a few shared modules:

- `Wrappers`: Option and Result.
- `Seqs`: filter, deduplication, subsequences, distinctness.
- `Paths`: `path.join`, `path.basename` and the two-character slice.
- `SemVer`: release versions and their precedence.
- `Utf8` and `Base64`: the two encodings behind the registry's basic-auth
  header.
- `ConfigRecords`: the configuration record that both configuration classes
  hold.
- `Kahn` and `KahnProperties`: the sort that all three dependency-graph
  implementations share, and what its outcome means.

The model takes the source's form:

- Classes whose methods update fields become Dafny classes with `modifies`
  clauses. These are the two configuration classes, the ledger, the
  manifest editor, the two command builders, the graph class and the
  orchestrator.
- Every loop of the source is a method with a loop whose invariants prove
  it against a specification function. Examples are the folder walk, the
  edge-building and draining loops of Kahn's algorithm, the fixed-point
  expansion of the affected set, the deployment loop and the ledger update.
- Pure helpers are functions.

The file system, the registry, child processes and the environment are not
called. They become parameters:

- a map from folders to their entries, and a map from folders to their
  parsed manifests;
- the registry's listing;
- a predicate saying whether a spawned command exits successfully;
- the set of storage folders;
- the value of `VERDACCIO_STORAGE` and the home folder.

Three defects of the source are modelled twice, once as written and once
corrected (see Findings). The rest of the model uses the corrected
definitions:

- `PackageDeployers.DeployPackage` publishes with `NodePackages.Publish`, and
  so do `PackageDeployers.DeployPackages`,
  `PackageDeployers.PackageDeployer.Deploy` and the orchestrator's
  deployments. `PackageDeployers.DeployPackageAsWritten` publishes with
  `NodePackages.PublishAsWritten`.
- `PackagesFilters.PackagesFilter.DirectlyAffected`,
  `PackagesFilters.PackagesFilter.GetIncrementalBuildOrder` and
  `Orchestrators.PackageDeployerOrchestrator.IncrementalDeployment` use the
  corrected `PackagesFilters.AffectedPackages`.
- `KhansGraph.KhansDependencyGraph.TopologicalSort`,
  `KhansGraph.KhansDependencyGraph.GetBuildOrder` and
  `KhansGraph.KhansDependencyGraph.GetAffectedPackages` sort with
  `KhansGraph.SortBuilt`, which appends each dequeued package to the order.

The build order of all three graph implementations is pinned down
completely. It lists every package after its dependencies, and it follows
Kahn's FIFO queue: packages are ordered by the position of their last-built
dependency, and ties are broken by package-list order (`Kahn.FifoOrder`).
`KahnProperties.FifoUnique` proves that only one order satisfies both.

## Model

| member | source | states |
|---|---|---|
| Configuration.PackageDeployerConfiguration.constructor | src/configuration/PackageDeployerConfiguration.ts:18-20 | the object holds exactly the given record |
| Configuration.Under | src/configuration/PackageDeployerConfiguration.ts:40-63 | a derived folder exists exactly when the application folder is set, and it lies strictly below that folder |
| Configuration.DerivedPathsDistinct | src/configuration/PackageDeployerConfiguration.ts:40-63 | the repositories, monorepo, configuration and data folders are pairwise distinct |
| Configuration.PackageDeployerConfiguration.WhitelistAdd | src/configuration/PackageDeployerConfiguration.ts:69-71 | the name is appended to the whitelist (duplicates kept); every other part of the record is unchanged |
| Configuration.PackageDeployerConfiguration.SetListType | src/configuration/PackageDeployerConfiguration.ts:83-85 | only the list in effect changes |
| Configuration.PackageDeployerConfiguration.BlacklistAdd | src/configuration/PackageDeployerConfiguration.ts:90-92 | the name is appended to the repository blacklist; nothing else changes |
| Configuration.PackageDeployerConfiguration.PackageBlacklistAdd | src/configuration/PackageDeployerConfiguration.ts:97-99 | the package name goes to the repository blacklist, and the packages blacklist is left unchanged |
| Configuration.PackageDeployerConfiguration.SetPackagesPath | src/configuration/PackageDeployerConfiguration.ts:139-141 | only the packages folder changes |
| Configuration.PackageDeployerConfiguration.SetGithubToken | src/configuration/PackageDeployerConfiguration.ts:146-148 | only the token changes |
| Configuration.PackageDeployerConfiguration.SetGithubUserUrl | src/configuration/PackageDeployerConfiguration.ts:153-155 | the URL is stored as the profile URL; nothing else changes |
| Configuration.PackageDeployerConfiguration.SetRegistryPassword | src/configuration/PackageDeployerConfiguration.ts:160-162 | only the registry password changes |
| Configuration.PackageDeployerConfiguration.SetRegistryUrl | src/configuration/PackageDeployerConfiguration.ts:167-169 | only the registry URL changes |
| Configuration.PackageDeployerConfiguration.SetRegistryUsername | src/configuration/PackageDeployerConfiguration.ts:174-176 | only the registry username changes |
| Configuration.PackageDeployerConfiguration.Load | src/configuration/PackageDeployerConfiguration.ts:204-245 | the stored record when the file reads; otherwise the fallback with packages under `appPath/repos`, overlaid with the defaults file's keys |
| Configuration.PackageDeployerConfiguration.AppPath | src/configuration/PackageDeployerConfiguration.ts:26-28 | the held app folder |
| Configuration.PackageDeployerConfiguration.PackagesPath | src/configuration/PackageDeployerConfiguration.ts:33-35 | the held packages folder |
| Configuration.PackageDeployerConfiguration.RepositoriesPath | src/configuration/PackageDeployerConfiguration.ts:40-42 | `repos` joined under the app folder, and nothing when no app folder is set |
| Configuration.PackageDeployerConfiguration.MonorepoPath | src/configuration/PackageDeployerConfiguration.ts:47-49 | `monorepo` joined under the app folder, and nothing when no app folder is set |
| Configuration.PackageDeployerConfiguration.ConfigurationPath | src/configuration/PackageDeployerConfiguration.ts:54-56 | `configuration` joined under the app folder, and nothing when no app folder is set |
| Configuration.PackageDeployerConfiguration.DataPath | src/configuration/PackageDeployerConfiguration.ts:61-63 | `data` joined under the app folder, and nothing when no app folder is set |
| Configuration.PackageDeployerConfiguration.GetWhitelist | src/configuration/PackageDeployerConfiguration.ts:76-78 | returns the held repository whitelist |
| Configuration.PackageDeployerConfiguration.GetBlacklist | src/configuration/PackageDeployerConfiguration.ts:104-106 | returns the held repository blacklist |
| Configuration.PackageDeployerConfiguration.GetPackagesPath | src/configuration/PackageDeployerConfiguration.ts:111-113 | returns the held packages folder |
| Configuration.PackageDeployerConfiguration.GetRegistryPassword | src/configuration/PackageDeployerConfiguration.ts:118-120 | returns the held registry password |
| Configuration.PackageDeployerConfiguration.GetRegistryUrl | src/configuration/PackageDeployerConfiguration.ts:125-127 | returns the held registry URL |
| Configuration.PackageDeployerConfiguration.GetRegistryUsername | src/configuration/PackageDeployerConfiguration.ts:132-134 | returns the held registry username |
| ConfigRecords.Fallback | src/configuration/PackageDeployerConfiguration.ts:231-242 | the fallback has both lists empty, the whitelist in effect, no packages blacklist, and the given application and packages folders |
| ConfigRecords.LoadRecord | src/configuration/PackageDeployerConfiguration.ts:204-245 | a stored record wins; with no defaults file the result is the fallback, otherwise the fallback overlaid with the defaults |
| ConfigRecords.OverlayLaws | src/configuration/PackageDeployerConfiguration.ts:231-242 | spreading no keys changes nothing, and spreading the same keys twice is spreading them once |
| DeployerConfiguration.PackageDeployerConfiguration.constructor | src/packageDeployer/PackageDeployerConfiguration.ts:19-21 | the object holds exactly the given record |
| DeployerConfiguration.PackageDeployerConfiguration.WhitelistAdd | src/packageDeployer/PackageDeployerConfiguration.ts:26-28 | the name is appended to the whitelist; nothing else changes |
| DeployerConfiguration.PackageDeployerConfiguration.SetListType | src/packageDeployer/PackageDeployerConfiguration.ts:40-42 | only the list in effect changes |
| DeployerConfiguration.PackageDeployerConfiguration.BlacklistAdd | src/packageDeployer/PackageDeployerConfiguration.ts:47-49 | the name is appended to the repository blacklist; nothing else changes |
| DeployerConfiguration.PackageDeployerConfiguration.PackageBlacklistAdd | src/packageDeployer/PackageDeployerConfiguration.ts:54-56 | the package name goes to the repository blacklist, and the packages blacklist is unchanged |
| DeployerConfiguration.PackageDeployerConfiguration.SetPackagesPath | src/packageDeployer/PackageDeployerConfiguration.ts:96-98 | only the packages folder changes |
| DeployerConfiguration.PackageDeployerConfiguration.SetGithubToken | src/packageDeployer/PackageDeployerConfiguration.ts:103-105 | only the token changes |
| DeployerConfiguration.PackageDeployerConfiguration.SetGithubUserUrl | src/packageDeployer/PackageDeployerConfiguration.ts:110-112 | the URL is stored as the profile URL; nothing else changes |
| DeployerConfiguration.PackageDeployerConfiguration.SetRegistryPassword | src/packageDeployer/PackageDeployerConfiguration.ts:117-119 | only the registry password changes |
| DeployerConfiguration.PackageDeployerConfiguration.SetRegistryUrl | src/packageDeployer/PackageDeployerConfiguration.ts:124-126 | only the registry URL changes |
| DeployerConfiguration.PackageDeployerConfiguration.SetRegistryUsername | src/packageDeployer/PackageDeployerConfiguration.ts:131-133 | only the registry username changes |
| DeployerConfiguration.PackageDeployerConfiguration.Load | src/packageDeployer/PackageDeployerConfiguration.ts:161-206 | the stored record when the file reads; otherwise the fallback with no application folder and the given repositories folder, overlaid with the defaults |
| DeployerConfiguration.PackageDeployerConfiguration.GetWhitelist | src/packageDeployer/PackageDeployerConfiguration.ts:33-35 | returns the held repository whitelist |
| DeployerConfiguration.PackageDeployerConfiguration.GetBlacklist | src/packageDeployer/PackageDeployerConfiguration.ts:61-63 | returns the held repository blacklist |
| DeployerConfiguration.PackageDeployerConfiguration.GetPackagesPath | src/packageDeployer/PackageDeployerConfiguration.ts:68-70 | returns the held packages folder |
| DeployerConfiguration.PackageDeployerConfiguration.GetRegistryPassword | src/packageDeployer/PackageDeployerConfiguration.ts:75-77 | returns the held registry password |
| DeployerConfiguration.PackageDeployerConfiguration.GetRegistryUrl | src/packageDeployer/PackageDeployerConfiguration.ts:82-84 | returns the held registry URL |
| DeployerConfiguration.PackageDeployerConfiguration.GetRegistryUsername | src/packageDeployer/PackageDeployerConfiguration.ts:89-91 | returns the held registry username |
| DeploymentStates.DeploymentState.constructor | src/data/DeploymentState.ts:25-32 | a given previous state is adopted; otherwise the ledger starts empty |
| DeploymentStates.DeploymentState.GetDeploymentState | src/data/DeploymentState.ts:37-39 | returns the held ledger |
| DeploymentStates.DeploymentState.GetDeploymentStateAsMap | src/data/DeploymentState.ts:44-51 | the copy made key by key holds exactly the ledger's entries |
| DeploymentStates.DeploymentState.SetPackageState | src/data/DeploymentState.ts:56-59 | the entry is set or replaced, every other entry stays, and the ledger itself is returned |
| DeploymentStates.FilePath | src/data/DeploymentState.ts:64-71 | the ledger file is `packageDeploymentState.yaml` inside the configuration folder |
| DeploymentStates.DeploymentState.Load | src/data/DeploymentState.ts:76-94 | a new ledger holding the parsed file, or an empty ledger when there is none |
| DeploymentStates.DeploymentState.Save | src/data/DeploymentState.ts:99-106 | the whole ledger is written |
| Verdaccio.RegistryUrl | src/lib/verdaccio.ts:16 | the configured URL when set and non-empty, else `http://localhost:4873`; never empty |
| Verdaccio.Login | src/lib/verdaccio.ts:18-28 | succeeds exactly when both username and password are set and non-empty; otherwise the username error takes precedence over the password error |
| Verdaccio.GetVerdaccioFromConfiguration | src/lib/verdaccio.ts:7-38 | fails exactly when the login fails, with its message; otherwise a client for the registry URL whose credentials read back as the username and password |
| Repositories.SshUrl | src/repository/Repository.ts:20-22 | the URL starts with `git@github.com:` and ends with `.git` around the full name |
| Repositories.FullNameRoundTrip | src/repository/Repository.ts:20-22 | the full name can be read back from the SSH URL |
| Repositories.SshUrlInjective | src/repository/Repository.ts:20-22 | repositories with different full names get different URLs |
| Repositories.FullNameOf | src/repository/Repository.ts:20-22 | whatever full name is read back from a URL rebuilds that URL |
| RemotePackageLists.RemotePackageList.constructor | src/package/RemotePackageList.ts:15-17 | the list holds the given map |
| RemotePackageLists.RemotePackageList.GetPackages | src/package/RemotePackageList.ts:78-80 | returns the held map of remote records |
| RemotePackageLists.ToMap | src/package/RemotePackageList.ts:68-70 | the keys are exactly the record names, each key maps to a record of that name |
| RemotePackageLists.ToMapLast | src/package/RemotePackageList.ts:68-70 | of several records with one name, the last one is kept |
| RemotePackageLists.LocalRecords | src/package/RemotePackageList.ts:58-70 | a name is a key exactly when it is a local package name and the registry has a record of it |
| RemotePackageLists.FetchRemotePackages | src/package/RemotePackageList.ts:22-73 | fails exactly when the login fails, before any request; otherwise sends the listing request with the registry URL and credentials and keeps the records of the local packages |
| NodePackageLists.FromPackagesPath | src/package/NodePackageList.ts:20-28 | succeeds exactly when every discovered folder has a manifest, and then holds one package per discovered folder, in discovery order |
| NodePackageLists.GetNodePackages | src/package/NodePackageList.ts:33-35 | returns the held package list |
| NodePackageLists.GetNodePackagesWhitelist | src/package/NodePackageList.ts:40-44 | exactly the packages whose package name is whitelisted, in list order |
| NodePackageLists.GetNodePackagesFolderNameWhitelisted | src/package/NodePackageList.ts:49-51 | exactly the packages whose folder name is whitelisted, in list order |
| NodePackageLists.GetNodePackagesFolderNameBlacklisted | src/package/NodePackageList.ts:56-58 | exactly the packages whose folder name is not blacklisted, in list order |
| NodePackageLists.FolderListsPartition | src/package/NodePackageList.ts:49-58 | for one list of folder names the whitelisted and the blacklisted packages together are the whole list, as a multiset |
| NodePackageLists.EmptyLists | src/package/NodePackageList.ts:40-58 | an empty whitelist keeps nothing and an empty blacklist keeps everything |
| PackageJsons.PackageJson.constructor | src/PackageJson.ts:15-18 | the editor holds the given manifest and path |
| PackageJsons.PackageJson.SetName | src/PackageJson.ts:23-25 | only the name changes |
| PackageJsons.WithWorkspace | src/PackageJson.ts:30-39 | the workspace list exists afterwards and ends with the new path; every other field stays |
| PackageJsons.WorkspacesInOrder | src/PackageJson.ts:30-39 | successive additions append in call order after the list that was there |
| PackageJsons.PackageJson.AddWorkspace | src/PackageJson.ts:30-39 | the manifest becomes `WithWorkspace` of the old one |
| PackageJsons.PackageJson.Load | src/PackageJson.ts:44-53 | a new editor for the parsed manifest and its path |
| PackageJsons.PackageJson.Save | src/PackageJson.ts:58-61 | the whole manifest is written back to the file it came from |
| Apps.GetAppInfo | src/lib/apps.ts:23-53 | nothing exactly when the folder has no manifest or a nameless one; otherwise a named record for that folder |
| Apps.ListedAppInfo | src/lib/apps.ts:23-53 | a package listed as an entry is named after the entry and carries its manifest's name, privacy and version |
| Apps.AppsAt | src/lib/apps.ts:65-104 | one record per kept entry, in listing order; nothing for a folder that does not exist |
| Apps.GetAppsInfoAtPath | src/lib/apps.ts:65-104 | the loop returns `AppsAt`: listing order, both blacklists applied, folders without a named manifest skipped |
| Apps.AppsAtMembership | src/lib/apps.ts:65-104 | a record is found exactly when some listed entry passes both blacklists and holds that package |
| Apps.AppsAtNames | src/lib/apps.ts:65-104 | with plain entry names, a found package is a listed, non-blacklisted folder whose own manifest describes it |
| Apps.AppsAtFound | src/lib/apps.ts:65-104 | every found package is described by its own folder's manifest |
| Apps.WorkspaceFolder | src/lib/apps.ts:117-122 | for a `dir/*` workspace glob the folder read is `dir` itself |
| Apps.GetWorkspacesPackages | src/lib/apps.ts:109-130 | the packages of each workspace folder, workspace after workspace, with no blacklist |
| Apps.WorkspaceAppsMembership | src/lib/apps.ts:109-130 | a package is a workspace package exactly when some workspace folder lists it |
| Apps.GetAllApps | src/lib/apps.ts:142-172 | the packages at the folder, each workspace root replaced by its workspace packages, one level deep |
| Apps.ExpandMembership | src/lib/apps.ts:142-172 | a package is in the result exactly when it is a found package without workspaces or a package of a found root's workspace |
| Apps.AllAppsFound | src/lib/apps.ts:142-172 | every package returned is described by its own folder's manifest |
| Apps.GetAllPackages | src/lib/apps.ts:184-192 | the same packages as `getAllApps` |
| Apps.AppsToNodePackages | src/lib/apps.ts:197-206 | succeeds exactly when every folder has a manifest, and then gives one package per record, read from its folder, in order |
| Apps.DiscoveredConvert | src/lib/apps.ts:197-206 | converting discovered packages never fails, and each package keeps the record's folder, folder name, package name, version and privacy |
| LegacyApps.GetAppInfo | src/apps.ts:23-51 | nothing exactly when the folder has no manifest or a nameless one |
| LegacyApps.InfoAgrees | src/apps.ts:23-51 | the older record is the newer `getAppInfo` record cut down to name, folder name and folder |
| LegacyApps.GetAppsInfoAtPath | src/apps.ts:58-89 | the newer discovery with no package-name blacklist, cut down |
| LegacyApps.GetWorkspacesPackages | src/apps.ts:94-115 | the newer workspace discovery, cut down |
| LegacyApps.GetAllApps | src/apps.ts:122-151 | the newer `getAllApps` with no package-name blacklist, cut down |
| LegacyApps.AppsAtNames | src/apps.ts:58-89 | a found package is a listed, non-blacklisted folder with a named manifest, named after the folder |
| NodePackages.FolderNameOfListedPackage | src/package/NodePackage.ts:25-38 | a package built from a listed entry has the entry as folder name and the manifest's name and version |
| NodePackages.CreatePackageManager | src/package/NodePackage.ts:43-56 | npm exactly when the folder has `package-lock.json`, pnpm otherwise, each a fresh builder for that folder |
| NodePackages.Install | src/package/NodePackage.ts:83-86 | spawns the engine's `install` with the lock-file flag, in the package folder, through a shell only on Windows |
| NodePackages.Build | src/package/NodePackage.ts:91-94 | spawns the engine's `run build` in the package folder |
| NodePackages.PublishAsWritten | src/package/NodePackage.ts:99-102 | as written, publishing always fails |
| NodePackages.Publish | src/package/NodePackage.ts:99-102 | spawns the engine's `publish` in the package folder |
| NodePackages.SameNameSamePackage | src/package/NodePackage.ts:25-38 | in a list with distinct package names, the name determines the package |
| PackageManager.NPM.constructor | src/packageManager/NPM.ts:15-17 | a builder for the folder with the single command `npm` and no arguments |
| PackageManager.NPM.Install | src/packageManager/NPM.ts:22-25 | appends `install` and returns the builder itself |
| PackageManager.NPM.RunCommand | src/packageManager/NPM.ts:30-33 | appends `run` and returns the builder itself |
| PackageManager.NPM.Build | src/packageManager/NPM.ts:38-41 | appends `build` and returns the builder itself |
| PackageManager.NPM.NoPackageLock | src/packageManager/NPM.ts:46-49 | appends `--no-package-lock` to the arguments only |
| PackageManager.NPM.Publish | src/packageManager/PackageManagerController.ts:29-32 | the corrected half of the src/package/NodePackage.ts:99-102 finding: the step the interface declares, which NPM does not define; appends `publish` and returns the builder itself |
| PackageManager.NPM.Run | src/packageManager/NPM.ts:54-83 | shifts off the first command; fails when there is none or it is empty; otherwise spawns it with the remaining commands then the arguments, in the folder, through a shell only on Windows |
| PackageManager.PNPM.constructor | src/packageManager/PNPM.ts:15-17 | a builder for the folder with the single command `pnpm` and no arguments |
| PackageManager.PNPM.Install | src/packageManager/PNPM.ts:22-25 | appends `install` and returns the builder itself |
| PackageManager.PNPM.RunCommand | src/packageManager/PNPM.ts:30-33 | appends `run` and returns the builder itself |
| PackageManager.PNPM.Build | src/packageManager/PNPM.ts:38-41 | appends `build` and returns the builder itself |
| PackageManager.PNPM.NoPackageLock | src/packageManager/PNPM.ts:47-52 | appends `--frozen-lockfile` to the arguments only |
| PackageManager.PNPM.Publish | src/packageManager/PackageManagerController.ts:29-32 | the corrected half of the src/package/NodePackage.ts:99-102 finding: the step the interface declares, which PNPM does not define; appends `publish` and returns the builder itself |
| PackageManager.PNPM.Run | src/packageManager/PNPM.ts:57-74 | shifts off the first command; fails with the PNPM message when there is none or it is empty; otherwise spawns it as npm's does |
| PackageDeployers.Steps | src/packageDeployer/PackageDeployer.ts:31-37 | install and build, then publish unless the package is private, all in the package folder with its engine |
| PackageDeployers.RunUntilFailure | src/packageDeployer/PackageDeployer.ts:31-37 | the steps run are a prefix ending at the first failure; every step runs exactly when all succeed |
| PackageDeployers.DeployPackage | src/packageDeployer/PackageDeployer.ts:29-57 | success exactly when every step exits successfully; the steps run are those up to the first failure |
| PackageDeployers.DeployPackageAsWritten | src/packageDeployer/PackageDeployer.ts:29-57 | with `publish` as written, a public package never deploys, whatever its steps do; a private one deploys exactly when install and build succeed |
| PackageDeployers.DeployNext | src/packageDeployer/PackageDeployer.ts:29-57 | one more package extends the results and runs as `Deployed` describes |
| PackageDeployers.DeployPackages | src/packageDeployer/PackageDeployer.ts:29-57 | one result per package in order, marked successful exactly when it deploys; the runs are the packages' runs one after another |
| PackageDeployers.PrivateNeverPublished | src/packageDeployer/PackageDeployer.ts:31-37 | a private package is never published |
| PackageDeployers.PublishAfterBuild | src/packageDeployer/PackageDeployer.ts:31-37 | publishing is the third step of a public package and happens only after install and build succeeded |
| PackageDeployers.AllRunsConcat | src/packageDeployer/PackageDeployer.ts:29-57 | the runs of two lists are the runs of the first followed by those of the second |
| PackageDeployers.PackageDeployer.constructor | src/packageDeployer/PackageDeployer.ts:19-21 | the deployer holds the given packages |
| PackageDeployers.PackageDeployer.Deploy | src/packageDeployer/PackageDeployer.ts:26-63 | the results and runs of `DeployPackages` for the held packages |
| PackagesFilters.PolicyFilter | src/packageDeployer/PackagesFilter.ts:41-66 | exactly the packages that pass the whitelist or blacklist and, with `ignoreApps`, are not private; in list order |
| PackagesFilters.PolicyIdempotent | src/packageDeployer/PackagesFilter.ts:41-66 | filtering twice is filtering once |
| PackagesFilters.EmptyLists | src/packageDeployer/PackagesFilter.ts:41-66 | an empty whitelist in effect lets nothing through; an empty blacklist in effect lets everything through unless private packages are skipped |
| PackagesFilters.PackagesFilter.constructor | src/packageDeployer/PackagesFilter.ts:19-36 | `ignoreApps` is set exactly when the option is given as true |
| PackagesFilters.PackagesFilter.FilterGivenPackagesByConfiguration | src/packageDeployer/PackagesFilter.ts:41-66 | the given packages under the configuration's current policy |
| PackagesFilters.PackagesFilter.FilterByConfiguration | src/packageDeployer/PackagesFilter.ts:82-86 | exactly the local packages that pass the policy, in list order |
| PackagesFilters.AffectedPackagesAsWritten | src/packageDeployer/PackagesFilter.ts:94-106 | as written, fails exactly when some local package has a ledger entry |
| PackagesFilters.AsWrittenThrowsOnceDeployed | src/packageDeployer/PackagesFilter.ts:94-106 | even an up-to-date package makes the filter fail once it is recorded |
| PackagesFilters.AffectedPackages | src/packageDeployer/PackagesFilter.ts:94-106 | exactly the local packages without a ledger entry or newer than it, in list order |
| PackagesFilters.AffectedByVersion | src/packageDeployer/PackagesFilter.ts:94-106 | with every package recorded at its own version nothing is affected; a package newer than its entry is |
| PackagesFilters.PackagesFilter.DirectlyAffected | src/packageDeployer/PackagesFilter.ts:94-106 | the corrected affected packages of the held list and ledger |
| PackagesFilters.PackagesFilter.GetIncrementalBuildOrder | src/packageDeployer/PackagesFilter.ts:113-131 | fails exactly on a cycle, with the graph's error; otherwise the graph's build order filtered to the packages affected by the directly affected ones and then to the policy: exactly those packages, distinct, with no dependency later |
| PackagesFilters.NothingChanged | src/graph/KhansDependencyGraph.ts:41-65 | nothing changed means nothing affected |
| PackagesFilters.ChangedAffected | src/graph/KhansDependencyGraph.ts:41-65 | every changed name is affected |
| PackagesFilters.FilterKeepsOrder | src/packageDeployer/PackagesFilter.ts:127-128 | filtering a build order keeps it a build order |
| PackagesFilters.UpToDateDeploysNothing | src/packageDeployer/PackagesFilter.ts:113-131 | with every package recorded at its own version the incremental build order is empty |
| SemVer.GtStrictTotalOrder | src/packageDeployer/PackagesFilter.ts:102 | version precedence is irreflexive, asymmetric, transitive and total |
| Orchestrators.ApplyResultsKeys | src/packageDeployer/PackageDeployerOrchestrator.ts:120-134 | the ledger gains the names of the successful results and nothing else; other entries stay |
| Orchestrators.ApplySnoc | src/packageDeployer/PackageDeployerOrchestrator.ts:123-131 | one more result sets its entry when it succeeded and changes nothing otherwise |
| Orchestrators.FailuresIgnored | src/packageDeployer/PackageDeployerOrchestrator.ts:123-131 | failed results change nothing |
| Orchestrators.LastSuccessWins | src/packageDeployer/PackageDeployerOrchestrator.ts:123-131 | the last successful result for a name sets its entry |
| Orchestrators.DeployedRecorded | src/packageDeployer/PackageDeployerOrchestrator.ts:120-134 | after a deployment of distinct packages, every package that deploys is recorded at its own version |
| Orchestrators.PackageDeployerOrchestrator.constructor | src/packageDeployer/PackageDeployerOrchestrator.ts:30-53 | the filter gets the configuration, the package list, a copy of the ledger and the `ignoreApps` option |
| Orchestrators.PackageDeployerOrchestrator.SaveSuccessfullyDeployedPackages | src/packageDeployer/PackageDeployerOrchestrator.ts:120-134 | the ledger records the version of every successful result, in order, and is written |
| Orchestrators.PackageDeployerOrchestrator.DeployAll | src/packageDeployer/PackageDeployerOrchestrator.ts:58-66 | one result per local package, in order, and the ledger records the successes |
| Orchestrators.PackageDeployerOrchestrator.Deploy | src/packageDeployer/PackageDeployerOrchestrator.ts:75-83 | one result per package that passes the policy, in order, and the ledger records the successes |
| Orchestrators.PackageDeployerOrchestrator.IncrementalDeployment | src/packageDeployer/PackageDeployerOrchestrator.ts:90-115 | a cycle stops it with the graph's error; otherwise the order is the FIFO build order filtered to the affected packages and then to the policy; an empty order deploys nothing and leaves the ledger alone; otherwise the order is deployed and recorded |
| Kahn.ConnectEdges | src/lib/graph/index.ts:29-55 | every edge between packages is recorded once; each package's dependents are exactly the packages that depend on it, in package-list order; each in-degree is the number of known dependencies |
| Kahn.ConnectNext | src/lib/graph/index.ts:29-55 | the edges of one more package keep every edge of the packages seen so far recorded, and keep each list of dependents exact for those packages |
| Kahn.ConnectPackage | src/graph/KhansDependencyGraph.ts:87-99 | one package's edges are added; its in-degree rises by its number of known dependencies; other entries are kept |
| Kahn.Seed | src/lib/graph/index.ts:57-63 | the queue is the package list filtered to the packages without known dependencies, in list order |
| Kahn.Release | src/lib/graph/index.ts:73-89 | each dependent's in-degree drops by one, and a dependent reaching 0 is queued when it can be looked up |
| Kahn.Drain | src/lib/graph/index.ts:65-90 | the order lists distinct packages, each after its dependencies, starting with the packages without dependencies in list order and following the FIFO queue (`FifoOrder`); a package left out waits for one left out or cannot be looked up |
| KahnProperties.DepsFirstNoLater | src/lib/graph/index.ts:65-90 | dependencies first, with no name twice, means no dependency comes later |
| KahnProperties.CycleNeverSorted | src/lib/graph/index.ts:65-90 | no package on a cycle is ever built |
| KahnProperties.StuckCycle | src/lib/graph/index.ts:92-108 | when every package left out waits for another left out, they contain a cycle |
| KahnProperties.CompleteIffAcyclic | src/lib/graph/index.ts:92-108 | the order is complete exactly when the graph has no cycle and every package with dependencies can be looked up |
| KahnProperties.CompleteIsPermutation | src/lib/graph/index.ts:92-110 | a complete order is a permutation of the packages |
| KahnProperties.OutcomeBuildable | src/lib/graph/index.ts:65-90 | the loop builds exactly the least set closed under "all dependencies built and looked up" |
| KahnProperties.FifoUnique | src/lib/graph/index.ts:57-90 | two orders of a closed, acyclic graph that each list every package once, after its dependencies, in FIFO order are the same order |
| LibGraph.MergedDeps | src/lib/graph/index.ts:34-39 | the merged keys of dependencies and dev dependencies, each once |
| LibGraph.MergedPreds | src/lib/graph/index.ts:34-41 | a package's known dependencies are its merged keys that name a looked-up package |
| LibGraph.KnownEdges | src/lib/graph/index.ts:39-41 | an edge needs a dependency naming a looked-up, non-empty package name |
| LibGraph.LookupMap | src/lib/graph/index.ts:8-13 | every package under its name, except a package with the empty name |
| LibGraph.EmptyTables | src/lib/graph/index.ts:23-27 | no dependents and in-degree 0 for every package name |
| LibGraph.LookedUpUnlessEmpty | src/lib/graph/index.ts:8-13 | every package with dependencies can be looked up unless the empty-named one has dependencies |
| LibGraph.BuildGraph | src/lib/graph/index.ts:7-55 | lookup map, complete edges and in-degrees equal to the number of known dependencies |
| LibGraph.Verdict | src/lib/graph/index.ts:92-108 | the order is complete exactly when the graph is sortable, and then a permutation with no dependency later; the packages left out are the unbuildable ones |
| LibGraph.LeftOut | src/lib/graph/index.ts:95-97 | the packages missing from the order are exactly those Kahn's loop cannot build |
| LibGraph.ManifestNames | src/lib/graph/index.ts:95-97 | the logged names are the manifest names, one per package left out |
| LibGraph.SortPackages | src/lib/graph/index.ts:6-111 | fails exactly when the graph is not sortable, logging the manifest names of the unbuildable packages; otherwise a permutation with no dependency later, in FIFO order |
| LibGraph.DependencyBuildOrder | src/lib/graph/index.ts:6-111 | the same, for every given package |
| PrefixGraph.Workspace | src/graph.ts:64-67 | exactly the packages whose name has the `@perseverancia/` prefix, in list order |
| PrefixGraph.DependencyBuildOrder | src/graph.ts:62-176 | fails exactly on a cycle among workspace packages, logging the unbuildable ones; otherwise a permutation of the workspace packages with no dependency later, in FIFO order over the workspace list |
| PrefixGraph.NoEmptyName | src/graph.ts:71-75 | no workspace package has the empty name, so every one is looked up |
| PrefixGraph.OnlyWorkspace | src/graph.ts:64-67 | a successful order holds exactly the packages with the prefix |
| PrefixGraph.WorkspaceEdges | src/graph.ts:101-106 | an edge needs a prefixed dependency naming a workspace package |
| KhansGraph.UniqueWorkspaceDeps | src/graph/KhansDependencyGraph.ts:107-127 | the distinct names among dependencies and dev dependencies, kept only when whitelisted or when the whitelist is empty |
| KhansGraph.InitialMaps | src/graph/KhansDependencyGraph.ts:70-77 | one lookup entry, empty dependents and in-degree 0 for every package name |
| KhansGraph.BuildTables | src/graph/KhansDependencyGraph.ts:82-102 | every edge between packages is recorded and each in-degree is the number of known dependencies |
| KhansGraph.CircularOffenders | src/graph/KhansDependencyGraph.ts:175-184 | exactly the package names missing from the order, in list order |
| KhansGraph.SortBuilt | src/graph/KhansDependencyGraph.ts:132-170 | with line 145 appending the dequeued package: success exactly when acyclic, then a permutation with no dependency later, in FIFO order; otherwise the unsortable names, which include every cycle |
| KhansGraph.LengthCheck | src/graph/KhansDependencyGraph.ts:165-170 | the order itself exactly when it holds as many packages as the graph; otherwise an error naming exactly the packages missing from it |
| KhansGraph.SortBuiltAsWritten | src/graph/KhansDependencyGraph.ts:132-170 | as written, every non-empty input fails and reports every package |
| KhansGraph.SortFailed | src/graph/KhansDependencyGraph.ts:165-184 | an incomplete order reports the unsortable packages, at least one, including every package on a cycle |
| KhansGraph.CompleteOrder | src/graph/KhansDependencyGraph.ts:165-170 | a complete order is a permutation with no dependency later, and the in-degrees are back to 0 |
| KhansGraph.ExpandAffected | src/graph/KhansDependencyGraph.ts:44-59 | the fixed-point expansion yields the least superset of the changed names closed under "has an affected dependency" |
| KhansGraph.AffectPass | src/graph/KhansDependencyGraph.ts:51-58 | a pass only adds forced package names, and a pass that adds nothing leaves a closed set |
| KhansGraph.AffectPackage | src/graph/KhansDependencyGraph.ts:52-57 | a package with a dependency affected at the start of the pass is added |
| KhansGraph.LeastAffectedIs | src/graph/KhansDependencyGraph.ts:44-59 | a closed superset of the changed names that holds only forced names is the least one |
| KhansGraph.PickedOrder | src/graph/KhansDependencyGraph.ts:62-64 | keeping the affected packages of a build order gives exactly the affected packages, distinct, with no dependency later |
| KhansGraph.BuildOrderUnique | src/graph/KhansDependencyGraph.ts:132-170 | two permutations of the packages with no dependency later and in FIFO order are equal, so the build order is determined |
| KhansGraph.KhansDependencyGraph.constructor | src/graph/KhansDependencyGraph.ts:17-26 | a given whitelist replaces the empty default, and the tables are initialised |
| KhansGraph.KhansDependencyGraph.BuildEdges | src/graph/KhansDependencyGraph.ts:82-102 | the edges and in-degrees are built |
| KhansGraph.KhansDependencyGraph.TopologicalSort | src/graph/KhansDependencyGraph.ts:132-170 | as `SortBuilt`, on the object's tables; the edges are kept |
| KhansGraph.KhansDependencyGraph.GetBuildOrder | src/graph/KhansDependencyGraph.ts:31-34 | success exactly when acyclic, then a permutation with no dependency later, in FIFO order; otherwise the unsortable names |
| KhansGraph.KhansDependencyGraph.GetAffectedPackages | src/graph/KhansDependencyGraph.ts:41-65 | the build order (a FIFO permutation with no dependency later) filtered to the least affected set: exactly those packages, distinct, with no dependency later; a cycle is the graph's error |
| VerdaccioClients.Credentials | src/lib/VerdaccioClient.ts:37-40 | the credentials decode, as base 64 and then UTF-8, to `username:password` |
| VerdaccioClients.ReadsBack | src/lib/VerdaccioClient.ts:37-40 | text in UTF-8 and then base 64 reads back as the text |
| VerdaccioClients.SplitUserPassJoined | src/lib/VerdaccioClient.ts:37-40 | a username without a colon and the password come back unchanged from the user-pass |
| VerdaccioClients.SplitUserPass | src/lib/VerdaccioClient.ts:37-40 | a split at the first colon rebuilds the string |
| VerdaccioClients.VerdaccioClient.constructor | src/lib/VerdaccioClient.ts:33-41 | the client keeps URL, username and password, and its credentials are built from the latter two |
| VerdaccioClients.VerdaccioClient.GetUsername | src/lib/VerdaccioClient.ts:48-50 | returns the held username |
| VerdaccioClients.VerdaccioClient.GetPassword | src/lib/VerdaccioClient.ts:57-59 | returns the held password |
| VerdaccioClients.ListingRequest | src/lib/VerdaccioClient.ts:84-89 | the URL followed by `-/all`, with a `Basic` header whose credentials read back as `username:password` |
| VerdaccioClients.VerdaccioClient.AllPackagesRequest | src/lib/VerdaccioClient.ts:82-100 | the client's listing request |
| VerdaccioClients.StorageRoot | src/lib/VerdaccioClient.ts:112-123 | `VERDACCIO_STORAGE` when set and non-empty, else `~/.local/share/verdaccio/storage` |
| VerdaccioClients.DeleteOne | src/lib/VerdaccioClient.ts:111-144 | a dry run removes nothing; otherwise the package folder is removed exactly when it exists |
| VerdaccioClients.VerdaccioClient.DeletePackage | src/lib/VerdaccioClient.ts:111-144 | as `DeleteOne` |
| VerdaccioClients.DeletedFoldersExact | src/lib/VerdaccioClient.ts:155-173 | exactly the existing folders of the listed names are removed, each once |
| VerdaccioClients.DeleteNext | src/lib/VerdaccioClient.ts:159-172 | one more name is skipped when unlisted and deleted otherwise |
| VerdaccioClients.DeleteAll | src/lib/VerdaccioClient.ts:155-173 | unlisted names are skipped in order; a dry run removes nothing; otherwise exactly the existing folders of the listed names are removed, each once |
| VerdaccioClients.VerdaccioClient.DeletePackages | src/lib/VerdaccioClient.ts:155-173 | as `DeleteAll` |
| Utf8.EncodeChar | src/lib/VerdaccioClient.ts:37-40 | one to four bytes, one exactly below 128, the rest continuation bytes |
| Utf8.DecodeEncode | src/lib/VerdaccioClient.ts:37-40 | UTF-8 decoding undoes encoding |
| Utf8.AsciiBytes | src/lib/VerdaccioClient.ts:37-40 | text below 128 encodes to one byte per character, its code |
| Base64.EncodedLength | src/lib/VerdaccioClient.ts:37-40 | four characters per started group of three bytes |
| Base64.EncodedAlphabet | src/lib/VerdaccioClient.ts:37-40 | only alphabet characters, with padding only in the last two places |
| Base64.DecodeEncode | src/lib/VerdaccioClient.ts:37-40 | base 64 decoding undoes encoding |
| Paths.BasenameOfJoin | src/lib/apps.ts:23-53 | the basename of a folder joined with an entry is the entry |
| Paths.WorkspaceGlobFolder | src/lib/apps.ts:117-122 | dropping the last two characters of `dir/w/*` leaves `dir/w` |
| Paths.JoinInjective | src/configuration/PackageDeployerConfiguration.ts:40-63 | one folder joined with different entries gives different paths |

## Left out

- The YAML and JSON files are not parsed or written. `load` takes the parsed
  record, or `None` when the file cannot be read. `save` returns what it
  would write. Both configuration `save`s, `NodePackage.save` and
  `saveDeploymentResult` (deploymentResult.json) are left out for the same
  reason.
- `loadDefaultPackageDeployerConfiguration` takes the application folder
  (or the repositories folder) as a parameter instead of reading
  `process.cwd()` and the home folder.
- Logging, colours and console output are not modelled.
- Spawned processes are not run. A step's outcome is the `exitsOk`
  parameter; the lock-file check is the `hasLockFile` parameter.
- `appPackageJson` throwing on an unreadable manifest, `readdir` on a file,
  JSON parse errors and a non-array `workspaces` value are not modelled. The
  file system is a map of folders and parsed manifests.
- `path.join` normalisation (`..`, `.` and duplicate separators) is not
  modelled; `Join` inserts one separator.
- The in-place mutation of a shared `workspaces` array by `addWorkspace` is
  not modelled. The manifest is a value, so aliasing is not captured.
- `getAllApps` reads each manifest again; the model assumes the file system
  is unchanged in between.
- The `appsToNodePackages` of `src/apps.ts` is not part of this model. It
  builds the older `src/NodePackage.ts`, which is not part of this model
  either.
- `myDependencyBuildOrder` in `src/graph.ts` is deprecated and unfinished,
  and is not modelled.
- Distinct package names are a `requires` of the graph entry points
  (`KhansGraph.KhansDependencyGraph.constructor`,
  `LibGraph.DependencyBuildOrder`, `PrefixGraph.DependencyBuildOrder`,
  `PackagesFilters.PackagesFilter.GetIncrementalBuildOrder`,
  `Orchestrators.PackageDeployerOrchestrator.IncrementalDeployment`). The
  source keys its tables by name and misbehaves on duplicates.
- KhansGraph.KhansDependencyGraph.GetBuildOrder: calling the graph again
  after a cycle error is not modelled. The object is left half-decremented
  and `requires Ready()` excludes it.
- `RepositoryInfo` in `src/types` declares only `link`. That declared type
  is not modelled; `Repositories.RepositoryInfo` holds the fields that
  `src/repository/index.ts` builds.
- Versions are release versions (major, minor, patch). Pre-release tags,
  build metadata and invalid version strings are not modelled.
- DeploymentStates.DeploymentState.GetDeploymentState: the returned object
  aliases the ledger; the model returns a value.
- Utf8.DecodeEncode: the decoder reads what the encoder writes and does not
  reject overlong forms or lone surrogates.
- VerdaccioClients.DeleteOne: errors from `rmSync` are not modelled (the
  source catches and logs them).
- The environment variable and the home folder are parameters.
- The orchestrator passes `config.configurationPath` in two places where it
  is ignored, and the model leaves it out of both. One is the second argument
  to `new PackageDeployer(...)`
  (src/packageDeployer/PackageDeployerOrchestrator.ts:59-62, 76-79, 108-111);
  that constructor takes only the packages (PackageDeployer.ts:19). The other
  is the argument to `deployedState.save(...)` (line 133); `save()` takes no
  parameter and writes to `DeploymentState.filePath()`
  (src/data/DeploymentState.ts:99-106).
- A manifest without a name is modelled with the empty name, and
  `PrefixGraph.Workspace` then leaves that package out. The source would throw
  a TypeError calling `startsWith` on `undefined` (src/graph.ts:66). Discovery
  never yields such a package, because `getAppInfo` drops nameless manifests.
- The registry's listing is a parameter; the HTTP request is returned, not
  sent.

## Findings

| source | as written | input that shows it | evidently intended | confidence | as-written member | corrected member |
|---|---|---|---|---|---|---|
| src/graph/KhansDependencyGraph.ts:145 | `sorted.push()` appends nothing, so the order stays empty and the length check throws | one package with no dependencies: `getBuildOrder` throws "Circular dependency detected in workspace" naming it | `sorted.push(pkg)`, as in src/lib/graph/index.ts:69 | high; not executed | KhansGraph.SortBuiltAsWritten | KhansGraph.SortBuilt |
| src/packageDeployer/PackagesFilter.ts:100-102 | the ledger map holds version strings, so `remote.version` is undefined and `semver.gt` throws a TypeError | one local package recorded in the ledger at any version: `affectedPackages` throws | compare with the recorded version string itself | high; not executed | PackagesFilters.AffectedPackagesAsWritten | PackagesFilters.AffectedPackages |
| src/package/NodePackage.ts:99-102 | `publish` calls a `publish()` builder step that neither NPM nor PNPM defines, although src/packageManager/PackageManagerController.ts:32 declares it | any public package whose install and build succeed: `publish` throws a TypeError, so `deploy` records the package as failed | the engine's `publish` step | medium; not executed | PackageDeployers.DeployPackageAsWritten | PackageDeployers.DeployPackage |
