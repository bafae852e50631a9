/** The configuration class of `src/configuration/PackageDeployerConfiguration.ts`:
    a configuration record updated in place by list appends and setters,
    plus paths derived from the application folder. A derived path is
    `None` when the record has no application folder, where `path.join`
    would throw. Reading and writing the YAML file is not modelled; `load`
    takes the outcome of reading it. */
module Configuration {
  import opened Wrappers
  import opened Paths
  import opened ConfigRecords

  /** The four folders derived from the application folder are distinct. */
  lemma DerivedPathsDistinct(appPath: Path)
    ensures Join(appPath, "repos") != Join(appPath, "monorepo")
    ensures Join(appPath, "repos") != Join(appPath, "configuration")
    ensures Join(appPath, "repos") != Join(appPath, "data")
    ensures Join(appPath, "monorepo") != Join(appPath, "configuration")
    ensures Join(appPath, "monorepo") != Join(appPath, "data")
    ensures Join(appPath, "configuration") != Join(appPath, "data")
  {
    JoinInjective(appPath, "repos", "monorepo");
    JoinInjective(appPath, "repos", "configuration");
    JoinInjective(appPath, "repos", "data");
    JoinInjective(appPath, "monorepo", "configuration");
    JoinInjective(appPath, "monorepo", "data");
    JoinInjective(appPath, "configuration", "data");
  }

  /** `appPath` joined with a fixed folder name. */
  function Under(appPath: Option<Path>, folder: string): (p: Option<Path>)
    ensures p.Some? <==> appPath.Some?
    ensures p.Some? ==> |p.value| > |appPath.value| && p.value[..|appPath.value|] == appPath.value
  {
    if appPath.Some? then Some(Join(appPath.value, folder)) else None
  }

  class PackageDeployerConfiguration {
    var configuration: ConfigRecord

    constructor(configuration: ConfigRecord)
      ensures this.configuration == configuration
    {
      this.configuration := configuration;
    }

    /** The fallback when the configuration file cannot be read: lists
        empty, whitelist in effect, packages under `appPath/repos`, then
        the defaults file's keys. */
    static method Load(appPath: Path, stored: Option<ConfigRecord>, defaults: Option<Overrides>)
      returns (c: PackageDeployerConfiguration)
      ensures fresh(c)
      ensures c.configuration == LoadRecord(stored, Fallback(Some(appPath), Join(appPath, "repos")), defaults)
    {
      var data := if stored.Some? then stored.value else Overlay(Fallback(Some(appPath), Join(appPath, "repos")), OverridesOf(defaults));
      c := new PackageDeployerConfiguration(data);
    }

    function AppPath(): (r: Option<Path>)
      reads this
      ensures r == configuration.appPath
    {
      configuration.appPath
    }

    function PackagesPath(): (r: Path)
      reads this
      ensures r == configuration.packagesPath
    {
      configuration.packagesPath
    }

    function RepositoriesPath(): (r: Option<Path>)
      reads this
      ensures r.Some? <==> configuration.appPath.Some?
      ensures r.Some? ==> r.value == Join(configuration.appPath.value, "repos")
    {
      Under(configuration.appPath, "repos")
    }

    function MonorepoPath(): (r: Option<Path>)
      reads this
      ensures r.Some? <==> configuration.appPath.Some?
      ensures r.Some? ==> r.value == Join(configuration.appPath.value, "monorepo")
    {
      Under(configuration.appPath, "monorepo")
    }

    function ConfigurationPath(): (r: Option<Path>)
      reads this
      ensures r.Some? <==> configuration.appPath.Some?
      ensures r.Some? ==> r.value == Join(configuration.appPath.value, "configuration")
    {
      Under(configuration.appPath, "configuration")
    }

    function DataPath(): (r: Option<Path>)
      reads this
      ensures r.Some? <==> configuration.appPath.Some?
      ensures r.Some? ==> r.value == Join(configuration.appPath.value, "data")
    {
      Under(configuration.appPath, "data")
    }

    function GetWhitelist(): (r: seq<string>)
      reads this
      ensures r == configuration.repositoriesListing.whitelist
    {
      configuration.repositoriesListing.whitelist
    }

    function GetBlacklist(): (r: seq<string>)
      reads this
      ensures r == configuration.repositoriesListing.blacklist
    {
      configuration.repositoriesListing.blacklist
    }

    function GetPackagesPath(): (r: Path)
      reads this
      ensures r == configuration.packagesPath
    {
      configuration.packagesPath
    }

    function GetRegistryPassword(): (r: Option<string>)
      reads this
      ensures r == configuration.registryPassword
    {
      configuration.registryPassword
    }

    function GetRegistryUrl(): (r: Option<string>)
      reads this
      ensures r == configuration.registryUrl
    {
      configuration.registryUrl
    }

    function GetRegistryUsername(): (r: Option<string>)
      reads this
      ensures r == configuration.registryUsername
    {
      configuration.registryUsername
    }

    /** Appends to the whitelist, duplicates included. */
    method WhitelistAdd(repositoryName: string)
      modifies this
      ensures GetWhitelist() == old(GetWhitelist()) + [repositoryName]
      ensures configuration == old(configuration).(repositoriesListing :=
        old(configuration.repositoriesListing).(whitelist := old(GetWhitelist()) + [repositoryName]))
    {
      var listing := configuration.repositoriesListing;
      configuration := configuration.(repositoriesListing := listing.(whitelist := listing.whitelist + [repositoryName]));
    }

    method SetListType(listType: ListType)
      modifies this
      ensures configuration == old(configuration).(repositoriesListing :=
        old(configuration.repositoriesListing).(use := listType))
    {
      configuration := configuration.(repositoriesListing := configuration.repositoriesListing.(use := listType));
    }

    /** Appends to the repository blacklist. */
    method BlacklistAdd(repositoryName: string)
      modifies this
      ensures GetBlacklist() == old(GetBlacklist()) + [repositoryName]
      ensures configuration == old(configuration).(repositoriesListing :=
        old(configuration.repositoriesListing).(blacklist := old(GetBlacklist()) + [repositoryName]))
    {
      var listing := configuration.repositoriesListing;
      configuration := configuration.(repositoriesListing := listing.(blacklist := listing.blacklist + [repositoryName]));
    }

    /** Appends to the repository blacklist as well; `packagesBlacklist` is
        left as it is. */
    method PackageBlacklistAdd(packageName: string)
      modifies this
      ensures GetBlacklist() == old(GetBlacklist()) + [packageName]
      ensures configuration.packagesBlacklist == old(configuration.packagesBlacklist)
      ensures configuration == old(configuration).(repositoriesListing :=
        old(configuration.repositoriesListing).(blacklist := old(GetBlacklist()) + [packageName]))
    {
      var listing := configuration.repositoriesListing;
      configuration := configuration.(repositoriesListing := listing.(blacklist := listing.blacklist + [packageName]));
    }

    method SetPackagesPath(packagesPath: Path)
      modifies this
      ensures configuration == old(configuration).(packagesPath := packagesPath)
    {
      configuration := configuration.(packagesPath := packagesPath);
    }

    method SetGithubToken(githubToken: string)
      modifies this
      ensures configuration == old(configuration).(githubToken := Some(githubToken))
    {
      configuration := configuration.(githubToken := Some(githubToken));
    }

    /** Stores the URL as the profile URL. */
    method SetGithubUserUrl(githubUserUrl: string)
      modifies this
      ensures configuration == old(configuration).(githubProfileUrl := Some(githubUserUrl))
    {
      configuration := configuration.(githubProfileUrl := Some(githubUserUrl));
    }

    method SetRegistryPassword(password: string)
      modifies this
      ensures configuration == old(configuration).(registryPassword := Some(password))
    {
      configuration := configuration.(registryPassword := Some(password));
    }

    method SetRegistryUrl(registryUrl: string)
      modifies this
      ensures configuration == old(configuration).(registryUrl := Some(registryUrl))
    {
      configuration := configuration.(registryUrl := Some(registryUrl));
    }

    method SetRegistryUsername(username: string)
      modifies this
      ensures configuration == old(configuration).(registryUsername := Some(username))
    {
      configuration := configuration.(registryUsername := Some(username));
    }
  }
}
