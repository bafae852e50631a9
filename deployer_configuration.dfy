/** The configuration class of `src/packageDeployer/PackageDeployerConfiguration.ts`:
    the same record, list appends and setters as the class of
    `src/configuration/PackageDeployerConfiguration.ts`, without an
    application folder or derived paths. Its fallback record keeps packages
    in the default configuration folder's repositories folder, which is
    passed in. Reading and writing the YAML file is not modelled; `load`
    takes the outcome of reading it. */
module DeployerConfiguration {
  import opened Wrappers
  import opened Paths
  import opened ConfigRecords

  class PackageDeployerConfiguration {
    var configuration: ConfigRecord

    constructor(configuration: ConfigRecord)
      ensures this.configuration == configuration
    {
      this.configuration := configuration;
    }

    /** The fallback when the configuration file cannot be read: lists
        empty, whitelist in effect, packages under the default repositories
        folder, then the defaults file's keys. */
    static method Load(repositoriesPath: Path, stored: Option<ConfigRecord>, defaults: Option<Overrides>)
      returns (c: PackageDeployerConfiguration)
      ensures fresh(c)
      ensures c.configuration == LoadRecord(stored, Fallback(None, repositoriesPath), defaults)
    {
      var data := if stored.Some? then stored.value else Overlay(Fallback(None, repositoriesPath), OverridesOf(defaults));
      c := new PackageDeployerConfiguration(data);
    }

    function GetWhitelist(): (r: seq<string>)
      reads this
      ensures r == configuration.repositoriesListing.whitelist
    {
      configuration.repositoriesListing.whitelist
    }

    function GetBlacklist(): (r: seq<string>)
      reads this
      ensures r == configuration.repositoriesListing.blacklist
    {
      configuration.repositoriesListing.blacklist
    }

    function GetPackagesPath(): (r: Path)
      reads this
      ensures r == configuration.packagesPath
    {
      configuration.packagesPath
    }

    function GetRegistryPassword(): (r: Option<string>)
      reads this
      ensures r == configuration.registryPassword
    {
      configuration.registryPassword
    }

    function GetRegistryUrl(): (r: Option<string>)
      reads this
      ensures r == configuration.registryUrl
    {
      configuration.registryUrl
    }

    function GetRegistryUsername(): (r: Option<string>)
      reads this
      ensures r == configuration.registryUsername
    {
      configuration.registryUsername
    }

    /** Appends to the whitelist, duplicates included. */
    method WhitelistAdd(repositoryName: string)
      modifies this
      ensures GetWhitelist() == old(GetWhitelist()) + [repositoryName]
      ensures configuration == old(configuration).(repositoriesListing :=
        old(configuration.repositoriesListing).(whitelist := old(GetWhitelist()) + [repositoryName]))
    {
      var listing := configuration.repositoriesListing;
      configuration := configuration.(repositoriesListing := listing.(whitelist := listing.whitelist + [repositoryName]));
    }

    method SetListType(listType: ListType)
      modifies this
      ensures configuration == old(configuration).(repositoriesListing :=
        old(configuration.repositoriesListing).(use := listType))
    {
      configuration := configuration.(repositoriesListing := configuration.repositoriesListing.(use := listType));
    }

    /** Appends to the repository blacklist. */
    method BlacklistAdd(repositoryName: string)
      modifies this
      ensures GetBlacklist() == old(GetBlacklist()) + [repositoryName]
      ensures configuration == old(configuration).(repositoriesListing :=
        old(configuration.repositoriesListing).(blacklist := old(GetBlacklist()) + [repositoryName]))
    {
      var listing := configuration.repositoriesListing;
      configuration := configuration.(repositoriesListing := listing.(blacklist := listing.blacklist + [repositoryName]));
    }

    /** Appends to the repository blacklist as well; `packagesBlacklist` is
        left as it is. */
    method PackageBlacklistAdd(packageName: string)
      modifies this
      ensures GetBlacklist() == old(GetBlacklist()) + [packageName]
      ensures configuration.packagesBlacklist == old(configuration.packagesBlacklist)
      ensures configuration == old(configuration).(repositoriesListing :=
        old(configuration.repositoriesListing).(blacklist := old(GetBlacklist()) + [packageName]))
    {
      var listing := configuration.repositoriesListing;
      configuration := configuration.(repositoriesListing := listing.(blacklist := listing.blacklist + [packageName]));
    }

    method SetPackagesPath(packagesPath: Path)
      modifies this
      ensures configuration == old(configuration).(packagesPath := packagesPath)
    {
      configuration := configuration.(packagesPath := packagesPath);
    }

    method SetGithubToken(githubToken: string)
      modifies this
      ensures configuration == old(configuration).(githubToken := Some(githubToken))
    {
      configuration := configuration.(githubToken := Some(githubToken));
    }

    /** Stores the URL as the profile URL. */
    method SetGithubUserUrl(githubUserUrl: string)
      modifies this
      ensures configuration == old(configuration).(githubProfileUrl := Some(githubUserUrl))
    {
      configuration := configuration.(githubProfileUrl := Some(githubUserUrl));
    }

    method SetRegistryPassword(password: string)
      modifies this
      ensures configuration == old(configuration).(registryPassword := Some(password))
    {
      configuration := configuration.(registryPassword := Some(password));
    }

    method SetRegistryUrl(registryUrl: string)
      modifies this
      ensures configuration == old(configuration).(registryUrl := Some(registryUrl))
    {
      configuration := configuration.(registryUrl := Some(registryUrl));
    }

    method SetRegistryUsername(username: string)
      modifies this
      ensures configuration == old(configuration).(registryUsername := Some(username))
    {
      configuration := configuration.(registryUsername := Some(username));
    }
  }
}
