/** The deployer's configuration record as both configuration classes hold
    it, and the record `load` builds when no configuration file can be
    read: fixed fallback values, overridden key by key by the keys of the
    defaults file (an object spread, so a key replaces the whole value it
    names). An absent key of the record is `None`. */
module ConfigRecords {
  import opened Wrappers
  import opened Paths

  /** Which of the two lists is in effect. */
  datatype ListType = UseWhitelist | UseBlacklist

  /** Allow/deny lists of repository (folder) names. */
  datatype RepositoriesListing = RepositoriesListing(blacklist: seq<string>, whitelist: seq<string>, use: ListType)

  datatype ConfigRecord = ConfigRecord(
    appPath: Option<Path>,
    repositoriesListing: RepositoriesListing,
    packagesPath: Path,
    packagesBlacklist: seq<string>,
    githubToken: Option<string>,
    githubProfileUrl: Option<string>,
    registryUrl: Option<string>,
    registryUsername: Option<string>,
    registryPassword: Option<string>)

  /** The keys a defaults file may hold; `None` for a key it does not set. */
  datatype Overrides = Overrides(
    appPath: Option<Path>,
    repositoriesListing: Option<RepositoriesListing>,
    packagesPath: Option<Path>,
    packagesBlacklist: Option<seq<string>>,
    githubToken: Option<string>,
    githubProfileUrl: Option<string>,
    registryUrl: Option<string>,
    registryUsername: Option<string>,
    registryPassword: Option<string>)

  const NoOverrides := Overrides(None, None, None, None, None, None, None, None, None)

  /** JavaScript truthiness of an optional string: set and non-empty. */
  predicate Truthy(s: Option<string>) {
    s.Some? && s.value != ""
  }

  /** The record, then the keys of `o` spread over it. */
  function Overlay(base: ConfigRecord, o: Overrides): ConfigRecord
  {
    ConfigRecord(
      if o.appPath.Some? then o.appPath else base.appPath,
      if o.repositoriesListing.Some? then o.repositoriesListing.value else base.repositoriesListing,
      if o.packagesPath.Some? then o.packagesPath.value else base.packagesPath,
      if o.packagesBlacklist.Some? then o.packagesBlacklist.value else base.packagesBlacklist,
      if o.githubToken.Some? then o.githubToken else base.githubToken,
      if o.githubProfileUrl.Some? then o.githubProfileUrl else base.githubProfileUrl,
      if o.registryUrl.Some? then o.registryUrl else base.registryUrl,
      if o.registryUsername.Some? then o.registryUsername else base.registryUsername,
      if o.registryPassword.Some? then o.registryPassword else base.registryPassword)
  }

  /** A missing or unreadable defaults file spreads nothing. */
  function OverridesOf(defaults: Option<Overrides>): Overrides {
    if defaults.Some? then defaults.value else NoOverrides
  }

  /** Spreading nothing changes nothing, and spreading the same keys twice
      is spreading them once. */
  lemma OverlayLaws(base: ConfigRecord, o: Overrides)
    ensures Overlay(base, NoOverrides) == base
    ensures Overlay(Overlay(base, o), o) == Overlay(base, o)
  {
  }

  /** The fallback record: both lists empty, the whitelist in effect, no
      package blacklist and the given packages path. */
  function Fallback(appPath: Option<Path>, packagesPath: Path): (r: ConfigRecord)
    ensures r.repositoriesListing.whitelist == [] && r.repositoriesListing.blacklist == []
    ensures r.repositoriesListing.use == UseWhitelist
    ensures r.packagesBlacklist == [] && r.packagesPath == packagesPath && r.appPath == appPath
  {
    ConfigRecord(appPath, RepositoriesListing([], [], UseWhitelist), packagesPath, [], None, None, None, None, None)
  }

  /** What `load` yields: the stored record when the configuration file
      can be read and parsed, otherwise the fallback record with the
      defaults file spread over it. */
  function LoadRecord(stored: Option<ConfigRecord>, fallback: ConfigRecord, defaults: Option<Overrides>): (r: ConfigRecord)
    ensures stored.Some? ==> r == stored.value
    ensures stored.None? && defaults.None? ==> r == fallback
    ensures stored.None? && defaults.Some? ==> r == Overlay(fallback, defaults.value)
  {
    OverlayLaws(fallback, NoOverrides);
    if stored.Some? then stored.value else Overlay(fallback, OverridesOf(defaults))
  }
}
