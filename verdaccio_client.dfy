/** The registry client of `src/lib/VerdaccioClient.ts`: basic-auth
    credentials built once from the username and password, the listing
    request, and deletion of package folders from the registry's storage.
    The HTTP exchange and the file system are not modelled: the listing's
    package names and the set of existing storage folders are parameters,
    and a deletion returns the folders left. */
module VerdaccioClients {
  import opened Wrappers
  import opened Seqs
  import opened Paths
  import opened Utf8
  import Base64
  import opened ConfigRecords

  /** `${username}:${password}`, the user-pass of section 2 of RFC 7617. */
  function UserPass(username: string, password: string): string {
    username + ":" + password
  }

  /** The user-pass in UTF-8, then in base 64. It reads back as the
      user-pass, and its length is a multiple of four. */
  function Credentials(username: string, password: string): (r: string)
    ensures Base64.Decode(r).Some? && Utf8.Decode(Base64.Decode(r).value) == Some(UserPass(username, password))
    ensures |r| % 4 == 0
  {
    ReadsBack(UserPass(username, password));
    Base64.Encode(Utf8.Encode(UserPass(username, password)))
  }

  /** Text in UTF-8, then in base 64, reads back as the text. */
  lemma ReadsBack(t: string)
    ensures Base64.Decode(Base64.Encode(Utf8.Encode(t))).Some?
    ensures Utf8.Decode(Base64.Decode(Base64.Encode(Utf8.Encode(t))).value) == Some(t)
    ensures |Base64.Encode(Utf8.Encode(t))| % 4 == 0
  {
    var bytes := Utf8.Encode(t);
    var text := Base64.Encode(bytes);
    Utf8.DecodeEncode(t);
    Base64.DecodeEncode(bytes);
    assert Base64.Decode(text) == Some(bytes);
    Base64.EncodedGroups(bytes);
  }

  /** The user-pass split at its first colon, as a server reads it. */
  function SplitUserPass(s: string): (r: Option<(string, string)>)
    ensures r.Some? ==> r.value.0 + ":" + r.value.1 == s && ':' !in r.value.0
    ensures r.None? <==> ':' !in s
  {
    if s == [] then None
    else if s[0] == ':' then Some(([], s[1..]))
    else match SplitUserPass(s[1..])
      case None => None
      case Some((u, p)) => Some(([s[0]] + u, p))
  }

  /** A username without a colon and the password come back unchanged from
      the user-pass. */
  lemma {:induction false} SplitUserPassJoined(username: string, password: string)
    requires ':' !in username
    ensures SplitUserPass(UserPass(username, password)) == Some((username, password))
  {
    if username != [] {
      var s := UserPass(username, password);
      assert s[0] == username[0] && username[0] in username;
      assert s[1..] == UserPass(username[1..], password);
      SplitUserPassJoined(username[1..], password);
      assert username == [username[0]] + username[1..];
    }
  }

  /** The listing request: URL and `Authorization` header. */
  datatype Request = Request(url: string, authorization: string)

  const BasicScheme: string := "Basic "

  /** The listing request: the registry URL followed by `-/all`, with
      basic authentication carrying the username and password. */
  function ListingRequest(url: string, username: string, password: string): (r: Request)
    ensures |r.url| == |url| + 5 && r.url[..|url|] == url && r.url[|url|..] == "-/all"
    ensures |r.authorization| >= |BasicScheme| && r.authorization[..|BasicScheme|] == BasicScheme
    ensures Base64.Decode(r.authorization[|BasicScheme|..]).Some?
    ensures Utf8.Decode(Base64.Decode(r.authorization[|BasicScheme|..]).value) == Some(UserPass(username, password))
  {
    var r := Request(url + "-/all", BasicScheme + Credentials(username, password));
    assert r.authorization[|BasicScheme|..] == Credentials(username, password);
    r
  }

  /** `~/.local/share/verdaccio/storage`. */
  function DefaultStorage(home: Path): Path {
    Join(Join(Join(Join(home, ".local"), "share"), "verdaccio"), "storage")
  }

  /** The storage folder: `VERDACCIO_STORAGE` when set and non-empty,
      otherwise the default under the home folder. */
  function StorageRoot(storageEnv: Option<string>, home: Path): (root: Path)
    ensures Truthy(storageEnv) ==> root == storageEnv.value
    ensures !Truthy(storageEnv) ==> root == DefaultStorage(home)
  {
    if Truthy(storageEnv) then storageEnv.value else DefaultStorage(home)
  }

  /** A package's folder in the storage. */
  function PackageFolder(root: Path, packageName: string): Path {
    Join(root, packageName)
  }

  /** A name as a predicate value: absent from a set. */
  function NotInListing(listing: set<string>): string -> bool {
    n => n !in listing
  }

  /** The folders of the listed packages among `names` that exist. */
  function ExistingFolders(root: Path, names: seq<string>, listing: set<string>, storage: set<Path>): set<Path> {
    set n | n in names && n in listing && PackageFolder(root, n) in storage :: PackageFolder(root, n)
  }

  /** One more name adds its folder when it is listed and exists. */
  lemma ExistingFoldersSnoc(root: Path, names: seq<string>, n: string, listing: set<string>, storage: set<Path>)
    ensures ExistingFolders(root, names + [n], listing, storage) ==
      ExistingFolders(root, names, listing, storage) +
      (if n in listing && PackageFolder(root, n) in storage then {PackageFolder(root, n)} else {})
  {
    assert forall m :: m in names + [n] <==> m in names || m == n;
  }

  /** The folders removed by deleting the listed names of `names` one after
      the other: a folder goes when it still exists. */
  function DeletedFolders(root: Path, names: seq<string>, listing: set<string>, storage: set<Path>): seq<Path> {
    if names == [] then []
    else
      var deleted := DeletedFolders(root, names[..|names| - 1], listing, storage);
      var n := names[|names| - 1];
      var folder := PackageFolder(root, n);
      if n in listing && folder in storage && folder !in deleted then deleted + [folder] else deleted
  }

  /** One more name: its folder goes when it is listed, exists and has not
      gone yet. */
  lemma DeletedFoldersSnoc(root: Path, names: seq<string>, n: string, listing: set<string>, storage: set<Path>)
    ensures DeletedFolders(root, names + [n], listing, storage) ==
      var deleted := DeletedFolders(root, names, listing, storage);
      var folder := PackageFolder(root, n);
      if n in listing && folder in storage && folder !in deleted then deleted + [folder] else deleted
  {
    assert (names + [n])[..|names|] == names;
  }

  /** Exactly the existing folders of the listed names are removed, each
      once. */
  lemma {:induction false} DeletedFoldersExact(root: Path, names: seq<string>, listing: set<string>, storage: set<Path>)
    ensures Elems(DeletedFolders(root, names, listing, storage)) == ExistingFolders(root, names, listing, storage)
    ensures Distinct(DeletedFolders(root, names, listing, storage))
    decreases |names|
  {
    if names != [] {
      var init, n := names[..|names| - 1], names[|names| - 1];
      var deleted := DeletedFolders(root, init, listing, storage);
      DeletedFoldersExact(root, init, listing, storage);
      assert names == init + [n];
      ExistingFoldersSnoc(root, init, n, listing, storage);
      var folder := PackageFolder(root, n);
      if n in listing && folder in storage && folder !in deleted {
        assert Elems(deleted + [folder]) == Elems(deleted) + {folder};
      }
    }
  }

  /** `deletePackage`: on a dry run nothing is removed; otherwise the
      package's folder is removed when it exists. */
  method DeleteOne(packageName: string, dryRun: bool, root: Path, storage: set<Path>)
    returns (remaining: set<Path>, deleted: Option<Path>)
    ensures dryRun ==> deleted == None
    ensures !dryRun ==> (deleted.Some? <==> PackageFolder(root, packageName) in storage)
    ensures deleted.Some? ==> deleted.value == PackageFolder(root, packageName)
    ensures remaining == if deleted.Some? then storage - {deleted.value} else storage
  {
    var folder := PackageFolder(root, packageName);
    if dryRun {
      return storage, None;
    }
    if folder in storage {
      remaining, deleted := storage - {folder}, Some(folder);
    } else {
      remaining, deleted := storage, None;
    }
  }

  /** What the deletion loop of `deletePackages` holds after the names of
      `done`: the names skipped so far, the folders removed so far and the
      folders left. */
  predicate DeletedSoFar(done: seq<string>, dryRun: bool, listing: set<string>, root: Path, storage: set<Path>,
                         remaining: set<Path>, deleted: seq<Path>, skipped: seq<string>) {
    skipped == Filter(done, NotInListing(listing)) &&
    deleted == (if dryRun then [] else DeletedFolders(root, done, listing, storage)) &&
    remaining == storage - Elems(deleted)
  }

  /** One name of the deletion loop: skipped when the registry does not
      list it, deleted otherwise. */
  method DeleteNext(ghost done: seq<string>, name: string, dryRun: bool, listing: set<string>, root: Path, storage: set<Path>,
                    remaining: set<Path>, deleted: seq<Path>, skipped: seq<string>)
    returns (remaining': set<Path>, deleted': seq<Path>, skipped': seq<string>)
    requires DeletedSoFar(done, dryRun, listing, root, storage, remaining, deleted, skipped)
    ensures DeletedSoFar(done + [name], dryRun, listing, root, storage, remaining', deleted', skipped')
  {
    FilterConcat(done, [name], NotInListing(listing));
    DeletedFoldersSnoc(root, done, name, listing, storage);
    remaining', deleted', skipped' := remaining, deleted, skipped;
    if name !in listing {
      skipped' := skipped + [name];
    } else {
      var gone;
      remaining', gone := DeleteOne(name, dryRun, root, remaining);
      if gone.Some? {
        assert Elems(deleted + [gone.value]) == Elems(deleted) + {gone.value};
        deleted' := deleted + [gone.value];
      }
    }
  }

  /** The deletion loop of `deletePackages`, over the storage folders:
      names absent from the registry's listing are skipped, the rest are
      deleted one after the other. */
  method DeleteAll(packageNames: seq<string>, dryRun: bool, listing: set<string>, root: Path, storage: set<Path>)
    returns (remaining: set<Path>, deleted: seq<Path>, skipped: seq<string>)
    ensures skipped == Filter(packageNames, NotInListing(listing))
    ensures dryRun ==> deleted == [] && remaining == storage
    ensures !dryRun ==> Elems(deleted) == ExistingFolders(root, packageNames, listing, storage)
    ensures Distinct(deleted)
    ensures remaining == storage - Elems(deleted)
  {
    remaining, deleted, skipped := storage, [], [];
    for i := 0 to |packageNames|
      invariant DeletedSoFar(packageNames[..i], dryRun, listing, root, storage, remaining, deleted, skipped)
    {
      assert packageNames[..i + 1] == packageNames[..i] + [packageNames[i]];
      remaining, deleted, skipped := DeleteNext(packageNames[..i], packageNames[i], dryRun, listing, root, storage, remaining, deleted, skipped);
    }
    assert packageNames[..|packageNames|] == packageNames;
    DeletedFoldersExact(root, packageNames, listing, storage);
  }

  class VerdaccioClient {
    const url: string
    const username: string
    const password: string
    const credentials: string

    constructor(url: string, username: string, password: string)
      ensures this.url == url && this.username == username && this.password == password
      ensures this.credentials == Credentials(username, password) && Valid()
    {
      this.url := url;
      this.username := username;
      this.password := password;
      this.credentials := Credentials(username, password);
    }

    /** The credentials were built from the username and password. */
    ghost predicate Valid() {
      credentials == Credentials(username, password)
    }

    function GetUsername(): (r: string)
      ensures r == username
    {
      username
    }

    function GetPassword(): (r: string)
      ensures r == password
    {
      password
    }

    /** `getAllPackages`' request. */
    function AllPackagesRequest(): (r: Request)
      requires Valid()
      ensures r == ListingRequest(url, username, password)
    {
      Request(url + "-/all", BasicScheme + credentials)
    }

    /** `deletePackage`. */
    method DeletePackage(packageName: string, dryRun: bool, root: Path, storage: set<Path>)
      returns (remaining: set<Path>, deleted: Option<Path>)
      ensures dryRun ==> deleted == None
      ensures !dryRun ==> (deleted.Some? <==> PackageFolder(root, packageName) in storage)
      ensures deleted.Some? ==> deleted.value == PackageFolder(root, packageName)
      ensures remaining == if deleted.Some? then storage - {deleted.value} else storage
    {
      remaining, deleted := DeleteOne(packageName, dryRun, root, storage);
    }

    /** `deletePackages`: names absent from the registry's listing are
        reported and skipped; the rest are deleted one after the other.
        A dry run removes nothing; otherwise exactly the existing folders
        of the listed names are removed, each once. */
    method DeletePackages(packageNames: seq<string>, dryRun: bool, listing: set<string>, root: Path, storage: set<Path>)
      returns (remaining: set<Path>, deleted: seq<Path>, skipped: seq<string>)
      ensures skipped == Filter(packageNames, NotInListing(listing))
      ensures dryRun ==> deleted == [] && remaining == storage
      ensures !dryRun ==> Elems(deleted) == ExistingFolders(root, packageNames, listing, storage)
      ensures Distinct(deleted)
      ensures remaining == storage - Elems(deleted)
    {
      remaining, deleted, skipped := DeleteAll(packageNames, dryRun, listing, root, storage);
    }
  }
}
