/** The registry's view of the local packages, `src/package/RemotePackageList.ts`:
    the registry's package records whose name is a local package name,
    keyed by name. The registry's answer is a parameter. */
module RemotePackageLists {
  import opened Wrappers
  import opened Seqs
  import opened SemVer
  import opened NodePackages
  import opened NodePackageLists
  import opened VerdaccioClients
  import opened Verdaccio
  import opened DeployerConfiguration

  /** A package record of the registry's listing. */
  datatype RemotePackageInfo = RemotePackageInfo(name: string, version: Version)

  /** `new Map(records.map(p => [p.name, p]))`: entries are set in order.
      The keys are the record names, each mapped to a record of that name. */
  function ToMap(records: seq<RemotePackageInfo>): (m: map<string, RemotePackageInfo>)
    ensures m.Keys == set r | r in records :: r.name
    ensures forall n :: n in m ==> m[n].name == n && m[n] in records
  {
    if records == [] then map[]
    else
      var init := records[..|records| - 1];
      var last := records[|records| - 1];
      assert records == init + [last];
      ToMap(init)[last.name := last]
  }

  /** Of several records with one name, the last one stays. */
  lemma {:induction false} ToMapLast(records: seq<RemotePackageInfo>, i: int)
    requires 0 <= i < |records|
    requires forall j :: i < j < |records| ==> records[j].name != records[i].name
    ensures ToMap(records)[records[i].name] == records[i]
  {
    var init := records[..|records| - 1];
    if i < |records| - 1 {
      ToMapLast(init, i);
    }
  }

  /** A record named after some local package, as a predicate value. */
  function NamedLocally(localPackages: seq<NodePackage>): RemotePackageInfo -> bool {
    (p: RemotePackageInfo) => exists local :: local in localPackages && p.name == local.packageName
  }

  /** The records of the local packages, keyed by name. */
  function LocalRecords(records: seq<RemotePackageInfo>, localPackages: seq<NodePackage>): (m: map<string, RemotePackageInfo>)
    ensures m.Keys <= NameSet(localPackages)
    ensures forall n :: n in m <==> n in NameSet(localPackages) && exists r :: r in records && r.name == n
    ensures forall n :: n in m ==> m[n].name == n && m[n] in records
  {
    var kept := Filter(records, NamedLocally(localPackages));
    ToMap(kept)
  }

  class RemotePackageList {
    const nodePackages: map<string, RemotePackageInfo>

    constructor(nodePackages: map<string, RemotePackageInfo>)
      ensures this.nodePackages == nodePackages
    {
      this.nodePackages := nodePackages;
    }

    function GetPackages(): (r: map<string, RemotePackageInfo>)
      ensures r == nodePackages
    {
      nodePackages
    }
  }

  /** `fetchRemotePackages`: the login checks of `getVerdaccioFromConfiguration`
      with the same messages, then the listing request with the client's
      credentials, and the records of the local packages of the answer.
      `request` is the request sent, if any. */
  method FetchRemotePackages(config: PackageDeployerConfiguration, localPackages: NodePackageList, answer: seq<RemotePackageInfo>)
    returns (r: Result<RemotePackageList, string>, request: Option<Request>)
    ensures r.Failure? <==> Login(config.GetRegistryUsername(), config.GetRegistryPassword()).Failure?
    ensures r.Failure? ==> r.error == Login(config.GetRegistryUsername(), config.GetRegistryPassword()).error && request == None
    ensures r.Success? ==> r.value.nodePackages == LocalRecords(answer, localPackages.nodePackages)
    ensures r.Success? ==> request == Some(ListingRequest(RegistryUrl(config.GetRegistryUrl()),
      config.GetRegistryUsername().value, config.GetRegistryPassword().value))
  {
    var url := RegistryUrl(config.GetRegistryUrl());
    var login := Login(config.GetRegistryUsername(), config.GetRegistryPassword());
    if login.Failure? {
      return Failure(login.error), None;
    }
    var client := new VerdaccioClient(url, login.value.0, login.value.1);
    request := Some(client.AllPackagesRequest());
    var local := GetNodePackages(localPackages);
    var list := new RemotePackageList(LocalRecords(answer, local));
    r := Success(list);
  }
}
