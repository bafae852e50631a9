/** The deployment ledger of `src/data/DeploymentState.ts`: package name to
    the version last deployed successfully. The YAML file is not modelled:
    `Load` takes the parsed file, or `None` when it cannot be read or
    parsed or parses to nothing, and `Save` returns the record it writes. */
module DeploymentStates {
  import opened Wrappers
  import opened Paths
  import opened SemVer

  const StateFileName: string := "packageDeploymentState.yaml"

  /** The ledger file inside the configuration folder. */
  function FilePath(configFolder: Path): (p: Path)
    ensures Basename(p) == StateFileName
    ensures |p| > |configFolder| && p[..|configFolder|] == configFolder
  {
    BasenameOfJoin(configFolder, StateFileName);
    Join(configFolder, StateFileName)
  }

  class DeploymentState {
    var deploymentState: map<string, Version>

    /** A previous state that is given is adopted; otherwise the ledger
        starts empty. */
    constructor(previousState: Option<map<string, Version>>)
      ensures previousState.Some? ==> deploymentState == previousState.value
      ensures previousState.None? ==> deploymentState == map[]
    {
      deploymentState := if previousState.Some? then previousState.value else map[];
    }

    /** The ledger itself; the source hands out the same object. */
    function GetDeploymentState(): (r: map<string, Version>)
      reads this
      ensures r == deploymentState
    {
      deploymentState
    }

    /** The ledger copied entry by entry into a new map: the copy holds
        exactly the ledger's entries. */
    method GetDeploymentStateAsMap() returns (resultingMap: map<string, Version>)
      ensures resultingMap == deploymentState
    {
      resultingMap := map[];
      var keys := deploymentState.Keys;
      while keys != {}
        invariant keys <= deploymentState.Keys
        invariant resultingMap.Keys == deploymentState.Keys - keys
        invariant forall k :: k in resultingMap ==> resultingMap[k] == deploymentState[k]
        decreases |keys|
      {
        var key :| key in keys;
        resultingMap := resultingMap[key := deploymentState[key]];
        keys := keys - {key};
      }
    }

    /** Records `version` for `packageName`, replacing an earlier entry;
        every other entry stays. Returns the ledger itself. */
    method SetPackageState(packageName: string, version: Version) returns (self: DeploymentState)
      modifies this
      ensures self == this
      ensures deploymentState == old(deploymentState)[packageName := version]
      ensures deploymentState.Keys == old(deploymentState).Keys + {packageName}
      ensures forall n :: n in deploymentState && n != packageName ==> deploymentState[n] == old(deploymentState)[n]
    {
      deploymentState := deploymentState[packageName := version];
      self := this;
    }

    /** `load`: the parsed file when there is one, an empty ledger
        otherwise. */
    static method Load(parsed: Option<map<string, Version>>) returns (s: DeploymentState)
      ensures fresh(s)
      ensures s.deploymentState == if parsed.Some? then parsed.value else map[]
    {
      s := new DeploymentState(parsed);
    }

    /** `save`: the whole ledger is written. */
    method Save() returns (written: map<string, Version>)
      ensures written == deploymentState
    {
      written := deploymentState;
    }
  }
}
