/** The manifest editor of `src/PackageJson.ts`: a parsed `package.json`
    and the file it was read from, changed in place by renaming and by
    adding workspaces. Reading and writing the file is not modelled: `Load`
    takes the parsed manifest and `Save` returns what it writes. */
module PackageJsons {
  import opened Wrappers
  import opened Paths
  import opened NodePackages

  /** The workspace list a manifest holds; none when the key is absent. */
  function Existing(m: Manifest): seq<string> {
    if m.workspaces.Some? then m.workspaces.value else []
  }

  /** The manifest after `addWorkspace(relativePath)`: a present list, even
      an empty one, gets the path appended; an absent one is created holding
      only the path. Nothing else changes. */
  function WithWorkspace(m: Manifest, relativePath: string): (r: Manifest)
    ensures r.workspaces == Some(Existing(m) + [relativePath])
    ensures r.(workspaces := m.workspaces) == m
  {
    if m.workspaces.Some? then m.(workspaces := Some(m.workspaces.value + [relativePath]))
    else
      assert [] + [relativePath] == [relativePath];
      m.(workspaces := Some([relativePath]))
  }

  /** The manifest after adding each path of `paths` in turn. */
  function WithWorkspaces(m: Manifest, paths: seq<string>): Manifest {
    if paths == [] then m
    else WithWorkspace(WithWorkspaces(m, paths[..|paths| - 1]), paths[|paths| - 1])
  }

  /** Successive additions keep insertion order after the list there was,
      and leave the rest of the manifest alone. */
  lemma {:induction false} WorkspacesInOrder(m: Manifest, paths: seq<string>)
    requires paths != []
    ensures WithWorkspaces(m, paths).workspaces == Some(Existing(m) + paths)
    ensures WithWorkspaces(m, paths).(workspaces := m.workspaces) == m
    decreases |paths|
  {
    var init := paths[..|paths| - 1];
    if init == [] {
      assert paths == [paths[0]];
    } else {
      WorkspacesInOrder(m, init);
      assert Existing(m) + init + [paths[|paths| - 1]] == Existing(m) + paths;
    }
  }

  class PackageJson {
    var packageJson: Manifest
    const path: Path

    constructor(packageJson: Manifest, path: Path)
      ensures this.packageJson == packageJson && this.path == path
    {
      this.packageJson := packageJson;
      this.path := path;
    }

    /** Renames the package; the rest of the manifest stays. */
    method SetName(name: string)
      modifies this
      ensures packageJson == old(packageJson).(name := name)
    {
      packageJson := packageJson.(name := name);
    }

    /** Appends `relativePath` to the workspace list, creating the list
        when the manifest has none. */
    method AddWorkspace(relativePath: string)
      modifies this
      ensures packageJson == WithWorkspace(old(packageJson), relativePath)
    {
      var workspaces := packageJson.workspaces;
      if workspaces.Some? {
        packageJson := packageJson.(workspaces := Some(workspaces.value + [relativePath]));
      } else {
        packageJson := packageJson.(workspaces := Some([relativePath]));
      }
    }

    /** `load`: the manifest parsed from the file at `path`. */
    static method Load(path: Path, parsed: Manifest) returns (p: PackageJson)
      ensures fresh(p)
      ensures p.packageJson == parsed && p.path == path
    {
      p := new PackageJson(parsed, path);
    }

    /** `save`: the whole manifest, written back to the file it came from. */
    method Save() returns (file: Path, written: Manifest)
      ensures file == path && written == packageJson
    {
      file, written := path, packageJson;
    }
  }
}
