/** File-system paths as plain strings with `/` as separator: the `path.join`,
    `path.basename` and `String.prototype.slice` calls the source makes on them.
    Normalisation (`.`/`..` segments, doubled or trailing separators) is not
    modelled. */
module Paths {

  type Path = string

  /** `path.join(dir, entry)` for a directory and a relative entry. */
  function Join(dir: Path, entry: string): (p: Path)
    ensures |p| == |dir| + 1 + |entry|
  {
    dir + "/" + entry
  }

  /** `path.basename(p)`: everything after the last separator. */
  function Basename(p: Path): (b: string)
    ensures '/' !in b
    ensures |b| <= |p|
  {
    if p == [] then []
    else if p[|p| - 1] == '/' then []
    else Basename(p[..|p| - 1]) + [p[|p| - 1]]
  }

  /** `s.slice(0, s.length - 2)`: a negative end counts from the end, so strings
      shorter than two characters become empty. */
  function DropLast2(s: string): (r: string)
    ensures |s| >= 2 ==> r + s[|s| - 2..] == s
    ensures |s| < 2 ==> r == []
  {
    if |s| >= 2 then s[..|s| - 2] else []
  }

  /** The folder name of an entry listed inside a directory is the entry itself. */
  lemma {:induction false} BasenameOfJoin(dir: Path, entry: string)
    requires '/' !in entry
    ensures Basename(Join(dir, entry)) == entry
    decreases |entry|
  {
    var p := Join(dir, entry);
    if entry != [] {
      var init := entry[..|entry| - 1];
      assert p[..|p| - 1] == Join(dir, init);
      assert p[|p| - 1] == entry[|entry| - 1];
      BasenameOfJoin(dir, init);
      assert entry == init + [entry[|entry| - 1]];
    } else {
      assert p[|p| - 1] == '/';
    }
  }

  /** Cutting the trailing slash-star of a workspace glob leaves its folder. */
  lemma WorkspaceGlobFolder(dir: Path, w: string)
    ensures DropLast2(Join(dir, w + "/*")) == Join(dir, w)
  {
    var s := Join(dir, w + "/*");
    assert s == Join(dir, w) + "/*";
    assert s[..|s| - 2] == Join(dir, w);
  }

  /** Joining the same directory with different entries gives different paths. */
  lemma JoinInjective(dir: Path, a: string, b: string)
    requires a != b
    ensures Join(dir, a) != Join(dir, b)
  {
    var pre := dir + "/";
    assert Join(dir, a)[|pre|..] == a;
    assert Join(dir, b)[|pre|..] == b;
  }
}
