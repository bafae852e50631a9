/** A repository of the account, as `src/repository/Repository.ts` wraps the
    record the repository listing maps each remote repository to. */
module Repositories {
  import opened Wrappers

  /** The fields the listing keeps; `fullName` is `owner/repository`. */
  datatype RepositoryInfo = RepositoryInfo(
    name: string,
    fullName: string,
    isPrivate: bool,
    description: Option<string>,
    url: string,
    language: Option<string>,
    updatedAt: string)

  /** The wrapper holds the record it is given, as it is. */
  datatype Repository = Repository(repositoryInfo: RepositoryInfo)

  const SshPrefix: string := "git@github.com:"
  const SshSuffix: string := ".git"

  /** The GitHub SSH URL of the repository. */
  function SshUrl(r: Repository): (u: string)
    ensures |u| == |SshPrefix| + |r.repositoryInfo.fullName| + |SshSuffix|
    ensures u[..|SshPrefix|] == SshPrefix
    ensures u[|u| - |SshSuffix|..] == SshSuffix
  {
    SshPrefix + r.repositoryInfo.fullName + SshSuffix
  }

  /** The full name inside an SSH URL, or `None` when the string does not
      have the URL's prefix and suffix. */
  function FullNameOf(u: string): (n: Option<string>)
    ensures n.Some? ==> SshPrefix + n.value + SshSuffix == u
  {
    if |u| >= |SshPrefix| + |SshSuffix| && u[..|SshPrefix|] == SshPrefix && u[|u| - |SshSuffix|..] == SshSuffix
    then
      var n := u[|SshPrefix|..|u| - |SshSuffix|];
      assert u == u[..|SshPrefix|] + n + u[|u| - |SshSuffix|..];
      Some(n)
    else None
  }

  /** The full name can be read back from the URL. */
  lemma FullNameRoundTrip(r: Repository)
    ensures FullNameOf(SshUrl(r)) == Some(r.repositoryInfo.fullName)
  {
    var u := SshUrl(r);
    assert u[|SshPrefix|..|u| - |SshSuffix|] == r.repositoryInfo.fullName;
  }

  /** Repositories with different full names have different URLs. */
  lemma SshUrlInjective(a: Repository, b: Repository)
    requires a.repositoryInfo.fullName != b.repositoryInfo.fullName
    ensures SshUrl(a) != SshUrl(b)
  {
    FullNameRoundTrip(a);
    FullNameRoundTrip(b);
  }
}
