/** Release versions and their precedence, as in item 11 of Semantic
    Versioning 2.0.0: major, minor and patch are compared numerically, left to
    right. Pre-release and build metadata are not part of this model. */
module SemVer {

  datatype Version = Version(major: nat, minor: nat, patch: nat)

  /** `semver.gt(a, b)`: `a` has strictly higher precedence than `b`. */
  predicate Gt(a: Version, b: Version) {
    || a.major > b.major
    || (a.major == b.major && a.minor > b.minor)
    || (a.major == b.major && a.minor == b.minor && a.patch > b.patch)
  }

  /** Precedence is a strict total order on versions. */
  lemma GtStrictTotalOrder(a: Version, b: Version, c: Version)
    ensures !Gt(a, a)
    ensures Gt(a, b) ==> !Gt(b, a)
    ensures Gt(a, b) && Gt(b, c) ==> Gt(a, c)
    ensures a == b || Gt(a, b) || Gt(b, a)
  {
  }
}
