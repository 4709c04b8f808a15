/** The two kinds of version the package manager compares. */
module Versions {
  /** A package version in semantic-versioning form: core numbers, pre-release tag, build metadata. */
  datatype Version = Version(major: nat, minor: nat, patch: nat, pre: string, build: string)

  /** A version is a pre-release when its pre-release tag is not empty. */
  predicate IsPrerelease(v: Version) {
    v.pre != []
  }

  /**
   * A Unity editor version such as 2022.3.22f1: major, minor and revision
   * numbers, the release letter and its increment. Two versions are equal when
   * every part is.
   */
  datatype UnityVersion = UnityVersion(major: nat, minor: nat, revision: nat, release: char, increment: nat)
}
