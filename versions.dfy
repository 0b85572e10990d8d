/**
 * Tool versions as the `version` package compares them (that package is not part of
 * this model): major, then minor, then patch.
 */
module Versions {

  datatype Version = Version(major: nat, minor: nat, patch: nat)

  /** `version.CompareVersions(a, b, version.LesserThanFunc)`. */
  predicate LesserThan(a: Version, b: Version) {
    a.major < b.major
    || (a.major == b.major && (a.minor < b.minor || (a.minor == b.minor && a.patch < b.patch)))
  }

  /** `LesserThan` is a strict total order, so "not older" means "equal or newer". */
  lemma LesserThanStrictTotalOrder(a: Version, b: Version, c: Version)
    ensures !LesserThan(a, a)
    ensures LesserThan(a, b) && LesserThan(b, c) ==> LesserThan(a, c)
    ensures a == b || LesserThan(a, b) || LesserThan(b, a)
  {
  }
}
