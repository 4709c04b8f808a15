/**
 * What a Unity project records about its packages: the manifest's
 * dependencies and locked entries, the packages installed under Packages/,
 * and the packages found there that the manifest does not lock.
 */
module Packages {
  import opened Wrappers
  import opened Versions

  /**
   * A dependency range as a manifest or a package states it: one exact
   * version, or a range written out, of which the model keeps only whether
   * it names a pre-release version.
   */
  datatype Range = Exact(version: Version) | Written(text: string, containsPre: bool)

  function ContainsPre(r: Range): bool {
    match r
    case Exact(v) => IsPrerelease(v)
    case Written(_, pre) => pre
  }

  /** A named dependency with the range it accepts. */
  datatype Dependency = Dependency(name: string, range: Range)

  /** A package manifest: name, version, the legacy package names it replaces, its VPM dependencies. */
  datatype Package = Package(name: string, version: Version, legacyPackages: seq<string>, vpmDependencies: seq<Dependency>)

  /** A locked entry: the exact version a package is pinned at and, when known, its dependencies. */
  datatype Locked = Locked(name: string, version: Version, dependencies: Option<seq<Dependency>>)

  /**
   * A project: the manifest's dependencies and locked entries (in manifest
   * order), the installed packages by name, the unlocked package folders (a
   * folder name and the package manifest found there, if any) and the
   * project's Unity version, if known.
   */
  datatype Project = Project(
    dependencies: seq<Dependency>,
    locked: seq<Locked>,
    installed: map<string, Package>,
    unlocked: seq<(string, Option<Package>)>,
    unity: Option<UnityVersion>)

  /** The locked entries by name; for a name locked twice, the later entry. */
  function LockedMap(ls: seq<Locked>): map<string, Locked>
    decreases |ls|
  {
    if ls == [] then map[]
    else LockedMap(ls[..|ls| - 1])[ls[|ls| - 1].name := ls[|ls| - 1]]
  }

  /** A name has a locked entry exactly when some entry locks it. */
  lemma {:induction false} LockedMapKeys(ls: seq<Locked>, n: string)
    ensures n in LockedMap(ls) <==> exists i :: 0 <= i < |ls| && ls[i].name == n
    decreases |ls|
  {
    if ls != [] {
      var init := ls[..|ls| - 1];
      LockedMapKeys(init, n);
      assert forall i :: 0 <= i < |init| ==> init[i] == ls[i];
    }
  }

  /** The locked entry a package about to be installed stands for. */
  function AsLocked(pkg: Package): Locked {
    Locked(pkg.name, pkg.version, Some(pkg.vpmDependencies))
  }

  /** The package manifests of the unlocked folders, in folder order. */
  function UnlockedPackages(us: seq<(string, Option<Package>)>): seq<Package>
    decreases |us|
  {
    if us == [] then []
    else
      var last := us[|us| - 1];
      UnlockedPackages(us[..|us| - 1]) + if last.1.Some? then [last.1.value] else []
  }

  /** The unlocked packages are the manifests found in the unlocked folders. */
  lemma {:induction false} UnlockedPackagesMembers(us: seq<(string, Option<Package>)>, pkg: Package)
    ensures pkg in UnlockedPackages(us) <==> exists i :: 0 <= i < |us| && us[i].1 == Some(pkg)
    decreases |us|
  {
    if us != [] {
      var init := us[..|us| - 1];
      UnlockedPackagesMembers(init, pkg);
      assert forall i :: 0 <= i < |init| ==> init[i] == us[i];
    }
  }
}
