/**
 * Project resolution (vrc-get-vpm, unity_project/resolve.rs): deciding
 * whether a project's installed packages are out of step with its manifest,
 * and working out which packages to look up and which changes to record so
 * that they are brought back in step.
 *
 * The package lookup (`find_package_by_name`) and the dependency walk
 * (`collect_adding_packages`) are not part of this model; they are passed in
 * as functions. The changes builder is the call log of PendingChanges.
 */
module Resolve {
  import opened Wrappers
  import opened Versions
  import opened Packages
  import opened PendingChanges

  // ---------------------------------------------------------------------------
  // Errors

  /** The errors of adding packages that resolution can meet. */
  datatype AddPackageErr =
    | DependencyNotFound(dependencyName: string)
    | UpgradingNonLockedPackage(packageName: string)
    | DowngradingNonLockedPackage(packageName: string)
    | UpgradingWithDowngrade(packageName: string)

  /** The one error resolution reports to its callers. */
  datatype ResolvePackageErr = ResolveDependencyNotFound(dependencyName: string)

  /**
   * The conversion from AddPackageErr: a missing dependency keeps its name;
   * the three upgrade and downgrade errors cannot arise during resolution and
   * the conversion panics on them (None).
   */
  function ResolveErrFrom(e: AddPackageErr): (r: Option<ResolvePackageErr>)
    ensures r.Some? <==> e.DependencyNotFound?
    ensures r.Some? ==> r.value.dependencyName == e.dependencyName
  {
    match e
    case DependencyNotFound(name) => Some(ResolveDependencyNotFound(name))
    case _ => None
  }

  // ---------------------------------------------------------------------------
  // The collaborators

  /** Which versions a lookup accepts. */
  datatype Selector =
    | SpecificVersion(version: Version)
    | RangeFor(unity: Option<UnityVersion>, range: Range, allowPrerelease: bool)
    | RangesFor(unity: Option<UnityVersion>, ranges: seq<Range>, allowPrerelease: bool)

  /** One package lookup: a name and the versions accepted. */
  datatype Request = Request(name: string, selector: Selector)

  /** `find_package_by_name`: the package chosen for a name and selector, if any. */
  type Finder = (string, Selector) -> Option<Package>

  /** What `collect_adding_packages` is given: the locked entries it sees by name, the packages to add, and whether pre-releases are allowed. */
  datatype CollectRequest = CollectRequest(
    dependencies: seq<Dependency>,
    locked: map<string, Locked>,
    unlocked: seq<(string, Option<Package>)>,
    unity: Option<UnityVersion>,
    toInstall: seq<Package>,
    allowPrerelease: bool)

  /** What `collect_adding_packages` returns: the packages to install and the conflicts it found. */
  datatype Collected = Collected(newPackages: seq<Package>, conflicts: seq<(string, seq<string>)>)

  /** `collect_adding_packages`. */
  type Collector = CollectRequest -> Result<Collected, AddPackageErr>

  /**
   * Looking up every request in order and stopping at the first one that
   * finds nothing, which is a DependencyNotFound for its name.
   */
  function FindAll(find: Finder, reqs: seq<Request>): (r: Result<seq<Package>, AddPackageErr>)
    ensures r.Ok? ==> |r.value| == |reqs|
    decreases |reqs|
  {
    if reqs == [] then Ok([])
    else match FindAll(find, reqs[..|reqs| - 1])
      case Err(e) => Err(e)
      case Ok(ps) =>
        var q := reqs[|reqs| - 1];
        match find(q.name, q.selector)
        case None => Err(DependencyNotFound(q.name))
        case Some(pkg) => Ok(ps + [pkg])
  }

  /** The lookups succeed exactly when each request finds a package, and then give those packages in order. */
  lemma {:induction false} FindAllFound(find: Finder, reqs: seq<Request>)
    ensures FindAll(find, reqs).Ok? <==> forall i :: 0 <= i < |reqs| ==> find(reqs[i].name, reqs[i].selector).Some?
    ensures FindAll(find, reqs).Ok? ==>
      forall i :: 0 <= i < |reqs| ==> find(reqs[i].name, reqs[i].selector) == Some(FindAll(find, reqs).value[i])
    decreases |reqs|
  {
    if reqs != [] {
      var init := reqs[..|reqs| - 1];
      FindAllFound(find, init);
      assert forall i :: 0 <= i < |init| ==> init[i] == reqs[i];
    }
  }

  /** A failed lookup names the first request that found nothing. */
  lemma {:induction false} FindAllFirstMissing(find: Finder, reqs: seq<Request>)
    requires FindAll(find, reqs).Err?
    ensures exists k :: (0 <= k < |reqs| && find(reqs[k].name, reqs[k].selector).None?
      && (forall i :: 0 <= i < k ==> find(reqs[i].name, reqs[i].selector).Some?)
      && FindAll(find, reqs).error == DependencyNotFound(reqs[k].name))
    decreases |reqs|
  {
    var init := reqs[..|reqs| - 1];
    assert forall i :: 0 <= i < |init| ==> init[i] == reqs[i];
    if FindAll(find, init).Err? {
      FindAllFirstMissing(find, init);
      var k :| 0 <= k < |init| && find(init[k].name, init[k].selector).None?
        && (forall i :: 0 <= i < k ==> find(init[i].name, init[i].selector).Some?)
        && FindAll(find, init).error == DependencyNotFound(init[k].name);
      assert find(reqs[k].name, reqs[k].selector).None?;
    } else {
      FindAllFound(find, init);
    }
  }

  /** Lookups that failed on a prefix fail the same way on the whole. */
  lemma {:induction false} FindAllExtendFails(find: Finder, a: seq<Request>, b: seq<Request>)
    requires FindAll(find, a).Err?
    ensures FindAll(find, a + b) == FindAll(find, a)
    decreases |b|
  {
    if b == [] {
      assert a + b == a;
    } else {
      FindAllExtendFails(find, a, b[..|b| - 1]);
      assert (a + b)[..|a + b| - 1] == a + b[..|b| - 1];
    }
  }

  /** Lookups that succeeded on a prefix go on with the next request. */
  lemma FindAllSnoc(find: Finder, reqs: seq<Request>, i: nat)
    requires i < |reqs|
    ensures FindAll(find, reqs[..i + 1]) == match FindAll(find, reqs[..i])
      case Err(e) => Err(e)
      case Ok(ps) =>
        match find(reqs[i].name, reqs[i].selector)
        case None => Err(DependencyNotFound(reqs[i].name))
        case Some(pkg) => Ok(ps + [pkg])
  {
    assert reqs[..i + 1][..i] == reqs[..i];
  }

  // ---------------------------------------------------------------------------
  // should_resolve

  /** The elements of a sequence of names, as a set. */
  function Elems(s: seq<string>): set<string> {
    set x | x in s
  }

  /** A locked entry accounts for its own name and the legacy names of the package installed under it. */
  predicate CoveredByLocked(l: Locked, installed: map<string, Package>, n: string) {
    l.name == n || (l.name in installed && n in installed[l.name].legacyPackages)
  }

  /** The names the locked entries `ls` account for. */
  function LockedNames(ls: seq<Locked>, installed: map<string, Package>): set<string>
    decreases |ls|
  {
    if ls == [] then {}
    else
      var l := ls[|ls| - 1];
      LockedNames(ls[..|ls| - 1], installed) + {l.name} + if l.name in installed then Elems(installed[l.name].legacyPackages) else {}
  }

  /** The legacy names of the unlocked packages. */
  function UnlockedLegacy(us: seq<(string, Option<Package>)>): set<string>
    decreases |us|
  {
    if us == [] then {}
    else
      var u := us[|us| - 1];
      UnlockedLegacy(us[..|us| - 1]) + if u.1.Some? then Elems(u.1.value.legacyPackages) else {}
  }

  /** The names of the unlocked packages. */
  function UnlockedNames(us: seq<(string, Option<Package>)>): set<string>
    decreases |us|
  {
    if us == [] then {}
    else
      var u := us[|us| - 1];
      UnlockedNames(us[..|us| - 1]) + if u.1.Some? then {u.1.value.name} else {}
  }

  lemma {:induction false} LockedNamesMembers(ls: seq<Locked>, installed: map<string, Package>, n: string)
    ensures n in LockedNames(ls, installed) <==> exists i :: 0 <= i < |ls| && CoveredByLocked(ls[i], installed, n)
    decreases |ls|
  {
    if ls != [] {
      var init := ls[..|ls| - 1];
      LockedNamesMembers(init, installed, n);
      assert forall i :: 0 <= i < |init| ==> init[i] == ls[i];
    }
  }

  lemma {:induction false} UnlockedLegacyMembers(us: seq<(string, Option<Package>)>, n: string)
    ensures n in UnlockedLegacy(us) <==> exists i :: 0 <= i < |us| && us[i].1.Some? && n in us[i].1.value.legacyPackages
    decreases |us|
  {
    if us != [] {
      var init := us[..|us| - 1];
      UnlockedLegacyMembers(init, n);
      assert forall i :: 0 <= i < |init| ==> init[i] == us[i];
    }
  }

  lemma {:induction false} UnlockedNamesMembers(us: seq<(string, Option<Package>)>, n: string)
    ensures n in UnlockedNames(us) <==> exists i :: 0 <= i < |us| && us[i].1.Some? && us[i].1.value.name == n
    decreases |us|
  {
    if us != [] {
      var init := us[..|us| - 1];
      UnlockedNamesMembers(init, n);
      assert forall i :: 0 <= i < |init| ==> init[i] == us[i];
    }
  }

  /** A locked entry is in step when a package is installed under its name at its version. */
  predicate InstalledAsLocked(p: Project, l: Locked) {
    l.name in p.installed && p.installed[l.name].version == l.version
  }

  /** A manifest dependency is met by a locked name, or by a legacy name of a locked or unlocked package. */
  predicate MetForManifest(p: Project, n: string) {
    || (exists i :: 0 <= i < |p.locked| && CoveredByLocked(p.locked[i], p.installed, n))
    || (exists i :: 0 <= i < |p.unlocked| && p.unlocked[i].1.Some? && n in p.unlocked[i].1.value.legacyPackages)
  }

  /** A dependency of an unlocked package may also be met by another unlocked package. */
  predicate MetForUnlocked(p: Project, n: string) {
    || MetForManifest(p, n)
    || (exists i :: 0 <= i < |p.unlocked| && p.unlocked[i].1.Some? && p.unlocked[i].1.value.name == n)
  }

  predicate LockedOutOfStep(p: Project) {
    exists i :: 0 <= i < |p.locked| && !InstalledAsLocked(p, p.locked[i])
  }

  predicate ManifestDependencyMissing(p: Project) {
    exists i :: 0 <= i < |p.dependencies| && !MetForManifest(p, p.dependencies[i].name)
  }

  predicate UnlockedDependencyMissing(p: Project) {
    exists i, j :: (0 <= i < |p.unlocked| && p.unlocked[i].1.Some?
      && 0 <= j < |p.unlocked[i].1.value.vpmDependencies|
      && !MetForUnlocked(p, p.unlocked[i].1.value.vpmDependencies[j].name))
  }

  /**
   * A project must be resolved when a locked package is missing or installed
   * at another version, when a manifest dependency is met by nothing
   * installed, or when a dependency of an unlocked package is met by nothing
   * installed.
   */
  predicate NeedsResolve(p: Project) {
    LockedOutOfStep(p) || ManifestDependencyMissing(p) || UnlockedDependencyMissing(p)
  }

  /** The names collected before the manifest dependencies are checked. */
  function ManifestKnown(p: Project): set<string> {
    LockedNames(p.locked, p.installed) + UnlockedLegacy(p.unlocked)
  }

  /** The names collected before the dependencies of unlocked packages are checked. */
  function UnlockedKnown(p: Project): set<string> {
    ManifestKnown(p) + UnlockedNames(p.unlocked)
  }

  /** The first set holds exactly the names that meet a manifest dependency. */
  lemma ManifestKnownMeets(p: Project, n: string)
    ensures n in ManifestKnown(p) <==> MetForManifest(p, n)
  {
    LockedNamesMembers(p.locked, p.installed, n);
    UnlockedLegacyMembers(p.unlocked, n);
  }

  /** The second set holds exactly the names that meet a dependency of an unlocked package. */
  lemma UnlockedKnownMeets(p: Project, n: string)
    ensures n in UnlockedKnown(p) <==> MetForUnlocked(p, n)
  {
    ManifestKnownMeets(p, n);
    UnlockedNamesMembers(p.unlocked, n);
  }

  lemma ManifestMissing(p: Project, i: nat)
    requires i < |p.dependencies| && p.dependencies[i].name !in ManifestKnown(p)
    ensures NeedsResolve(p)
  {
    ManifestKnownMeets(p, p.dependencies[i].name);
  }

  lemma UnlockedMissing(p: Project, i: nat, j: nat)
    requires i < |p.unlocked| && p.unlocked[i].1.Some? && j < |p.unlocked[i].1.value.vpmDependencies|
    requires p.unlocked[i].1.value.vpmDependencies[j].name !in UnlockedKnown(p)
    ensures NeedsResolve(p)
  {
    UnlockedKnownMeets(p, p.unlocked[i].1.value.vpmDependencies[j].name);
  }

  lemma SomeUnlockedMissing(p: Project)
    requires !forall k, j :: (0 <= k < |p.unlocked| && p.unlocked[k].1.Some? && 0 <= j < |p.unlocked[k].1.value.vpmDependencies|
      ==> p.unlocked[k].1.value.vpmDependencies[j].name in UnlockedKnown(p))
    ensures NeedsResolve(p)
  {
    var i, j :| 0 <= i < |p.unlocked| && p.unlocked[i].1.Some? && 0 <= j < |p.unlocked[i].1.value.vpmDependencies|
      && p.unlocked[i].1.value.vpmDependencies[j].name !in UnlockedKnown(p);
    UnlockedMissing(p, i, j);
  }

  lemma InStep(p: Project)
    requires forall k :: 0 <= k < |p.locked| ==> InstalledAsLocked(p, p.locked[k])
    requires forall k :: 0 <= k < |p.dependencies| ==> p.dependencies[k].name in ManifestKnown(p)
    requires forall k, j :: (0 <= k < |p.unlocked| && p.unlocked[k].1.Some? && 0 <= j < |p.unlocked[k].1.value.vpmDependencies|
      ==> p.unlocked[k].1.value.vpmDependencies[j].name in UnlockedKnown(p))
    ensures !NeedsResolve(p)
  {
    forall k | 0 <= k < |p.dependencies| ensures MetForManifest(p, p.dependencies[k].name) {
      ManifestKnownMeets(p, p.dependencies[k].name);
    }
    forall k, j | 0 <= k < |p.unlocked| && p.unlocked[k].1.Some? && 0 <= j < |p.unlocked[k].1.value.vpmDependencies|
      ensures MetForUnlocked(p, p.unlocked[k].1.value.vpmDependencies[j].name)
    {
      UnlockedKnownMeets(p, p.unlocked[k].1.value.vpmDependencies[j].name);
    }
  }

  /**
   * The first loop of should_resolve: every locked entry must have its
   * package installed at the locked version; the names they account for are
   * collected on the way.
   */
  method CheckLocked(p: Project) returns (inStep: bool, known: set<string>)
    ensures inStep <==> !LockedOutOfStep(p)
    ensures inStep ==> known == LockedNames(p.locked, p.installed)
  {
    known := {};
    for i := 0 to |p.locked|
      invariant known == LockedNames(p.locked[..i], p.installed)
      invariant forall k :: 0 <= k < i ==> InstalledAsLocked(p, p.locked[k])
    {
      var locked := p.locked[i];
      if locked.name !in p.installed || p.installed[locked.name].version != locked.version {
        assert !InstalledAsLocked(p, p.locked[i]);
        return false, known;
      }
      known := known + {locked.name} + Elems(p.installed[locked.name].legacyPackages);
      assert p.locked[..i + 1][..i] == p.locked[..i];
    }
    assert p.locked[..|p.locked|] == p.locked;
    inStep := true;
  }

  /** The second loop of should_resolve: add the legacy names of the unlocked packages. */
  method AddUnlockedLegacy(p: Project, known0: set<string>) returns (known: set<string>)
    ensures known == known0 + UnlockedLegacy(p.unlocked)
  {
    known := known0;
    for i := 0 to |p.unlocked|
      invariant known == known0 + UnlockedLegacy(p.unlocked[..i])
    {
      assert p.unlocked[..i + 1][..i] == p.unlocked[..i];
      if p.unlocked[i].1.Some? {
        known := known + Elems(p.unlocked[i].1.value.legacyPackages);
      }
    }
    assert p.unlocked[..|p.unlocked|] == p.unlocked;
  }

  /** The fourth loop of should_resolve: add the names of the unlocked packages. */
  method AddUnlockedNames(p: Project, known0: set<string>) returns (known: set<string>)
    ensures known == known0 + UnlockedNames(p.unlocked)
  {
    known := known0;
    for i := 0 to |p.unlocked|
      invariant known == known0 + UnlockedNames(p.unlocked[..i])
    {
      assert p.unlocked[..i + 1][..i] == p.unlocked[..i];
      if p.unlocked[i].1.Some? {
        known := known + {p.unlocked[i].1.value.name};
      }
    }
    assert p.unlocked[..|p.unlocked|] == p.unlocked;
  }

  /** The last loop of should_resolve: is every dependency of an unlocked package among the names `known`? */
  method CheckUnlockedDependencies(p: Project, known: set<string>) returns (met: bool)
    ensures met <==> forall k, j :: (0 <= k < |p.unlocked| && p.unlocked[k].1.Some? && 0 <= j < |p.unlocked[k].1.value.vpmDependencies|
      ==> p.unlocked[k].1.value.vpmDependencies[j].name in known)
  {
    for i := 0 to |p.unlocked|
      invariant forall k, j :: (0 <= k < i && p.unlocked[k].1.Some? && 0 <= j < |p.unlocked[k].1.value.vpmDependencies|
        ==> p.unlocked[k].1.value.vpmDependencies[j].name in known)
    {
      if p.unlocked[i].1.Some? {
        var pkg := p.unlocked[i].1.value;
        for j := 0 to |pkg.vpmDependencies|
          invariant forall m :: 0 <= m < j ==> pkg.vpmDependencies[m].name in known
        {
          if pkg.vpmDependencies[j].name !in known {
            return false;
          }
        }
      }
    }
    return true;
  }

  /**
   * should_resolve: collect the names the locked and unlocked packages
   * account for, returning true at the first sign that the project is out of
   * step.
   */
  method ShouldResolve(p: Project) returns (b: bool)
    ensures b == NeedsResolve(p)
  {
    var inStep, known := CheckLocked(p);
    if !inStep {
      return true;
    }
    known := AddUnlockedLegacy(p, known);
    for i := 0 to |p.dependencies|
      invariant forall k :: 0 <= k < i ==> p.dependencies[k].name in ManifestKnown(p)
    {
      if p.dependencies[i].name !in known {
        ManifestMissing(p, i);
        return true;
      }
    }
    known := AddUnlockedNames(p, known);
    var met := CheckUnlockedDependencies(p, known);
    if !met {
      SomeUnlockedMissing(p);
      return true;
    }
    InStep(p);
    return false;
  }

  /** The names of unlocked packages do not meet manifest dependencies: such a project must be resolved. */
  lemma UnlockedNameDoesNotMeetManifest(p: Project, k: nat, i: nat)
    requires k < |p.dependencies| && i < |p.unlocked| && p.unlocked[i].1.Some?
    requires p.unlocked[i].1.value.name == p.dependencies[k].name
    requires p.dependencies[k].name !in ManifestKnown(p)
    ensures NeedsResolve(p)
    ensures MetForUnlocked(p, p.dependencies[k].name)
  {
    ManifestMissing(p, k);
  }

  /** A project with no locked entries, no dependencies and no unlocked packages needs no resolving. */
  lemma EmptyProjectIsResolved(installed: map<string, Package>, unity: Option<UnityVersion>)
    ensures !NeedsResolve(Project([], [], installed, [], unity))
  {
  }

  // ---------------------------------------------------------------------------
  // resolve_request, first phase: the locked entries

  /** One lookup per locked entry, for exactly its locked version. */
  function LockedRequests(ls: seq<Locked>): (r: seq<Request>)
    ensures |r| == |ls|
  {
    seq(|ls|, i requires 0 <= i < |ls| => Request(ls[i].name, SpecificVersion(ls[i].version)))
  }

  function AlreadyLocked(ps: seq<Package>): (r: seq<Change>)
    ensures |r| == |ps|
  {
    seq(|ps|, i requires 0 <= i < |ps| => InstallAlreadyLocked(ps[i]))
  }

  // ---------------------------------------------------------------------------
  // add_just_dependency: manifest dependencies that have no locked entry

  /** The lookup for a manifest dependency: its range, allowing pre-releases when the range names one. */
  function JustRequest(p: Project, d: Dependency): Request {
    Request(d.name, RangeFor(p.unity, d.range, ContainsPre(d.range)))
  }

  /** The lookups for the dependencies among `ds` that have no locked entry, in order. */
  function JustRequests(p: Project, ds: seq<Dependency>): seq<Request>
    decreases |ds|
  {
    if ds == [] then []
    else
      var d := ds[|ds| - 1];
      JustRequests(p, ds[..|ds| - 1]) + if d.name in LockedMap(p.locked) then [] else [JustRequest(p, d)]
  }

  /** Exactly the dependencies without a locked entry are looked up, each with its own range. */
  lemma {:induction false} JustRequestsMembers(p: Project, ds: seq<Dependency>, q: Request)
    ensures q in JustRequests(p, ds) <==> exists i :: 0 <= i < |ds| && ds[i].name !in LockedMap(p.locked) && q == JustRequest(p, ds[i])
    decreases |ds|
  {
    if ds != [] {
      var init := ds[..|ds| - 1];
      JustRequestsMembers(p, init, q);
      assert forall i :: 0 <= i < |init| ==> init[i] == ds[i];
    }
  }

  lemma {:induction false} JustRequestsConcat(p: Project, a: seq<Dependency>, b: seq<Dependency>)
    ensures JustRequests(p, a + b) == JustRequests(p, a) + JustRequests(p, b)
    decreases |b|
  {
    if b == [] {
      assert a + b == a;
    } else {
      JustRequestsConcat(p, a, b[..|b| - 1]);
      assert (a + b)[..|a + b| - 1] == a + b[..|b| - 1];
    }
  }

  /** The names of the requests. */
  function Names(reqs: seq<Request>): set<string>
    decreases |reqs|
  {
    if reqs == [] then {}
    else Names(reqs[..|reqs| - 1]) + {reqs[|reqs| - 1].name}
  }

  lemma {:induction false} NamesMembers(reqs: seq<Request>, n: string)
    ensures n in Names(reqs) <==> exists i :: 0 <= i < |reqs| && reqs[i].name == n
    decreases |reqs|
  {
    if reqs != [] {
      var init := reqs[..|reqs| - 1];
      NamesMembers(init, n);
      assert forall i :: 0 <= i < |init| ==> init[i] == reqs[i];
    }
  }

  /** One more lookup: the lookups so far, then this one; its name joins the names. */
  lemma RequestAppended(find: Finder, reqs: seq<Request>, q: Request)
    ensures FindAll(find, reqs + [q]) == match FindAll(find, reqs)
      case Err(e) => Err(e)
      case Ok(ps) =>
        match find(q.name, q.selector)
        case None => Err(DependencyNotFound(q.name))
        case Some(pkg) => Ok(ps + [pkg])
    ensures Names(reqs + [q]) == Names(reqs) + {q.name}
  {
    assert (reqs + [q])[..|reqs|] == reqs;
  }

  /** The lookups for one more manifest dependency. */
  lemma JustStep(p: Project, i: nat)
    requires i < |p.dependencies|
    ensures JustRequests(p, p.dependencies[..i + 1]) == JustRequests(p, p.dependencies[..i])
      + if p.dependencies[i].name in LockedMap(p.locked) then [] else [JustRequest(p, p.dependencies[i])]
  {
    assert p.dependencies[..i + 1][..i] == p.dependencies[..i];
  }

  /** A manifest dependency that nothing matches stops the lookups with DependencyNotFound for it. */
  lemma JustLookupFails(p: Project, find: Finder, i: nat)
    requires i < |p.dependencies| && p.dependencies[i].name !in LockedMap(p.locked)
    requires FindAll(find, JustRequests(p, p.dependencies[..i])).Ok?
    requires find(p.dependencies[i].name, JustRequest(p, p.dependencies[i]).selector).None?
    ensures FindAll(find, JustRequests(p, p.dependencies)) == Err(DependencyNotFound(p.dependencies[i].name))
  {
    var failed := JustRequests(p, p.dependencies[..i + 1]);
    JustStep(p, i);
    RequestAppended(find, JustRequests(p, p.dependencies[..i]), JustRequest(p, p.dependencies[i]));
    JustRequestsConcat(p, p.dependencies[..i + 1], p.dependencies[i + 1..]);
    assert p.dependencies[..i + 1] + p.dependencies[i + 1..] == p.dependencies;
    FindAllExtendFails(find, failed, JustRequests(p, p.dependencies[i + 1..]));
  }

  /** Pre-releases are allowed when some chosen package is one. */
  predicate AnyPrerelease(ps: seq<Package>) {
    exists i :: 0 <= i < |ps| && IsPrerelease(ps[i].version)
  }

  /**
   * The changes recorded for the packages to add: each is installed to
   * locked, and a directly requested one is also added to the dependencies
   * at its exact version.
   */
  function NewPackageChanges(ps: seq<Package>, requested: set<string>): seq<Change>
    decreases |ps|
  {
    if ps == [] then []
    else
      var x := ps[|ps| - 1];
      NewPackageChanges(ps[..|ps| - 1], requested)
        + [InstallToLocked(x)]
        + if x.name in requested then [AddToDependencies(x.name, Exact(x.version))] else []
  }

  /** The changes recorded for the conflicts. */
  function ConflictChanges(cs: seq<(string, seq<string>)>): (r: seq<Change>)
    ensures |r| == |cs|
  {
    seq(|cs|, i requires 0 <= i < |cs| => ConflictMultiple(cs[i].0, cs[i].1))
  }

  /** What add_just_dependency records, or the error it stops with. */
  function JustDependencyChanges(p: Project, find: Finder, collect: Collector): Result<seq<Change>, AddPackageErr> {
    var reqs := JustRequests(p, p.dependencies);
    match FindAll(find, reqs)
    case Err(e) => Err(e)
    case Ok(toInstall) =>
      if toInstall == [] then Ok([])
      else CollectedChanges(p, LockedMap(p.locked), toInstall, Names(reqs), collect)
  }

  /**
   * What is recorded once the packages to add are known: `collect_adding_packages`
   * is asked for them against the locked entries `locked`, allowing
   * pre-releases when one of them is one, and its choice is recorded.
   */
  function CollectedChanges(p: Project, locked: map<string, Locked>, ps: seq<Package>, requested: set<string>, collect: Collector): Result<seq<Change>, AddPackageErr> {
    match collect(CollectRequest(p.dependencies, locked, p.unlocked, p.unity, ps, AnyPrerelease(ps)))
    case Err(e) => Err(e)
    case Ok(c) => Ok(NewPackageChanges(c.newPackages, requested) + ConflictChanges(c.conflicts))
  }

  /** Record the packages `collect_adding_packages` chose and the conflicts it found. */
  method RecordCollected(c: Collected, requested: set<string>, changes: Builder)
    modifies changes
    ensures changes.log == old(changes.log) + NewPackageChanges(c.newPackages, requested) + ConflictChanges(c.conflicts)
  {
    for i := 0 to |c.newPackages|
      invariant changes.log == old(changes.log) + NewPackageChanges(c.newPackages[..i], requested)
    {
      var x := c.newPackages[i];
      assert c.newPackages[..i + 1][..i] == c.newPackages[..i];
      changes.InstallToLocked(x);
      if x.name in requested {
        changes.AddToDependencies(x.name, Exact(x.version));
      }
    }
    assert c.newPackages[..|c.newPackages|] == c.newPackages;
    ghost var base := changes.log;
    for i := 0 to |c.conflicts|
      invariant changes.log == base + ConflictChanges(c.conflicts[..i])
    {
      changes.ConflictMultiple(c.conflicts[i].0, c.conflicts[i].1);
      assert ConflictChanges(c.conflicts[..i + 1]) == ConflictChanges(c.conflicts[..i]) + [ConflictMultiple(c.conflicts[i].0, c.conflicts[i].1)];
    }
    assert c.conflicts[..|c.conflicts|] == c.conflicts;
  }

  /** Ask `collect_adding_packages` for the packages `ps` and record its choice; on an error the builder is left as it was. */
  method CollectAndRecord(p: Project, locked: map<string, Locked>, ps: seq<Package>, requested: set<string>, collect: Collector, changes: Builder)
    returns (r: Result<(), AddPackageErr>)
    modifies changes
    ensures CollectedChanges(p, locked, ps, requested, collect).Ok? ==>
      r.Ok? && changes.log == old(changes.log) + CollectedChanges(p, locked, ps, requested, collect).value
    ensures CollectedChanges(p, locked, ps, requested, collect).Err? ==>
      r == Err(CollectedChanges(p, locked, ps, requested, collect).error) && changes.log == old(changes.log)
  {
    var allowPrerelease := exists i :: 0 <= i < |ps| && IsPrerelease(ps[i].version);
    var result := collect(CollectRequest(p.dependencies, locked, p.unlocked, p.unity, ps, allowPrerelease));
    if result.Err? {
      return Err(result.error);
    }
    RecordCollected(result.value, requested, changes);
    return Ok(());
  }

  /**
   * The lookup loop of add_just_dependency: every manifest dependency without
   * a locked entry is looked up in manifest order, and the first one nothing
   * matches stops the loop with DependencyNotFound for it. Also returns the
   * names that were looked up.
   */
  method LookUpJustDependencies(p: Project, find: Finder) returns (r: Result<seq<Package>, AddPackageErr>, installNames: set<string>)
    ensures r == FindAll(find, JustRequests(p, p.dependencies))
    ensures r.Ok? ==> installNames == Names(JustRequests(p, p.dependencies))
  {
    var toInstall: seq<Package> := [];
    installNames := {};
    for i := 0 to |p.dependencies|
      invariant FindAll(find, JustRequests(p, p.dependencies[..i])) == Ok(toInstall)
      invariant installNames == Names(JustRequests(p, p.dependencies[..i]))
    {
      var d := p.dependencies[i];
      JustStep(p, i);
      if d.name in LockedMap(p.locked) {
        assert JustRequests(p, p.dependencies[..i + 1]) == JustRequests(p, p.dependencies[..i]);
      }
      if d.name !in LockedMap(p.locked) {
        var pkg := find(d.name, RangeFor(p.unity, d.range, ContainsPre(d.range)));
        if pkg.None? {
          JustLookupFails(p, find, i);
          return Err(DependencyNotFound(d.name)), installNames;
        }
        RequestAppended(find, JustRequests(p, p.dependencies[..i]), JustRequest(p, d));
        toInstall := toInstall + [pkg.value];
        installNames := installNames + {d.name};
      }
    }
    assert p.dependencies[..|p.dependencies|] == p.dependencies;
    r := Ok(toInstall);
  }

  /**
   * add_just_dependency: look up every manifest dependency that has no locked
   * entry, then record what `collect_adding_packages` makes of them. On an
   * error the builder is left as it was.
   */
  method AddJustDependency(p: Project, find: Finder, collect: Collector, changes: Builder) returns (r: Result<(), AddPackageErr>)
    modifies changes
    ensures JustDependencyChanges(p, find, collect).Ok? ==>
      r.Ok? && changes.log == old(changes.log) + JustDependencyChanges(p, find, collect).value
    ensures JustDependencyChanges(p, find, collect).Err? ==>
      r == Err(JustDependencyChanges(p, find, collect).error) && changes.log == old(changes.log)
  {
    var found, installNames := LookUpJustDependencies(p, find);
    if found.Err? {
      return Err(found.error);
    }
    var toInstall := found.value;
    if toInstall == [] {
      return Ok(());
    }
    r := CollectAndRecord(p, LockedMap(p.locked), toInstall, installNames, collect, changes);
  }

  // ---------------------------------------------------------------------------
  // resolve_unlocked: dependencies of the unlocked packages

  /** A dependency of an unlocked package, with whether that package's version is a pre-release. */
  datatype Candidate = Candidate(name: string, range: Range, prerelease: bool)

  /** The dependencies of the packages `pkgs`, package by package. */
  function DependenciesOf(pkgs: seq<Package>): seq<Candidate>
    decreases |pkgs|
  {
    if pkgs == [] then []
    else DependenciesOf(pkgs[..|pkgs| - 1]) + OwnDependencies(pkgs[|pkgs| - 1])
  }

  /** The dependencies of one package, each marked with whether the package is a pre-release. */
  function OwnDependencies(pkg: Package): (r: seq<Candidate>)
    ensures |r| == |pkg.vpmDependencies|
  {
    var ds := pkg.vpmDependencies;
    seq(|ds|, j requires 0 <= j < |ds| => Candidate(ds[j].name, ds[j].range, IsPrerelease(pkg.version)))
  }

  lemma {:induction false} DependenciesOfMembers(pkgs: seq<Package>, c: Candidate)
    ensures c in DependenciesOf(pkgs) <==> exists i, j :: (0 <= i < |pkgs| && 0 <= j < |pkgs[i].vpmDependencies|
      && c == OwnDependencies(pkgs[i])[j])
    decreases |pkgs|
  {
    if pkgs != [] {
      var init := pkgs[..|pkgs| - 1];
      var own := OwnDependencies(pkgs[|pkgs| - 1]);
      DependenciesOfMembers(init, c);
      assert forall i :: 0 <= i < |init| ==> init[i] == pkgs[i];
      if c in own {
        var j :| 0 <= j < |own| && own[j] == c;
        assert c == OwnDependencies(pkgs[|pkgs| - 1])[j];
      }
    }
  }

  /** A candidate is looked up when it is not locked, not being installed, and not installed unlocked. */
  predicate Wanted(p: Project, installing: map<string, Package>, c: Candidate) {
    c.name !in LockedMap(p.locked) && c.name !in installing && c.name !in UnlockedNames(p.unlocked)
  }

  function FilterWanted(p: Project, installing: map<string, Package>, cs: seq<Candidate>): seq<Candidate>
    decreases |cs|
  {
    if cs == [] then []
    else
      var c := cs[|cs| - 1];
      FilterWanted(p, installing, cs[..|cs| - 1]) + if Wanted(p, installing, c) then [c] else []
  }

  lemma {:induction false} FilterWantedMembers(p: Project, installing: map<string, Package>, cs: seq<Candidate>, c: Candidate)
    ensures c in FilterWanted(p, installing, cs) <==> c in cs && Wanted(p, installing, c)
    decreases |cs|
  {
    if cs != [] {
      FilterWantedMembers(p, installing, cs[..|cs| - 1], c);
      assert cs == cs[..|cs| - 1] + [cs[|cs| - 1]];
    }
  }

  /** The dependencies of the unlocked packages that have to be looked up, in order. */
  function Candidates(p: Project, installing: map<string, Package>): seq<Candidate> {
    FilterWanted(p, installing, DependenciesOf(UnlockedPackages(p.unlocked)))
  }

  /** The candidate names, each once, in order of first appearance. */
  function NamesInOrder(cs: seq<Candidate>): seq<string>
    decreases |cs|
  {
    if cs == [] then []
    else
      var d := NamesInOrder(cs[..|cs| - 1]);
      if cs[|cs| - 1].name in d then d else d + [cs[|cs| - 1].name]
  }

  /** Every candidate name appears, and nothing else. */
  lemma {:induction false} NamesInOrderMembers(cs: seq<Candidate>, n: string)
    ensures n in NamesInOrder(cs) <==> exists i :: 0 <= i < |cs| && cs[i].name == n
    decreases |cs|
  {
    if cs != [] {
      var init := cs[..|cs| - 1];
      NamesInOrderMembers(init, n);
      assert forall i :: 0 <= i < |init| ==> init[i] == cs[i];
    }
  }

  /** No name appears twice. */
  lemma {:induction false} NamesInOrderDistinct(cs: seq<Candidate>)
    ensures forall i, j :: 0 <= i < j < |NamesInOrder(cs)| ==> NamesInOrder(cs)[i] != NamesInOrder(cs)[j]
    decreases |cs|
  {
    if cs != [] {
      NamesInOrderDistinct(cs[..|cs| - 1]);
    }
  }

  /** The candidates for one name, in order. */
  function EntriesFor(cs: seq<Candidate>, name: string): seq<Candidate>
    decreases |cs|
  {
    if cs == [] then []
    else
      var c := cs[|cs| - 1];
      EntriesFor(cs[..|cs| - 1], name) + if c.name == name then [c] else []
  }

  lemma {:induction false} EntriesForMembers(cs: seq<Candidate>, name: string, c: Candidate)
    ensures c in EntriesFor(cs, name) <==> c in cs && c.name == name
    decreases |cs|
  {
    if cs != [] {
      EntriesForMembers(cs[..|cs| - 1], name, c);
      assert cs == cs[..|cs| - 1] + [cs[|cs| - 1]];
    }
  }

  function RangesOf(es: seq<Candidate>): (r: seq<Range>)
    ensures |r| == |es|
  {
    seq(|es|, i requires 0 <= i < |es| => es[i].range)
  }

  /** The lookup for one name: every range asked for it, allowing pre-releases when some depender is one. */
  function GroupRequest(p: Project, cs: seq<Candidate>, name: string): Request {
    var es := EntriesFor(cs, name);
    Request(name, RangesFor(p.unity, RangesOf(es), exists i :: 0 <= i < |es| && es[i].prerelease))
  }

  /** One lookup per candidate name, in order of first appearance. */
  function UnlockedRequests(p: Project, cs: seq<Candidate>): (r: seq<Request>)
    ensures |r| == |NamesInOrder(cs)|
  {
    var names := NamesInOrder(cs);
    seq(|names|, i requires 0 <= i < |names| => GroupRequest(p, cs, names[i]))
  }

  /** The locked entries the dependency walk sees: the manifest's, overridden by the packages being installed. */
  function VirtualLocked(p: Project, installing: map<string, Package>): map<string, Locked> {
    var locked := LockedMap(p.locked);
    map n | n in locked.Keys + installing.Keys :: if n in installing then AsLocked(installing[n]) else locked[n]
  }

  /** The changes that only install packages to locked. */
  function InstallAll(ps: seq<Package>): (r: seq<Change>)
    ensures |r| == |ps|
  {
    seq(|ps|, i requires 0 <= i < |ps| => InstallToLocked(ps[i]))
  }

  /** What resolve_unlocked records, given the packages already being installed, or the error it stops with. */
  function UnlockedChanges(p: Project, find: Finder, collect: Collector, installing: map<string, Package>): Result<seq<Change>, AddPackageErr> {
    if p.unlocked == [] || UnlockedNames(p.unlocked) == {} then Ok([])
    else
      var cs := Candidates(p, installing);
      if cs == [] then Ok([])
      else match FindAll(find, UnlockedRequests(p, cs))
        case Err(e) => Err(e)
        case Ok(deps) =>
          CollectedChanges(p, VirtualLocked(p, installing), deps, {}, collect)
  }

  /** Build the virtual locked map: start from the manifest's locked entries and insert each package being installed. */
  method VirtualLockedDependencies(p: Project, installing: map<string, Package>) returns (m: map<string, Locked>)
    ensures m == VirtualLocked(p, installing)
  {
    var locked := LockedMap(p.locked);
    m := locked;
    var pending := installing.Keys;
    while pending != {}
      invariant pending <= installing.Keys
      invariant m.Keys == locked.Keys + (installing.Keys - pending)
      invariant forall n :: n in m ==> m[n] == if n in installing && n !in pending then AsLocked(installing[n]) else locked[n]
      decreases pending
    {
      var n :| n in pending;
      m := m[n := AsLocked(installing[n])];
      pending := pending - {n};
    }
    assert m.Keys == VirtualLocked(p, installing).Keys;
  }

  /**
   * resolve_unlocked: look up the dependencies of the unlocked packages that
   * are neither locked, nor being installed, nor installed unlocked, one
   * lookup per name, then record what `collect_adding_packages` makes of
   * them. On an error the builder is left as it was.
   */
  method ResolveUnlocked(p: Project, find: Finder, collect: Collector, changes: Builder) returns (r: Result<(), AddPackageErr>)
    modifies changes
    ensures UnlockedChanges(p, find, collect, Installing(old(changes.log))).Ok? ==>
      r.Ok? && changes.log == old(changes.log) + UnlockedChanges(p, find, collect, Installing(old(changes.log))).value
    ensures UnlockedChanges(p, find, collect, Installing(old(changes.log))).Err? ==>
      r == Err(UnlockedChanges(p, find, collect, Installing(old(changes.log))).error) && changes.log == old(changes.log)
  {
    if |p.unlocked| == 0 {
      return Ok(());
    }
    var unlockedNames := UnlockedNames(p.unlocked);
    if unlockedNames == {} {
      return Ok(());
    }
    var installing := Installing(changes.log);
    var candidates := Candidates(p, installing);
    if candidates == [] {
      return Ok(());
    }
    var requests := UnlockedRequests(p, candidates);
    var virtualLocked := VirtualLockedDependencies(p, installing);
    var found := FindAll(find, requests);
    if found.Err? {
      return Err(found.error);
    }
    r := CollectAndRecord(p, virtualLocked, found.value, {}, collect, changes);
  }

  // ---------------------------------------------------------------------------
  // resolve_request

  /** What resolve_request hands to the builder's final step, or the error it stops with. */
  function ResolveRequestResult(p: Project, find: Finder, collect: Collector): Result<seq<Change>, AddPackageErr> {
    match FindAll(find, LockedRequests(p.locked))
    case Err(e) => Err(e)
    case Ok(ps) =>
      var c1 := AlreadyLocked(ps);
      match JustDependencyChanges(p, find, collect)
      case Err(e) => Err(e)
      case Ok(c2) =>
        match UnlockedChanges(p, find, collect, Installing(c1 + c2))
        case Err(e) => Err(e)
        case Ok(c3) => Ok(c1 + c2 + c3)
  }

  /**
   * resolve_request: record every locked entry as already locked, then add
   * the dependencies that have no locked entry, then the dependencies of the
   * unlocked packages. The result is the builder's call log.
   */
  method ResolveRequest(p: Project, find: Finder, collect: Collector) returns (r: Result<seq<Change>, AddPackageErr>)
    ensures r == ResolveRequestResult(p, find, collect)
  {
    var changes := new Builder();
    ghost var reqs := LockedRequests(p.locked);
    ghost var ps: seq<Package> := [];
    for i := 0 to |p.locked|
      invariant FindAll(find, reqs[..i]) == Ok(ps)
      invariant changes.log == AlreadyLocked(ps)
    {
      var dep := p.locked[i];
      FindAllSnoc(find, reqs, i);
      var pkg := find(dep.name, SpecificVersion(dep.version));
      if pkg.None? {
        assert reqs[..i + 1] + reqs[i + 1..] == reqs;
        FindAllExtendFails(find, reqs[..i + 1], reqs[i + 1..]);
        return Err(DependencyNotFound(dep.name));
      }
      changes.InstallAlreadyLocked(pkg.value);
      ps := ps + [pkg.value];
    }
    assert reqs[..|p.locked|] == reqs;
    var just := AddJustDependency(p, find, collect, changes);
    if just.Err? {
      return Err(just.error);
    }
    var unlocked := ResolveUnlocked(p, find, collect, changes);
    if unlocked.Err? {
      return Err(unlocked.error);
    }
    return Ok(changes.log);
  }

  // ---------------------------------------------------------------------------
  // Properties

  /** Without requested names, the changes only install to locked. */
  lemma {:induction false} NewPackageChangesUnrequested(ps: seq<Package>)
    ensures NewPackageChanges(ps, {}) == InstallAll(ps)
    decreases |ps|
  {
    if ps != [] {
      NewPackageChangesUnrequested(ps[..|ps| - 1]);
    }
  }

  /**
   * Every chosen package is installed to locked, and a dependency is added
   * exactly for the chosen packages whose name was requested directly, at
   * that package's exact version.
   */
  lemma {:induction false} NewPackageChangesMembers(ps: seq<Package>, requested: set<string>, c: Change)
    ensures c.InstallToLocked? ==> (c in NewPackageChanges(ps, requested) <==> c.package in ps)
    ensures c.AddToDependencies? ==> (c in NewPackageChanges(ps, requested) <==>
      exists i :: 0 <= i < |ps| && ps[i].name == c.name && c.name in requested && c.range == Exact(ps[i].version))
    ensures !c.InstallToLocked? && !c.AddToDependencies? ==> c !in NewPackageChanges(ps, requested)
    decreases |ps|
  {
    if ps != [] {
      var init := ps[..|ps| - 1];
      NewPackageChangesMembers(init, requested, c);
      assert ps == init + [ps[|ps| - 1]];
      assert forall i :: 0 <= i < |init| ==> init[i] == ps[i];
    }
  }

  /**
   * The first phase stops at the first locked entry whose exact version
   * cannot be found, with DependencyNotFound for its name.
   */
  lemma ResolveRequestLockedMissing(p: Project, find: Finder, collect: Collector, k: nat)
    requires k < |p.locked| && find(p.locked[k].name, SpecificVersion(p.locked[k].version)).None?
    requires forall i :: 0 <= i < k ==> find(p.locked[i].name, SpecificVersion(p.locked[i].version)).Some?
    ensures ResolveRequestResult(p, find, collect) == Err(DependencyNotFound(p.locked[k].name))
  {
    var reqs := LockedRequests(p.locked);
    var prefix := reqs[..k + 1];
    FindAllFound(find, reqs[..k]);
    assert prefix[..k] == reqs[..k];
    assert FindAll(find, prefix) == Err(DependencyNotFound(p.locked[k].name));
    assert prefix + reqs[k + 1..] == reqs;
    FindAllExtendFails(find, prefix, reqs[k + 1..]);
  }

  /**
   * When resolution succeeds, its changes begin with every locked entry,
   * in manifest order, recorded as already locked at the package found for
   * its exact version.
   */
  lemma ResolveRequestLockedFirst(p: Project, find: Finder, collect: Collector)
    requires ResolveRequestResult(p, find, collect).Ok?
    ensures var cs := ResolveRequestResult(p, find, collect).value;
      && |p.locked| <= |cs|
      && forall i :: 0 <= i < |p.locked| ==>
        cs[i].InstallAlreadyLocked? && Some(cs[i].package) == find(p.locked[i].name, SpecificVersion(p.locked[i].version))
  {
    var reqs := LockedRequests(p.locked);
    FindAllFound(find, reqs);
  }

  /** Dependencies that all have locked entries add nothing, and nothing is looked up. */
  lemma JustDependencyAllLocked(p: Project, find: Finder, collect: Collector)
    requires forall i :: 0 <= i < |p.dependencies| ==> p.dependencies[i].name in LockedMap(p.locked)
    ensures JustRequests(p, p.dependencies) == []
    ensures JustDependencyChanges(p, find, collect) == Ok([])
  {
    var reqs := JustRequests(p, p.dependencies);
    if reqs != [] {
      JustRequestsMembers(p, p.dependencies, reqs[0]);
    }
  }

  /**
   * A failed lookup in add_just_dependency is DependencyNotFound for a
   * manifest dependency that has no locked entry and that nothing matches.
   */
  lemma JustDependencyNotFound(p: Project, find: Finder, collect: Collector)
    requires FindAll(find, JustRequests(p, p.dependencies)).Err?
    ensures JustDependencyChanges(p, find, collect) == FindAll(find, JustRequests(p, p.dependencies)).PropagateFailure()
    ensures exists i :: (0 <= i < |p.dependencies| && p.dependencies[i].name !in LockedMap(p.locked)
      && find(JustRequest(p, p.dependencies[i]).name, JustRequest(p, p.dependencies[i]).selector).None?
      && JustDependencyChanges(p, find, collect).error == DependencyNotFound(p.dependencies[i].name))
  {
    var reqs := JustRequests(p, p.dependencies);
    FindAllFirstMissing(find, reqs);
    var k :| 0 <= k < |reqs| && find(reqs[k].name, reqs[k].selector).None?
      && FindAll(find, reqs).error == DependencyNotFound(reqs[k].name);
    JustRequestsMembers(p, p.dependencies, reqs[k]);
  }

  /**
   * In resolve_unlocked a dependency of an unlocked package is a candidate
   * exactly when it is not locked, not being installed and not installed
   * unlocked.
   */
  lemma CandidatesMembers(p: Project, installing: map<string, Package>, c: Candidate)
    ensures c in Candidates(p, installing) <==>
      && (exists i, j :: (0 <= i < |p.unlocked| && p.unlocked[i].1.Some?
          && 0 <= j < |p.unlocked[i].1.value.vpmDependencies|
          && c == Candidate(p.unlocked[i].1.value.vpmDependencies[j].name, p.unlocked[i].1.value.vpmDependencies[j].range,
                            IsPrerelease(p.unlocked[i].1.value.version))))
      && c.name !in LockedMap(p.locked) && c.name !in installing && c.name !in UnlockedNames(p.unlocked)
  {
    var pkgs := UnlockedPackages(p.unlocked);
    FilterWantedMembers(p, installing, DependenciesOf(pkgs), c);
    DependenciesOfMembers(pkgs, c);
    if c in DependenciesOf(pkgs) {
      var i, j :| 0 <= i < |pkgs| && 0 <= j < |pkgs[i].vpmDependencies| && c == OwnDependencies(pkgs[i])[j];
      assert pkgs[i] in pkgs;
      UnlockedPackagesMembers(p.unlocked, pkgs[i]);
      var k :| 0 <= k < |p.unlocked| && p.unlocked[k].1 == Some(pkgs[i]);
      assert p.unlocked[k].1.value.vpmDependencies[j].name == c.name;
    }
    if exists i, j :: (0 <= i < |p.unlocked| && p.unlocked[i].1.Some?
          && 0 <= j < |p.unlocked[i].1.value.vpmDependencies|
          && c == Candidate(p.unlocked[i].1.value.vpmDependencies[j].name, p.unlocked[i].1.value.vpmDependencies[j].range,
                            IsPrerelease(p.unlocked[i].1.value.version))) {
      var i, j :| 0 <= i < |p.unlocked| && p.unlocked[i].1.Some?
          && 0 <= j < |p.unlocked[i].1.value.vpmDependencies|
          && c == Candidate(p.unlocked[i].1.value.vpmDependencies[j].name, p.unlocked[i].1.value.vpmDependencies[j].range,
                            IsPrerelease(p.unlocked[i].1.value.version));
      var pkg := p.unlocked[i].1.value;
      UnlockedPackagesMembers(p.unlocked, pkg);
      var k :| 0 <= k < |pkgs| && pkgs[k] == pkg;
      assert c == OwnDependencies(pkgs[k])[j];
    }
  }

  /**
   * Grouping by name: each candidate name is looked up exactly once, with
   * every range asked for it in order, and pre-releases are allowed for it
   * exactly when some depender's version is a pre-release.
   */
  lemma UnlockedRequestsGrouped(p: Project, cs: seq<Candidate>, k: nat)
    requires k < |UnlockedRequests(p, cs)|
    ensures var q := UnlockedRequests(p, cs)[k];
      && (exists i :: 0 <= i < |cs| && cs[i].name == q.name)
      && (forall m :: 0 <= m < |UnlockedRequests(p, cs)| && m != k ==> UnlockedRequests(p, cs)[m].name != q.name)
      && q.selector.RangesFor?
      && q.selector.ranges == RangesOf(EntriesFor(cs, q.name))
      && (q.selector.allowPrerelease <==> exists i :: 0 <= i < |cs| && cs[i].name == q.name && cs[i].prerelease)
  {
    var names := NamesInOrder(cs);
    var q := UnlockedRequests(p, cs)[k];
    assert q.name == names[k] && names[k] in names;
    NamesInOrderMembers(cs, q.name);
    NamesInOrderDistinct(cs);
    var es := EntriesFor(cs, q.name);
    if exists i :: 0 <= i < |es| && es[i].prerelease {
      var i :| 0 <= i < |es| && es[i].prerelease;
      EntriesForMembers(cs, q.name, es[i]);
      var j :| 0 <= j < |cs| && cs[j] == es[i];
    }
    if exists i :: 0 <= i < |cs| && cs[i].name == q.name && cs[i].prerelease {
      var i :| 0 <= i < |cs| && cs[i].name == q.name && cs[i].prerelease;
      EntriesForMembers(cs, q.name, cs[i]);
      var j :| 0 <= j < |es| && es[j] == cs[i];
    }
  }

  /** resolve_unlocked returns at once, recording nothing, when no dependency of an unlocked package is a candidate. */
  lemma UnlockedNothingWanted(p: Project, find: Finder, collect: Collector, installing: map<string, Package>)
    requires forall c :: c in DependenciesOf(UnlockedPackages(p.unlocked)) ==> !Wanted(p, installing, c)
    ensures UnlockedChanges(p, find, collect, installing) == Ok([])
  {
    var cs := Candidates(p, installing);
    if cs != [] {
      FilterWantedMembers(p, installing, DependenciesOf(UnlockedPackages(p.unlocked)), cs[0]);
    }
  }
}
