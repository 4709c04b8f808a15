/**
 * The builder of pending project changes that resolution fills in. Its own
 * bookkeeping is not part of this model: the builder is the log of the calls
 * made on it, in order, and a package counts as being installed once some
 * call has asked to install it.
 */
module PendingChanges {
  import opened Wrappers
  import opened Packages

  /** One call made on the builder. */
  datatype Change =
    | InstallAlreadyLocked(package: Package)
    | InstallToLocked(package: Package)
    | AddToDependencies(name: string, range: Range)
    | ConflictMultiple(conflicting: string, conflictsWith: seq<string>)

  predicate IsInstall(c: Change) {
    c.InstallAlreadyLocked? || c.InstallToLocked?
  }

  /** The packages a log asks to install, by name; for a name installed twice, the later package. */
  function Installing(log: seq<Change>): map<string, Package>
    decreases |log|
  {
    if log == [] then map[]
    else
      var last := log[|log| - 1];
      if IsInstall(last) then Installing(log[..|log| - 1])[last.package.name := last.package]
      else Installing(log[..|log| - 1])
  }

  class Builder {
    var log: seq<Change>

    constructor ()
      ensures log == []
    {
      log := [];
    }

    method InstallAlreadyLocked(pkg: Package)
      modifies this
      ensures log == old(log) + [Change.InstallAlreadyLocked(pkg)]
    {
      log := log + [Change.InstallAlreadyLocked(pkg)];
    }

    method InstallToLocked(pkg: Package)
      modifies this
      ensures log == old(log) + [Change.InstallToLocked(pkg)]
    {
      log := log + [Change.InstallToLocked(pkg)];
    }

    method AddToDependencies(name: string, range: Range)
      modifies this
      ensures log == old(log) + [Change.AddToDependencies(name, range)]
    {
      log := log + [Change.AddToDependencies(name, range)];
    }

    method ConflictMultiple(package: string, conflictsWith: seq<string>)
      modifies this
      ensures log == old(log) + [Change.ConflictMultiple(package, conflictsWith)]
    {
      log := log + [Change.ConflictMultiple(package, conflictsWith)];
    }
  }
}
