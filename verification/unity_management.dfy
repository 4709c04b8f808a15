/**
 * The environment's table of Unity editor installations: adding an
 * installation by asking the editor for its version, picking the
 * installation that best fits a project's Unity version, reconciling the
 * table with the file system and the Unity Hub's list, and finding the Unity
 * Hub executable.
 *
 * The file system, the editor process and Unity's version parser and
 * printer are parameters: `isFile` answers whether a path is a file, `run`
 * is the outcome of starting an editor with `-version`, `parse` and `show`
 * are UnityVersion::parse and its Display text.
 */
module UnityManagement {
  import opened Wrappers
  import opened Words
  import opened Versions
  import opened Text

  datatype ErrorKind = AlreadyExists | InvalidInput | Other
  datatype IoError = IoError(kind: ErrorKind, message: string)

  /** What a finished editor process reports: whether it exited successfully, and its standard output. */
  datatype ProcessOutput = ProcessOutput(success: bool, stdout: seq<byte>)

  type FileTest = string -> bool
  type Runner = string -> Result<ProcessOutput, IoError>
  type Parser = string -> Option<UnityVersion>
  type Printer = UnityVersion -> string

  /** A row of the installations table: its id, the editor's path, its version text, and whether the Unity Hub lists it. */
  datatype UnityRecord = UnityRecord(id: nat, path: string, version: Option<string>, loadedFromHub: bool)

  /** UnityInstallation::version: the record's version text, parsed. */
  function InstallationVersion(rec: UnityRecord, parse: Parser): (r: Option<UnityVersion>)
    ensures r.Some? <==> rec.version.Some? && parse(rec.version.value).Some?
    ensures r.Some? ==> r == parse(rec.version.value)
  {
    if rec.version.None? then None else parse(rec.version.value)
  }

  /** Whether some record has the path. */
  predicate PathRecorded(recs: seq<UnityRecord>, path: string) {
    exists i :: 0 <= i < |recs| && recs[i].path == path
  }

  /** The paths of the records. */
  function Paths(recs: seq<UnityRecord>): set<string> {
    set r | r in recs :: r.path
  }

  /** The ids go up along the table. */
  predicate IdsIncreasing(recs: seq<UnityRecord>)
    decreases |recs|
  {
    |recs| < 2 || (IdsIncreasing(recs[..|recs| - 1]) && recs[|recs| - 2].id < recs[|recs| - 1].id)
  }

  /** The last id, and so every id of an increasing table, is below `n`. */
  predicate IdsBelow(recs: seq<UnityRecord>, n: nat) {
    recs == [] || recs[|recs| - 1].id < n
  }

  lemma {:induction false} IdsIncreasingPairs(recs: seq<UnityRecord>)
    requires IdsIncreasing(recs)
    ensures forall i, j :: 0 <= i < j < |recs| ==> recs[i].id < recs[j].id
    decreases |recs|
  {
    if |recs| >= 2 {
      var init := recs[..|recs| - 1];
      IdsIncreasingPairs(init);
      assert forall i :: 0 <= i < |init| ==> init[i] == recs[i];
    }
  }

  lemma IdsBelowAll(recs: seq<UnityRecord>, n: nat)
    requires IdsIncreasing(recs) && IdsBelow(recs, n)
    ensures forall i :: 0 <= i < |recs| ==> recs[i].id < n
  {
    IdsIncreasingPairs(recs);
  }

  /** Appending a record with a larger id keeps the ids increasing. */
  lemma IdsIncreasingAppend(recs: seq<UnityRecord>, x: UnityRecord)
    requires IdsIncreasing(recs) && IdsBelow(recs, x.id)
    ensures IdsIncreasing(recs + [x])
  {
    assert (recs + [x])[..|recs|] == recs;
  }

  // ---------------------------------------------------------------------------
  // add_unity_installation

  /**
   * The version an editor's `-version` output reports: the output before
   * its first space, decoded as UTF-8 and trimmed, then parsed. A failed
   * start is passed on; an unsuccessful exit, text that is not UTF-8 and
   * text that does not parse are InvalidInput.
   */
  function Probe(out: Result<ProcessOutput, IoError>, path: string, parse: Parser): (r: Result<UnityVersion, IoError>)
    ensures r.Ok? ==> out.Ok? && out.value.success
  {
    match out
    case Err(e) => Err(e)
    case Ok(o) =>
      if !o.success then Err(IoError(InvalidInput, "invalid unity installation at " + path))
      else match Decode(FirstField(o.stdout))
        case None => Err(IoError(InvalidInput, "invalid version"))
        case Some(text) =>
          var version := Trim(text);
          match parse(version)
          case None => Err(IoError(InvalidInput, "invalid version: " + version))
          case Some(v) => Ok(v)
  }

  /** What add_unity_installation returns for `path`: AlreadyExists for a recorded path, else the probed version. */
  function AddOutcome(recs: seq<UnityRecord>, path: string, run: Runner, parse: Parser): (r: Result<UnityVersion, IoError>)
    ensures r.Ok? ==> !PathRecorded(recs, path)
  {
    if PathRecorded(recs, path) then Err(IoError(AlreadyExists, "unity installation at " + path + " already exists"))
    else Probe(run(path), path, parse)
  }

  /** A space never appears in the UTF-8 encoding of a text without one. */
  lemma {:induction false} EncodeWithoutSpace(t: string)
    requires ' ' !in t
    ensures SPACE !in Encode(t)
    decreases |t|
  {
    if t != [] {
      EncodeWithoutSpace(t[1..]);
    }
  }

  /** An output that is the encoding of `t` without spaces, then a space, then anything, has `t` as its first field. */
  lemma FirstFieldOfEncoded(t: string, rest: seq<byte>)
    requires ' ' !in t
    ensures FirstField(Encode(t) + [SPACE] + rest) == Encode(t)
  {
    var e := Encode(t);
    var bs := e + [SPACE] + rest;
    var r := FirstField(bs);
    EncodeWithoutSpace(t);
    assert bs[|e|] == SPACE;
  }

  /**
   * An editor that exits successfully printing a version text `t` without
   * spaces, then a space and anything else, is probed to `parse(Trim(t))`.
   */
  lemma ProbeEncodedOutput(t: string, rest: seq<byte>, path: string, parse: Parser)
    requires ' ' !in t
    ensures Probe(Ok(ProcessOutput(true, Encode(t) + [SPACE] + rest)), path, parse)
      == if parse(Trim(t)).Some? then Ok(parse(Trim(t)).value)
         else Err(IoError(InvalidInput, "invalid version: " + Trim(t)))
  {
    FirstFieldOfEncoded(t, rest);
    DecodeEncode(t);
  }

  /** An editor's output whose first field is not UTF-8 gives InvalidInput, whatever the parser. */
  lemma ProbeNotUtf8(o: ProcessOutput, path: string, parse: Parser)
    requires o.success && Decode(FirstField(o.stdout)).None?
    ensures Probe(Ok(o), path, parse) == Err(IoError(InvalidInput, "invalid version"))
  {
  }

  // ---------------------------------------------------------------------------
  // find_most_suitable_unity

  /**
   * How closely an installed version fits the expected one: 4 when equal,
   * 3 when major, minor and revision agree, 2 when major and minor agree, 1
   * when only the major agrees, 0 otherwise.
   */
  function Tier(v: UnityVersion, expected: UnityVersion): (t: nat)
    ensures t <= 4
    ensures t == 4 <==> v == expected
    ensures t >= 1 <==> v.major == expected.major
  {
    if v == expected then 4
    else if v.major != expected.major then 0
    else if v.minor != expected.minor then 1
    else if v.revision != expected.revision then 2
    else 3
  }

  /** The tier of an installation; 0 when its version does not parse. */
  function RecordTier(rec: UnityRecord, expected: UnityVersion, parse: Parser): nat {
    match InstallationVersion(rec, parse)
    case None => 0
    case Some(v) => Tier(v, expected)
  }

  /** The last installation of tier `t`, if any. */
  function LastOfTier(recs: seq<UnityRecord>, expected: UnityVersion, parse: Parser, t: nat): (r: Option<UnityRecord>)
    ensures r.Some? ==> exists i :: (0 <= i < |recs| && recs[i] == r.value && RecordTier(recs[i], expected, parse) == t
      && forall k :: i < k < |recs| ==> RecordTier(recs[k], expected, parse) != t)
    ensures r.None? ==> forall k :: 0 <= k < |recs| ==> RecordTier(recs[k], expected, parse) != t
    decreases |recs|
  {
    if recs == [] then None
    else if RecordTier(recs[|recs| - 1], expected, parse) == t then Some(recs[|recs| - 1])
    else
      var r := LastOfTier(recs[..|recs| - 1], expected, parse, t);
      assert forall k :: 0 <= k < |recs| - 1 ==> recs[..|recs| - 1][k] == recs[k];
      r
  }

  /** The first installation whose version equals the expected one, if any. */
  function FirstExact(recs: seq<UnityRecord>, expected: UnityVersion, parse: Parser): (r: Option<UnityRecord>)
    ensures r.Some? ==> exists i :: (0 <= i < |recs| && recs[i] == r.value && RecordTier(recs[i], expected, parse) == 4
      && forall k :: 0 <= k < i ==> RecordTier(recs[k], expected, parse) != 4)
    ensures r.None? ==> forall k :: 0 <= k < |recs| ==> RecordTier(recs[k], expected, parse) != 4
    decreases |recs|
  {
    if recs == [] then None
    else
      var r := FirstExact(recs[..|recs| - 1], expected, parse);
      assert forall k :: 0 <= k < |recs| - 1 ==> recs[..|recs| - 1][k] == recs[k];
      if r.Some? then r
      else if RecordTier(recs[|recs| - 1], expected, parse) == 4 then Some(recs[|recs| - 1])
      else None
  }

  /**
   * The installation find_most_suitable_unity picks: the first one with the
   * expected version; else the last of the best tier among same major,
   * minor and revision, same major and minor, and same major; else none.
   */
  function MostSuitable(recs: seq<UnityRecord>, expected: UnityVersion, parse: Parser): Option<UnityRecord> {
    if FirstExact(recs, expected, parse).Some? then FirstExact(recs, expected, parse)
    else if LastOfTier(recs, expected, parse, 3).Some? then LastOfTier(recs, expected, parse, 3)
    else if LastOfTier(recs, expected, parse, 2).Some? then LastOfTier(recs, expected, parse, 2)
    else LastOfTier(recs, expected, parse, 1)
  }

  /** Nothing is picked exactly when no installation has a version that parses and shares the expected major. */
  lemma MostSuitableNone(recs: seq<UnityRecord>, expected: UnityVersion, parse: Parser)
    ensures MostSuitable(recs, expected, parse).None? <==>
      forall k :: 0 <= k < |recs| ==> (InstallationVersion(recs[k], parse).None?
        || InstallationVersion(recs[k], parse).value.major != expected.major)
  {
    if MostSuitable(recs, expected, parse).None? {
      forall k | 0 <= k < |recs|
        ensures InstallationVersion(recs[k], parse).None? || InstallationVersion(recs[k], parse).value.major != expected.major
      {
        assert RecordTier(recs[k], expected, parse) == 0;
      }
    } else {
      var r := MostSuitable(recs, expected, parse).value;
      var i :| 0 <= i < |recs| && recs[i] == r && RecordTier(recs[i], expected, parse) >= 1;
      assert InstallationVersion(recs[i], parse).Some?;
    }
  }

  /**
   * The pick is an installation of the best tier present: no installation
   * fits better. Among exact matches it is the first, otherwise the last of
   * its tier.
   */
  lemma MostSuitableBest(recs: seq<UnityRecord>, expected: UnityVersion, parse: Parser)
    requires MostSuitable(recs, expected, parse).Some?
    ensures exists i :: (0 <= i < |recs| && recs[i] == MostSuitable(recs, expected, parse).value
      && (forall k :: 0 <= k < |recs| ==> RecordTier(recs[k], expected, parse) <= RecordTier(recs[i], expected, parse))
      && (RecordTier(recs[i], expected, parse) == 4 ==> forall k :: 0 <= k < i ==> RecordTier(recs[k], expected, parse) != 4)
      && (RecordTier(recs[i], expected, parse) < 4 ==> forall k :: i < k < |recs| ==> RecordTier(recs[k], expected, parse) != RecordTier(recs[i], expected, parse)))
  {
  }

  // ---------------------------------------------------------------------------
  // find_unity_hub

  /** The platforms the Unity Hub default paths are known for; on Linux they depend on the home directory. */
  datatype Platform = Windows | MacOs | Linux(home: string) | OtherPlatform

  /** Where the Unity Hub is installed by default. */
  function DefaultUnityHubPaths(platform: Platform): (r: seq<string>)
    ensures platform.OtherPlatform? <==> r == []
  {
    match platform
    case Windows => ["C:\\Program Files\\Unity Hub\\Unity Hub.exe"]
    case MacOs => ["/Applications/Unity Hub.app/Contents/MacOS/Unity Hub"]
    case Linux(home) => [home + "/Applications/Unity Hub.AppImage", "/usr/bin/unity-hub"]
    case OtherPlatform => []
  }

  /** The position of the first path that is a file, if any. */
  function FirstFile(paths: seq<string>, isFile: FileTest): (r: Option<nat>)
    ensures r.Some? ==> (r.value < |paths| && isFile(paths[r.value])
      && forall k :: 0 <= k < r.value ==> !isFile(paths[k]))
    ensures r.None? ==> forall k :: 0 <= k < |paths| ==> !isFile(paths[k])
    decreases |paths|
  {
    if paths == [] then None
    else
      var r := FirstFile(paths[..|paths| - 1], isFile);
      assert forall k :: 0 <= k < |paths| - 1 ==> paths[..|paths| - 1][k] == paths[k];
      if r.Some? then r
      else if isFile(paths[|paths| - 1]) then Some(|paths| - 1)
      else None
  }

  // ---------------------------------------------------------------------------
  // update_unity_from_unity_hub_and_fs

  /** The hub's paths without repeats, in order of first appearance. */
  function Dedup(ps: seq<string>): seq<string>
    decreases |ps|
  {
    if ps == [] then []
    else if ps[|ps| - 1] in Dedup(ps[..|ps| - 1]) then Dedup(ps[..|ps| - 1])
    else Dedup(ps[..|ps| - 1]) + [ps[|ps| - 1]]
  }

  /** Dedup keeps every path once. */
  lemma {:induction false} DedupMembers(ps: seq<string>)
    ensures forall x :: x in Dedup(ps) <==> x in ps
    ensures forall i, j :: 0 <= i < j < |Dedup(ps)| ==> Dedup(ps)[i] != Dedup(ps)[j]
    decreases |ps|
  {
    if ps != [] {
      var init := ps[..|ps| - 1];
      DedupMembers(init);
      assert ps == init + [ps[|ps| - 1]];
    }
  }

  /** The hub's paths as a set. */
  function HubSet(ps: seq<string>): set<string> {
    set p | p in ps
  }

  /** A record that survives, with its hub flag brought up to date. */
  function Refreshed(rec: UnityRecord, hub: set<string>): UnityRecord {
    rec.(loadedFromHub := rec.path in hub)
  }

  /** The records whose editor is still a file, each marked with whether the hub lists it. */
  function Reconciled(recs: seq<UnityRecord>, hub: set<string>, isFile: FileTest): seq<UnityRecord>
    decreases |recs|
  {
    if recs == [] then []
    else
      var last := recs[|recs| - 1];
      if isFile(last.path) then Reconciled(recs[..|recs| - 1], hub, isFile) + [Refreshed(last, hub)]
      else Reconciled(recs[..|recs| - 1], hub, isFile)
  }

  /** The surviving records are exactly the records whose path is a file, refreshed. */
  lemma {:induction false} ReconciledMembers(recs: seq<UnityRecord>, hub: set<string>, isFile: FileTest, y: UnityRecord)
    ensures y in Reconciled(recs, hub, isFile) <==>
      exists k :: 0 <= k < |recs| && isFile(recs[k].path) && y == Refreshed(recs[k], hub)
    decreases |recs|
  {
    if recs != [] {
      var init := recs[..|recs| - 1];
      ReconciledMembers(init, hub, isFile, y);
      assert forall k :: 0 <= k < |init| ==> init[k] == recs[k];
    }
  }

  /** Reconciling keeps the order of the ids. */
  lemma {:induction false} ReconciledIncreasing(recs: seq<UnityRecord>, hub: set<string>, isFile: FileTest)
    requires IdsIncreasing(recs)
    ensures IdsIncreasing(Reconciled(recs, hub, isFile))
    decreases |recs|
  {
    if recs != [] {
      var init := recs[..|recs| - 1];
      var last := recs[|recs| - 1];
      if |recs| >= 2 {
        assert IdsIncreasing(init);
      }
      ReconciledIncreasing(init, hub, isFile);
      if isFile(last.path) {
        var r := Reconciled(init, hub, isFile);
        if r != [] {
          ReconciledMembers(init, hub, isFile, r[|r| - 1]);
          IdsIncreasingPairs(recs);
          assert forall k :: 0 <= k < |init| ==> init[k] == recs[k];
        }
        IdsIncreasingAppend(r, Refreshed(last, hub));
      }
    }
  }

  /** The table after LiteDB deletes the record with id `id`. */
  function Deleted(recs: seq<UnityRecord>, id: nat): seq<UnityRecord>
    decreases |recs|
  {
    if recs == [] then []
    else if recs[|recs| - 1].id == id then Deleted(recs[..|recs| - 1], id)
    else Deleted(recs[..|recs| - 1], id) + [recs[|recs| - 1]]
  }

  /** The table after LiteDB overwrites the record with the id of `rec`. */
  function Updated(recs: seq<UnityRecord>, rec: UnityRecord): (r: seq<UnityRecord>)
    ensures |r| == |recs|
  {
    seq(|recs|, i requires 0 <= i < |recs| => if recs[i].id == rec.id then rec else recs[i])
  }

  lemma {:induction false} DeletedAbsent(recs: seq<UnityRecord>, id: nat)
    requires forall k :: 0 <= k < |recs| ==> recs[k].id != id
    ensures Deleted(recs, id) == recs
    decreases |recs|
  {
    if recs != [] {
      var init := recs[..|recs| - 1];
      assert forall k :: 0 <= k < |init| ==> init[k] == recs[k];
      DeletedAbsent(init, id);
      assert init + [recs[|recs| - 1]] == recs;
    }
  }

  lemma {:induction false} DeletedConcat(a: seq<UnityRecord>, b: seq<UnityRecord>, id: nat)
    ensures Deleted(a + b, id) == Deleted(a, id) + Deleted(b, id)
    decreases |b|
  {
    if b == [] {
      assert a + b == a;
    } else {
      DeletedConcat(a, b[..|b| - 1], id);
      assert (a + b)[..|a + b| - 1] == a + b[..|b| - 1];
    }
  }

  /** Deleting the record with a unique id removes just that record. */
  lemma DeletedOne(a: seq<UnityRecord>, x: UnityRecord, b: seq<UnityRecord>)
    requires forall k :: 0 <= k < |a| ==> a[k].id != x.id
    requires forall k :: 0 <= k < |b| ==> b[k].id != x.id
    ensures Deleted(a + [x] + b, x.id) == a + b
  {
    DeletedConcat(a + [x], b, x.id);
    DeletedConcat(a, [x], x.id);
    DeletedAbsent(a, x.id);
    DeletedAbsent(b, x.id);
    assert Deleted([x], x.id) == [];
  }

  /** Updating the record with a unique id changes just that record. */
  lemma UpdatedOne(a: seq<UnityRecord>, x: UnityRecord, b: seq<UnityRecord>, x': UnityRecord)
    requires x'.id == x.id
    requires forall k :: 0 <= k < |a| ==> a[k].id != x.id
    requires forall k :: 0 <= k < |b| ==> b[k].id != x.id
    ensures Updated(a + [x] + b, x') == a + [x'] + b
  {
    var u := a + [x] + b;
    assert forall k :: 0 <= k < |u| ==> Updated(u, x')[k] == (a + [x'] + b)[k];
  }

  /** The record at `i` has an id of its own among the records reconciled before it and the records after it. */
  lemma IdsApart(snap: seq<UnityRecord>, i: nat, hub: set<string>, isFile: FileTest)
    requires IdsIncreasing(snap) && i < |snap|
    ensures forall k :: 0 <= k < |Reconciled(snap[..i], hub, isFile)| ==> Reconciled(snap[..i], hub, isFile)[k].id != snap[i].id
    ensures forall k :: i < k < |snap| ==> snap[k].id != snap[i].id
  {
    var done := Reconciled(snap[..i], hub, isFile);
    IdsIncreasingPairs(snap);
    forall k | 0 <= k < |done|
      ensures done[k].id != snap[i].id
    {
      ReconciledMembers(snap[..i], hub, isFile, done[k]);
    }
  }

  /** A record whose editor is gone: deleting it by id leaves the reconciled records and the rest. */
  lemma ReconcileDrop(snap: seq<UnityRecord>, i: nat, hub: set<string>, isFile: FileTest)
    requires IdsIncreasing(snap) && i < |snap| && !isFile(snap[i].path)
    ensures Reconciled(snap[..i + 1], hub, isFile) == Reconciled(snap[..i], hub, isFile)
    ensures Deleted(Reconciled(snap[..i], hub, isFile) + snap[i..], snap[i].id)
      == Reconciled(snap[..i + 1], hub, isFile) + snap[i + 1..]
  {
    assert snap[..i + 1][..i] == snap[..i];
    IdsApart(snap, i, hub, isFile);
    var rest := snap[i + 1..];
    assert forall k :: 0 <= k < |rest| ==> rest[k] == snap[i + 1 + k];
    assert Reconciled(snap[..i], hub, isFile) + snap[i..] == Reconciled(snap[..i], hub, isFile) + [snap[i]] + snap[i + 1..];
    DeletedOne(Reconciled(snap[..i], hub, isFile), snap[i], snap[i + 1..]);
  }

  /** A record whose editor is present: writing it refreshed by id puts it among the reconciled records. */
  lemma ReconcileKeep(snap: seq<UnityRecord>, i: nat, hub: set<string>, isFile: FileTest)
    requires IdsIncreasing(snap) && i < |snap| && isFile(snap[i].path)
    ensures Reconciled(snap[..i + 1], hub, isFile) == Reconciled(snap[..i], hub, isFile) + [Refreshed(snap[i], hub)]
    ensures Updated(Reconciled(snap[..i], hub, isFile) + snap[i..], Refreshed(snap[i], hub))
      == Reconciled(snap[..i + 1], hub, isFile) + snap[i + 1..]
    ensures Refreshed(snap[i], hub) == snap[i] ==>
      Reconciled(snap[..i], hub, isFile) + snap[i..] == Reconciled(snap[..i + 1], hub, isFile) + snap[i + 1..]
  {
    assert snap[..i + 1][..i] == snap[..i];
    IdsApart(snap, i, hub, isFile);
    var rest := snap[i + 1..];
    assert forall k :: 0 <= k < |rest| ==> rest[k] == snap[i + 1 + k];
    assert Reconciled(snap[..i], hub, isFile) + snap[i..] == Reconciled(snap[..i], hub, isFile) + [snap[i]] + snap[i + 1..];
    UpdatedOne(Reconciled(snap[..i], hub, isFile), snap[i], snap[i + 1..], Refreshed(snap[i], hub));
  }

  /** The paths of the hub not among `installed`, in order. */
  function Missing(ps: seq<string>, installed: set<string>): seq<string>
    decreases |ps|
  {
    if ps == [] then []
    else if ps[|ps| - 1] in installed then Missing(ps[..|ps| - 1], installed)
    else Missing(ps[..|ps| - 1], installed) + [ps[|ps| - 1]]
  }

  lemma {:induction false} MissingMembers(ps: seq<string>, installed: set<string>)
    ensures forall x :: x in Missing(ps, installed) <==> x in ps && x !in installed
    decreases |ps|
  {
    if ps != [] {
      MissingMembers(ps[..|ps| - 1], installed);
      assert ps == ps[..|ps| - 1] + [ps[|ps| - 1]];
    }
  }

  /** Leaving paths out of a list without repeats keeps it without repeats. */
  lemma {:induction false} MissingDistinct(ps: seq<string>, installed: set<string>)
    requires forall i, j :: 0 <= i < j < |ps| ==> ps[i] != ps[j]
    ensures forall i, j :: 0 <= i < j < |Missing(ps, installed)| ==> Missing(ps, installed)[i] != Missing(ps, installed)[j]
    decreases |ps|
  {
    if ps != [] {
      var init := ps[..|ps| - 1];
      var last := ps[|ps| - 1];
      MissingDistinct(init, installed);
      MissingMembers(init, installed);
      assert forall k :: 0 <= k < |init| ==> init[k] == ps[k];
      assert last !in init;
    }
  }

  /**
   * What adding a path not yet recorded gives: its probed version or the
   * error. The adds below are stated for any such function; the environment
   * uses ProbeWith.
   */
  type Prober = string -> Result<UnityVersion, IoError>

  /** add_unity_installation's outcome for a path not yet recorded. */
  function ProbeWith(run: Runner, parse: Parser): Prober {
    p => Probe(run(p), p, parse)
  }

  /** The records inserted by a run of adds and, when a probe failed, the error that stopped it. */
  datatype Adds = Adds(records: seq<UnityRecord>, error: Option<IoError>)

  /** One more add after `prev`, of path `p` whose probe gave `probe`. */
  function AddOne(prev: Adds, p: string, probe: Result<UnityVersion, IoError>, id: nat, show: Printer): Adds {
    match probe
    case Err(e) => Adds(prev.records, Some(e))
    case Ok(v) => Adds(prev.records + [UnityRecord(id + |prev.records|, p, Some(show(v)), false)], None)
  }

  /**
   * Adding the paths `ps` one after another, the first with id `id`: the
   * records inserted and, when a probe fails, the error that stopped the
   * adds.
   */
  function AddAll(ps: seq<string>, id: nat, probe: Prober, show: Printer): Adds
    decreases |ps|
  {
    if ps == [] then Adds([], None)
    else
      var prev := AddAll(ps[..|ps| - 1], id, probe, show);
      var p := ps[|ps| - 1];
      if prev.error.Some? then prev
      else AddOne(prev, p, probe(p), id, show)
  }

  /** Once a probe has failed, later paths are not tried. */
  lemma {:induction false} AddAllStops(ps: seq<string>, j: nat, id: nat, probe: Prober, show: Printer)
    requires j <= |ps| && AddAll(ps[..j], id, probe, show).error.Some?
    ensures AddAll(ps, id, probe, show) == AddAll(ps[..j], id, probe, show)
    decreases |ps|
  {
    if j < |ps| {
      assert ps[..|ps| - 1][..j] == ps[..j];
      AddAllStops(ps[..|ps| - 1], j, id, probe, show);
    } else {
      assert ps[..j] == ps;
    }
  }

  /**
   * The records added are those of the paths tried, in order and with
   * consecutive ids, each marked as not loaded from the hub; every path
   * tried before the last succeeded.
   */
  lemma {:induction false} AddAllRecords(ps: seq<string>, id: nat, probe: Prober, show: Printer)
    ensures var adds := AddAll(ps, id, probe, show);
      var added := adds.records;
      var err := adds.error;
      && |added| <= |ps|
      && (err.None? ==> |added| == |ps|)
      && (forall k :: 0 <= k < |added| ==> (added[k].path == ps[k] && added[k].id == id + k
        && !added[k].loadedFromHub && probe(ps[k]).Ok?
        && added[k].version == Some(show(probe(ps[k]).value))))
      && (err.Some? ==> |added| < |ps| && probe(ps[|added|]) == Err(err.value))
    decreases |ps|
  {
    if ps != [] {
      var init := ps[..|ps| - 1];
      var p := ps[|ps| - 1];
      var prev := AddAll(init, id, probe, show);
      AddAllRecords(init, id, probe, show);
      assert forall k :: 0 <= k < |init| ==> init[k] == ps[k];
      if prev.error.None? {
        if probe(p).Ok? {
          assert AddAll(ps, id, probe, show)
            == Adds(prev.records + [UnityRecord(id + |prev.records|, p, Some(show(probe(p).value)), false)], None);
        } else {
          assert AddAll(ps, id, probe, show) == Adds(prev.records, Some(probe(p).error));
        }
      } else {
        assert AddAll(ps, id, probe, show) == prev;
      }
    }
  }

  /** The table an update leaves and the error that stopped it, if any. */
  datatype Update = Update(table: seq<UnityRecord>, error: Option<IoError>)

  /**
   * What update_unity_from_unity_hub_and_fs leaves: the surviving records,
   * refreshed, then the records of the hub paths not among them; and the
   * error of the first of those that could not be added, if any.
   */
  function UpdateOutcome(db: seq<UnityRecord>, nextId: nat, hubPaths: seq<string>, isFile: FileTest,
                         probe: Prober, show: Printer): Update
  {
    var hub := HubSet(hubPaths);
    var kept := Reconciled(db, hub, isFile);
    var adds := AddAll(Missing(Dedup(hubPaths), Paths(kept)), nextId, probe, show);
    Update(kept + adds.records, adds.error)
  }

  /** After a successful update every hub path is recorded. */
  lemma UpdateRecordsHub(db: seq<UnityRecord>, nextId: nat, hubPaths: seq<string>, isFile: FileTest,
                         probe: Prober, show: Printer)
    requires UpdateOutcome(db, nextId, hubPaths, isFile, probe, show).error.None?
    ensures forall p :: p in hubPaths ==> p in Paths(UpdateOutcome(db, nextId, hubPaths, isFile, probe, show).table)
  {
    var hub := HubSet(hubPaths);
    var kept := Reconciled(db, hub, isFile);
    var missing := Missing(Dedup(hubPaths), Paths(kept));
    var added := AddAll(missing, nextId, probe, show).records;
    AddAllRecords(missing, nextId, probe, show);
    DedupMembers(hubPaths);
    MissingMembers(Dedup(hubPaths), Paths(kept));
    forall p | p in hubPaths
      ensures p in Paths(kept + added)
    {
      if p !in Paths(kept) {
        var k :| 0 <= k < |missing| && missing[k] == p;
        assert added[k] in kept + added;
      } else {
        var r :| r in kept && r.path == p;
        assert r in kept + added;
      }
    }
  }

  /**
   * The update keeps the surviving records in front and adds after them only
   * hub paths not already recorded, each at most once: a path the table held
   * without repeats is held without repeats afterwards, failed update or not.
   */
  lemma UpdateAddsNewPathsOnce(db: seq<UnityRecord>, nextId: nat, hubPaths: seq<string>, isFile: FileTest,
                               probe: Prober, show: Printer)
    ensures var kept := Reconciled(db, HubSet(hubPaths), isFile);
      var t := UpdateOutcome(db, nextId, hubPaths, isFile, probe, show).table;
      && |kept| <= |t| && t[..|kept|] == kept
      && (forall k :: |kept| <= k < |t| ==> t[k].path in hubPaths && t[k].path !in Paths(kept))
      && (forall k, k' :: |kept| <= k < k' < |t| ==> t[k].path != t[k'].path)
      && ((forall i, j :: 0 <= i < j < |kept| ==> kept[i].path != kept[j].path) ==>
            forall i, j :: 0 <= i < j < |t| ==> t[i].path != t[j].path)
  {
    var kept := Reconciled(db, HubSet(hubPaths), isFile);
    var missing := Missing(Dedup(hubPaths), Paths(kept));
    AddAllRecords(missing, nextId, probe, show);
    DedupMembers(hubPaths);
    MissingMembers(Dedup(hubPaths), Paths(kept));
    MissingDistinct(Dedup(hubPaths), Paths(kept));
    AppendFresh(kept, AddAll(missing, nextId, probe, show).records, missing, hubPaths);
  }

  /** Records for distinct fresh hub paths, appended after the table. */
  lemma AppendFresh(kept: seq<UnityRecord>, added: seq<UnityRecord>, missing: seq<string>, hubPaths: seq<string>)
    requires |added| <= |missing|
    requires forall k :: 0 <= k < |added| ==> added[k].path == missing[k]
    requires forall x :: x in missing ==> x in hubPaths && x !in Paths(kept)
    requires forall i, j :: 0 <= i < j < |missing| ==> missing[i] != missing[j]
    ensures var t := kept + added;
      && t[..|kept|] == kept
      && (forall k :: |kept| <= k < |t| ==> t[k].path in hubPaths && t[k].path !in Paths(kept))
      && (forall k, k' :: |kept| <= k < k' < |t| ==> t[k].path != t[k'].path)
      && ((forall i, j :: 0 <= i < j < |kept| ==> kept[i].path != kept[j].path) ==>
            forall i, j :: 0 <= i < j < |t| ==> t[i].path != t[j].path)
  {
    var t := kept + added;
    assert t[..|kept|] == kept;
    forall k | |kept| <= k < |t|
      ensures t[k].path == missing[k - |kept|]
      ensures t[k].path in hubPaths && t[k].path !in Paths(kept)
    {
      assert t[k] == added[k - |kept|];
      assert missing[k - |kept|] in missing;
    }
    forall i, j | 0 <= i < |kept| <= j < |t|
      ensures t[i].path != t[j].path
    {
      assert t[i] in kept;
    }
  }

  /** Every surviving record is a file, and its hub flag says whether the hub lists its path. */
  lemma UpdateRefreshesSurvivors(db: seq<UnityRecord>, hubPaths: seq<string>, isFile: FileTest, y: UnityRecord)
    requires y in Reconciled(db, HubSet(hubPaths), isFile)
    ensures isFile(y.path) && y.loadedFromHub == (y.path in hubPaths)
    ensures exists k :: 0 <= k < |db| && db[k].id == y.id && db[k].path == y.path && db[k].version == y.version
  {
    ReconciledMembers(db, HubSet(hubPaths), isFile, y);
  }

  /**
   * The update only fails because an editor listed by the hub, and not
   * already recorded, could not be probed; it never fails with the
   * duplicate check's AlreadyExists.
   */
  lemma UpdateFailsOnlyOnProbe(db: seq<UnityRecord>, nextId: nat, hubPaths: seq<string>, isFile: FileTest,
                               probe: Prober, show: Printer)
    requires UpdateOutcome(db, nextId, hubPaths, isFile, probe, show).error.Some?
    ensures exists p :: (p in hubPaths
      && p !in Paths(Reconciled(db, HubSet(hubPaths), isFile))
      && probe(p) == Err(UpdateOutcome(db, nextId, hubPaths, isFile, probe, show).error.value))
  {
    var hub := HubSet(hubPaths);
    var kept := Reconciled(db, hub, isFile);
    var missing := Missing(Dedup(hubPaths), Paths(kept));
    var added := AddAll(missing, nextId, probe, show).records;
    AddAllRecords(missing, nextId, probe, show);
    DedupMembers(hubPaths);
    MissingMembers(Dedup(hubPaths), Paths(kept));
    assert missing[|added|] in missing;
  }

  /** The first loop leaves the table as the refreshed survivors and `installed` as their paths. */
  lemma ReconciledPaths(recs: seq<UnityRecord>, x: UnityRecord, hub: set<string>)
    ensures Paths(recs + [Refreshed(x, hub)]) == Paths(recs) + {x.path}
  {
    assert forall r :: r in recs + [Refreshed(x, hub)] <==> r in recs || r == Refreshed(x, hub);
  }

  // ---------------------------------------------------------------------------
  // The environment

  class Environment {
    /** The installations table, in table order. */
    var db: seq<UnityRecord>
    /** The id the next inserted record gets. */
    var nextId: nat
    /** The unity_hub setting. */
    var unityHub: string

    /** Record ids are unique: they go up along the table and stay below the next id. */
    predicate Valid()
      reads this
    {
      IdsIncreasing(db) && IdsBelow(db, nextId)
    }

    constructor (unityHub: string)
      ensures Valid()
      ensures db == [] && nextId == 0 && this.unityHub == unityHub
    {
      db := [];
      nextId := 0;
      this.unityHub := unityHub;
    }

    /** get_unity_installations followed by the selection loop of find_most_suitable_unity. */
    method FindMostSuitableUnity(expected: UnityVersion, parse: Parser) returns (r: Option<UnityRecord>)
      ensures r == MostSuitable(db, expected, parse)
    {
      var revisionMatch: Option<UnityRecord> := None;
      var minorMatch: Option<UnityRecord> := None;
      var majorMatch: Option<UnityRecord> := None;
      for i := 0 to |db|
        invariant FirstExact(db[..i], expected, parse).None?
        invariant revisionMatch == LastOfTier(db[..i], expected, parse, 3)
        invariant minorMatch == LastOfTier(db[..i], expected, parse, 2)
        invariant majorMatch == LastOfTier(db[..i], expected, parse, 1)
      {
        var unity := db[i];
        assert db[..i + 1][..i] == db[..i];
        var version := InstallationVersion(unity, parse);
        if version.Some? {
          var v := version.value;
          if v == expected {
            ExactFound(db, i, expected, parse);
            return Some(unity);
          }
          if v.major == expected.major {
            if v.minor == expected.minor {
              if v.revision == expected.revision {
                revisionMatch := Some(unity);
              } else {
                minorMatch := Some(unity);
              }
            } else {
              majorMatch := Some(unity);
            }
          }
        }
      }
      assert db[..|db|] == db;
      r := if revisionMatch.Some? then revisionMatch else if minorMatch.Some? then minorMatch else majorMatch;
    }

    /**
     * find_unity_hub: the configured Unity Hub when it is set and is a file;
     * otherwise the first default location that is a file, which then
     * becomes the setting; otherwise none, the setting left as it was.
     */
    method FindUnityHub(platform: Platform, isFile: FileTest) returns (r: Option<string>)
      modifies this
      ensures db == old(db) && nextId == old(nextId)
      ensures old(unityHub) != [] && isFile(old(unityHub)) ==> r == Some(old(unityHub)) && unityHub == old(unityHub)
      ensures !(old(unityHub) != [] && isFile(old(unityHub))) ==>
        match FirstFile(DefaultUnityHubPaths(platform), isFile)
        case Some(i) => r == Some(DefaultUnityHubPaths(platform)[i]) && unityHub == DefaultUnityHubPaths(platform)[i]
        case None => r.None? && unityHub == old(unityHub)
    {
      if unityHub != [] && isFile(unityHub) {
        return Some(unityHub);
      }
      var defaults := DefaultUnityHubPaths(platform);
      for i := 0 to |defaults|
        invariant forall k :: 0 <= k < i ==> !isFile(defaults[k])
        invariant unityHub == old(unityHub)
      {
        if isFile(defaults[i]) {
          unityHub := defaults[i];
          return Some(defaults[i]);
        }
      }
      return None;
    }

    /**
     * add_unity_installation: refuse a recorded path, probe the editor, and
     * insert a record for it with its version's text, not loaded from the
     * hub. On an error the table is left as it was.
     */
    method AddUnityInstallation(path: string, run: Runner, parse: Parser, show: Printer) returns (r: Result<UnityVersion, IoError>)
      requires Valid()
      modifies this
      ensures Valid()
      ensures r == AddOutcome(old(db), path, run, parse)
      ensures r.Ok? ==> db == old(db) + [UnityRecord(old(nextId), path, Some(show(r.value)), false)] && nextId == old(nextId) + 1
      ensures r.Err? ==> db == old(db) && nextId == old(nextId)
      ensures unityHub == old(unityHub)
    {
      for i := 0 to |db|
        invariant forall k :: 0 <= k < i ==> db[k].path != path
      {
        if db[i].path == path {
          return Err(IoError(AlreadyExists, "unity installation at " + path + " already exists"));
        }
      }
      var output := run(path);
      if output.Err? {
        return Err(output.error);
      }
      if !output.value.success {
        return Err(IoError(InvalidInput, "invalid unity installation at " + path));
      }
      var stdout := output.value.stdout;
      var index := FirstSpace(stdout);
      var text := Decode(stdout[..index]);
      if text.None? {
        return Err(IoError(InvalidInput, "invalid version"));
      }
      var version := Trim(text.value);
      var parsed := parse(version);
      if parsed.None? {
        return Err(IoError(InvalidInput, "invalid version: " + version));
      }
      IdsIncreasingAppend(db, UnityRecord(nextId, path, Some(show(parsed.value)), false));
      db := db + [UnityRecord(nextId, path, Some(show(parsed.value)), false)];
      nextId := nextId + 1;
      return Ok(parsed.value);
    }

    /**
     * One step of the first loop of update_unity_from_unity_hub_and_fs: the
     * record `snap[i]` is deleted when its editor is gone, and otherwise
     * written back when its hub flag is out of date.
     */
    method ReconcileRecord(snap: seq<UnityRecord>, i: nat, hub: set<string>, isFile: FileTest) returns (kept: bool)
      requires IdsIncreasing(snap) && i < |snap|
      requires db == Reconciled(snap[..i], hub, isFile) + snap[i..]
      modifies this
      ensures kept == isFile(snap[i].path)
      ensures kept ==> Reconciled(snap[..i + 1], hub, isFile) == Reconciled(snap[..i], hub, isFile) + [Refreshed(snap[i], hub)]
      ensures !kept ==> Reconciled(snap[..i + 1], hub, isFile) == Reconciled(snap[..i], hub, isFile)
      ensures db == Reconciled(snap[..i + 1], hub, isFile) + snap[i + 1..]
      ensures nextId == old(nextId) && unityHub == old(unityHub)
    {
      var inDb := snap[i];
      if !isFile(inDb.path) {
        ReconcileDrop(snap, i, hub, isFile);
        db := Deleted(db, inDb.id);
        return false;
      }
      ReconcileKeep(snap, i, hub, isFile);
      var existsInHub := inDb.path in hub;
      if existsInHub != inDb.loadedFromHub {
        db := Updated(db, inDb.(loadedFromHub := existsInHub));
      }
      return true;
    }

    /**
     * The first loop of update_unity_from_unity_hub_and_fs: delete each
     * record whose editor is no longer a file and write each other record
     * whose hub flag is out of date; return the paths of the records kept.
     */
    method RemoveMissingAndRefresh(hub: set<string>, isFile: FileTest) returns (installed: set<string>)
      requires Valid()
      modifies this
      ensures Valid()
      ensures db == Reconciled(old(db), hub, isFile)
      ensures installed == Paths(db)
      ensures nextId == old(nextId) && unityHub == old(unityHub)
    {
      var snap := db;
      installed := {};
      for i := 0 to |snap|
        invariant db == Reconciled(snap[..i], hub, isFile) + snap[i..]
        invariant installed == Paths(Reconciled(snap[..i], hub, isFile))
        invariant nextId == old(nextId) && unityHub == old(unityHub)
      {
        var kept := ReconcileRecord(snap, i, hub, isFile);
        if kept {
          ReconciledPaths(Reconciled(snap[..i], hub, isFile), snap[i], hub);
          installed := installed + {snap[i].path};
        }
      }
      assert snap[..|snap|] == snap && snap[|snap|..] == [];
      assert db == Reconciled(snap, hub, isFile);
      ReconciledValid(snap, hub, isFile, nextId);
    }

    /**
     * One step of the second loop of update_unity_from_unity_hub_and_fs: the
     * hub path `paths[j]`, not installed, is added; the adds so far are those
     * of the earlier paths.
     */
    method AddHubPath(paths: seq<string>, j: nat, installed: set<string>, ghost kept: seq<UnityRecord>, ghost id: nat,
                      run: Runner, parse: Parser, show: Printer) returns (err: Option<IoError>)
      requires Valid() && j < |paths| && paths[j] !in installed && Paths(kept) == installed
      requires forall a, b :: 0 <= a < b < |paths| ==> paths[a] != paths[b]
      requires AddAll(Missing(paths[..j], installed), id, ProbeWith(run, parse), show).error.None?
      requires db == kept + AddAll(Missing(paths[..j], installed), id, ProbeWith(run, parse), show).records
      requires nextId == id + |AddAll(Missing(paths[..j], installed), id, ProbeWith(run, parse), show).records|
      modifies this
      ensures Valid() && unityHub == old(unityHub)
      ensures err == AddAll(Missing(paths[..j + 1], installed), id, ProbeWith(run, parse), show).error
      ensures db == kept + AddAll(Missing(paths[..j + 1], installed), id, ProbeWith(run, parse), show).records
      ensures nextId == id + |AddAll(Missing(paths[..j + 1], installed), id, ProbeWith(run, parse), show).records|
    {
      ghost var before := db;
      ghost var n := nextId;
      NotYetRecorded(kept, paths, j, installed, id, ProbeWith(run, parse), show);
      var added := AddUnityInstallation(paths[j], run, parse, show);
      err := if added.Err? then Some(added.error) else None;
      assert added == ProbeWith(run, parse)(paths[j]);
      AddStep(paths, j, installed, id, ProbeWith(run, parse), show, kept, before, db, n, added);
    }

    /**
     * update_unity_from_unity_hub_and_fs: delete the records whose editor is
     * gone, bring each survivor's hub flag up to date, then add every hub
     * path not among the survivors. A failed add stops the update, keeping
     * what was done before it.
     */
    method UpdateUnityFromHubAndFs(hubPaths: seq<string>, isFile: FileTest, run: Runner, parse: Parser, show: Printer)
      returns (r: Result<(), IoError>)
      requires Valid()
      modifies this
      ensures Valid()
      ensures db == UpdateOutcome(old(db), old(nextId), hubPaths, isFile, ProbeWith(run, parse), show).table
      ensures r.Ok? <==> UpdateOutcome(old(db), old(nextId), hubPaths, isFile, ProbeWith(run, parse), show).error.None?
      ensures r.Err? ==> r.error == UpdateOutcome(old(db), old(nextId), hubPaths, isFile, ProbeWith(run, parse), show).error.value
      ensures unityHub == old(unityHub)
    {
      var hub := HubSet(hubPaths);
      ghost var snap := db;
      var installed := RemoveMissingAndRefresh(hub, isFile);
      ghost var kept := db;
      UpdateOutcomeSplit(snap, old(nextId), hubPaths, isFile, ProbeWith(run, parse), show);
      var paths := Dedup(hubPaths);
      DedupMembers(hubPaths);
      for j := 0 to |paths|
        invariant AddAll(Missing(paths[..j], installed), old(nextId), ProbeWith(run, parse), show).error.None?
        invariant db == kept + AddAll(Missing(paths[..j], installed), old(nextId), ProbeWith(run, parse), show).records
        invariant nextId == old(nextId) + |AddAll(Missing(paths[..j], installed), old(nextId), ProbeWith(run, parse), show).records|
        invariant Valid() && unityHub == old(unityHub)
      {
        if paths[j] in installed {
          SkipInstalled(paths, j, installed);
          continue;
        }
        var err := AddHubPath(paths, j, installed, kept, old(nextId), run, parse, show);
        if err.Some? {
          AddFails(paths, j, installed, old(nextId), ProbeWith(run, parse), show);
          return Err(err.value);
        }
      }
      assert paths[..|paths|] == paths;
      return Ok(());
    }
  }

  /** At an exact match, nothing before it was exact, so it is the first. */
  lemma ExactFound(recs: seq<UnityRecord>, i: nat, expected: UnityVersion, parse: Parser)
    requires i < |recs| && FirstExact(recs[..i], expected, parse).None?
    requires InstallationVersion(recs[i], parse) == Some(expected)
    ensures MostSuitable(recs, expected, parse) == Some(recs[i])
  {
    assert forall k :: 0 <= k < i ==> recs[..i][k] == recs[k];
  }

  /** The surviving records keep unique ids below the next id. */
  lemma ReconciledValid(snap: seq<UnityRecord>, hub: set<string>, isFile: FileTest, nextId: nat)
    requires IdsIncreasing(snap) && IdsBelow(snap, nextId)
    ensures IdsIncreasing(Reconciled(snap, hub, isFile)) && IdsBelow(Reconciled(snap, hub, isFile), nextId)
  {
    var kept := Reconciled(snap, hub, isFile);
    ReconciledIncreasing(snap, hub, isFile);
    if kept != [] {
      ReconciledMembers(snap, hub, isFile, kept[|kept| - 1]);
      IdsBelowAll(snap, nextId);
    }
  }

  lemma {:induction false} MissingConcat(a: seq<string>, b: seq<string>, installed: set<string>)
    ensures Missing(a + b, installed) == Missing(a, installed) + Missing(b, installed)
    decreases |b|
  {
    if b == [] {
      assert a + b == a;
    } else {
      MissingConcat(a, b[..|b| - 1], installed);
      assert (a + b)[..|a + b| - 1] == a + b[..|b| - 1];
    }
  }

  /** A hub path already installed is skipped. */
  lemma SkipInstalled(paths: seq<string>, j: nat, installed: set<string>)
    requires j < |paths| && paths[j] in installed
    ensures Missing(paths[..j + 1], installed) == Missing(paths[..j], installed)
  {
    assert paths[..j + 1][..j] == paths[..j];
  }

  /**
   * The hub path at `j` is not recorded yet when the second loop reaches
   * it: it is not installed, and the paths added so far are earlier,
   * different hub paths.
   */
  lemma NotYetRecorded(kept: seq<UnityRecord>, paths: seq<string>, j: nat, installed: set<string>,
                       id: nat, probe: Prober, show: Printer)
    requires j < |paths| && paths[j] !in installed && Paths(kept) == installed
    requires forall a, b :: 0 <= a < b < |paths| ==> paths[a] != paths[b]
    ensures !PathRecorded(kept + AddAll(Missing(paths[..j], installed), id, probe, show).records, paths[j])
  {
    var missing := Missing(paths[..j], installed);
    var added := AddAll(missing, id, probe, show).records;
    var path := paths[j];
    AddAllRecords(missing, id, probe, show);
    MissingMembers(paths[..j], installed);
  }

  /** Adding the hub path at `j` extends the adds by its outcome. */
  lemma AddNext(paths: seq<string>, j: nat, installed: set<string>, id: nat, probe: Prober, show: Printer)
    requires j < |paths| && paths[j] !in installed
    requires AddAll(Missing(paths[..j], installed), id, probe, show).error.None?
    ensures AddAll(Missing(paths[..j + 1], installed), id, probe, show) ==
      AddOne(AddAll(Missing(paths[..j], installed), id, probe, show), paths[j], probe(paths[j]), id, show)
  {
    var missing := Missing(paths[..j], installed);
    assert paths[..j + 1][..j] == paths[..j];
    assert Missing(paths[..j + 1], installed) == missing + [paths[j]];
    assert (missing + [paths[j]])[..|missing|] == missing;
  }

  /**
   * One add of the second loop, as add_unity_installation reports it, is
   * the next step of the adds: the table grows by the new record, or the
   * adds stop with the add's error.
   */
  lemma AddStep(paths: seq<string>, j: nat, installed: set<string>, id: nat, probe: Prober, show: Printer,
                kept: seq<UnityRecord>, before: seq<UnityRecord>, after: seq<UnityRecord>, n: nat,
                added: Result<UnityVersion, IoError>)
    requires j < |paths| && paths[j] !in installed
    requires AddAll(Missing(paths[..j], installed), id, probe, show).error.None?
    requires before == kept + AddAll(Missing(paths[..j], installed), id, probe, show).records
    requires n == id + |AddAll(Missing(paths[..j], installed), id, probe, show).records|
    requires added == probe(paths[j])
    requires added.Ok? ==> after == before + [UnityRecord(n, paths[j], Some(show(added.value)), false)]
    requires added.Err? ==> after == before
    ensures after == kept + AddAll(Missing(paths[..j + 1], installed), id, probe, show).records
    ensures AddAll(Missing(paths[..j + 1], installed), id, probe, show).error
      == if added.Err? then Some(added.error) else None
    ensures |after| == |before| + (if added.Ok? then 1 else 0)
    ensures id + |AddAll(Missing(paths[..j + 1], installed), id, probe, show).records| == n + (if added.Ok? then 1 else 0)
  {
    var prev := AddAll(Missing(paths[..j], installed), id, probe, show);
    var next := AddAll(Missing(paths[..j + 1], installed), id, probe, show);
    AddNext(paths, j, installed, id, probe, show);
    assert next == AddOne(prev, paths[j], added, id, show);
    AddOneRecords(prev, paths[j], added, id, show, kept, before, after, n);
  }

  /** The records after one add, as a table that already holds `kept` before them. */
  lemma AddOneRecords(prev: Adds, p: string, added: Result<UnityVersion, IoError>, id: nat, show: Printer,
                      kept: seq<UnityRecord>, before: seq<UnityRecord>, after: seq<UnityRecord>, n: nat)
    requires before == kept + prev.records && n == id + |prev.records|
    requires added.Ok? ==> after == before + [UnityRecord(n, p, Some(show(added.value)), false)]
    requires added.Err? ==> after == before
    ensures after == kept + AddOne(prev, p, added, id, show).records
  {
    if added.Ok? {
      var rec := UnityRecord(n, p, Some(show(added.value)), false);
      assert before + [rec] == kept + (prev.records + [rec]);
    }
  }

  /** A failed add ends the adds: what comes after it is not tried. */
  lemma AddFails(paths: seq<string>, j: nat, installed: set<string>, id: nat, probe: Prober, show: Printer)
    requires j < |paths|
    requires AddAll(Missing(paths[..j + 1], installed), id, probe, show).error.Some?
    ensures AddAll(Missing(paths, installed), id, probe, show) == AddAll(Missing(paths[..j + 1], installed), id, probe, show)
  {
    var m := Missing(paths[..j + 1], installed);
    assert paths == paths[..j + 1] + paths[j + 1..];
    MissingConcat(paths[..j + 1], paths[j + 1..], installed);
    assert Missing(paths, installed)[..|m|] == m;
    AddAllStops(Missing(paths, installed), |m|, id, probe, show);
  }

  /** The outcome of an update, given the records that survive the first loop. */
  lemma UpdateOutcomeSplit(db: seq<UnityRecord>, nextId: nat, hubPaths: seq<string>, isFile: FileTest,
                           probe: Prober, show: Printer)
    ensures var kept := Reconciled(db, HubSet(hubPaths), isFile);
      var adds := AddAll(Missing(Dedup(hubPaths), Paths(kept)), nextId, probe, show);
      UpdateOutcome(db, nextId, hubPaths, isFile, probe, show) == Update(kept + adds.records, adds.error)
  {
  }
}
