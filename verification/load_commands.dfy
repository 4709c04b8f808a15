/**
 * The command loop of patch_mach_o_64, stated for any decoder of a load
 * command and any patch of a section_64 record that keep to their records.
 *
 * After the 32-byte mach_header_64 come `ncmds` load commands. The loop keeps
 * a cursor; at each command it decodes the command at the cursor, patches the
 * section_64 records that follow an LC_SEGMENT_64 command's 72-byte
 * segment_command_64, one after another, and moves the cursor on by the
 * command's cmdsize. Everything here is about that walk: where the records
 * lie, and that patching them as the walk goes equals first walking all the
 * commands and then patching every record found. MachO instantiates the
 * decoder and the patch with the real ones.
 */
module LoadCommands {
  import opened Wrappers
  import opened Words

  const SEGMENT_COMMAND_64_SIZE: nat := 72
  const SECTION_64_SIZE: nat := 80

  /**
   * What the loop learns from one load command: its cmdsize and how many
   * section_64 records follow its segment_command_64 (0 for any command that
   * is not LC_SEGMENT_64).
   */
  datatype Step = Step(size: nat, nsects: nat)

  /** Decodes the load command at the start of the rest of the buffer; None where the source panics. */
  type Reader = seq<byte> -> Option<Step>

  /** Patches the section_64 record at an offset of the buffer. */
  type Patcher = (seq<byte>, nat) -> seq<byte>

  /** A step fits in `len` bytes: its cmdsize does, and so do its records after the segment_command_64. */
  predicate Fits(st: Step, len: nat) {
    && st.size <= len
    && (st.nsects > 0 ==> SEGMENT_COMMAND_64_SIZE + st.nsects * SECTION_64_SIZE <= st.size)
  }

  /** The first 72 bytes of `t`, all a decoder may look at besides the length. */
  function Head(t: seq<byte>): seq<byte> {
    if |t| <= SEGMENT_COMMAND_64_SIZE then t else t[..SEGMENT_COMMAND_64_SIZE]
  }

  /** A decoder the loop can use: every command it accepts fits in what is left of the buffer. */
  ghost predicate ReaderOk(read: Reader) {
    forall t :: read(t).Some? ==> Fits(read(t).value, |t|)
  }

  /** A decoder that looks at no more than the length and the segment_command_64. */
  ghost predicate ReadsHead(read: Reader) {
    forall t, t' {:trigger SameHead(t, t')} :: SameHead(t, t') ==> read(t) == read(t')
  }

  /** Two buffers of one length that agree on their first 72 bytes. */
  predicate SameHead(t: seq<byte>, t': seq<byte>) {
    |t| == |t'| && Head(t) == Head(t')
  }

  /** `v` is `u` with at most the bytes in [lo, hi) changed. */
  ghost predicate SameOutside(u: seq<byte>, v: seq<byte>, lo: nat, hi: nat) {
    |v| == |u| && forall j :: 0 <= j < |u| && !(lo <= j < hi) ==> v[j] == u[j]
  }

  /** A patch the loop can use: it changes nothing outside the record it is given. */
  ghost predicate PatcherOk(patch: Patcher) {
    && (forall u: seq<byte>, off: nat :: off + SECTION_64_SIZE <= |u| ==> |patch(u, off)| == |u|)
    && (forall u: seq<byte>, off: nat, j :: off + SECTION_64_SIZE <= |u| && 0 <= j < |u| && !(off <= j < off + SECTION_64_SIZE) ==>
          patch(u, off)[j] == u[j])
  }

  // ---------------------------------------------------------------------------
  // Runs of section records

  /** Offsets of `k` consecutive section_64 records starting at `first`. */
  function SectionRun(first: nat, k: nat): (r: seq<nat>)
    ensures |r| == k
    ensures forall i :: 0 <= i < k ==> r[i] == first + i * SECTION_64_SIZE
    decreases k
  {
    if k == 0 then [] else [first] + SectionRun(first + SECTION_64_SIZE, k - 1)
  }

  /** The records of the command at `pos`, right after its segment_command_64. */
  function Sections(pos: nat, st: Step): seq<nat> {
    SectionRun(pos + SEGMENT_COMMAND_64_SIZE, st.nsects)
  }

  /**
   * Section records in increasing order, none overlapping the next, the
   * first from `lo` on and the last ending by `hi`.
   */
  predicate Spaced(offs: seq<nat>, lo: nat, hi: nat)
    decreases |offs|
  {
    if offs == [] then lo <= hi
    else lo <= offs[0] && Spaced(offs[1..], offs[0] + SECTION_64_SIZE, hi)
  }

  lemma {:induction false} RunSpaced(first: nat, k: nat)
    ensures Spaced(SectionRun(first, k), first, first + k * SECTION_64_SIZE)
    decreases k
  {
    if k > 0 {
      RunSpaced(first + SECTION_64_SIZE, k - 1);
      assert SectionRun(first, k)[1..] == SectionRun(first + SECTION_64_SIZE, k - 1);
    }
  }

  lemma {:induction false} SpacedConcat(a: seq<nat>, b: seq<nat>, lo: nat, mid: nat, hi: nat)
    requires Spaced(a, lo, mid) && Spaced(b, mid, hi)
    ensures Spaced(a + b, lo, hi)
    decreases |a|
  {
    if a == [] {
      assert a + b == b;
      SpacedWiden(b, lo, mid, hi, hi);
    } else {
      assert (a + b)[1..] == a[1..] + b;
      SpacedConcat(a[1..], b, a[0] + SECTION_64_SIZE, mid, hi);
    }
  }

  /** A spaced run is also spaced within any wider bounds. */
  lemma {:induction false} SpacedWiden(offs: seq<nat>, lo: nat, lo': nat, hi': nat, hi: nat)
    requires lo <= lo' && hi' <= hi && Spaced(offs, lo', hi')
    ensures Spaced(offs, lo, hi)
    decreases |offs|
  {
    if offs != [] {
      SpacedWiden(offs[1..], offs[0] + SECTION_64_SIZE, offs[0] + SECTION_64_SIZE, hi', hi);
    }
  }

  /** Where a record of a spaced run lies, and that it ends before each later one. */
  lemma {:induction false} SpacedAt(offs: seq<nat>, lo: nat, hi: nat, i: nat)
    requires Spaced(offs, lo, hi) && i < |offs|
    ensures lo <= offs[i] && offs[i] + SECTION_64_SIZE <= hi
    ensures forall j :: i < j < |offs| ==> offs[i] + SECTION_64_SIZE <= offs[j]
    decreases i
  {
    if i == 0 {
      SpacedStart(offs[1..], offs[0] + SECTION_64_SIZE, hi);
    } else {
      SpacedAt(offs[1..], offs[0] + SECTION_64_SIZE, hi, i - 1);
    }
  }

  /** Every record of a spaced run lies from `lo` on and ends by `hi`. */
  lemma {:induction false} SpacedStart(offs: seq<nat>, lo: nat, hi: nat)
    requires Spaced(offs, lo, hi)
    ensures lo <= hi && forall j :: 0 <= j < |offs| ==> lo <= offs[j] && offs[j] + SECTION_64_SIZE <= hi
    decreases |offs|
  {
    if offs != [] {
      SpacedStart(offs[1..], offs[0] + SECTION_64_SIZE, hi);
      forall j | 0 < j < |offs| ensures lo <= offs[j] && offs[j] + SECTION_64_SIZE <= hi {
        assert offs[j] == offs[1..][j - 1];
      }
    }
  }

  // ---------------------------------------------------------------------------
  // Patching records

  /** Patch the records at `offs`, one after another, each read from the current buffer. */
  function PatchEach(patch: Patcher, u: seq<byte>, offs: seq<nat>): seq<byte>
    decreases |offs|
  {
    if offs == [] then u else PatchEach(patch, patch(u, offs[0]), offs[1..])
  }

  /** The section loop of one command: the `k` records from `first` on, in order. */
  function PatchRun(patch: Patcher, u: seq<byte>, first: nat, k: nat): (r: seq<byte>)
    ensures PatcherOk(patch) && (k > 0 ==> first + k * SECTION_64_SIZE <= |u|) ==> |r| == |u|
    decreases k
  {
    if k == 0 then u
    else patch(PatchRun(patch, u, first, k - 1), first + (k - 1) * SECTION_64_SIZE)
  }

  /** The section loop changes nothing outside the run of records it patches. */
  lemma {:induction false} PatchRunOutside(patch: Patcher, u: seq<byte>, first: nat, k: nat)
    requires PatcherOk(patch) && first + k * SECTION_64_SIZE <= |u|
    ensures SameOutside(u, PatchRun(patch, u, first, k), first, first + k * SECTION_64_SIZE)
    decreases k
  {
    if k > 0 {
      PatchRunOutside(patch, u, first, k - 1);
      var v := PatchRun(patch, u, first, k - 1);
      var off := first + (k - 1) * SECTION_64_SIZE;
      assert SameOutside(v, patch(v, off), off, off + SECTION_64_SIZE);
    }
  }

  lemma {:induction false} PatchEachSnoc(patch: Patcher, u: seq<byte>, offs: seq<nat>, off: nat)
    ensures PatchEach(patch, u, offs + [off]) == patch(PatchEach(patch, u, offs), off)
    decreases |offs|
  {
    if offs == [] {
      assert PatchEach(patch, patch(u, off), []) == patch(u, off);
    } else {
      assert (offs + [off])[1..] == offs[1..] + [off];
      PatchEachSnoc(patch, patch(u, offs[0]), offs[1..], off);
    }
  }

  lemma {:induction false} PatchEachConcat(patch: Patcher, u: seq<byte>, a: seq<nat>, b: seq<nat>)
    ensures PatchEach(patch, u, a + b) == PatchEach(patch, PatchEach(patch, u, a), b)
    decreases |a|
  {
    if a == [] {
      assert a + b == b;
    } else {
      assert (a + b)[1..] == a[1..] + b;
      PatchEachConcat(patch, patch(u, a[0]), a[1..], b);
    }
  }

  /** The section loop patches its run of records in order. */
  lemma {:induction false} PatchRunIsPatchEach(patch: Patcher, u: seq<byte>, first: nat, k: nat)
    ensures PatchRun(patch, u, first, k) == PatchEach(patch, u, SectionRun(first, k))
    decreases k
  {
    if k > 0 {
      var off := first + (k - 1) * SECTION_64_SIZE;
      PatchRunIsPatchEach(patch, u, first, k - 1);
      PatchEachSnoc(patch, u, SectionRun(first, k - 1), off);
      assert SectionRun(first, k) == SectionRun(first, k - 1) + [off];
    }
  }

  // ---------------------------------------------------------------------------
  // Walking the load commands

  /** The records of the command at `pos` lie inside it, after its segment_command_64, in order and apart. */
  lemma StepInside(read: Reader, u: seq<byte>, pos: nat)
    requires ReaderOk(read) && pos <= |u| && read(u[pos..]).Some?
    ensures var st := read(u[pos..]).value;
      && pos + st.size <= |u|
      && (st.nsects > 0 ==> pos + SEGMENT_COMMAND_64_SIZE + st.nsects * SECTION_64_SIZE <= pos + st.size)
      && Spaced(Sections(pos, st), pos, pos + st.size)
  {
    var st := read(u[pos..]).value;
    assert Fits(st, |u[pos..]|);
    if st.nsects > 0 {
      RunSpaced(pos + SEGMENT_COMMAND_64_SIZE, st.nsects);
      SpacedWiden(Sections(pos, st), pos, pos + SEGMENT_COMMAND_64_SIZE,
        pos + SEGMENT_COMMAND_64_SIZE + st.nsects * SECTION_64_SIZE, pos + st.size);
    }
  }

  /**
   * Walk `n` load commands from `pos`, each moving the cursor on by its
   * cmdsize, collecting the offsets of the section records of each command;
   * None when the source panics on one of them.
   */
  function Walk(read: Reader, u: seq<byte>, pos: nat, n: nat): Option<seq<nat>>
    requires ReaderOk(read) && pos <= |u|
    decreases n
  {
    if n == 0 then Some([])
    else match read(u[pos..])
      case None => None
      case Some(st) =>
        assert Fits(st, |u[pos..]|);
        match Walk(read, u, pos + st.size, n - 1)
        case None => None
        case Some(rest) => Some(Sections(pos, st) + rest)
  }

  /** A walk that completes reads its first command, then walks the rest from the end of it. */
  lemma WalkFirst(read: Reader, u: seq<byte>, pos: nat, n: nat) returns (next: nat, sects: seq<nat>, rest: seq<nat>)
    requires ReaderOk(read) && pos <= |u| && n > 0 && Walk(read, u, pos, n).Some?
    ensures read(u[pos..]).Some? && next == pos + read(u[pos..]).value.size && next <= |u|
    ensures sects == Sections(pos, read(u[pos..]).value)
    ensures Walk(read, u, next, n - 1) == Some(rest)
    ensures Walk(read, u, pos, n) == Some(sects + rest)
  {
    var st := read(u[pos..]).value;
    assert Fits(st, |u[pos..]|);
    next := pos + st.size;
    sects := Sections(pos, st);
    rest := Walk(read, u, next, n - 1).value;
  }

  /** Where the first command is accepted, the walk completes exactly when the walk after it does. */
  lemma WalkNext(read: Reader, u: seq<byte>, pos: nat, n: nat) returns (next: nat)
    requires ReaderOk(read) && pos <= |u| && n > 0 && read(u[pos..]).Some?
    ensures next == pos + read(u[pos..]).value.size && next <= |u|
    ensures Walk(read, u, pos, n).Some? <==> Walk(read, u, next, n - 1).Some?
  {
    assert Fits(read(u[pos..]).value, |u[pos..]|);
    next := pos + read(u[pos..]).value.size;
  }

  /** The records found by the walk are in increasing order, apart, and inside the buffer from `pos` on. */
  lemma {:induction false} WalkSpaced(read: Reader, u: seq<byte>, pos: nat, n: nat)
    requires ReaderOk(read) && pos <= |u|
    ensures var r := Walk(read, u, pos, n); r.Some? ==> Spaced(r.value, pos, |u|)
    decreases n
  {
    if n > 0 && Walk(read, u, pos, n).Some? {
      var next, sects, rest := WalkFirst(read, u, pos, n);
      StepInside(read, u, pos);
      WalkSpaced(read, u, next, n - 1);
      SpacedConcat(sects, rest, pos, next, |u|);
    }
  }

  /** Two buffers that agree from `pos` on agree from any later offset on. */
  lemma SuffixLater(u: seq<byte>, v: seq<byte>, pos: nat, next: nat)
    requires pos <= next <= |u| == |v| && u[pos..] == v[pos..]
    ensures u[next..] == v[next..]
  {
    assert u[next..] == u[pos..][next - pos..];
    assert v[next..] == v[pos..][next - pos..];
  }

  /** The walk reads nothing before `pos`. */
  lemma {:induction false} WalkLocal(read: Reader, u: seq<byte>, v: seq<byte>, pos: nat, n: nat)
    requires ReaderOk(read) && pos <= |u| == |v| && u[pos..] == v[pos..]
    ensures Walk(read, u, pos, n) == Walk(read, v, pos, n)
    decreases n
  {
    if n > 0 && read(u[pos..]).Some? {
      var next := WalkNext(read, u, pos, n);
      SuffixLater(u, v, pos, next);
      WalkLocal(read, u, v, next, n - 1);
    }
  }

  /**
   * The offsets of the load commands the walk gets through, in order: it
   * stops after `n` commands or at the first command it panics on.
   */
  function Cursors(read: Reader, u: seq<byte>, pos: nat, n: nat): (r: seq<nat>)
    requires ReaderOk(read) && pos <= |u|
    ensures |r| <= n
    decreases n
  {
    if n == 0 then []
    else match read(u[pos..])
      case None => []
      case Some(st) =>
        assert Fits(st, |u[pos..]|);
        [pos] + Cursors(read, u, pos + st.size, n - 1)
  }

  /**
   * Consecutive offsets in `c` are commands the decoder accepts, each one
   * starting cmdsize bytes after the one before it.
   */
  ghost predicate Chained(read: Reader, u: seq<byte>, c: seq<nat>) {
    forall k :: 0 <= k < |c| - 1 ==>
      c[k] <= |u| && read(u[c[k]..]).Some? && c[k + 1] == c[k] + read(u[c[k]..]).value.size
  }

  lemma CursorsNext(read: Reader, u: seq<byte>, pos: nat, n: nat) returns (next: nat)
    requires ReaderOk(read) && pos <= |u| && n > 0 && read(u[pos..]).Some?
    ensures next == pos + read(u[pos..]).value.size && next <= |u|
    ensures Cursors(read, u, pos, n) == [pos] + Cursors(read, u, next, n - 1)
  {
    assert Fits(read(u[pos..]).value, |u[pos..]|);
    next := pos + read(u[pos..]).value.size;
  }

  /** The walk completes exactly when it gets through all `n` commands. */
  lemma {:induction false} WalkVisitsEveryCommand(read: Reader, u: seq<byte>, pos: nat, n: nat)
    requires ReaderOk(read) && pos <= |u|
    ensures Walk(read, u, pos, n).Some? <==> |Cursors(read, u, pos, n)| == n
    decreases n
  {
    if n > 0 && read(u[pos..]).Some? {
      var next := CursorsNext(read, u, pos, n);
      var next' := WalkNext(read, u, pos, n);
      WalkVisitsEveryCommand(read, u, next, n - 1);
    }
  }

  /** The walk starts at `pos`, and each command it gets through starts cmdsize bytes after the one before it. */
  lemma {:induction false} CursorsChained(read: Reader, u: seq<byte>, pos: nat, n: nat)
    requires ReaderOk(read) && pos <= |u|
    ensures |Cursors(read, u, pos, n)| > 0 ==> Cursors(read, u, pos, n)[0] == pos
    ensures Chained(read, u, Cursors(read, u, pos, n))
    decreases n
  {
    if n > 0 && read(u[pos..]).Some? {
      var next := CursorsNext(read, u, pos, n);
      CursorsChained(read, u, next, n - 1);
      ChainedCons(read, u, pos, Cursors(read, u, next, n - 1));
    }
  }

  lemma ChainedCons(read: Reader, u: seq<byte>, pos: nat, rest: seq<nat>)
    requires pos <= |u| && read(u[pos..]).Some? && Chained(read, u, rest)
    requires |rest| > 0 ==> rest[0] == pos + read(u[pos..]).value.size
    ensures Chained(read, u, [pos] + rest)
  {
    var c := [pos] + rest;
    forall k | 0 <= k < |c| - 1
      ensures c[k] <= |u| && read(u[c[k]..]).Some? && c[k + 1] == c[k] + read(u[c[k]..]).value.size
    {
      if k > 0 {
        assert c[k] == rest[k - 1] && c[k + 1] == rest[k];
      }
    }
  }

  // ---------------------------------------------------------------------------
  // The loop, command by command

  /** The buffer after the section loop of the command at `pos`. */
  function PatchStep(read: Reader, patch: Patcher, u: seq<byte>, pos: nat): (r: seq<byte>)
    requires ReaderOk(read) && PatcherOk(patch) && pos <= |u| && read(u[pos..]).Some?
    ensures |r| == |u|
  {
    StepInside(read, u, pos);
    PatchRun(patch, u, pos + SEGMENT_COMMAND_64_SIZE, read(u[pos..]).value.nsects)
  }

  /**
   * The rest of the command loop run on the buffer `u`, with the cursor at
   * `pos` and `left` commands to go.
   */
  function PatchFrom(read: Reader, patch: Patcher, u: seq<byte>, pos: nat, left: nat): Option<seq<byte>>
    requires ReaderOk(read) && PatcherOk(patch) && pos <= |u|
    decreases left
  {
    if left == 0 then Some(u)
    else match read(u[pos..])
      case None => None
      case Some(st) =>
        assert Fits(st, |u[pos..]|);
        PatchFrom(read, patch, PatchStep(read, patch, u, pos), pos + st.size, left - 1)
  }

  /** One pass of the command loop: the section loop of the command at the cursor, then the cursor moves past it. */
  lemma PatchFromNext(read: Reader, patch: Patcher, u: seq<byte>, pos: nat, left: nat) returns (next: nat, v: seq<byte>)
    requires ReaderOk(read) && PatcherOk(patch) && pos <= |u| && left > 0 && read(u[pos..]).Some?
    ensures next == pos + read(u[pos..]).value.size && v == PatchStep(read, patch, u, pos) && next <= |v| == |u|
    ensures PatchFrom(read, patch, u, pos, left) == PatchFrom(read, patch, v, next, left - 1)
  {
    assert Fits(read(u[pos..]).value, |u[pos..]|);
    next := pos + read(u[pos..]).value.size;
    v := PatchStep(read, patch, u, pos);
  }

  /** One pass of the command loop over an accepted command, stated with the command's step. */
  lemma PatchFromAccepted(read: Reader, patch: Patcher, u: seq<byte>, pos: nat, left: nat, st: Step, w: seq<byte>, next: nat)
    requires ReaderOk(read) && PatcherOk(patch) && pos <= |u| && left > 0 && read(u[pos..]) == Some(st)
    requires next == pos + st.size && w == PatchRun(patch, u, pos + SEGMENT_COMMAND_64_SIZE, st.nsects)
    ensures next <= |w| && PatchFrom(read, patch, u, pos, left) == PatchFrom(read, patch, w, next, left - 1)
  {
    assert Fits(st, |u[pos..]|);
    assert w == PatchStep(read, patch, u, pos);
  }

  /** The command loop panics at a command the decoder rejects. */
  lemma PatchFromStops(read: Reader, patch: Patcher, u: seq<byte>, pos: nat, left: nat)
    requires ReaderOk(read) && PatcherOk(patch) && pos <= |u| && left > 0 && read(u[pos..]).None?
    ensures PatchFrom(read, patch, u, pos, left).None?
  {
  }

  /** A buffer changed only before `next` agrees with the original from `next` on. */
  lemma SameAfter(u: seq<byte>, v: seq<byte>, lo: nat, hi: nat, next: nat)
    requires SameOutside(u, v, lo, hi) && hi <= next <= |u|
    ensures u[next..] == v[next..]
  {
  }

  /**
   * Patching the records of the command at `pos` leaves the walk over the
   * commands after it unchanged: the records lie inside the command.
   */
  lemma PatchKeepsRest(read: Reader, patch: Patcher, u: seq<byte>, pos: nat, n: nat)
    requires ReaderOk(read) && PatcherOk(patch) && pos <= |u| && read(u[pos..]).Some?
    ensures pos + read(u[pos..]).value.size <= |u|
    ensures Walk(read, PatchStep(read, patch, u, pos), pos + read(u[pos..]).value.size, n)
      == Walk(read, u, pos + read(u[pos..]).value.size, n)
  {
    PatchKeepsSuffix(read, patch, u, pos);
    WalkLocal(read, u, PatchStep(read, patch, u, pos), pos + read(u[pos..]).value.size, n);
  }

  /** Patching the records of the command at `pos` leaves every byte after the command as it was. */
  lemma PatchKeepsSuffix(read: Reader, patch: Patcher, u: seq<byte>, pos: nat)
    requires ReaderOk(read) && PatcherOk(patch) && pos <= |u| && read(u[pos..]).Some?
    ensures pos + read(u[pos..]).value.size <= |u|
    ensures u[pos + read(u[pos..]).value.size..] == PatchStep(read, patch, u, pos)[pos + read(u[pos..]).value.size..]
  {
    var st := read(u[pos..]).value;
    var v := PatchStep(read, patch, u, pos);
    StepInside(read, u, pos);
    if st.nsects > 0 {
      PatchRunOutside(patch, u, pos + SEGMENT_COMMAND_64_SIZE, st.nsects);
      SameAfter(u, v, pos + SEGMENT_COMMAND_64_SIZE, pos + SEGMENT_COMMAND_64_SIZE + st.nsects * SECTION_64_SIZE, pos + st.size);
    }
  }

  /**
   * Patching each command's records as the walk reaches them gives the same
   * buffer as first walking all the commands and then patching every record
   * found: a command's patch only touches bytes inside it, so the later
   * commands read the same bytes either way.
   */
  lemma {:induction false} PatchFromTwoPhase(read: Reader, patch: Patcher, u: seq<byte>, pos: nat, left: nat)
    requires ReaderOk(read) && PatcherOk(patch) && pos <= |u|
    ensures Walk(read, u, pos, left).Some? ==>
      PatchFrom(read, patch, u, pos, left) == Some(PatchEach(patch, u, Walk(read, u, pos, left).value))
    decreases left
  {
    if left > 0 && Walk(read, u, pos, left).Some? {
      var next, v, sects, rest := TwoPhaseStep(read, patch, u, pos, left);
      PatchFromTwoPhase(read, patch, v, next, left - 1);
      PatchEachConcat(patch, u, sects, rest);
    }
  }

  lemma TwoPhaseStep(read: Reader, patch: Patcher, u: seq<byte>, pos: nat, left: nat)
    returns (next: nat, v: seq<byte>, sects: seq<nat>, rest: seq<nat>)
    requires ReaderOk(read) && PatcherOk(patch) && pos <= |u|
    requires left > 0 && Walk(read, u, pos, left).Some?
    ensures next <= |v| && |v| == |u|
    ensures PatchFrom(read, patch, u, pos, left) == PatchFrom(read, patch, v, next, left - 1)
    ensures Walk(read, v, next, left - 1) == Some(rest)
    ensures Walk(read, u, pos, left) == Some(sects + rest)
    ensures v == PatchEach(patch, u, sects)
  {
    next, v, sects, rest := TwoPhaseWalk(read, patch, u, pos, left);
    var next', v' := PatchFromNext(read, patch, u, pos, left);
    PatchStepIsPatchEach(read, patch, u, pos);
  }

  lemma TwoPhaseWalk(read: Reader, patch: Patcher, u: seq<byte>, pos: nat, left: nat)
    returns (next: nat, v: seq<byte>, sects: seq<nat>, rest: seq<nat>)
    requires ReaderOk(read) && PatcherOk(patch) && pos <= |u|
    requires left > 0 && Walk(read, u, pos, left).Some?
    ensures read(u[pos..]).Some? && next == pos + read(u[pos..]).value.size && next <= |u|
    ensures v == PatchStep(read, patch, u, pos) && sects == Sections(pos, read(u[pos..]).value)
    ensures Walk(read, v, next, left - 1) == Some(rest)
    ensures Walk(read, u, pos, left) == Some(sects + rest)
  {
    next, sects, rest := WalkFirst(read, u, pos, left);
    v := PatchStep(read, patch, u, pos);
    PatchKeepsRest(read, patch, u, pos, left - 1);
  }

  /** The section loop of one command patches its records in order. */
  lemma PatchStepIsPatchEach(read: Reader, patch: Patcher, u: seq<byte>, pos: nat)
    requires ReaderOk(read) && PatcherOk(patch) && pos <= |u| && read(u[pos..]).Some?
    ensures PatchStep(read, patch, u, pos) == PatchEach(patch, u, Sections(pos, read(u[pos..]).value))
  {
    PatchRunIsPatchEach(patch, u, pos + SEGMENT_COMMAND_64_SIZE, read(u[pos..]).value.nsects);
  }

  /** The command loop panics exactly when the walk does. */
  lemma {:induction false} PatchFromFails(read: Reader, patch: Patcher, u: seq<byte>, pos: nat, left: nat)
    requires ReaderOk(read) && PatcherOk(patch) && pos <= |u|
    ensures Walk(read, u, pos, left).None? ==> PatchFrom(read, patch, u, pos, left).None?
    decreases left
  {
    if left > 0 && read(u[pos..]).Some? && Walk(read, u, pos, left).None? {
      var next, v := FailsStep(read, patch, u, pos, left);
      PatchFromFails(read, patch, v, next, left - 1);
    }
  }

  lemma FailsStep(read: Reader, patch: Patcher, u: seq<byte>, pos: nat, left: nat) returns (next: nat, v: seq<byte>)
    requires ReaderOk(read) && PatcherOk(patch) && pos <= |u|
    requires left > 0 && read(u[pos..]).Some? && Walk(read, u, pos, left).None?
    ensures next <= |v|
    ensures PatchFrom(read, patch, u, pos, left) == PatchFrom(read, patch, v, next, left - 1)
    ensures Walk(read, v, next, left - 1).None?
  {
    next, v := FailsWalk(read, patch, u, pos, left);
    var next', v' := PatchFromNext(read, patch, u, pos, left);
  }

  lemma FailsWalk(read: Reader, patch: Patcher, u: seq<byte>, pos: nat, left: nat) returns (next: nat, v: seq<byte>)
    requires ReaderOk(read) && PatcherOk(patch) && pos <= |u|
    requires left > 0 && read(u[pos..]).Some? && Walk(read, u, pos, left).None?
    ensures next == pos + read(u[pos..]).value.size && v == PatchStep(read, patch, u, pos) && next <= |v|
    ensures Walk(read, v, next, left - 1).None?
  {
    next := WalkNext(read, u, pos, left);
    v := PatchStep(read, patch, u, pos);
    PatchKeepsRest(read, patch, u, pos, left - 1);
  }

  // ---------------------------------------------------------------------------
  // The bytes the records cover

  /** Byte `j` lies inside one of the section records at `offs`. */
  predicate InRecords(offs: seq<nat>, j: nat)
    decreases |offs|
  {
    offs != [] && (offs[0] <= j < offs[0] + SECTION_64_SIZE || InRecords(offs[1..], j))
  }

  /** Every record at `offs` starts from `lo` on. */
  predicate Above(offs: seq<nat>, lo: nat)
    decreases |offs|
  {
    offs == [] || (lo <= offs[0] && Above(offs[1..], lo))
  }

  lemma {:induction false} InRecordsConcat(a: seq<nat>, b: seq<nat>, j: nat)
    ensures InRecords(a + b, j) <==> InRecords(a, j) || InRecords(b, j)
    decreases |a|
  {
    if a == [] {
      assert a + b == b;
    } else {
      assert (a + b)[1..] == a[1..] + b;
      InRecordsConcat(a[1..], b, j);
    }
  }

  lemma {:induction false} AboveConcat(a: seq<nat>, b: seq<nat>, lo: nat)
    requires Above(a, lo) && Above(b, lo)
    ensures Above(a + b, lo)
    decreases |a|
  {
    if a == [] {
      assert a + b == b;
    } else {
      assert (a + b)[1..] == a[1..] + b;
      AboveConcat(a[1..], b, lo);
    }
  }

  lemma {:induction false} AboveLower(offs: seq<nat>, lo: nat, lo': nat)
    requires lo <= lo' && Above(offs, lo')
    ensures Above(offs, lo)
    decreases |offs|
  {
    if offs != [] {
      AboveLower(offs[1..], lo, lo');
    }
  }

  /** No record starting from `lo` on covers a byte before `lo`. */
  lemma {:induction false} AboveMisses(offs: seq<nat>, lo: nat, j: nat)
    requires Above(offs, lo) && j < lo
    ensures !InRecords(offs, j)
    decreases |offs|
  {
    if offs != [] {
      AboveMisses(offs[1..], lo, j);
    }
  }

  /** No record of a spaced run ending by `hi` covers a byte from `hi` on. */
  lemma {:induction false} SpacedMisses(offs: seq<nat>, lo: nat, hi: nat, j: nat)
    requires Spaced(offs, lo, hi) && hi <= j
    ensures !InRecords(offs, j)
    decreases |offs|
  {
    if offs != [] {
      SpacedMisses(offs[1..], offs[0] + SECTION_64_SIZE, hi, j);
      SpacedStart(offs[1..], offs[0] + SECTION_64_SIZE, hi);
    }
  }

  lemma {:induction false} RunAbove(first: nat, k: nat)
    ensures Above(SectionRun(first, k), first)
    decreases k
  {
    if k > 0 {
      RunAbove(first + SECTION_64_SIZE, k - 1);
      AboveLower(SectionRun(first + SECTION_64_SIZE, k - 1), first, first + SECTION_64_SIZE);
      assert SectionRun(first, k)[1..] == SectionRun(first + SECTION_64_SIZE, k - 1);
    }
  }

  /** Every record the walk finds lies after the segment_command_64 of the first command. */
  lemma {:induction false} WalkAbove(read: Reader, u: seq<byte>, pos: nat, n: nat)
    requires ReaderOk(read) && pos <= |u|
    ensures var r := Walk(read, u, pos, n); r.Some? ==> Above(r.value, pos + SEGMENT_COMMAND_64_SIZE)
    decreases n
  {
    if n > 0 && Walk(read, u, pos, n).Some? {
      var next, sects, rest := WalkFirst(read, u, pos, n);
      WalkAbove(read, u, next, n - 1);
      AboveStep(pos, next, read(u[pos..]).value.nsects, rest);
    }
  }

  /** The records of a command, then records after the next command's head, all lie after this command's head. */
  lemma AboveStep(pos: nat, next: nat, nsects: nat, rest: seq<nat>)
    requires pos <= next && Above(rest, next + SEGMENT_COMMAND_64_SIZE)
    ensures Above(SectionRun(pos + SEGMENT_COMMAND_64_SIZE, nsects) + rest, pos + SEGMENT_COMMAND_64_SIZE)
  {
    RunAbove(pos + SEGMENT_COMMAND_64_SIZE, nsects);
    AboveLower(rest, pos + SEGMENT_COMMAND_64_SIZE, next + SEGMENT_COMMAND_64_SIZE);
    AboveConcat(SectionRun(pos + SEGMENT_COMMAND_64_SIZE, nsects), rest, pos + SEGMENT_COMMAND_64_SIZE);
  }

  /**
   * `v` agrees with `u` from `pos` on everywhere except in the records that
   * the walk over `u` finds there.
   */
  ghost predicate Agree(read: Reader, u: seq<byte>, v: seq<byte>, pos: nat, n: nat, offs: seq<nat>) {
    && ReaderOk(read) && ReadsHead(read) && pos <= |u| == |v| && Walk(read, u, pos, n) == Some(offs)
    && Outside(u, v, pos, offs)
  }

  /** `u` and `v` agree on every byte from `pos` on outside the records at `offs`. */
  ghost predicate Outside(u: seq<byte>, v: seq<byte>, pos: nat, offs: seq<nat>) {
    forall j {:trigger InRecords(offs, j)} :: pos <= j < |u| && j < |v| && !InRecords(offs, j) ==> u[j] == v[j]
  }

  /**
   * The walk reads nothing inside the section records it finds: changing
   * their bytes leaves the walk as it was.
   */
  lemma {:induction false} WalkIgnoresRecords(read: Reader, u: seq<byte>, v: seq<byte>, pos: nat, n: nat, offs: seq<nat>)
    requires Agree(read, u, v, pos, n, offs)
    ensures Walk(read, v, pos, n) == Some(offs)
    decreases n
  {
    if n > 0 {
      var next, rest := IgnoresStep(read, u, v, pos, n, offs);
      WalkConsAgree(read, u, v, pos, n, offs, next, rest);
      WalkIgnoresRecords(read, u, v, next, n - 1, rest);
    }
  }

  lemma IgnoresStep(read: Reader, u: seq<byte>, v: seq<byte>, pos: nat, n: nat, offs: seq<nat>)
    returns (next: nat, rest: seq<nat>)
    requires Agree(read, u, v, pos, n, offs) && n > 0
    ensures Agree(read, u, v, next, n - 1, rest)
    ensures FirstAgrees(read, u, v, pos, n, offs, next, rest)
  {
    var sects;
    next, sects, rest := WalkFirst(read, u, pos, n);
    IgnoresHead(read, u, v, pos, n, offs);
    IgnoresRest(read, u, v, pos, next, sects, rest);
  }

  /** The first command reads alike in `u` and `v`; `rest` is what follows its records. */
  ghost predicate FirstAgrees(read: Reader, u: seq<byte>, v: seq<byte>, pos: nat, n: nat, offs: seq<nat>, next: nat, rest: seq<nat>)
    requires ReaderOk(read) && pos <= |u| == |v|
  {
    && n > 0 && read(u[pos..]).Some? && read(v[pos..]) == read(u[pos..])
    && next == pos + read(u[pos..]).value.size
    && offs == Sections(pos, read(u[pos..]).value) + rest
  }

  /** A walk over `v` whose first command reads as it does in `u`. */
  lemma WalkConsAgree(read: Reader, u: seq<byte>, v: seq<byte>, pos: nat, n: nat, offs: seq<nat>, next: nat, rest: seq<nat>)
    requires ReaderOk(read) && pos <= |u| == |v| && FirstAgrees(read, u, v, pos, n, offs, next, rest)
    ensures next <= |v|
    ensures Walk(read, v, next, n - 1) == Some(rest) ==> Walk(read, v, pos, n) == Some(offs)
  {
    assert Fits(read(v[pos..]).value, |v[pos..]|);
  }

  lemma IgnoresHead(read: Reader, u: seq<byte>, v: seq<byte>, pos: nat, n: nat, offs: seq<nat>)
    requires ReaderOk(read) && ReadsHead(read) && pos <= |u| == |v| && Walk(read, u, pos, n) == Some(offs)
    requires forall j {:trigger InRecords(offs, j)} :: pos <= j < |u| && !InRecords(offs, j) ==> u[j] == v[j]
    ensures read(v[pos..]) == read(u[pos..])
  {
    WalkAbove(read, u, pos, n);
    forall j | pos <= j < |u| && j < pos + SEGMENT_COMMAND_64_SIZE ensures u[j] == v[j] {
      AboveMisses(offs, pos + SEGMENT_COMMAND_64_SIZE, j);
    }
    assert SameHead(v[pos..], u[pos..]);
  }

  lemma IgnoresRest(read: Reader, u: seq<byte>, v: seq<byte>, pos: nat, next: nat, sects: seq<nat>, rest: seq<nat>)
    requires ReaderOk(read) && pos <= |u| == |v| && read(u[pos..]).Some?
    requires next == pos + read(u[pos..]).value.size && sects == Sections(pos, read(u[pos..]).value)
    requires forall j {:trigger InRecords(sects + rest, j)} :: pos <= j < |u| && !InRecords(sects + rest, j) ==> u[j] == v[j]
    ensures forall j {:trigger InRecords(rest, j)} :: next <= j < |u| && !InRecords(rest, j) ==> u[j] == v[j]
  {
    StepInside(read, u, pos);
    forall j | next <= j < |u| && !InRecords(rest, j) ensures u[j] == v[j] {
      SpacedMisses(sects, pos, next, j);
      InRecordsConcat(sects, rest, j);
    }
  }

  /** Patching records changes no byte outside them. */
  lemma {:induction false} PatchEachOutside(patch: Patcher, u: seq<byte>, offs: seq<nat>, lo: nat, j: nat)
    requires PatcherOk(patch) && Spaced(offs, lo, |u|) && j < |u| && !InRecords(offs, j)
    ensures |PatchEach(patch, u, offs)| == |u| && PatchEach(patch, u, offs)[j] == u[j]
    decreases |offs|
  {
    if offs != [] {
      var v := patch(u, offs[0]);
      SpacedStart(offs, lo, |u|);
      PatchEachOutside(patch, v, offs[1..], offs[0] + SECTION_64_SIZE, j);
    }
  }

  /** Patching records each of which the patch leaves as it is changes nothing. */
  lemma {:induction false} PatchEachFixed(patch: Patcher, u: seq<byte>, offs: seq<nat>)
    requires forall i :: 0 <= i < |offs| ==> patch(u, offs[i]) == u
    ensures PatchEach(patch, u, offs) == u
    decreases |offs|
  {
    if offs != [] {
      assert patch(u, offs[0]) == u;
      forall i | 0 <= i < |offs[1..]| ensures patch(u, offs[1..][i]) == u {
        assert offs[1..][i] == offs[i + 1];
      }
      PatchEachFixed(patch, u, offs[1..]);
    }
  }
}
