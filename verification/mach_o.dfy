/**
 * Patching of 64-bit Mach-O relocatable objects, as done by the build script of
 * vrc-get-litedb before linking the NativeAOT archive on macOS: every section of
 * an LC_SEGMENT_64 command that must survive dead-stripping gets the
 * S_ATTR_NO_DEAD_STRIP attribute ORed into its flags, in place.
 *
 * Record layouts and constants are those of Apple's <mach-o/loader.h>:
 *   mach_header_64      32 bytes, ncmds at offset 16
 *   load_command         8 bytes, cmd at 0, cmdsize at 4
 *   segment_command_64  72 bytes, nsects at offset 64
 *   section_64          80 bytes, sectname at 0, segname at 16, flags at 64
 * Multi-byte fields are 32-bit words in the object's byte order.
 */
module MachO {
  import opened Wrappers
  import opened Words
  import opened LoadCommands

  const MH_MAGIC_64: nat := 0xfeed_facf
  const MH_CIGAM_64: nat := 0xcffa_edfe
  const LC_SEGMENT_64: nat := 0x19
  const S_ZEROFILL: nat := 0x1
  const S_ATTR_NO_DEAD_STRIP: nat := 0x1000_0000

  const MACH_HEADER_64_SIZE: nat := 32
  const NCMDS_OFFSET: nat := 16
  const LOAD_COMMAND_SIZE: nat := 8
  const CMDSIZE_OFFSET: nat := 4
  const NSECTS_OFFSET: nat := 64
  const SEGNAME_OFFSET: nat := 16
  const FLAGS_OFFSET: nat := 64

  /** `n` NUL bytes, the padding of a name field. */
  function Zeros(n: nat): (r: seq<byte>)
    ensures |r| == n && forall i :: 0 <= i < n ==> r[i] == 0
  {
    seq(n, _ => 0)
  }

  /** The 16-byte, NUL-padded name fields the patch compares against. */
  const SEG_DATA: seq<byte> := [0x5f, 0x5f, 0x44, 0x41, 0x54, 0x41] + Zeros(10)  // "__DATA"
  const SEG_TEXT: seq<byte> := [0x5f, 0x5f, 0x54, 0x45, 0x58, 0x54] + Zeros(10)  // "__TEXT"
  const SECT_MANAGEDCODE: seq<byte> :=                                           // "__managedcode"
    [0x5f, 0x5f, 0x6d, 0x61, 0x6e, 0x61, 0x67, 0x65, 0x64, 0x63, 0x6f, 0x64, 0x65] + Zeros(3)

  // ---------------------------------------------------------------------------
  // Section headers

  /**
   * A section_64 record as far as the patch looks at it. The flags word is
   * kept as the number it stores; the two bitwise operations the patch applies
   * to it are IsZerofill and MarkNoDeadStrip below.
   */
  datatype Section64 = Section64(sectname: seq<byte>, segname: seq<byte>, flags: nat)

  /** The section_64 record starting at `off`. */
  function SectionAt(s: seq<byte>, off: nat, big: bool): (h: Section64)
    requires off + SECTION_64_SIZE <= |s|
    ensures |h.sectname| == 16 && |h.segname| == 16 && h.flags < 0x1_0000_0000
  {
    Section64(s[off..off + 16], s[off + SEGNAME_OFFSET..off + SEGNAME_OFFSET + 16],
              U32Value(s, off + FLAGS_OFFSET, big))
  }

  /** `flags & S_ZEROFILL != 0`: S_ZEROFILL is bit 0 of the word. */
  predicate IsZerofill(flags: nat) {
    flags % 2 == 1
  }

  /** Whether bit 28, S_ATTR_NO_DEAD_STRIP, is set in the word. */
  predicate IsNoDeadStrip(flags: nat) {
    (flags / S_ATTR_NO_DEAD_STRIP) % 2 == 1
  }

  /** `flags | S_ATTR_NO_DEAD_STRIP`: set bit 28 unless it is already set. */
  function MarkNoDeadStrip(flags: nat): nat {
    if IsNoDeadStrip(flags) then flags else flags + S_ATTR_NO_DEAD_STRIP
  }

  /**
   * IsZerofill is the source's bitwise test: for every 32-bit word it agrees
   * with `&` on bit vectors.
   */
  lemma IsZerofillIsBitwiseAnd(flags: nat)
    requires flags < 0x1_0000_0000
    ensures IsZerofill(flags) == ((flags as bv32) & 0x1 != 0)
  {
  }

  /**
   * MarkNoDeadStrip is the bitwise OR with S_ATTR_NO_DEAD_STRIP on a 32-bit
   * word: the result is again a 32-bit word with bit 28 set, the 28 bits below
   * and the 3 bits above are those of `flags`, and nothing else changes.
   */
  lemma MarkNoDeadStripIsBitwiseOr(flags: nat)
    requires flags < 0x1_0000_0000
    ensures MarkNoDeadStrip(flags) < 0x1_0000_0000
    ensures IsNoDeadStrip(MarkNoDeadStrip(flags))
    ensures MarkNoDeadStrip(flags) % S_ATTR_NO_DEAD_STRIP == flags % S_ATTR_NO_DEAD_STRIP
    ensures MarkNoDeadStrip(flags) / (2 * S_ATTR_NO_DEAD_STRIP) == flags / (2 * S_ATTR_NO_DEAD_STRIP)
    ensures IsNoDeadStrip(flags) <==> MarkNoDeadStrip(flags) == flags
  {
  }

  /**
   * Whether a section must be kept by the linker: never a section whose flags
   * have the S_ZEROFILL bit set (a plain bitwise test on the flags word),
   * otherwise every section of the __DATA segment and __TEXT,__managedcode.
   */
  predicate ShouldNotDeadStrip(h: Section64) {
    if IsZerofill(h.flags) then false
    else if h.segname == SEG_DATA then true
    else if h.segname == SEG_TEXT && h.sectname == SECT_MANAGEDCODE then true
    else false
  }

  /** The flags a section ends up with after the patch. */
  function PatchedFlags(h: Section64): nat {
    if ShouldNotDeadStrip(h) then MarkNoDeadStrip(h.flags) else h.flags
  }

  /** The decision depends on the flags only through the S_ZEROFILL bit. */
  lemma DecisionIgnoresOtherBits(h: Section64, g: nat)
    requires IsZerofill(g) == IsZerofill(h.flags)
    ensures ShouldNotDeadStrip(h.(flags := g)) == ShouldNotDeadStrip(h)
  {
  }

  /** Marking never turns a section into a zero-fill one, nor the other way round. */
  lemma MarkKeepsZerofillBit(flags: nat)
    ensures IsZerofill(MarkNoDeadStrip(flags)) == IsZerofill(flags)
  {
  }

  /**
   * Patching a section whose flags were already patched changes nothing, and
   * a patched section has S_ATTR_NO_DEAD_STRIP exactly when it is one the
   * linker must keep (or had the attribute before).
   */
  lemma PatchedFlagsIdempotent(h: Section64)
    ensures ShouldNotDeadStrip(h.(flags := PatchedFlags(h))) == ShouldNotDeadStrip(h)
    ensures PatchedFlags(h.(flags := PatchedFlags(h))) == PatchedFlags(h)
    ensures IsNoDeadStrip(PatchedFlags(h)) <==> ShouldNotDeadStrip(h) || IsNoDeadStrip(h.flags)
  {
    if ShouldNotDeadStrip(h) {
      MarkKeepsZerofillBit(h.flags);
      DecisionIgnoresOtherBits(h, PatchedFlags(h));
    }
  }

  /**
   * Because the zero-fill test is bitwise on the whole flags word, a __DATA
   * section of any odd section type (here S_MOD_INIT_FUNC_POINTERS, 0x9) is
   * left alone, while one of the even type S_THREAD_LOCAL_ZEROFILL (0x12) is
   * marked; a __TEXT section is marked only when it is __managedcode.
   */
  lemma ZerofillTestIsBitwise(sectname: seq<byte>)
    ensures !ShouldNotDeadStrip(Section64(sectname, SEG_DATA, 0x9))
    ensures ShouldNotDeadStrip(Section64(sectname, SEG_DATA, 0x12))
    ensures ShouldNotDeadStrip(Section64(sectname, SEG_TEXT, 0x0)) <==> sectname == SECT_MANAGEDCODE
  {
    assert SEG_TEXT[2] != SEG_DATA[2];
  }

  /** Patch one section header in `s`: OR the attribute into its flags if needed. */
  function PatchSection(s: seq<byte>, off: nat, big: bool): (r: seq<byte>)
    requires off + SECTION_64_SIZE <= |s|
    ensures |r| == |s|
    ensures forall j :: 0 <= j < |s| && !(off + FLAGS_OFFSET <= j < off + FLAGS_OFFSET + 4) ==> r[j] == s[j]
  {
    var h := SectionAt(s, off, big);
    if ShouldNotDeadStrip(h) then
      MarkNoDeadStripIsBitwiseOr(h.flags);
      SetU32At(s, off + FLAGS_OFFSET, MarkNoDeadStrip(h.flags), big)
    else s
  }

  /** Two buffers that agree on the 80 bytes of a record read the same record there. */
  lemma SectionAtSame(u: seq<byte>, v: seq<byte>, off: nat, big: bool)
    requires off + SECTION_64_SIZE <= |u| && off + SECTION_64_SIZE <= |v|
    requires forall j :: off <= j < off + SECTION_64_SIZE ==> u[j] == v[j]
    ensures SectionAt(u, off, big) == SectionAt(v, off, big)
  {
    assert u[off..off + 16] == v[off..off + 16];
    assert u[off + SEGNAME_OFFSET..off + SEGNAME_OFFSET + 16] == v[off + SEGNAME_OFFSET..off + SEGNAME_OFFSET + 16];
  }

  /** The patched record keeps its names and carries the patched flags. */
  lemma PatchSectionResult(s: seq<byte>, off: nat, big: bool)
    requires off + SECTION_64_SIZE <= |s|
    ensures var h := SectionAt(s, off, big);
      SectionAt(PatchSection(s, off, big), off, big) == h.(flags := PatchedFlags(h))
  {
    var h := SectionAt(s, off, big);
    var r := PatchSection(s, off, big);
    assert r[off..off + 16] == s[off..off + 16];
    assert r[off + SEGNAME_OFFSET..off + SEGNAME_OFFSET + 16] == s[off + SEGNAME_OFFSET..off + SEGNAME_OFFSET + 16];
    if ShouldNotDeadStrip(h) {
      MarkNoDeadStripIsBitwiseOr(h.flags);
    }
  }

  /** A record whose flags are already what the patch would make them is left as it is. */
  lemma PatchSectionFixed(s: seq<byte>, off: nat, big: bool)
    requires off + SECTION_64_SIZE <= |s|
    requires PatchedFlags(SectionAt(s, off, big)) == SectionAt(s, off, big).flags
    ensures PatchSection(s, off, big) == s
  {
    if ShouldNotDeadStrip(SectionAt(s, off, big)) {
      SetU32AtSame(s, off + FLAGS_OFFSET, big);
    }
  }

  // ---------------------------------------------------------------------------
  // Load commands

  /**
   * Decode the load command at the start of `t`, the rest of the buffer from
   * the cursor on: its cmdsize, and for LC_SEGMENT_64 the number of section
   * records after the segment_command_64. None where the loop panics: fewer
   * than 8 bytes left, a cmdsize beyond the end, or an LC_SEGMENT_64 whose
   * cmdsize cannot hold its segment_command_64 and its nsects records.
   */
  function ReadCommand(t: seq<byte>, big: bool): (r: Option<Step>)
    ensures r.Some? ==> Fits(r.value, |t|)
    ensures r.Some? ==> LOAD_COMMAND_SIZE <= |t| && r.value.size == U32Value(t, CMDSIZE_OFFSET, big)
    ensures r.Some? && r.value.nsects > 0 ==> U32Value(t, 0, big) == LC_SEGMENT_64
  {
    if |t| < LOAD_COMMAND_SIZE then None
    else
      var size := U32Value(t, CMDSIZE_OFFSET, big);
      if U32Value(t, 0, big) != LC_SEGMENT_64 then
        if |t| < size then None else Some(Step(size, 0))
      else if |t| < size || size < SEGMENT_COMMAND_64_SIZE then None
      else
        var nsects := U32Value(t, NSECTS_OFFSET, big);
        if size - SEGMENT_COMMAND_64_SIZE < nsects * SECTION_64_SIZE then None
        else Some(Step(size, nsects))
  }

  /**
   * The loop accepts a command exactly when its header is there and its
   * cmdsize fits in what is left, and, for LC_SEGMENT_64, the cmdsize also
   * holds the segment_command_64 and its nsects records; it patches records
   * only of LC_SEGMENT_64 commands.
   */
  lemma ReadCommandAccepts(t: seq<byte>, big: bool)
    ensures ReadCommand(t, big).Some? <==>
      && LOAD_COMMAND_SIZE <= |t| && U32Value(t, CMDSIZE_OFFSET, big) <= |t|
      && (U32Value(t, 0, big) == LC_SEGMENT_64 ==>
            && SEGMENT_COMMAND_64_SIZE <= U32Value(t, CMDSIZE_OFFSET, big)
            && SEGMENT_COMMAND_64_SIZE + U32Value(t, NSECTS_OFFSET, big) * SECTION_64_SIZE <= U32Value(t, CMDSIZE_OFFSET, big))
    ensures ReadCommand(t, big).Some? ==>
      ReadCommand(t, big).value.nsects == if U32Value(t, 0, big) == LC_SEGMENT_64 then U32Value(t, NSECTS_OFFSET, big) else 0
  {
  }

  /** The decoder looks at the length and the first 72 bytes only. */
  lemma ReadCommandReadsHead(t: seq<byte>, t': seq<byte>, big: bool)
    requires |t| == |t'| && Head(t) == Head(t')
    ensures ReadCommand(t, big) == ReadCommand(t', big)
  {
    forall i | 0 <= i < |t| && i < SEGMENT_COMMAND_64_SIZE ensures t[i] == t'[i] {
      assert t[i] == Head(t)[i] && t'[i] == Head(t')[i];
    }
    if LOAD_COMMAND_SIZE <= |t| {
      assert U32Value(t, 0, big) == U32Value(t', 0, big);
      assert U32Value(t, CMDSIZE_OFFSET, big) == U32Value(t', CMDSIZE_OFFSET, big);
      if NSECTS_OFFSET + 4 <= |t| {
        assert U32Value(t, NSECTS_OFFSET, big) == U32Value(t', NSECTS_OFFSET, big);
      }
    }
  }

  /** The decoder of the loop, for the object's byte order. */
  function CommandReader(big: bool): Reader {
    t => ReadCommand(t, big)
  }

  lemma ReaderApply(big: bool, t: seq<byte>)
    ensures CommandReader(big)(t) == ReadCommand(t, big)
  {
  }

  /** The section patch of the loop, for the object's byte order. */
  function SectionPatcher(big: bool): Patcher {
    (u: seq<byte>, off: nat) => if off + SECTION_64_SIZE <= |u| then PatchSection(u, off, big) else u
  }

  lemma PatcherApply(big: bool, u: seq<byte>, off: nat)
    ensures SectionPatcher(big)(u, off) == if off + SECTION_64_SIZE <= |u| then PatchSection(u, off, big) else u
  {
  }

  /** The real decoder and patch keep to their records. */
  lemma LoopPartsOk(big: bool)
    ensures ReaderOk(CommandReader(big)) && ReadsHead(CommandReader(big))
    ensures PatcherOk(SectionPatcher(big))
  {
    forall t: seq<byte>, t': seq<byte> | SameHead(t, t')
      ensures CommandReader(big)(t) == CommandReader(big)(t')
    {
      ReadCommandReadsHead(t, t', big);
    }
  }

  // ---------------------------------------------------------------------------
  // The patch

  /**
   * patch_mach_o_64 on the object `s` in the byte order `big`: the buffer it
   * leaves, or None where it panics (`s` shorter than a mach_header_64, or a
   * load command the loop rejects).
   */
  function PatchedMachO64(s: seq<byte>, big: bool): Option<seq<byte>> {
    if |s| < MACH_HEADER_64_SIZE then None
    else
      LoopPartsOk(big);
      PatchFrom(CommandReader(big), SectionPatcher(big), s, MACH_HEADER_64_SIZE, U32Value(s, NCMDS_OFFSET, big))
  }

  /** The offsets of all section records of the object's LC_SEGMENT_64 commands, in order. */
  function Records(s: seq<byte>, big: bool): Option<seq<nat>>
    requires MACH_HEADER_64_SIZE <= |s|
  {
    LoopPartsOk(big);
    Walk(CommandReader(big), s, MACH_HEADER_64_SIZE, U32Value(s, NCMDS_OFFSET, big))
  }

  /** The rest of the command loop from the cursor `pos` with `left` commands to go. */
  function PatchedFrom(u: seq<byte>, pos: nat, left: nat, big: bool): Option<seq<byte>>
    requires pos <= |u|
  {
    LoopPartsOk(big);
    PatchFrom(CommandReader(big), SectionPatcher(big), u, pos, left)
  }

  /**
   * One pass of the command loop as PatchCommand makes it: the buffer `w`
   * and cursor `next` it leaves carry on the loop.
   */
  lemma PassAccepted(u: seq<byte>, w: seq<byte>, pos: nat, left: nat, big: bool, next: nat)
    requires pos <= |u| && left > 0 && ReadCommand(u[pos..], big).Some?
    requires next == pos + ReadCommand(u[pos..], big).value.size
    requires w == PatchRun(SectionPatcher(big), u, pos + SEGMENT_COMMAND_64_SIZE, ReadCommand(u[pos..], big).value.nsects)
    ensures next <= |w| && PatchedFrom(u, pos, left, big) == PatchedFrom(w, next, left - 1, big)
  {
    LoopPartsOk(big);
    ReaderApply(big, u[pos..]);
    PatchFromAccepted(CommandReader(big), SectionPatcher(big), u, pos, left, ReadCommand(u[pos..], big).value, w, next);
  }

  /** A command PatchCommand rejects ends the loop in a panic. */
  lemma PassRejected(u: seq<byte>, pos: nat, left: nat, big: bool)
    requires pos <= |u| && left > 0 && ReadCommand(u[pos..], big).None?
    ensures PatchedFrom(u, pos, left, big).None?
  {
    LoopPartsOk(big);
    ReaderApply(big, u[pos..]);
    PatchFromStops(CommandReader(big), SectionPatcher(big), u, pos, left);
  }

  /** Patch one section record in place. */
  method PatchSectionAt(buf: array<byte>, off: nat, big: bool)
    requires off + SECTION_64_SIZE <= buf.Length
    modifies buf
    ensures buf[..] == PatchSection(old(buf[..]), off, big)
  {
    var flags := ReadU32(buf, off + FLAGS_OFFSET, big);
    var h := Section64(buf[off..off + 16], buf[off + SEGNAME_OFFSET..off + SEGNAME_OFFSET + 16], flags);
    assert h == SectionAt(buf[..], off, big);
    if ShouldNotDeadStrip(h) {
      MarkNoDeadStripIsBitwiseOr(flags);
      WriteU32(buf, off + FLAGS_OFFSET, MarkNoDeadStrip(flags), big);
    }
  }

  /** The section loop of one LC_SEGMENT_64 command: its `nsects` records from `first` on, in order. */
  method PatchSections(buf: array<byte>, first: nat, nsects: nat, big: bool)
    requires first + nsects * SECTION_64_SIZE <= buf.Length
    modifies buf
    ensures buf[..] == PatchRun(SectionPatcher(big), old(buf[..]), first, nsects)
  {
    var i := 0;
    while i < nsects
      invariant i <= nsects
      invariant buf[..] == PatchRun(SectionPatcher(big), old(buf[..]), first, i)
    {
      assert (i + 1) * SECTION_64_SIZE <= nsects * SECTION_64_SIZE;
      PatchSectionAt(buf, first + i * SECTION_64_SIZE, big);
      i := i + 1;
    }
  }

  /** Decode the load command at the cursor `pos`. */
  method ReadCommandAt(buf: array<byte>, pos: nat, big: bool) returns (r: Option<Step>)
    requires pos <= buf.Length
    ensures r == ReadCommand(buf[pos..], big)
  {
    if buf.Length - pos < LOAD_COMMAND_SIZE {
      return None;
    }
    var cmd := ReadU32(buf, pos, big);
    var size := ReadU32(buf, pos + CMDSIZE_OFFSET, big);
    U32ValueSuffix(buf[..], pos, 0, big);
    U32ValueSuffix(buf[..], pos, CMDSIZE_OFFSET, big);
    assert buf[..][pos..] == buf[pos..];
    if cmd != LC_SEGMENT_64 {
      r := if buf.Length - pos < size then None else Some(Step(size, 0));
    } else if buf.Length - pos < size || size < SEGMENT_COMMAND_64_SIZE {
      r := None;
    } else {
      var nsects := ReadU32(buf, pos + NSECTS_OFFSET, big);
      U32ValueSuffix(buf[..], pos, NSECTS_OFFSET, big);
      r := if size - SEGMENT_COMMAND_64_SIZE < nsects * SECTION_64_SIZE then None else Some(Step(size, nsects));
    }
  }

  /**
   * One pass of the command loop at the cursor `pos`: decode the command and,
   * for LC_SEGMENT_64, patch its records; `ok` is false where the source
   * panics, and `next` is the cursor after the command.
   */
  method PatchCommand(buf: array<byte>, pos: nat, big: bool) returns (ok: bool, next: nat)
    requires pos <= buf.Length
    modifies buf
    ensures ok == ReadCommand(old(buf[pos..]), big).Some?
    ensures next <= buf.Length
    ensures ok ==> var st := ReadCommand(old(buf[pos..]), big).value;
      && next == pos + st.size
      && buf[..] == PatchRun(SectionPatcher(big), old(buf[..]), pos + SEGMENT_COMMAND_64_SIZE, st.nsects)
  {
    LoopPartsOk(big);
    assert buf[..][pos..] == buf[pos..];
    var cmd := ReadCommandAt(buf, pos, big);
    if cmd.None? {
      return false, pos;
    }
    StepInside(CommandReader(big), buf[..], pos);
    if cmd.value.nsects > 0 {
      PatchSections(buf, pos + SEGMENT_COMMAND_64_SIZE, cmd.value.nsects, big);
    }
    ok, next := true, pos + cmd.value.size;
  }

  /**
   * patch_mach_o_64: patch the object in `buf` in place; `ok` is false where
   * the source panics, and then the buffer is not used any further.
   */
  method PatchMachO64(buf: array<byte>, big: bool) returns (ok: bool)
    modifies buf
    ensures ok == PatchedMachO64(old(buf[..]), big).Some?
    ensures ok ==> buf[..] == PatchedMachO64(old(buf[..]), big).value
  {
    if buf.Length < MACH_HEADER_64_SIZE {
      return false;
    }
    var ncmds := ReadU32(buf, NCMDS_OFFSET, big);
    ghost var result := PatchedMachO64(old(buf[..]), big);
    var pos: nat := MACH_HEADER_64_SIZE;
    var i: nat := 0;
    ok := true;
    while i < ncmds && ok
      invariant i <= ncmds && pos <= buf.Length
      invariant ok ==> result == PatchedFrom(buf[..], pos, ncmds - i, big)
      invariant !ok ==> result.None?
    {
      ghost var u := buf[..];
      var next;
      ok, next := PatchCommand(buf, pos, big);
      if ok {
        PassAccepted(u, buf[..], pos, ncmds - i, big, next);
      } else {
        PassRejected(u, pos, ncmds - i, big);
      }
      pos, i := next, i + 1;
    }
  }

  // ---------------------------------------------------------------------------
  // Properties of the patch

  /** The load commands the loop gets through, by offset: at most ncmds of them. */
  function Visited(s: seq<byte>, big: bool): seq<nat>
    requires MACH_HEADER_64_SIZE <= |s|
  {
    LoopPartsOk(big);
    Cursors(CommandReader(big), s, MACH_HEADER_64_SIZE, U32Value(s, NCMDS_OFFSET, big))
  }

  /**
   * The patch completes exactly when all ncmds load commands decode, and it
   * then patches every section record of the LC_SEGMENT_64 commands, in order.
   */
  lemma PatchIsPatchOfRecords(s: seq<byte>, big: bool)
    ensures PatchedMachO64(s, big).Some? <==> MACH_HEADER_64_SIZE <= |s| && Records(s, big).Some?
    ensures PatchedMachO64(s, big).Some? ==>
      PatchedMachO64(s, big).value == PatchEach(SectionPatcher(big), s, Records(s, big).value)
  {
    if MACH_HEADER_64_SIZE <= |s| {
      LoopPartsOk(big);
      var n := U32Value(s, NCMDS_OFFSET, big);
      PatchFromTwoPhase(CommandReader(big), SectionPatcher(big), s, MACH_HEADER_64_SIZE, n);
      PatchFromFails(CommandReader(big), SectionPatcher(big), s, MACH_HEADER_64_SIZE, n);
    }
  }

  /**
   * The loop runs over exactly ncmds load commands when it completes: the
   * first right after the mach_header_64, each next one cmdsize bytes after
   * the one before it.
   */
  lemma PatchVisitsEveryCommand(s: seq<byte>, big: bool)
    requires MACH_HEADER_64_SIZE <= |s|
    ensures var c := Visited(s, big);
      && (PatchedMachO64(s, big).Some? <==> |c| == U32Value(s, NCMDS_OFFSET, big))
      && (|c| > 0 ==> c[0] == MACH_HEADER_64_SIZE)
      && forall k :: 0 <= k < |c| - 1 ==>
           c[k] + LOAD_COMMAND_SIZE <= |s| && c[k + 1] == c[k] + U32Value(s, c[k] + CMDSIZE_OFFSET, big)
  {
    LoopPartsOk(big);
    var n := U32Value(s, NCMDS_OFFSET, big);
    PatchIsPatchOfRecords(s, big);
    WalkVisitsEveryCommand(CommandReader(big), s, MACH_HEADER_64_SIZE, n);
    CursorsChained(CommandReader(big), s, MACH_HEADER_64_SIZE, n);
    var c := Visited(s, big);
    forall k | 0 <= k < |c| - 1
      ensures c[k] + LOAD_COMMAND_SIZE <= |s| && c[k + 1] == c[k] + U32Value(s, c[k] + CMDSIZE_OFFSET, big)
    {
      ReaderApply(big, s[c[k]..]);
      U32ValueSuffix(s, c[k], CMDSIZE_OFFSET, big);
    }
  }

  /** Byte `j` lies in the flags word of one of the section records at `offs`. */
  predicate InFlags(offs: seq<nat>, j: nat)
    decreases |offs|
  {
    offs != [] && (offs[0] + FLAGS_OFFSET <= j < offs[0] + FLAGS_OFFSET + 4 || InFlags(offs[1..], j))
  }

  /** A flags word lies inside its record. */
  lemma {:induction false} InFlagsInRecords(offs: seq<nat>, j: nat)
    ensures InFlags(offs, j) ==> InRecords(offs, j)
    decreases |offs|
  {
    if offs != [] {
      InFlagsInRecords(offs[1..], j);
    }
  }

  /** No flags word of a spaced run starting from `lo` on lies before `lo`. */
  lemma {:induction false} SpacedNoFlagsBelow(offs: seq<nat>, lo: nat, hi: nat, j: nat)
    requires Spaced(offs, lo, hi) && j < lo
    ensures !InFlags(offs, j)
    decreases |offs|
  {
    if offs != [] {
      SpacedNoFlagsBelow(offs[1..], offs[0] + SECTION_64_SIZE, hi, j);
    }
  }

  /** Patching records changes only their flags words, and not the length. */
  lemma {:induction false} PatchEachFlagsOnly(u: seq<byte>, offs: seq<nat>, j: nat, big: bool)
    requires j < |u| && !InFlags(offs, j)
    ensures |PatchEach(SectionPatcher(big), u, offs)| == |u| && PatchEach(SectionPatcher(big), u, offs)[j] == u[j]
    decreases |offs|
  {
    if offs != [] {
      PatcherApply(big, u, offs[0]);
      PatchEachFlagsOnly(SectionPatcher(big)(u, offs[0]), offs[1..], j, big);
    }
  }

  /** Patching records keeps the length. */
  lemma {:induction false} PatchEachLength(u: seq<byte>, offs: seq<nat>, big: bool)
    ensures |PatchEach(SectionPatcher(big), u, offs)| == |u|
    decreases |offs|
  {
    if offs != [] {
      PatcherApply(big, u, offs[0]);
      PatchEachLength(SectionPatcher(big)(u, offs[0]), offs[1..], big);
    }
  }

  /** Patching records changes nothing outside their flags words. */
  lemma PatchEachOutsideFlags(u: seq<byte>, offs: seq<nat>, big: bool)
    ensures var r := PatchEach(SectionPatcher(big), u, offs);
      |r| == |u| && forall j :: 0 <= j < |u| && !InFlags(offs, j) ==> r[j] == u[j]
  {
    PatchEachLength(u, offs, big);
    forall j | 0 <= j < |u| && !InFlags(offs, j) ensures PatchEach(SectionPatcher(big), u, offs)[j] == u[j] {
      PatchEachFlagsOnly(u, offs, j, big);
    }
  }

  /**
   * The patch changes nothing but the flags words of the section records of
   * the LC_SEGMENT_64 commands, and keeps the length.
   */
  lemma PatchChangesOnlyFlags(s: seq<byte>, big: bool)
    requires PatchedMachO64(s, big).Some?
    ensures MACH_HEADER_64_SIZE <= |s| && Records(s, big).Some?
    ensures var r := PatchedMachO64(s, big).value;
      && |r| == |s|
      && forall j :: 0 <= j < |s| && !InFlags(Records(s, big).value, j) ==> r[j] == s[j]
  {
    PatchIsPatchOfRecords(s, big);
    PatchEachOutsideFlags(s, Records(s, big).value, big);
  }

  /** Each record of a spaced run ends up with its names and the patched flags. */
  lemma {:induction false} PatchEachRecord(u: seq<byte>, offs: seq<nat>, lo: nat, i: nat, big: bool)
    requires Spaced(offs, lo, |u|) && i < |offs|
    ensures offs[i] + SECTION_64_SIZE <= |u| && |PatchEach(SectionPatcher(big), u, offs)| == |u|
    ensures var h := SectionAt(u, offs[i], big);
      SectionAt(PatchEach(SectionPatcher(big), u, offs), offs[i], big) == h.(flags := PatchedFlags(h))
    decreases i
  {
    SpacedStart(offs, lo, |u|);
    var rest := offs[1..];
    PatcherApply(big, u, offs[0]);
    var v := PatchSection(u, offs[0], big);
    var r := PatchEach(SectionPatcher(big), v, rest);
    PatchEachLength(v, rest, big);
    if i == 0 {
      PatchSectionResult(u, offs[0], big);
      forall j | offs[0] <= j < offs[0] + SECTION_64_SIZE ensures r[j] == v[j] {
        SpacedNoFlagsBelow(rest, offs[0] + SECTION_64_SIZE, |u|, j);
        PatchEachFlagsOnly(v, rest, j, big);
      }
      SectionAtSame(r, v, offs[0], big);
    } else {
      PatchEachRecord(v, rest, offs[0] + SECTION_64_SIZE, i - 1, big);
      assert rest[i - 1] == offs[i];
      SpacedAt(offs, lo, |u|, 0);
      SectionAtSame(v, u, offs[i], big);
    }
  }

  /**
   * Every section record of the LC_SEGMENT_64 commands ends up with its
   * names unchanged and its flags patched: S_ATTR_NO_DEAD_STRIP ORed in
   * exactly when ShouldNotDeadStrip holds of the record as it was.
   */
  lemma EachSectionPatched(s: seq<byte>, big: bool, i: nat)
    requires MACH_HEADER_64_SIZE <= |s| && Records(s, big).Some? && i < |Records(s, big).value|
    ensures PatchedMachO64(s, big).Some? && |PatchedMachO64(s, big).value| == |s|
    ensures Records(s, big).value[i] + SECTION_64_SIZE <= |s|
    ensures var off := Records(s, big).value[i]; var h := SectionAt(s, off, big);
      SectionAt(PatchedMachO64(s, big).value, off, big) == h.(flags := PatchedFlags(h))
  {
    LoopPartsOk(big);
    PatchIsPatchOfRecords(s, big);
    WalkSpaced(CommandReader(big), s, MACH_HEADER_64_SIZE, U32Value(s, NCMDS_OFFSET, big));
    PatchEachRecord(s, Records(s, big).value, MACH_HEADER_64_SIZE, i, big);
  }

  /**
   * The patch clears no bit of a flags word: the 28 bits below
   * S_ATTR_NO_DEAD_STRIP and the 3 above it stay as they were, and a set
   * S_ATTR_NO_DEAD_STRIP stays set.
   */
  lemma PatchedFlagsKeepBits(h: Section64)
    requires h.flags < 0x1_0000_0000
    ensures PatchedFlags(h) < 0x1_0000_0000
    ensures PatchedFlags(h) % S_ATTR_NO_DEAD_STRIP == h.flags % S_ATTR_NO_DEAD_STRIP
    ensures PatchedFlags(h) / (2 * S_ATTR_NO_DEAD_STRIP) == h.flags / (2 * S_ATTR_NO_DEAD_STRIP)
    ensures IsNoDeadStrip(h.flags) ==> IsNoDeadStrip(PatchedFlags(h))
  {
    MarkNoDeadStripIsBitwiseOr(h.flags);
  }

  /** The patch leaves the mach_header_64 as it was. */
  lemma PatchKeepsHeader(s: seq<byte>, big: bool)
    requires PatchedMachO64(s, big).Some?
    ensures var r := PatchedMachO64(s, big).value;
      && MACH_HEADER_64_SIZE <= |s| == |r|
      && (forall j :: 0 <= j < MACH_HEADER_64_SIZE ==> r[j] == s[j])
      && U32Value(r, NCMDS_OFFSET, big) == U32Value(s, NCMDS_OFFSET, big)
  {
    LoopPartsOk(big);
    PatchChangesOnlyFlags(s, big);
    var r := PatchedMachO64(s, big).value;
    WalkSpaced(CommandReader(big), s, MACH_HEADER_64_SIZE, U32Value(s, NCMDS_OFFSET, big));
    forall j | 0 <= j < MACH_HEADER_64_SIZE ensures r[j] == s[j] {
      SpacedNoFlagsBelow(Records(s, big).value, MACH_HEADER_64_SIZE, |s|, j);
    }
  }

  /** The patch changes no byte outside the records the walk finds. */
  lemma PatchKeepsOutsideRecords(s: seq<byte>, big: bool)
    requires PatchedMachO64(s, big).Some?
    ensures MACH_HEADER_64_SIZE <= |s| && Records(s, big).Some?
    ensures Outside(s, PatchedMachO64(s, big).value, MACH_HEADER_64_SIZE, Records(s, big).value)
  {
    PatchChangesOnlyFlags(s, big);
    var offs := Records(s, big).value;
    var r := PatchedMachO64(s, big).value;
    forall j {:trigger InRecords(offs, j)} | MACH_HEADER_64_SIZE <= j < |s| && j < |r| && !InRecords(offs, j)
      ensures s[j] == r[j]
    {
      InFlagsInRecords(offs, j);
    }
  }

  /** The patched object has the same load commands and the same records. */
  lemma PatchKeepsRecords(s: seq<byte>, big: bool)
    requires PatchedMachO64(s, big).Some?
    ensures var r := PatchedMachO64(s, big).value;
      && MACH_HEADER_64_SIZE <= |s| == |r| && Records(s, big).Some?
      && Records(r, big) == Records(s, big)
  {
    LoopPartsOk(big);
    PatchKeepsHeader(s, big);
    PatchKeepsOutsideRecords(s, big);
    var r := PatchedMachO64(s, big).value;
    var n := U32Value(s, NCMDS_OFFSET, big);
    WalkIgnoresRecords(CommandReader(big), s, r, MACH_HEADER_64_SIZE, n, Records(s, big).value);
  }

  /** A patched record is left as it is by a second patch. */
  lemma PatchedRecordFixed(s: seq<byte>, big: bool, i: nat)
    requires MACH_HEADER_64_SIZE <= |s| && Records(s, big).Some? && i < |Records(s, big).value|
    ensures PatchedMachO64(s, big).Some?
    ensures SectionPatcher(big)(PatchedMachO64(s, big).value, Records(s, big).value[i]) == PatchedMachO64(s, big).value
  {
    EachSectionPatched(s, big, i);
    var r := PatchedMachO64(s, big).value;
    var off := Records(s, big).value[i];
    PatchedFlagsIdempotent(SectionAt(s, off, big));
    PatchIsPatchOfRecords(s, big);
    PatchEachLength(s, Records(s, big).value, big);
    PatchSectionFixed(r, off, big);
    PatcherApply(big, r, off);
  }

  /** Patching an object twice gives the same object as patching it once. */
  lemma PatchIdempotent(s: seq<byte>, big: bool)
    requires PatchedMachO64(s, big).Some?
    ensures PatchedMachO64(PatchedMachO64(s, big).value, big) == PatchedMachO64(s, big)
  {
    var r := PatchedMachO64(s, big).value;
    PatchKeepsRecords(s, big);
    var offs := Records(s, big).value;
    PatchIsPatchOfRecords(r, big);
    forall i | 0 <= i < |offs| ensures SectionPatcher(big)(r, offs[i]) == r {
      PatchedRecordFixed(s, big, i);
    }
    PatchEachFixed(SectionPatcher(big), r, offs);
  }
}
