/**
 * The two passes the build script of vrc-get-litedb makes over a static
 * library (a Unix `ar` archive) before linking it: on macOS every `.o`
 * member is a 64-bit Mach-O object that gets patched (MachO), and on Linux
 * musl every member whose name starts with "libunwind" is dropped. Both copy
 * the members they keep to a new archive in the order they read them.
 */
module Archive {
  import opened Wrappers
  import opened Words
  import opened MachO

  /**
   * The header of an archive member as the `ar` reader gives it; the copy
   * writes it out again unchanged. Only the identifier is looked at.
   */
  datatype Header = Header(identifier: seq<byte>, mtime: nat, uid: nat, gid: nat, mode: nat)

  /** A member of the archive: its header and its contents. */
  datatype Entry = Entry(header: Header, data: seq<byte>)

  /** ".o" */
  const DOT_O: seq<byte> := [0x2e, 0x6f]
  /** "libunwind" */
  const LIBUNWIND: seq<byte> := [0x6c, 0x69, 0x62, 0x75, 0x6e, 0x77, 0x69, 0x6e, 0x64]

  predicate StartsWith(s: seq<byte>, prefix: seq<byte>) {
    |prefix| <= |s| && s[..|prefix|] == prefix
  }

  predicate EndsWith(s: seq<byte>, suffix: seq<byte>) {
    |suffix| <= |s| && s[|s| - |suffix|..] == suffix
  }

  // ---------------------------------------------------------------------------
  // Patching the Mach-O members

  /**
   * The byte order of a Mach-O object, told by its first four bytes read
   * big-endian: MH_MAGIC_64 means big-endian, MH_CIGAM_64 (the same magic
   * with its bytes swapped) little-endian. None where the source panics: fewer
   * than four bytes, or any other magic.
   */
  function ByteOrder(data: seq<byte>): Option<bool> {
    if |data| < 4 then None
    else if U32Value(data, 0, true) == MH_MAGIC_64 then Some(true)
    else if U32Value(data, 0, true) == MH_CIGAM_64 then Some(false)
    else None
  }

  /** The four bytes of the magic, in file order, for the two byte orders. */
  lemma MagicBytes(data: seq<byte>)
    requires 4 <= |data|
    ensures U32Value(data, 0, true) == MH_MAGIC_64 <==> data[..4] == [0xfe, 0xed, 0xfa, 0xcf]
    ensures U32Value(data, 0, true) == MH_CIGAM_64 <==> data[..4] == [0xcf, 0xfa, 0xed, 0xfe]
    ensures U32Value(data, 0, false) == MH_MAGIC_64 <==> data[..4] == [0xcf, 0xfa, 0xed, 0xfe]
  {
    BytesOfValue(data[0], data[1], data[2], data[3]);
    BytesOfValue(data[3], data[2], data[1], data[0]);
    assert BytesOf(MH_MAGIC_64) == [0xfe, 0xed, 0xfa, 0xcf];
    assert BytesOf(MH_CIGAM_64) == [0xcf, 0xfa, 0xed, 0xfe];
    assert data[..4] == [data[0], data[1], data[2], data[3]];
  }

  /**
   * The byte order chosen is exactly the one in which the header's magic
   * reads as MH_MAGIC_64.
   */
  lemma ByteOrderReadsMagic(data: seq<byte>, big: bool)
    ensures ByteOrder(data) == Some(big) <==> 4 <= |data| && U32Value(data, 0, big) == MH_MAGIC_64
  {
    if 4 <= |data| {
      MagicBytes(data);
    }
  }

  /**
   * One member as the macOS pass copies it: a `.o` member is patched in the
   * byte order its magic tells, any other member is copied as it is; None
   * where the source panics.
   */
  function PatchEntry(e: Entry): Option<Entry> {
    if !EndsWith(e.header.identifier, DOT_O) then Some(e)
    else match ByteOrder(e.data)
      case None => None
      case Some(big) =>
        match PatchedMachO64(e.data, big)
        case None => None
        case Some(data) => Some(Entry(e.header, data))
  }

  /**
   * The macOS pass over the members `es`, in order: the members it writes,
   * or None where it panics on one of them.
   */
  function PatchArchive(es: seq<Entry>): Option<seq<Entry>>
    decreases |es|
  {
    if es == [] then Some([])
    else match PatchArchive(es[..|es| - 1])
      case None => None
      case Some(out) =>
        match PatchEntry(es[|es| - 1])
        case None => None
        case Some(e) => Some(out + [e])
  }

  /** Patch one member: copy its contents into a buffer and patch that in place. */
  method PatchMember(e: Entry) returns (r: Option<Entry>)
    ensures r == PatchEntry(e)
  {
    if !EndsWith(e.header.identifier, DOT_O) {
      return Some(e);
    }
    var buf := new byte[|e.data|](j requires 0 <= j < |e.data| => e.data[j]);
    assert buf[..] == e.data;
    if buf.Length < 4 {
      return None;
    }
    var magic := ReadU32(buf, 0, true);
    var big: bool;
    if magic == MH_MAGIC_64 {
      big := true;
    } else if magic == MH_CIGAM_64 {
      big := false;
    } else {
      return None;
    }
    var ok := PatchMachO64(buf, big);
    if !ok {
      return None;
    }
    return Some(Entry(e.header, buf[..]));
  }

  /** A pass that panicked on a prefix of the members panics on all of them. */
  lemma {:induction false} PatchArchivePrefixFails(es: seq<Entry>, k: nat)
    requires k <= |es| && PatchArchive(es[..k]).None?
    ensures PatchArchive(es).None?
    decreases |es| - k
  {
    if k < |es| {
      assert es[..k + 1][..k] == es[..k];
      PatchArchivePrefixFails(es, k + 1);
    } else {
      assert es[..k] == es;
    }
  }

  /**
   * patch_mach_o_from_archive: read the members in order and write each one,
   * patched where it is a `.o` object, to the new archive; `ok` is false
   * where the source panics.
   */
  method PatchMachOFromArchive(entries: seq<Entry>) returns (ok: bool, out: seq<Entry>)
    ensures ok == PatchArchive(entries).Some?
    ensures ok ==> out == PatchArchive(entries).value
  {
    out := [];
    for i := 0 to |entries|
      invariant PatchArchive(entries[..i]) == Some(out)
    {
      var e := PatchMember(entries[i]);
      assert entries[..i + 1][..i] == entries[..i];
      if e.None? {
        PatchArchivePrefixFails(entries, i + 1);
        return false, out;
      }
      out := out + [e.value];
    }
    assert entries[..|entries|] == entries;
    ok := true;
  }

  /**
   * The pass keeps the members, their order and their headers: a member that
   * is not a `.o` object is copied as it is, and a `.o` object is patched in
   * the byte order in which its magic reads MH_MAGIC_64.
   */
  lemma {:induction false} PatchArchiveKeepsMembers(es: seq<Entry>)
    requires PatchArchive(es).Some?
    ensures var out := PatchArchive(es).value;
      && |out| == |es|
      && forall i :: 0 <= i < |es| ==> PatchEntry(es[i]) == Some(out[i])
    decreases |es|
  {
    if es != [] {
      var init := es[..|es| - 1];
      PatchArchiveKeepsMembers(init);
      var out := PatchArchive(es).value;
      forall i | 0 <= i < |es| ensures PatchEntry(es[i]) == Some(out[i]) {
        if i < |init| {
          assert es[i] == init[i];
        }
      }
    }
  }

  /** What happens to one member: its header stays, and only a `.o` object's contents change. */
  lemma PatchEntryKeeps(e: Entry)
    requires PatchEntry(e).Some?
    ensures PatchEntry(e).value.header == e.header
    ensures !EndsWith(e.header.identifier, DOT_O) ==> PatchEntry(e).value == e
    ensures EndsWith(e.header.identifier, DOT_O) ==>
      exists big :: 4 <= |e.data| && U32Value(e.data, 0, big) == MH_MAGIC_64
        && PatchedMachO64(e.data, big) == Some(PatchEntry(e).value.data)
  {
    if EndsWith(e.header.identifier, DOT_O) {
      var big := ByteOrder(e.data).value;
      ByteOrderReadsMagic(e.data, big);
    }
  }

  /** The pass panics exactly when one of the members cannot be patched. */
  lemma {:induction false} PatchArchiveFails(es: seq<Entry>)
    ensures PatchArchive(es).None? <==> exists i :: 0 <= i < |es| && PatchEntry(es[i]).None?
    decreases |es|
  {
    if es != [] {
      var init := es[..|es| - 1];
      PatchArchiveFails(init);
      if PatchArchive(es).None? && PatchArchive(init).None? {
        var i :| 0 <= i < |init| && PatchEntry(init[i]).None?;
        assert es[i] == init[i];
      }
      if exists i :: 0 <= i < |es| && PatchEntry(es[i]).None? {
        var i :| 0 <= i < |es| && PatchEntry(es[i]).None?;
        if i < |init| {
          assert init[i] == es[i];
        }
      }
    }
  }

  /** A patched member comes out the same from a second pass. */
  lemma PatchEntryIdempotent(e: Entry)
    requires PatchEntry(e).Some?
    ensures PatchEntry(PatchEntry(e).value) == PatchEntry(e)
  {
    if EndsWith(e.header.identifier, DOT_O) {
      var big := ByteOrder(e.data).value;
      var data := PatchEntry(e).value.data;
      PatchKeepsHeader(e.data, big);
      assert data[..4] == e.data[..4];
      MagicBytes(e.data);
      MagicBytes(data);
      PatchIdempotent(e.data, big);
    }
  }

  /** Running the macOS pass on its own output changes nothing. */
  lemma {:induction false} PatchArchiveIdempotent(es: seq<Entry>)
    requires PatchArchive(es).Some?
    ensures PatchArchive(PatchArchive(es).value) == PatchArchive(es)
    decreases |es|
  {
    if es != [] {
      var init := es[..|es| - 1];
      var out := PatchArchive(es).value;
      PatchArchiveIdempotent(init);
      PatchEntryIdempotent(es[|es| - 1]);
      assert out[..|out| - 1] == PatchArchive(init).value;
    }
  }

  // ---------------------------------------------------------------------------
  // Dropping libunwind

  /** The members the Linux musl pass keeps, in order: all but those named "libunwind…". */
  function WithoutLibunwind(es: seq<Entry>): (r: seq<Entry>)
    ensures |r| <= |es|
    decreases |es|
  {
    if es == [] then []
    else
      var e := es[|es| - 1];
      WithoutLibunwind(es[..|es| - 1]) + if StartsWith(e.header.identifier, LIBUNWIND) then [] else [e]
  }

  /**
   * remove_libunwind: copy every member whose identifier does not start with
   * "libunwind" to the new archive, in order.
   */
  method RemoveLibunwind(entries: seq<Entry>) returns (out: seq<Entry>)
    ensures out == WithoutLibunwind(entries)
  {
    out := [];
    for i := 0 to |entries|
      invariant out == WithoutLibunwind(entries[..i])
    {
      assert entries[..i + 1][..i] == entries[..i];
      if !StartsWith(entries[i].header.identifier, LIBUNWIND) {
        out := out + [entries[i]];
      }
    }
    assert entries[..|entries|] == entries;
  }

  /** A member is kept exactly when it is in the archive and is not named "libunwind…". */
  lemma {:induction false} WithoutLibunwindMembers(es: seq<Entry>, e: Entry)
    ensures e in WithoutLibunwind(es) <==> e in es && !StartsWith(e.header.identifier, LIBUNWIND)
    decreases |es|
  {
    if es != [] {
      var init := es[..|es| - 1];
      WithoutLibunwindMembers(init, e);
      assert es == init + [es[|es| - 1]];
    }
  }

  /** Dropping works member by member: the kept members stay in their order. */
  lemma {:induction false} WithoutLibunwindConcat(a: seq<Entry>, b: seq<Entry>)
    ensures WithoutLibunwind(a + b) == WithoutLibunwind(a) + WithoutLibunwind(b)
    decreases |b|
  {
    if b == [] {
      assert a + b == a;
    } else {
      var init := b[..|b| - 1];
      var e := b[|b| - 1];
      var kept := if StartsWith(e.header.identifier, LIBUNWIND) then [] else [e];
      WithoutLibunwindConcat(a, init);
      assert (a + b)[..|a + b| - 1] == a + init && (a + b)[|a + b| - 1] == e;
      assert WithoutLibunwind(a + b) == WithoutLibunwind(a) + WithoutLibunwind(init) + kept;
      assert WithoutLibunwind(b) == WithoutLibunwind(init) + kept;
    }
  }

  /** A single member is kept exactly when its name does not start with "libunwind". */
  lemma WithoutLibunwindOne(e: Entry)
    ensures WithoutLibunwind([e]) == if StartsWith(e.header.identifier, LIBUNWIND) then [] else [e]
  {
    assert [e][..0] == [];
  }
}
