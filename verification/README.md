# vrc-get core rules in Dafny

This project models four parts of vrc-get, the open-source VRChat package manager, and proves properties of them:

- **Project resolution** (`vrc-get-vpm`, `unity_project/resolve.rs`).
  - `should_resolve` decides whether a Unity project's installed packages are out of step with its manifest.
  - `resolve_request`, `add_just_dependency` and `resolve_unlocked` work out which packages to look up and what to record in the pending-changes builder.
  - The `AddPackageErr` to `ResolvePackageErr` conversion.
- **Unity installation management** (`vrc-get-vpm`, `environment/unity_management.rs`), modelled as a class over the environment's table of Unity editors and its settings. It covers:
  - adding an installation by reading the editor's `-version` output;
  - picking the installation that best fits a project's Unity version;
  - reconciling the table with the file system and the Unity Hub's list;
  - finding the Unity Hub executable.
- **Mach-O and ar patching** (`vrc-get-litedb/build.rs`).
  - `patch_mach_o_64` walks the load commands of a 64-bit Mach-O object in a byte array. It ORs `S_ATTR_NO_DEAD_STRIP` into the flags of the qualifying section records, in place, with the record layouts of `<mach-o/loader.h>`.
  - `patch_mach_o_from_archive` runs that patch over the `.o` members of an `ar` archive.
  - `remove_libunwind` drops the `libunwind…` members.
- **The backup modal** (`vrc-get-gui`, `lib/backup-project.tsx`). This is an idle / backing-up state machine. The outcome of the awaited backup command decides the one toast shown and the return to idle.

## Layout

| file | module | contents |
|---|---|---|
| `wrappers.dfy` | `Wrappers` | `Option` and `Result` |
| `words.dfy` | `Words` | 32-bit fields of a byte buffer in either byte order |
| `load_commands.dfy` | `LoadCommands` | the load-command walk of `patch_mach_o_64`, for any decoder and section patch that stay inside their records |
| `mach_o.dfy` | `MachO` | the real decoder, `should_not_dead_strip`, the section patch, and `patch_mach_o_64` on an `array` |
| `ar_archive.dfy` | `Archive` | `patch_mach_o_from_archive` and `remove_libunwind` over sequences of members |
| `versions.dfy` | `Versions` | package versions and Unity versions |
| `packages.dfy` | `Packages` | manifests, locked entries, and the project as resolution sees it |
| `pending_changes.dfy` | `PendingChanges` | the pending-changes builder, as the log of the calls made on it |
| `resolve.dfy` | `Resolve` | the resolution rules |
| `text.dfy` | `Text` | UTF-8 decoding (`str::from_utf8`), `str::trim`, and the first field of the editor's output |
| `unity_management.dfy` | `UnityManagement` | the Unity installation table (class `Environment`) |
| `backup_project.dfy` | `BackupProject` | the backup modal (class `BackupModal`) |

Each imperative piece of the source is modelled as a method:

- `should_resolve`;
- the loops of `add_just_dependency`, `resolve_unlocked` and `resolve_request`;
- `find_most_suitable_unity`, `find_unity_hub` and `update_unity_from_unity_hub_and_fs`;
- `patch_mach_o_64` and the archive passes;
- `startBackup`.

Each such method is proved equal to a function that states the same outcome as a value. The lemmas are then proved about those functions.

Where the source panics, the model returns a failure value. This covers `unwrap`, `expect` and `panic!` in `build.rs`, and the unreachable arms of the `From` conversion. The model does not add a precondition for these cases.

The collaborators whose code is not part of this model are function parameters:

- `find_package_by_name`;
- `collect_adding_packages`;
- `UnityVersion::parse` and the Display text of `UnityVersion`;
- the editor process (`Command::output`);
- `is_file`;
- the backup command launcher.

## Model

| member | source | states |
|---|---|---|
| Words.U32Value | vrc-get-litedb/build.rs:186-194 | a 32-bit field read in either byte order is below 2^32 |
| Words.BytesOfValue | vrc-get-litedb/build.rs:200-202 | four bytes are the only big-endian encoding of their value (the byte encoding inverts reading) |
| Words.SetU32At | vrc-get-litedb/build.rs:202 | writing a field keeps the length, changes no byte outside the four bytes, and reads back as the value written |
| Words.SetU32AtSame | vrc-get-litedb/build.rs:200-202 | writing back the value a field already holds leaves the buffer unchanged |
| Words.U32ValueSuffix | vrc-get-litedb/build.rs:187-206 | a field read through the cursor slice is the field at the same absolute offset |
| Words.ReadU32 | vrc-get-litedb/build.rs:186-194 | reading a field of the array gives the field's value |
| Words.WriteU32 | vrc-get-litedb/build.rs:202 | setting a field of the array in place leaves exactly the buffer SetU32At describes |
| MachO.SectionAt | vrc-get-litedb/build.rs:195-197 | a section_64 record has 16-byte sectname and segname fields and a 32-bit flags word |
| MachO.IsZerofillIsBitwiseAnd | vrc-get-litedb/build.rs:210 | the S_ZEROFILL test is the literal bitwise `flags & S_ZEROFILL != 0` |
| MachO.MarkNoDeadStripIsBitwiseOr | vrc-get-litedb/build.rs:200-201 | `flags \| S_ATTR_NO_DEAD_STRIP` stays 32 bits, sets bit 28, keeps every other bit, and is a no-op exactly when bit 28 is already set |
| MachO.DecisionIgnoresOtherBits | vrc-get-litedb/build.rs:209-225 | should_not_dead_strip depends on the flags only through the S_ZEROFILL bit |
| MachO.MarkKeepsZerofillBit | vrc-get-litedb/build.rs:200-210 | ORing the attribute never changes whether a section is zero-fill |
| MachO.PatchedFlagsIdempotent | vrc-get-litedb/build.rs:198-202 | after the patch, the decision is unchanged and a second patch leaves the flags as they are; the attribute ends up set iff the section qualified or already had it |
| MachO.ZerofillTestIsBitwise | vrc-get-litedb/build.rs:209-225 | any type with bit 0 set (0x9) is refused in `__DATA`, an even type (0x12) qualifies there, and in `__TEXT` only `__managedcode` qualifies |
| MachO.PatchSection | vrc-get-litedb/build.rs:198-203 | patching one record keeps the length and changes no byte outside its flags word |
| MachO.SectionAtSame | vrc-get-litedb/build.rs:195-197 | a record is read from its 80 bytes only |
| MachO.PatchSectionResult | vrc-get-litedb/build.rs:198-203 | the patched record keeps its names and carries the flags ORed with S_ATTR_NO_DEAD_STRIP exactly when should_not_dead_strip holds |
| MachO.PatchSectionFixed | vrc-get-litedb/build.rs:198-203 | a record whose flags already are the patched flags is left unchanged |
| MachO.ReadCommand | vrc-get-litedb/build.rs:189-196 | a decoded load command fits in the rest of the buffer, has the cmdsize read from the buffer, and has records only if it is LC_SEGMENT_64 |
| MachO.ReadCommandAccepts | vrc-get-litedb/build.rs:189-196 | the decoder succeeds exactly when the 8-byte load_command and its cmdsize fit in what is left and, for LC_SEGMENT_64, cmdsize holds the 72-byte segment_command_64 and its nsects records; the step then has the command's cmdsize and nsects (0 for other commands) |
| MachO.ReadCommandReadsHead | vrc-get-litedb/build.rs:189-196 | decoding reads only the length and the first 72 bytes at the cursor |
| MachO.LoopPartsOk | vrc-get-litedb/build.rs:188-206 | the real decoder and section patch keep within their records, as the generic walk needs |
| MachO.PassAccepted | vrc-get-litedb/build.rs:189-206 | one accepted command patches its run of records and moves the cursor by cmdsize |
| MachO.PassRejected | vrc-get-litedb/build.rs:189-196 | a command the decoder rejects ends the loop in a panic |
| MachO.PatchSectionAt | vrc-get-litedb/build.rs:197-203 | patching one record of the array in place gives PatchSection of the old contents |
| MachO.PatchSections | vrc-get-litedb/build.rs:195-204 | the section loop patches the `nsects` records after the segment_command_64, in order |
| MachO.ReadCommandAt | vrc-get-litedb/build.rs:189-194 | decoding the command at the cursor in the array agrees with ReadCommand |
| MachO.PatchCommand | vrc-get-litedb/build.rs:189-206 | one loop pass: ok iff the command decodes; it then patches exactly that command's run of records and returns cursor + cmdsize |
| MachO.PatchMachO64 | vrc-get-litedb/build.rs:181-207 | patch_mach_o_64 on the array succeeds iff the functional model does, and leaves exactly the buffer it describes |
| MachO.PatchIsPatchOfRecords | vrc-get-litedb/build.rs:185-207 | the patch succeeds iff the header fits and all ncmds commands decode, and then equals patching every record found by the walk, in order |
| MachO.PatchVisitsEveryCommand | vrc-get-litedb/build.rs:186-206 | when the patch succeeds it visits exactly ncmds commands; the first is right after mach_header_64, and each next one is cmdsize bytes after the one before |
| MachO.PatchEachLength | vrc-get-litedb/build.rs:197-203 | patching records keeps the buffer length |
| MachO.PatchChangesOnlyFlags | vrc-get-litedb/build.rs:191-203 | the patch keeps the length and changes no byte outside the flags words of the LC_SEGMENT_64 section records |
| MachO.EachSectionPatched | vrc-get-litedb/build.rs:191-203 | every section record found keeps its names and ends with the patched flags of the record as it was |
| MachO.PatchedFlagsKeepBits | vrc-get-litedb/build.rs:200-202 | the patch clears no bit of a flags word and keeps an already set attribute |
| MachO.PatchKeepsHeader | vrc-get-litedb/build.rs:185-186 | the mach_header_64 is unchanged |
| MachO.PatchKeepsOutsideRecords | vrc-get-litedb/build.rs:191-206 | no byte outside the section records changes |
| MachO.PatchKeepsRecords | vrc-get-litedb/build.rs:186-206 | the patched object walks to the same load commands and the same records |
| MachO.PatchedRecordFixed | vrc-get-litedb/build.rs:198-202 | a second section patch leaves a patched record unchanged |
| MachO.PatchIdempotent | vrc-get-litedb/build.rs:181-207 | patching an object twice gives the same buffer as patching it once |
| LoadCommands.SectionRun | vrc-get-litedb/build.rs:195-197 | the records of a command are nsects offsets, 80 bytes apart, from just after the segment_command_64 |
| LoadCommands.PatchRunIsPatchEach | vrc-get-litedb/build.rs:197-204 | the section loop equals patching the command's run of record offsets in order |
| LoadCommands.WalkSpaced | vrc-get-litedb/build.rs:188-206 | the records found are increasing, do not overlap, and lie inside the buffer after the cursor |
| LoadCommands.WalkVisitsEveryCommand | vrc-get-litedb/build.rs:188-206 | the walk completes iff it gets through all n commands |
| LoadCommands.CursorsChained | vrc-get-litedb/build.rs:187-206 | the walk starts at the cursor, and each command starts cmdsize bytes after the one before it |
| LoadCommands.PatchFromTwoPhase | vrc-get-litedb/build.rs:188-207 | patching while walking equals walking all commands first and then patching every record found |
| LoadCommands.PatchFromFails | vrc-get-litedb/build.rs:188-207 | the command loop panics exactly when the walk fails |
| LoadCommands.WalkAbove | vrc-get-litedb/build.rs:192-196 | every record lies after the first command's segment_command_64 |
| LoadCommands.WalkIgnoresRecords | vrc-get-litedb/build.rs:188-206 | changing bytes inside the records found leaves the walk unchanged |
| LoadCommands.PatchEachOutside | vrc-get-litedb/build.rs:197-203 | patching records changes no byte outside them |
| LoadCommands.PatchEachFixed | vrc-get-litedb/build.rs:197-203 | patching records that each patch leaves as they are changes nothing |
| Archive.MagicBytes | vrc-get-litedb/build.rs:150-153 | the magic read big-endian is MH_MAGIC_64 iff the file starts `fe ed fa cf`, and MH_CIGAM_64 iff it starts `cf fa ed fe` |
| Archive.ByteOrderReadsMagic | vrc-get-litedb/build.rs:150-157 | the byte order chosen is exactly the one in which the magic reads as MH_MAGIC_64; any other magic is a panic |
| Archive.PatchMember | vrc-get-litedb/build.rs:141-165 | one member: a `.o` member is copied into a buffer, patched in place in its byte order and written with its header; any other member is copied unchanged |
| Archive.PatchMachOFromArchive | vrc-get-litedb/build.rs:139-167 | the pass over the members, in order, succeeds iff the functional model does, and gives its output |
| Archive.PatchArchivePrefixFails | vrc-get-litedb/build.rs:139-167 | a panic on a prefix of the members is a panic on the whole archive |
| Archive.PatchArchiveKeepsMembers | vrc-get-litedb/build.rs:139-166 | the output has one member per input member, in the same order, each being that member passed through the one-member patch |
| Archive.PatchEntryKeeps | vrc-get-litedb/build.rs:141-165 | a member keeps its header, and only a `.o` member's contents change |
| Archive.PatchArchiveFails | vrc-get-litedb/build.rs:139-157 | the pass panics iff some member cannot be patched |
| Archive.PatchEntryIdempotent | vrc-get-litedb/build.rs:141-165 | a patched member is unchanged by a second pass |
| Archive.PatchArchiveIdempotent | vrc-get-litedb/build.rs:139-167 | running the pass on its own output changes nothing |
| Archive.WithoutLibunwind | vrc-get-litedb/build.rs:235-244 | the kept members are no more than the input members |
| Archive.RemoveLibunwind | vrc-get-litedb/build.rs:235-244 | the copying loop gives exactly the input members minus those named `libunwind…`, in order |
| Archive.WithoutLibunwindMembers | vrc-get-litedb/build.rs:237-243 | a member is kept iff it is in the input and its identifier does not start with `libunwind` |
| Archive.WithoutLibunwindConcat | vrc-get-litedb/build.rs:235-244 | dropping works member by member, so order is kept |
| Archive.WithoutLibunwindOne | vrc-get-litedb/build.rs:237-243 | a single member is kept iff its identifier does not start with `libunwind` |
| Resolve.ResolveErrFrom | vrc-get-vpm/src/unity_project/resolve.rs:33-46 | the conversion keeps DependencyNotFound and its name; every other variant is the panic (None) |
| Resolve.FindAll | vrc-get-vpm/src/unity_project/resolve.rs:119-124 | a successful lookup of all requests gives one package per request |
| Resolve.FindAllFound | vrc-get-vpm/src/unity_project/resolve.rs:119-124 | the lookups succeed iff every request finds a package, and then give the found packages in order |
| Resolve.FindAllFirstMissing | vrc-get-vpm/src/unity_project/resolve.rs:120-124 | a failed lookup is DependencyNotFound naming the first request that found nothing |
| Resolve.FindAllExtendFails | vrc-get-vpm/src/unity_project/resolve.rs:119-124 | once a lookup fails, later requests do not change the error |
| Resolve.LockedNamesMembers | vrc-get-vpm/src/unity_project/resolve.rs:59-70 | the names known from locked entries are the locked names and the legacy names of their installed packages |
| Resolve.UnlockedLegacyMembers | vrc-get-vpm/src/unity_project/resolve.rs:72-79 | the unlocked legacy names are the legacy names of the unlocked packages |
| Resolve.UnlockedNamesMembers | vrc-get-vpm/src/unity_project/resolve.rs:88-95 | the unlocked names are the names of the unlocked packages |
| Resolve.ManifestKnownMeets | vrc-get-vpm/src/unity_project/resolve.rs:66-86 | the set used for manifest dependencies holds exactly the names the manifest check accepts |
| Resolve.UnlockedKnownMeets | vrc-get-vpm/src/unity_project/resolve.rs:88-106 | the set used for unlocked dependencies holds exactly the names that check accepts |
| Resolve.ManifestMissing | vrc-get-vpm/src/unity_project/resolve.rs:81-86 | a manifest dependency that is neither locked nor a legacy name forces a resolve |
| Resolve.UnlockedMissing | vrc-get-vpm/src/unity_project/resolve.rs:97-106 | a dependency of an unlocked package that is unknown forces a resolve |
| Resolve.InStep | vrc-get-vpm/src/unity_project/resolve.rs:108-109 | when all three checks pass, no resolve is needed |
| Resolve.CheckLocked | vrc-get-vpm/src/unity_project/resolve.rs:59-70 | the locked loop passes iff every locked entry is installed at its version, and then yields the locked and legacy names |
| Resolve.AddUnlockedLegacy | vrc-get-vpm/src/unity_project/resolve.rs:72-79 | adds exactly the unlocked packages' legacy names |
| Resolve.AddUnlockedNames | vrc-get-vpm/src/unity_project/resolve.rs:88-95 | adds exactly the unlocked packages' names |
| Resolve.CheckUnlockedDependencies | vrc-get-vpm/src/unity_project/resolve.rs:97-106 | passes iff every dependency of every unlocked package is in the known set |
| Resolve.ShouldResolve | vrc-get-vpm/src/unity_project/resolve.rs:55-110 | should_resolve is true iff a locked entry is missing or at another version, or a manifest dependency is unmet by locked and legacy names, or an unlocked package's dependency is unmet by locked, legacy and unlocked names |
| Resolve.UnlockedNameDoesNotMeetManifest | vrc-get-vpm/src/unity_project/resolve.rs:81-95 | an unlocked package's own name does not satisfy a manifest dependency, though it does satisfy unlocked ones |
| Resolve.EmptyProjectIsResolved | vrc-get-vpm/src/unity_project/resolve.rs:108-109 | a project with no locked entries, dependencies or unlocked packages needs no resolve |
| Resolve.LockedRequests | vrc-get-vpm/src/unity_project/resolve.rs:119-121 | one exact-version lookup per locked entry |
| Resolve.AlreadyLocked | vrc-get-vpm/src/unity_project/resolve.rs:126 | one install-already-locked change per package found |
| Resolve.JustRequestsMembers | vrc-get-vpm/src/unity_project/resolve.rs:147-157 | add_just_dependency looks up exactly the dependencies with no locked entry, each with its range and `contains_pre` |
| Resolve.JustRequestsConcat | vrc-get-vpm/src/unity_project/resolve.rs:147-164 | the requests are gathered dependency by dependency, in order |
| Resolve.NamesMembers | vrc-get-vpm/src/unity_project/resolve.rs:162 | install_names holds exactly the names requested |
| Resolve.JustLookupFails | vrc-get-vpm/src/unity_project/resolve.rs:147-161 | the first unlocked dependency whose lookup fails gives DependencyNotFound with its name |
| Resolve.ConflictChanges | vrc-get-vpm/src/unity_project/resolve.rs:193-195 | one conflict change per conflict reported |
| Resolve.RecordCollected | vrc-get-vpm/src/unity_project/resolve.rs:183-195 | records each new package and then each conflict, in order |
| Resolve.CollectAndRecord | vrc-get-vpm/src/unity_project/resolve.rs:170-197 | collect_adding_packages is called with pre-releases allowed iff a package to add is one; its result is recorded, or its error is returned with nothing recorded |
| Resolve.LookUpJustDependencies | vrc-get-vpm/src/unity_project/resolve.rs:144-164 | the loop's lookups agree with FindAll over the unlocked dependencies, and install_names is their names |
| Resolve.AddJustDependency | vrc-get-vpm/src/unity_project/resolve.rs:139-198 | add_just_dependency records exactly JustDependencyChanges, or returns its error and records nothing |
| Resolve.OwnDependencies | vrc-get-vpm/src/unity_project/resolve.rs:228-232 | one candidate per dependency of a package |
| Resolve.DependenciesOfMembers | vrc-get-vpm/src/unity_project/resolve.rs:224-232 | the candidates are the dependencies of the unlocked packages, each tagged with whether its depender is a pre-release |
| Resolve.FilterWantedMembers | vrc-get-vpm/src/unity_project/resolve.rs:234-237 | the filter keeps exactly the candidates that pass all three tests |
| Resolve.NamesInOrderMembers | vrc-get-vpm/src/unity_project/resolve.rs:238-239 | the group names are exactly the candidate names |
| Resolve.NamesInOrderDistinct | vrc-get-vpm/src/unity_project/resolve.rs:238-239 | each name has one group |
| Resolve.EntriesForMembers | vrc-get-vpm/src/unity_project/resolve.rs:238-239 | a group holds exactly the candidates of its name |
| Resolve.RangesOf | vrc-get-vpm/src/unity_project/resolve.rs:262-266 | one range per entry of a group |
| Resolve.UnlockedRequests | vrc-get-vpm/src/unity_project/resolve.rs:259-271 | one lookup per group |
| Resolve.InstallAll | vrc-get-vpm/src/unity_project/resolve.rs:293-295 | one install-to-locked change per new package |
| Resolve.VirtualLockedDependencies | vrc-get-vpm/src/unity_project/resolve.rs:246-257 | the virtual locked map is the manifest's locked entries overridden by the packages being installed |
| Resolve.ResolveUnlocked | vrc-get-vpm/src/unity_project/resolve.rs:200-302 | resolve_unlocked records exactly UnlockedChanges, or returns its error and records nothing |
| Resolve.ResolveRequest | vrc-get-vpm/src/unity_project/resolve.rs:112-137 | resolve_request's builder log is the locked phase, then add_just_dependency, then resolve_unlocked, stopping at the first error |
| Resolve.NewPackageChangesUnrequested | vrc-get-vpm/src/unity_project/resolve.rs:293-295 | with no direct requests, the new packages are only installed to locked |
| Resolve.NewPackageChangesMembers | vrc-get-vpm/src/unity_project/resolve.rs:183-191 | every new package is installed to locked, and is added to the dependencies at its exact version iff its name was directly requested |
| Resolve.ResolveRequestLockedMissing | vrc-get-vpm/src/unity_project/resolve.rs:119-124 | resolution fails with DependencyNotFound for the first locked entry with no exact-version match |
| Resolve.ResolveRequestLockedFirst | vrc-get-vpm/src/unity_project/resolve.rs:119-127 | a successful resolution's changes start with every locked entry, in order, recorded as already locked at the package found for it |
| Resolve.JustDependencyAllLocked | vrc-get-vpm/src/unity_project/resolve.rs:147-168 | when every dependency is locked, nothing is looked up and nothing is recorded |
| Resolve.JustDependencyNotFound | vrc-get-vpm/src/unity_project/resolve.rs:147-161 | a failed lookup makes add_just_dependency fail with DependencyNotFound for an unlocked dependency's name |
| Resolve.CandidatesMembers | vrc-get-vpm/src/unity_project/resolve.rs:224-237 | a candidate is requested iff it is a dependency of an unlocked package that is not locked, not being installed, and not installed unlocked |
| Resolve.UnlockedRequestsGrouped | vrc-get-vpm/src/unity_project/resolve.rs:259-271 | each lookup is for one name, no other lookup has that name, it carries all the ranges asked for it, and allows pre-releases iff some depender is a pre-release |
| Resolve.UnlockedNothingWanted | vrc-get-vpm/src/unity_project/resolve.rs:241-244 | with no candidate left after filtering, resolve_unlocked records nothing |
| Packages.LockedMapKeys | vrc-get-vpm/src/unity_project/resolve.rs:148 | a name has a locked entry iff some entry locks it |
| Packages.UnlockedPackagesMembers | vrc-get-vpm/src/unity_project/resolve.rs:211-214 | the unlocked packages are exactly the manifests found in the unlocked folders |
| PendingChanges.Builder.InstallAlreadyLocked | vrc-get-vpm/src/unity_project/resolve.rs:126 | appends the install-already-locked call to the log |
| PendingChanges.Builder.InstallToLocked | vrc-get-vpm/src/unity_project/resolve.rs:184 | appends the install-to-locked call to the log |
| PendingChanges.Builder.AddToDependencies | vrc-get-vpm/src/unity_project/resolve.rs:186-189 | appends the add-to-dependencies call to the log |
| PendingChanges.Builder.ConflictMultiple | vrc-get-vpm/src/unity_project/resolve.rs:193-195 | appends the conflict call to the log |
| Text.DecodeFirst | vrc-get-vpm/src/environment/unity_management.rs:54-55 | a decoded first character uses one to four bytes of the input |
| Text.EncodeChar | vrc-get-vpm/src/environment/unity_management.rs:54-55 | a character's UTF-8 encoding is one to four bytes |
| Text.DecodeFirstEncodeChar | vrc-get-vpm/src/environment/unity_management.rs:54-55 | a character's encoding decodes back to that character, whatever follows |
| Text.EncodeCharDecodeFirst | vrc-get-vpm/src/environment/unity_management.rs:54-55 | a well-formed sequence is the encoding of its character, so there are no overlong forms |
| Text.DecodeEncode | vrc-get-vpm/src/environment/unity_management.rs:54-55 | decoding an encoded text gives it back |
| Text.EncodeDecode | vrc-get-vpm/src/environment/unity_management.rs:54-55 | bytes that decode are the encoding of what they decode to |
| Text.Leading | vrc-get-vpm/src/environment/unity_management.rs:56 | the longest all-whitespace prefix |
| Text.Trailing | vrc-get-vpm/src/environment/unity_management.rs:56 | the longest all-whitespace suffix |
| Text.TrimSlice | vrc-get-vpm/src/environment/unity_management.rs:56 | trimming keeps a slice and cuts only whitespace, and the result neither starts nor ends with whitespace |
| Text.TrimIdempotent | vrc-get-vpm/src/environment/unity_management.rs:56 | trimming twice is trimming once |
| Text.FirstSpace | vrc-get-vpm/src/environment/unity_management.rs:49-52 | the position of the first space, or the length when there is none |
| Text.FirstField | vrc-get-vpm/src/environment/unity_management.rs:48-54 | the field holds no space, and it is the whole output or ends where the first space is |
| UnityManagement.InstallationVersion | vrc-get-vpm/src/environment/unity_management.rs:210-212 | an installation's version is the parsed version text, or None when there is none or it does not parse |
| UnityManagement.Probe | vrc-get-vpm/src/environment/unity_management.rs:39-63 | a probed version requires a successful start and a successful exit |
| UnityManagement.AddOutcome | vrc-get-vpm/src/environment/unity_management.rs:23-70 | add_unity_installation succeeds only for a path not yet recorded |
| UnityManagement.FirstFieldOfEncoded | vrc-get-vpm/src/environment/unity_management.rs:48-52 | an output of a space-free text, then a space, then anything, has that text as its first field |
| UnityManagement.ProbeEncodedOutput | vrc-get-vpm/src/environment/unity_management.rs:48-63 | such an output gives the parsed trimmed text, or InvalidInput "invalid version: …" |
| UnityManagement.ProbeNotUtf8 | vrc-get-vpm/src/environment/unity_management.rs:54-55 | a first field that is not UTF-8 gives InvalidInput "invalid version" |
| UnityManagement.Tier | vrc-get-vpm/src/environment/unity_management.rs:88-105 | tier 4 iff equal to the expected version, tier 1 or more iff the same major |
| UnityManagement.LastOfTier | vrc-get-vpm/src/environment/unity_management.rs:93-102 | the chosen record has the tier, and no later record has it; None iff no record has it |
| UnityManagement.FirstExact | vrc-get-vpm/src/environment/unity_management.rs:88-91 | the first record with exactly the expected version; None iff there is none |
| UnityManagement.MostSuitableNone | vrc-get-vpm/src/environment/unity_management.rs:87-109 | no installation is chosen iff none has a parseable version with the expected major |
| UnityManagement.MostSuitableBest | vrc-get-vpm/src/environment/unity_management.rs:87-109 | the chosen installation has the best tier present; an exact match is the first one, and a lower tier's pick is the last record of that tier |
| UnityManagement.ExactFound | vrc-get-vpm/src/environment/unity_management.rs:88-91 | the first installation with exactly the expected version is returned at once |
| UnityManagement.DefaultUnityHubPaths | vrc-get-vpm/src/environment/unity_management.rs:115-136 | no default hub path exactly on other platforms |
| UnityManagement.FirstFile | vrc-get-vpm/src/environment/unity_management.rs:147-152 | the first default path that is a file; None iff none is |
| UnityManagement.DedupMembers | vrc-get-vpm/src/environment/unity_management.rs:161 | the hub set holds the same paths as the hub list, each once |
| UnityManagement.ReconciledMembers | vrc-get-vpm/src/environment/unity_management.rs:167-183 | the reconciled table holds exactly the records whose path is a file, with loaded_from_hub set to whether the path is in the hub set |
| UnityManagement.ReconciledIncreasing | vrc-get-vpm/src/environment/unity_management.rs:167-183 | reconciling keeps the record ids increasing |
| UnityManagement.Updated | vrc-get-vpm/src/environment/unity_management.rs:181 | updating a record keeps the table's size |
| UnityManagement.DeletedAbsent | vrc-get-vpm/src/environment/unity_management.rs:171 | deleting an id no record has changes nothing |
| UnityManagement.DeletedOne | vrc-get-vpm/src/environment/unity_management.rs:171 | deleting a record's unique id removes exactly that record |
| UnityManagement.UpdatedOne | vrc-get-vpm/src/environment/unity_management.rs:179-181 | updating a record's unique id replaces exactly that record |
| UnityManagement.ReconcileDrop | vrc-get-vpm/src/environment/unity_management.rs:168-172 | a record whose path is not a file is deleted from the table |
| UnityManagement.ReconcileKeep | vrc-get-vpm/src/environment/unity_management.rs:175-182 | a surviving record is refreshed; it is written back only when loaded_from_hub changes, and otherwise the table is unchanged |
| UnityManagement.MissingMembers | vrc-get-vpm/src/environment/unity_management.rs:185-186 | the paths to add are exactly the hub paths not already installed |
| UnityManagement.AddAllStops | vrc-get-vpm/src/environment/unity_management.rs:188 | the first failed add ends the loop with that error |
| UnityManagement.AddAllRecords | vrc-get-vpm/src/environment/unity_management.rs:185-190 | each successful add appends one record with the next id, the path and the probed version, not loaded from the hub |
| UnityManagement.UpdateRecordsHub | vrc-get-vpm/src/environment/unity_management.rs:157-193 | after a successful update every hub path is recorded |
| UnityManagement.MissingDistinct | vrc-get-vpm/src/environment/unity_management.rs:185-186 | filtering out installed paths from a list without repeats leaves a list without repeats |
| UnityManagement.UpdateAddsNewPathsOnce | vrc-get-vpm/src/environment/unity_management.rs:157-193 | the surviving records stay in front; each record added after them is for a hub path not already recorded, no such path is added twice, so a table without repeated paths keeps none, whether the update fails or not |
| UnityManagement.UpdateRefreshesSurvivors | vrc-get-vpm/src/environment/unity_management.rs:167-183 | a surviving record is a file, its loaded_from_hub is whether it is in the hub list, and its id, path and version are those of a record of the old table |
| UnityManagement.UpdateFailsOnlyOnProbe | vrc-get-vpm/src/environment/unity_management.rs:185-190 | a failed update is the probe error of a hub path that was not recorded |
| UnityManagement.Environment.FindMostSuitableUnity | vrc-get-vpm/src/environment/unity_management.rs:79-110 | the loop with its three slots returns exactly the most suitable installation |
| UnityManagement.Environment.FindUnityHub | vrc-get-vpm/src/environment/unity_management.rs:138-155 | a configured non-empty path that is a file is returned unchanged; otherwise the first default that is a file is stored in the settings and returned; otherwise None with the settings unchanged |
| UnityManagement.Environment.AddUnityInstallation | vrc-get-vpm/src/environment/unity_management.rs:23-71 | a recorded path is AlreadyExists and inserts nothing; an error inserts nothing; success inserts one record with the next id, the path, the version's text and loaded_from_hub false, and returns the version |
| UnityManagement.Environment.ReconcileRecord | vrc-get-vpm/src/environment/unity_management.rs:167-183 | one pass of the first loop: the record is kept iff its path is a file, and the table moves one record along the reconciliation |
| UnityManagement.Environment.RemoveMissingAndRefresh | vrc-get-vpm/src/environment/unity_management.rs:165-183 | the first loop leaves the reconciled table, and `installed` is exactly its paths |
| UnityManagement.Environment.AddHubPath | vrc-get-vpm/src/environment/unity_management.rs:186-189 | adding one missing hub path extends the table by the next step of the adds |
| UnityManagement.Environment.UpdateUnityFromHubAndFs | vrc-get-vpm/src/environment/unity_management.rs:157-193 | the table ends as the reconciled table followed by the added hub paths; the result is Ok iff no add failed, and otherwise carries the first add error |
| BackupProject.DialogOf | vrc-get-gui/lib/backup-project.tsx:50-70 | there is no dialog iff the state is idle; when backing up, the cancel button invokes the stored cancel handle |
| BackupProject.BackupToasts | vrc-get-gui/lib/backup-project.tsx:32-48 | exactly one toast: normal iff the command resolved as cancelled, success iff it resolved otherwise, and the thrown error iff the launch threw or the command rejected |
| BackupProject.BackupModal.constructor | vrc-get-gui/lib/backup-project.tsx:30 | the modal starts idle with no toast |
| BackupProject.BackupModal.Begin | vrc-get-gui/lib/backup-project.tsx:33-46 | a launched command moves to backing-up with its cancel handle; a throwing launch goes idle with one error toast |
| BackupProject.BackupModal.Finish | vrc-get-gui/lib/backup-project.tsx:36-46 | the settled command adds its one toast and the state returns to idle |
| BackupProject.BackupModal.StartBackup | vrc-get-gui/lib/backup-project.tsx:32-48 | a whole backup ends idle having shown exactly the one toast BackupToasts gives |

## Left out

- Build script plumbing is not modelled, because it is cargo directives, processes and files:
  - `main`, `build_dotnet`, `create_libbootstrapperdll_a` and `create_libbootstrapperdll_lib`;
  - the `ranlib` run;
  - reading and writing the archive files.
- The `object` crate's alignment checks on `from_bytes_mut` are not modelled. Records are read at byte offsets.
- An archive member is its header and its contents. The `ar` crate's header encoding is not modelled.
- `patch_mach_o_64` receives only the byte order. The model does not check the `cputype` or the `filetype` of the object, and neither does the source.
- `find_package_by_name` and `collect_adding_packages` are parameters. So are `UnityVersion::parse` and the Display text of `UnityVersion`, the editor process, `is_file` and the backup command launcher.
- `PendingChanges.Builder` keeps only the log of calls, not the builder's bookkeeping. `build_resolve` is not part of this model. `get_installing` and `get_all_installing` are read from the log: the last package installed under a name wins.
- Resolve.UnlockedRequests: the group map of `resolve_unlocked` is a HashMap. The model requests its names in order of first appearance. The HashSet of hub paths in `update_unity_from_unity_hub_and_fs` is likewise walked in first-appearance order.
- The `Display` message of `ResolvePackageErr` is not modelled. The `io::Error` messages are kept only as the text of their format strings with the path inserted.
- The LiteDB database, `get_db` and its errors are not modelled, and neither are the insert, update and delete errors. The environment's table is a sequence of records with ids that increase.
- `get_unity_installations` is the table read in order. `remove_unity_installation` is not modelled, because no listed property depends on it.
- UnityManagement.Dedup, UnityManagement.HubSet, UnityManagement.Reconciled and UnityManagement.UpdateOutcome compare paths as strings. Rust's `Path` compares component by component, so `/opt/Unity//Editor/Unity` and `/opt/Unity/Editor/Unity` are one path there and two here. The model does not capture that equality.
- UnityManagement.Environment.ReconcileRecord and UnityManagement.Environment.UpdateUnityFromHubAndFs inherit that string comparison of paths.
- The `info!` log messages are not modelled. `to_string_lossy` on hub paths is not modelled: paths are strings.
- UnityManagement.DefaultUnityHubPaths: the platform is a parameter. On Linux, the home directory is part of the platform value, so the `HOME` panic is not modelled.
- UnityManagement.Environment.FindUnityHub returns an `Option`, because the source's `io::Result` never carries an error there.
- UnityManagement.Probe states only what a success implies. The full outcome is given by its definition and by ProbeEncodedOutput and ProbeNotUtf8.
- BackupProject.BackupModal.StartBackup models one backup with nothing interleaved. Two concurrent `startBackup` calls, or a component unmounted during the await, are not modelled.
- In the catch branch, the source sets idle before the toast, and elsewhere after it. The model keeps only the final state and the toast log.
- Toast texts are kept as their translation keys. `console.error` is not modelled.
