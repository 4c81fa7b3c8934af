# Statifier, modelled and proved in Dafny

Statifier stops a dynamically linked program right after its loader has finished, dumps the memory of the
process, and builds an ELF executable that starts from that snapshot. This project models the programs that do
the work and proves what they promise each other, up to the promise of the suite: a kernel that loads the new
executable shows the memory of the process again, with the starter's bytes at the entry point and nothing else
changed; and that after the restart the starter has touched nothing but the loader's variables and the stack.

The model has one module per program or stage; addresses, sizes and offsets are unbounded naturals where no
wrap-around can occur, and 64-bit words where it can (`Arith.Succ`, `Arith.Pred`, `MyGdb.ValOffset`,
`Arith.MaskLow`, the field widths of `Bytes.EncodeLE`). The file format is ELF-64, little-endian.

| module | models |
|---|---|
| `Arith`, `Bytes`, `Outcomes` | rounding, masks, fixed-width fields, concatenation of parts, exit causes |
| `Elf` | headers, their bytes in a file, reading them back (`src/my_lib.inc.c`) |
| `Layout`, `Relocation`, `HeaderMerge`, `NonPtLoad`, `ImageFacts`, `OutputFacts` | `src/non_pt_load.c` |
| `MapFilter` | `src/pt_load_1.c` and the choice of mappings in `src/statifier_create_exe.sh` |
| `InjectStarter`, `Fep` | `src/inject_starter.c`, `src/fep.c` and `src/fep.sh` |
| `PartialRead`, `CutHeader`, `UnreadHeaders` | what a failed read of `src/my_lib.inc.c` leaves, and what `src/inject_starter.c` then does |
| `Loader` | what the kernel checks of an executable, and what it does with PT_LOAD segments (System V gABI, chapter 5, "Program Loading") |
| `StarterPlace`, `Overlay`, `Snapshot`, `Statify` | the stages together, and the promise |
| `Promise` | the promise once more, for ordinary inputs and in terms of mappings, bytes and header fields alone |
| `Instance` | smallest cases the promise applies to, loaded with small pages and refused with large ones |
| `DlSearch` | `src/find_dl_main.inc.c` over all its re-executions |
| `DlVar` | `src/dl-var.c` on the initial process stack |
| `Restart` | the finished executable loaded, and `src/dl-var.c` run over its memory |
| `Ptrace`, `Breakpoints`, `Registers`, `MyGdb` | `src/my_gdb` and `src/regs.awk` |

Code that updates arrays or tables in place is a method on arrays or a class; each is proved equal to a function
of its input, and the promises are lemmas about that function. What those functions mean is proved a second time in
the terms of the file formats and of the shell and C sources: header types, flags, sizes, addresses, register numbers
and bytes, without naming the functions' own parts.

## Findings

Where the code does not do what its comments say, the model follows the code and the exact condition is proved:

- `src/non_pt_load.c:426` leaves the outer loop, so only the first segment inside a PT_LOAD segment is moved
  (`Relocation.SegmentMovedIff`, instance `Relocation.SecondSegmentLeftBehind`).
- The loops at `src/non_pt_load.c:246-258` and `:502-523` skip sections by different tests; sizes agree exactly
  when no non-allocated SHT_NULL header has a size or nothing is placed (`Layout.PlacementAgreesWithCopy`,
  `ImageFacts.LayoutEqualsEmission`, instance `Layout.NullHeaderDisplaces`). Otherwise every dump is displaced by
  those sizes (`ImageFacts.DumpsDisplaced`, for a whole executable `Instance.InactiveHeaderMisplaces`).
- `src/non_pt_load.c:118-136` aligns the segments to the p_align of the executable, which may be less than a page:
  the kernel refuses such an output unless what is in front of the segments happens to end on a page
  (`Snapshot.BaseOnPageIff`, instance `Instance.RefusedOnLargePages`: 4096-byte alignment, 65536-byte pages).
- `src/fep.c:99` resets the base address for every segment but the first PT_LOAD one, and `src/fep.sh:28` passes the
  page the first segment begins in, not its first byte. So the printed address is the used space behind the chosen
  segment's first byte exactly for a first segment that begins on a page, or for a later one in a file whose
  addresses begin in page 0 (`Fep.EntryIsBehindSegmentIff`). The starter lies behind the segment's bytes and inside
  its last page exactly under `Fep.GapCondition` (`Fep.InGapIff`, instances `Fep.SecondSegmentMisplaced` and
  `Fep.FirstSegmentOverwritten`); space is counted from the segment's start, not from its page
  (`Fep.CountedRoomIsThereIff`).
- `src/find_dl_main.inc.c:231` never reports "not found" for a nonempty segment; the place where the scan gives
  up is printed instead (`DlSearch.NothingIff`, `DlSearch.NotFoundIsAccepted`).
- `src/dl-var.c:49,108` does not reset the length between two AT_PLATFORM entries (`DlVar.PlatformLengthIff`, instance
  `DlVar.TwoNamesAddUp`).
- `src/statifier_create_exe.sh:176` replaces the first dash, not the second character
  (`MapFilter.FinalPermissionFlags`, instance `MapFilter.ExecuteOnlyMisspelt`: `--x` becomes `w-x`).
- Two breakpoints in one word restore memory only when deactivated in the opposite order
  (`Breakpoints.SharedWordRestoredIff`).
- Dump files and mappings match only below a million dumps (`Ptrace.DumpNamesOrderedIff`).
- A starter longer than its segment reaches its addresses exactly when the following segments touch in memory
  (`StarterPlace.StarterLandsIff`, instance `StarterPlace.StarterRunsOver`).
- `src/inject_starter.c:52` compares with -1 where failure is reported as 0, so the program goes on with what the
  failed read left. A file without program headers is left alone all the same (`UnreadHeaders.NoPhdrsLeftAlone`);
  `UnreadHeaders.EndangeredIff` says of every unreadable file, from its own bytes, whether some memory contents let
  the program overwrite it (instance `UnreadHeaders.TwoBytesOverwritten`). On what `src/non_pt_load.c` writes the read
  never fails (`ImageFacts.OutputReads`).

## Model

| member | source | states |
|---|---|---|
| `Statify.Run` | src/statifier_dump.sh:12-27 | debugger and builder in sequence: exactly for a process that is ready the dumps are made and handed on, for a suitable one the builder succeeds, and the kernel then shows exactly the memory at the breakpoint, without the trap byte, over the kept mappings, with the starter in the gap that was found; or it refuses the file on a condition on the input |
| `Statify.DumpProcess` | src/statifier_dump.sh:12-27 | the debugger's part: one faithful dump for each mapping, of the memory at the first hit, exactly when the load offset is a multiple of a page, the breakpoint is planted and hit, and every mapping can be dumped |
| `Statify.Build` | src/statifier_create_exe.sh:268-306 | from dumps that are faithful to any memory: the result is what the stages specify, it is reached for every suitable process, and it keeps that memory |
| `Statify.ReadyIff` | src/my_gdb/my_gdb.c:265-293 | the debugger gets through exactly if some stop is the first that is no arch_prctl call and one byte behind the breakpoint, the interpreter was moved by whole pages, and breakpoint word and mappings can be read |
| `Statify.HitMemoryByte` | src/my_gdb/my_gdb.c:285-291 | the memory that is dumped, byte by byte: that of the hit, but in the breakpoint's word that of the start |
| `Statify.ArgcMoves` | src/statifier_create_exe.sh:163-168 | the loader's variable is as far from the interpreter's entry in memory as in the file |
| `Snapshot.CreateNewExe` | src/statifier_create_exe.sh:268-306 | entry point, headers, image, `cat` and injection composed give the specified file or the first stage's failure |
| `Snapshot.BuildFile` | src/statifier_create_exe.sh:292-301 | the stages behind the two that read the maps file |
| `Snapshot.SnapshotPreserved` | src/statifier_create_exe.sh:268-306 | the promise: the loaded memory map equals the kept memory with the starter over it; the kernel refuses the file exactly when it does not know the executable, its table of headers is too long, or its alignment and the size of what precedes the segments do not put them on a page |
| `Promise.SnapshotLoads` | src/statifier_create_exe.sh:268-306 | the promise in plain terms: for mappings of whole pages dumped byte by byte, and an x86-64 executable with aligned segments, empty inactive section headers and sections inside the file, every stage succeeds, and the kernel loads exactly the mappings that are neither vdso, stack nor gate page, byte for byte, with the starter at the entry point |
| `Promise.ProducedLoads` | src/statifier_create_exe.sh:268-306 | the same from the maps files and the printed entry point on |
| `Promise.PromisesApply` | src/statifier_create_exe.sh:268-306 | such inputs meet what all promises about the finished file ask for |
| `Promise.SectionReads` | src/non_pt_load.c:327-368 | an allocated section, read through its header in the new executable, gives memory at its address: by flags, offsets and addresses of the headers |
| `Promise.CopiedSectionReads` | src/non_pt_load.c:497-524 | a section without SHF_ALLOC, of any type but 0, has its old bytes there |
| `Promise.SegmentReads` | src/non_pt_load.c:396-426 | the first header of another type than 1, 3 and 6 that is not empty and starts in a PT_LOAD segment leads to memory at its address, and nothing else in it has changed |
| `Snapshot.AcceptedIff` | src/non_pt_load.c:206-274 | what the kernel checks of the output holds exactly under these conditions on the input |
| `Instance.PromiseApplies` | src/statifier_create_exe.sh:268-306 | its assumptions can be met together, gap included: a one-page process, an executable without sections, any starter that fits behind the text, 4096-byte or 65536-byte pages |
| `Instance.LoadedOnSmallPages` | src/statifier_create_exe.sh:268-306 | with 4096-byte pages that process is loaded again |
| `Instance.RefusedOnLargePages` | src/non_pt_load.c:118-136 | with 65536-byte pages every stage gets through and the kernel refuses the file |
| `Instance.OrdinaryLoads` | src/statifier_create_exe.sh:268-306 | the promise in plain terms applies to an executable with an allocated section, which is built and loaded |
| `Instance.InactiveHeaderMisplaces` | src/non_pt_load.c:498-523 | an executable with an inactive section header of size 4: it is read and laid out, and the dump starts four bytes behind the offset in its header |
| `Snapshot.BuiltMemory` | src/statifier_create_exe.sh:292-301 | the same for any planned file whose headers and dumps describe a memory |
| `Snapshot.BaseOnPageIff` | src/non_pt_load.c:118-136 | the segments begin on a page exactly when the first PT_LOAD segment is aligned to a page, or the rounded size of headers and sections is a multiple of one |
| `Snapshot.SelectionSnapped` | src/pt_load_1.c:92-99 | kept headers are PT_LOAD, nonempty, disjoint in memory, and of the sizes of their dumps |
| `Snapshot.SelectionDescribes` | src/statifier_create_exe.sh:248-257 | headers and dump files together describe the kept memory, every byte and no other address |
| `Snapshot.LoadsReadBack` | src/non_pt_load.c:174-204 | the file of headers written one by one reads back as those headers |
| `Snapshot.AssembledInPlace` | src/statifier_create_exe.sh:298-298 | behind `cat` every dump lies at the offset its header says |
| `Snapshot.InjectedInPlace` | src/inject_starter.c:54-117 | parsed from the file's own bytes, the entry point leads to its place in the right dump, and the overwrite happens exactly there |
| `Snapshot.NoEntryIffOutside` | src/inject_starter.c:71-78 | the injection finds no place exactly when no segment holds the entry point |
| `Snapshot.HeadersSurvive` | src/inject_starter.c:101-117 | the overwrite leaves everything in front of the segments alone |
| `Snapshot.SectionsPreserved` | src/non_pt_load.c:327-368 | in the file `CreateNewExe` makes of a snapshot, an allocated section, read through the section header found in that file, gives the bytes of memory at its address, also across mappings the loader split |
| `Snapshot.SectionReadsMemory` | src/non_pt_load.c:327-368 | the same for any memory that headers and dumps describe |
| `Snapshot.FinishedByPlan` | src/statifier_create_exe.sh:292-301 | the finished file begins with the planned image, has section headers with the planned offsets, and shows the memory at every segment's position |
| `Snapshot.SegmentPreserved` | src/non_pt_load.c:396-426 | in the file `CreateNewExe` makes of a snapshot, the segment that is moved, read through its program header in that file, gives the bytes of memory at its address, also across mappings the loader split |
| `Snapshot.SegmentReadsMemory` | src/non_pt_load.c:396-426 | the same for any memory that headers and dumps describe |
| `Snapshot.CopiedSectionsPreserved` | src/non_pt_load.c:497-524 | in the file `CreateNewExe` makes of a snapshot, a copied section, found through the header in that file, has its old bytes |
| `Snapshot.CopiedSectionSurvives` | src/non_pt_load.c:497-524 | the same for any finished file with a plan |
| `StarterPlace.OverwrittenIffStarter` | src/inject_starter.c:54-117 | the overwritten positions are those of the starter's addresses, byte for byte, and no others |
| `StarterPlace.StarterLandsIff` | src/inject_starter.c:91-117 | every overwritten byte reaches its address exactly when the starter ends inside its segment or a run of touching ones |
| `StarterPlace.StarterRunsOver` | src/inject_starter.c:91-117 | a starter of two bytes whose second byte appears in the next segment, a page away |
| `Overlay.LoadedIsOverlay` | src/inject_starter.c:101-117 | loading an overwritten file gives the described memory with the overwrite, nothing missing and nothing more |
| `Loader.LoadedAt` | doc/StatifiedLayout.txt:26-42 | every address of every segment shows the byte the segment maps there |
| `Loader.LoadedOnly` | doc/StatifiedLayout.txt:26-42 | no other address is loaded |
| `Loader.ExecIff` | doc/StatifiedLayout.txt:26-42 | the checks in numbers: magic, type 2 or 3, processor 62, entries of 56 bytes, at most 64 kilobytes of them, congruent offsets and addresses |
| `NonPtLoad.Run` | src/non_pt_load.c:81-535 | the program from the input files to its output, failure causes included, equals the specification |
| `NonPtLoad.RunOn` | src/non_pt_load.c:118-204 | the same once the executable is parsed |
| `NonPtLoad.Write` | src/non_pt_load.c:206-534 | all phases on the program's arrays produce the planned image |
| `NonPtLoad.LayOut` | src/non_pt_load.c:206-286 | header, placed sections, filler and segment offsets |
| `NonPtLoad.RelocateAll` | src/non_pt_load.c:288-480 | segment map, sections, segments and merged table, or a division by 0 exactly where the relocation reaches one |
| `NonPtLoad.Combine` | src/non_pt_load.c:370-480 | relocated segments and merged table, written inside the counted bounds |
| `NonPtLoad.Emit` | src/non_pt_load.c:482-534 | headers, section copies and filler in this order, or the failure of a copy |
| `NonPtLoad.PlanCounts` | src/non_pt_load.c:138-173 | the table has the number of entries the header announces, and the parts are in order |
| `NonPtLoad.PlannedShdrs` | src/non_pt_load.c:234-258 | section headers change in nothing but the offset |
| `ImageFacts.PlanHeader` | src/non_pt_load.c:206-232 | the output is never position-independent, is entered at the given point, and its three tables follow one another without a gap |
| `ImageFacts.PlanLaidOut` | src/non_pt_load.c:228-286 | written sizes are the planned offsets up to the sections |
| `ImageFacts.LayoutEqualsEmission` | src/non_pt_load.c:260-274 | the bytes written equal `pt_load_offset` exactly when the two section loops agree |
| `ImageFacts.EmissionExcess` | src/non_pt_load.c:502-523 | by how many bytes they differ |
| `ImageFacts.DumpsStartAtTheirOffsets` | src/non_pt_load.c:276-286 | every appended dump starts at its header's offset exactly under that condition |
| `ImageFacts.DumpsDisplaced` | src/non_pt_load.c:276-286 | otherwise each of them starts that many bytes behind its offset |
| `ImageFacts.DumpAtOffset` | src/non_pt_load.c:276-286 | the dump's bytes are found there |
| `ImageFacts.SectionContentKept` | src/non_pt_load.c:242-261 | a copied section's bytes are at its new offset, between start and end of the section area |
| `ImageFacts.SegmentFollowsSection` | src/non_pt_load.c:427-438 | a segment outside all PT_LOAD segments follows the section without SHF_ALLOC it starts with, bytes included |
| `ImageFacts.PlanReadable` | src/non_pt_load.c:215-225 | the planned tables can be parsed back |
| `ImageFacts.ReadBackLoads` | src/my_lib.inc.c:132-191 | parsed from the bytes, the file has the planned header and exactly the planned PT_LOAD headers |
| `ImageFacts.OthersBack` | src/my_lib.inc.c:132-191 | the carried-over headers are read back in order |
| `ImageFacts.SectionOffsetsBack` | src/my_lib.inc.c:173-181 | the section headers are read back with their planned offsets |
| `ImageFacts.OutputReads` | src/my_lib.inc.c:124-185 | whatever the layout program writes, and whatever follows, has headers that can be read |
| `OutputFacts.OutputIff` | src/non_pt_load.c:118-204 | an output is written exactly if the first PT_LOAD segment has an alignment, the file of headers holds whole headers and at least one, and every section to copy lies in the executable (or nothing is placed): for executables whose PT_LOAD segments are aligned, or snapshots without a segment at address 0 |
| `OutputFacts.InputIsValid` | src/my_lib.inc.c:132-191 | what is taken for granted, in numbers: entry sizes 56 and 64, fewer than 65536 headers |
| `OutputFacts.OutputHeader` | src/non_pt_load.c:206-232 | the ELF header read back: type 2 for 3, the given entry, tables at 64 and behind one another, all else as it was |
| `OutputFacts.OutputTypes` | src/non_pt_load.c:442-480 | the table read back has no header of type 3 or 6, and as many as dumps and headers of other types |
| `OutputFacts.OutputDump` | src/non_pt_load.c:459-468 | the dumps' headers are one block in it, in order, behind the headers of other types that preceded the first PT_LOAD header, changed in the offset alone |
| `OutputFacts.OutputOther` | src/non_pt_load.c:442-480 | every header of another type than 1, 3 and 6 is in it, once and in order, changed in the offset alone |
| `OutputFacts.OutputSection` | src/non_pt_load.c:242-261 | the section headers read back: without SHF_ALLOC the offset is behind the tables and the earlier such sections, inactive ones are unchanged |
| `OutputFacts.OutputSectionOutside` | src/non_pt_load.c:341-366 | an allocated section outside every PT_LOAD segment keeps its header |
| `OutputFacts.OutputSectionBytes` | src/non_pt_load.c:497-524 | if inactive headers are empty, every section without SHF_ALLOC has its old bytes at that offset |
| `OutputFacts.OutputSize` | src/non_pt_load.c:260-274 | then the output ends on the first boundary behind tables and sections, with zeros in between |
| `Layout.PlaceNonAlloc` | src/non_pt_load.c:242-261 | the placement loop gives prefix sums as offsets and touches no other section |
| `Layout.PlacedInOrder` | src/non_pt_load.c:246-258 | placed sections are in order and do not overlap |
| `Layout.PlacedTile` | src/non_pt_load.c:246-258 | every byte of the section area belongs to exactly one placed section |
| `Layout.CopySections` | src/non_pt_load.c:497-524 | the copy loop writes the old bytes of every copied section, or fails if one lies outside the file |
| `Layout.PlacementAgreesWithCopy` | src/non_pt_load.c:498-523 | both loops agree on the size exactly when nothing is placed or no non-allocated SHT_NULL header has a size |
| `Layout.NullSizeIff` | src/non_pt_load.c:498-523 | no such size exactly if every header of type 0 without SHF_ALLOC has size 0 |
| `Layout.PlacedSizeIff` | src/non_pt_load.c:246-261 | nothing is placed exactly if every other header without SHF_ALLOC has size 0 |
| `Layout.PlacedOffset` | src/non_pt_load.c:246-258 | a header of another type than 0 without SHF_ALLOC is placed behind the sizes of those before it, every other one keeps its offset |
| `Layout.SectionBytesIff` | src/non_pt_load.c:497-524 | the copies are made exactly if every section without SHF_ALLOC and with a size lies in the file, or nothing is placed |
| `Layout.NullHeaderDisplaces` | src/non_pt_load.c:498-523 | an inactive header with a size and a string table: four bytes are reserved, eight written, and the table's come second |
| `Layout.CopiedContent` | src/non_pt_load.c:502-523 | a section's bytes are found displaced by the sizes of such headers before it |
| `Layout.UpdateLoadOffsets` | src/non_pt_load.c:276-286 | segment offsets are the base plus prefix sums of file sizes |
| `Layout.SegmentsConsecutive` | src/non_pt_load.c:276-286 | file ranges are consecutive, disjoint and behind the base |
| `Layout.CongruentIffBaseAligned` | src/non_pt_load.c:263-286 | offset and address of every segment are congruent exactly when the first segment starts on the boundary |
| `Layout.RunShift` | src/non_pt_load.c:276-286 | along mappings that touch, offset and address keep one distance |
| `Layout.Filler` | src/non_pt_load.c:263-274 | zeros up to the least multiple of the alignment |
| `Arith.RoundUp` | src/non_pt_load.c:267-272 | the result is the multiple of the boundary within one boundary above |
| `Arith.RoundUpIsLeast` | src/fep.c:153-155 | no smaller multiple would do |
| `Arith.MaskIsRoundDown` | src/non_pt_load.c:309-309 | `x & ~(a - 1)` is `x - x % a` for every 64-bit `x` and every power of two |
| `Relocation.FindLoad` | src/non_pt_load.c:300-314 | the first snapshot segment at the masked address, and none before it |
| `Relocation.MapLoads` | src/non_pt_load.c:288-325 | the map is right for every PT_LOAD segment and says nothing about others |
| `Relocation.RelocateSections` | src/non_pt_load.c:327-368 | every allocated section gets the offset of the last matching segment before an unmapped one, no other header changes, or the loop divides by a p_align of 0 |
| `Relocation.NewOffset` | src/non_pt_load.c:341-366 | the inner loop for one section |
| `Relocation.SectionKeepsAddress` | src/non_pt_load.c:354-365 | the new offset is as far into the snapshot segment as the section's address |
| `Relocation.SectionSurvivesSplit` | src/non_pt_load.c:354-365 | the offset computed from the first piece of a split segment is right in every later piece |
| `Relocation.TranslateKeepsAddress` | src/non_pt_load.c:417-421 | a translated offset keeps the virtual address |
| `Relocation.RelocateSegments` | src/non_pt_load.c:370-440 | the pass in place equals its specification, reading only initialised map entries and only unchanged PT_LOAD entries, or divides by a p_align of 0 |
| `Relocation.RelocateTurn` | src/non_pt_load.c:375-438 | one turn of that loop, and whether it is the last |
| `Relocation.RelocateSegment` | src/non_pt_load.c:396-438 | the same for a segment that may move |
| `Relocation.RelocationTouchesOffsetsOnly` | src/non_pt_load.c:382-394 | only offsets change, and never those of headers of type 1, 3 or 6 or with p_filesz 0 |
| `Relocation.SegmentMovedIff` | src/non_pt_load.c:422-426 | a segment inside a continued PT_LOAD segment is moved with it exactly when no other one comes first, or it is in place already |
| `Relocation.MovedSegmentKeepsAddress` | src/non_pt_load.c:410-421 | the one that is moved keeps its virtual address |
| `Relocation.SecondSegmentLeftBehind` | src/non_pt_load.c:426-426 | an executable with two note segments whose second one keeps its old offset |
| `Relocation.FindLoadIs` | src/non_pt_load.c:300-314 | the segment map in numbers: the first snapshot segment at the address less its remainder by p_align or the page size |
| `Relocation.RelocationGetsThrough` | src/non_pt_load.c:354-421 | no division by 0 if every PT_LOAD segment has an alignment, or no snapshot segment starts at 0 |
| `Relocation.SectionOffsetIs` | src/non_pt_load.c:341-366 | a section inside exactly one PT_LOAD segment lies as far behind the snapshot segment's offset as its address behind that one's |
| `Relocation.RelocatedInside` | src/non_pt_load.c:396-426 | by types, sizes and offsets: the first segment inside a PT_LOAD segment moves with it, and none behind it changes |
| `Relocation.RelocatedOutside` | src/non_pt_load.c:427-438 | and one outside every PT_LOAD segment follows the first section that starts where it does |
| `HeaderMerge.FindAlign` | src/non_pt_load.c:118-136 | alignment of the first header of type 1, at most a page, 0 without one |
| `HeaderMerge.CountOthers` | src/non_pt_load.c:138-173 | the number of headers carried over |
| `HeaderMerge.MergeHeaders` | src/non_pt_load.c:442-480 | the merge fills the counted table completely and in bounds |
| `HeaderMerge.MergeCount` | src/non_pt_load.c:219-219 | the merged table has exactly the counted size |
| `HeaderMerge.MergeConserves` | src/non_pt_load.c:442-480 | read by kind, the table holds exactly the snapshot's segments and exactly the carried-over headers, in order |
| `HeaderMerge.MergeBlock` | src/non_pt_load.c:459-468 | the snapshot's segments are one block at the place of the first PT_LOAD header |
| `HeaderMerge.MergedTypes` | src/non_pt_load.c:442-480 | no header of type 3 or 6 is left, and the size is that of the dumps and the headers of types other than 1, 3 and 6 |
| `HeaderMerge.MergedDump` | src/non_pt_load.c:459-468 | where each of the dumps' headers is |
| `HeaderMerge.MergedOther` | src/non_pt_load.c:442-480 | where each header of another type than 1, 3 and 6 is |
| `Elf.EhdrRoundTrip` | src/non_pt_load.c:484-485 | a written ELF header reads back as itself |
| `Elf.PhdrRoundTrip` | src/pt_load_1.c:101-102 | so does a program header |
| `Elf.ReadBackPhdrs` | src/my_lib.inc.c:163-171 | and a table of them at any place in a file |
| `Elf.ReadElfFits` | src/my_lib.inc.c:132-191 | headers read from a file fit their fields |
| `Elf.ReadElfIff` | src/my_lib.inc.c:132-191 | exactly which files can be read: 64 bytes, entries of some size and at least one, both tables in the file |
| `Elf.PhdrRead` | src/my_lib.inc.c:163-171 | entry by entry, from where the header says |
| `Elf.ShdrRead` | src/my_lib.inc.c:173-181 | the same for section headers |
| `Elf.EhdrFormat` | src/my_lib.inc.c:142-143 | the header is read by the byte positions of the System V gABI, chapter 4, section "ELF Header" |
| `Elf.PhdrFormat` | src/my_lib.inc.c:163-171 | and program headers by those of chapter 5, section "Program Header" |
| `Elf.ShdrFormat` | src/my_lib.inc.c:173-181 | and section headers by those of chapter 4, section "Sections" |
| `Bytes.DecodeEncode` | src/my_lib.inc.c:78-96 | a field keeps a value modulo its width |
| `Bytes.FlattenSlice` | src/statifier_create_exe.sh:298-298 | each part of a concatenation is found behind the parts before it |
| `MapFilter.ConvertPermission` | src/pt_load_1.c:44-60 | flags from the three characters, or failure for fewer |
| `MapFilter.PtLoad1` | src/pt_load_1.c:62-104 | the header of one mapping, or the failure |
| `MapFilter.IsInside` | src/statifier_create_exe.sh:12-26 | half-open range test |
| `MapFilter.GetKernelStackStartStop` | src/statifier_create_exe.sh:28-50 | the first initial mapping around the stack pointer, or failure |
| `MapFilter.IsStack` | src/statifier_create_exe.sh:87-106 | the disjunction of the three tests |
| `MapFilter.StackIffOverlapOrTouch` | src/statifier_create_exe.sh:52-106 | they find exactly the mappings that overlap the kernel's stack or end where it starts |
| `MapFilter.NoStackKept` | src/statifier_create_exe.sh:124-151 | no mapping that overlaps or touches the start of the original stack is kept |
| `MapFilter.IsIgnoredSegment` | src/statifier_create_exe.sh:124-151 | which mappings are ignored, by name, by place and by soname and no others, and the failure of the soname lookup |
| `MapFilter.FinalPermissionFlags` | src/statifier_create_exe.sh:163-230 | never writable and executable at once; loader data becomes writable exactly when it was readable or writable |
| `MapFilter.ExecuteOnlyMisspelt` | src/statifier_create_exe.sh:163-181 | `--x` in the loader's data becomes `w-x` |
| `MapFilter.NoWriteExec` | src/statifier_create_exe.sh:183-230 | no emitted header asks for writable executable memory |
| `MapFilter.PtLoad` | src/statifier_create_exe.sh:232-266 | headers and files of the kept mappings, or the first failure, including unequal numbers of lines and dumps |
| `MapFilter.SelectionLockstep` | src/statifier_create_exe.sh:248-257 | the k-th header and the k-th file come from the k-th kept mapping |
| `MapFilter.KeptIndicesExact` | src/statifier_create_exe.sh:248-257 | the kept mappings are exactly those not ignored, in order |
| `MapFilter.KeptIff` | src/statifier_create_exe.sh:124-151 | a mapping is kept exactly if its name is neither `[vdso]` nor `[stack]`, it lies clear of the kernel's stack, and its soname was read and does not begin with `linux-gate.so.` |
| `MapFilter.HeaderFlags` | src/pt_load_1.c:44-60 | the flags of its header, from the three characters and the place of the loader's variable |
| `MapFilter.SelectedHeader` | src/statifier_create_exe.sh:248-257 | its header field by field and its dump, behind those of the kept mappings before it |
| `MapFilter.SelectIff` | src/statifier_create_exe.sh:232-266 | exactly when the choice succeeds |
| `MapFilter.PtLoadIff` | src/statifier_create_exe.sh:28-50 | the whole stage fails without an initial mapping around the stack pointer or with unequal numbers, and otherwise chooses by the first such mapping |
| `InjectStarter.FindOffset` | src/inject_starter.c:54-70 | offset of the first PT_LOAD segment around the entry point |
| `InjectStarter.Inject` | src/inject_starter.c:43-124 | with the headers the read left, be they the file's or not, the file is overwritten at the offset they lead to, or left alone on every failure |
| `InjectStarter.InjectedThere` | src/inject_starter.c:54-117 | of a readable file: the bytes behind the entry point's place in the first PT_LOAD segment around it are replaced, if the starter fits |
| `InjectStarter.InjectedNowhere` | src/inject_starter.c:71-78 | and without such a segment it fails |
| `PartialRead.HeldIsRead` | src/my_lib.inc.c:132-191 | a read that succeeds leaves the file's headers and nothing of what was there before |
| `UnreadHeaders.NoPhdrsLeftAlone` | src/inject_starter.c:57-78 | a file without program headers is left alone, whatever memory held |
| `UnreadHeaders.BadEntrySizeIff` | src/inject_starter.c:43-70 | a file with entry size 0 can be overwritten exactly if it announces entries and is longer than the starter |
| `UnreadHeaders.ShortHeaderIff` | src/inject_starter.c:43-70 | a file with a cut ELF header can be overwritten exactly if it is longer than the starter and its bytes do not say that there are no entries |
| `UnreadHeaders.EndangeredIff` | src/inject_starter.c:43-98 | of every unreadable file, cut tables included, its bytes decide whether some memory contents let the program overwrite it |
| `UnreadHeaders.TwoBytesOverwritten` | src/inject_starter.c:52-117 | a file of two bytes and a starter of one |
| `CutHeader.CanLeadIff` | src/inject_starter.c:57-70 | from its first bytes, whether a program header may turn out to lead into the file |
| `CutHeader.CanMissIff` | src/inject_starter.c:57-70 | and whether it may turn out to be passed over |
| `InjectStarter.WriteAt` | src/inject_starter.c:105-117 | exactly the starter's bytes at exactly that place |
| `InjectStarter.ZeroMeansNoSegment` | src/inject_starter.c:71-78 | with positive offsets 0 means that no segment covers the entry point |
| `InjectStarter.EntryAmongLoads` | src/inject_starter.c:57-59 | headers of other types do not influence the lookup |
| `Fep.FindPlace` | src/fep.c:94-176 | a result exactly when some segment qualifies, and then for the first of them, or a division by a p_align of 0 |
| `Fep.HasRoomIff` | src/fep.c:114-161 | a segment has room exactly if it is of type 1 and executable, its sizes are equal, and the starter fits between its end, rounded up to 16, and the next boundary |
| `Fep.PlaceIs` | src/fep.c:94-171 | the first one with room is chosen, and the printed address is the start, the segment's address unless it is the first PT_LOAD one, and its rounded size |
| `Fep.MeasureSpace` | src/fep.c:122-158 | the two roundings of the space a segment uses |
| `Fep.EntryIsBehindSegmentIff` | src/fep.c:99-110 | the address lies the used space behind the chosen segment's first byte exactly for a first segment that begins on a page, or a later one in a file whose addresses begin in page 0 |
| `Fep.InGapIff` | src/fep.c:122-171 | for every accepted segment, the exact condition on the headers for the starter to lie behind the segment's bytes and inside its last page |
| `Fep.GapIsSafe` | src/fep.c:122-171 | on a boundary, and where the address is right, the starter is 16-aligned, behind the segment's bytes and before the next boundary |
| `Fep.CountedRoomIsThereIff` | src/fep.c:151-161 | behind the printed address all the counted room exists for the first segment, and for a later one exactly when it begins on its boundary or reaches over one boundary more |
| `Fep.RoomNeedsCoarseBoundary` | src/fep.c:129-161 | room for a nonempty starter exists only behind a boundary that 16 divides |
| `Fep.SecondSegmentMisplaced` | src/fep.c:163-171 | an executable with text in its second segment whose printed address is outside it |
| `Fep.FirstSegmentOverwritten` | src/fep.c:105-171 | an executable whose first segment begins inside a page: the starter goes over its text |
| `Fep.ListFiles` | src/fep.sh:23-49 | the list of files, in the order of their first lines |
| `Fep.ListedName` | src/fep.sh:30-43 | exactly the files with a name without a bracket are listed |
| `Fep.ListedFirst` | src/fep.sh:38-43 | each with the first of its lines |
| `Fep.FindEntry` | src/fep.sh:58-73 | the first place in the listed files, or the first failure |
| `Fep.EntryFound` | src/fep.sh:23-73 | from the maps file to the printed address: the first line of the first file with room, the first segment with room in it |
| `Fep.NoneFound` | src/fep.sh:70-73 | without room anywhere it says so |
| `Fep.SearchFails` | src/fep.sh:58-68 | a file that cannot be opened or read ends the search, as does an executable segment without alignment |
| `Fep.PlaceFound` | src/fep.sh:58-68 | the place is in a listed file, in its first segment with room, and no earlier file has room |
| `Fep.GapIsConfined` | src/fep.c:163-171 | the gap that is found satisfies what the promise asks of the starter, once a kept mapping contains it |
| `DlSearch.RunOnce` | src/find_dl_main.inc.c:213-257 | one invocation: nothing, an accepted offset, or another run |
| `DlSearch.InvokeIs` | src/find_dl_main.inc.c:213-257 | one invocation from its memory: the first place from its start that begins with the pattern, or where the scan gives up, and what is done with it |
| `DlSearch.TwoInvocations` | src/find_dl_main.inc.c:213-257 | a variable that stays in place and whose first value occurs nowhere before it is found by exactly one re-execution |
| `DlSearch.ScanStops` | src/find_dl_main.inc.c:224-229 | the scan stops at the first match at or after its start, or one pattern short of the end |
| `DlSearch.NewArgv` | src/find_dl_main.inc.c:264-298 | the next command line has ten arguments more and the new offset in place of the old |
| `DlSearch.OffsetsIncrease` | src/find_dl_main.inc.c:102-114 | over re-executions offsets strictly increase and stay in the segment |
| `DlSearch.RunsAreShort` | src/find_dl_main.inc.c:102-114 | the number of re-executions is bounded for all memories |
| `DlSearch.AcceptedTwice` | src/find_dl_main.inc.c:236-257 | an accepted offset held both patterns of two consecutive invocations, unless it is where the scan gives up |
| `DlSearch.StationaryIsFound` | src/find_dl_main.inc.c:39-46 | if the variable sits at one offset, what is accepted is at or before it and held the pattern twice |
| `DlSearch.ArgcAccepted` | src/find_dl_argc.c:10-15 | the word at an accepted offset counted the arguments of two consecutive runs, ten apart |
| `DlSearch.NothingIff` | src/find_dl_main.inc.c:231-234 | nothing is printed exactly without a pattern or with an empty segment |
| `DlSearch.NotFoundIsAccepted` | src/find_dl_main.inc.c:224-257 | a pattern found nowhere leads to the give-up offset, which the second invocation accepts |
| `DlSearch.Rerun` | src/find_dl_main.inc.c:213-319 | the re-executions form one run that ends, and the last invocation's verdict alone decides what is printed |
| `DlSearch.Search` | src/find_dl_main.inc.c:100-319 | the whole program terminates for all memories within the bound; it prints exactly when there is something to search, nothing behind a stationary variable, an offset only where the last two memories held their patterns or the scan gave up, and after one re-execution the place of a variable that stays and whose first value occurs nowhere before it |
| `DlVar.Memory.DoWork` | src/dl-var.c:41-119 | every word of memory afterwards, for any stack the kernel may build |
| `DlVar.Memory.FindAuxv` | src/dl-var.c:50-52 | the walk over the environment ends at the auxiliary vector |
| `DlVar.Memory.StoreVariables` | src/dl-var.c:58-70 | the stores in front of the loop |
| `DlVar.Memory.ProcessAuxv` | src/dl-var.c:80-118 | the loop over the vector |
| `DlVar.Memory.DoEntry` | src/dl-var.c:81-117 | one entry of it |
| `DlVar.Memory.DoBase` | src/dl-var.c:82-99 | an AT_BASE entry gets the loader's base |
| `DlVar.Memory.DoPlatform` | src/dl-var.c:101-112 | an AT_PLATFORM entry sets name and accumulated length, each if the loader has the variable |
| `DlVar.Memory.StorePlatform` | src/dl-var.c:101-112 | its stores |
| `DlVar.Memory.MeasurePlatform` | src/dl-var.c:106-109 | the length of the string is added |
| `DlVar.VariablesSet` | src/dl-var.c:58-70 | the variables hold count, arguments, environment, vector and stack pointer |
| `DlVar.PlatformSet` | src/dl-var.c:101-112 | the platform variables hold the last name and the sum of the lengths |
| `DlVar.BaseSet` | src/dl-var.c:82-99 | every AT_BASE value is the base |
| `DlVar.NothingElse` | src/dl-var.c:41-119 | no other word of memory changes |
| `DlVar.LaidOutIff` | src/dl-var.c:15-32 | the initial stack by addresses: AMD64 psABI, section 3.4.1 |
| `DlVar.VariablesAfter` | src/dl-var.c:58-70 | the variables by the stack pointer and the numbers of arguments and environment strings |
| `DlVar.PlatformAfter` | src/dl-var.c:101-112 | with one entry of type 15 its value and the length of its string are stored |
| `DlVar.OthersAfter` | src/dl-var.c:41-119 | values of type 7 become the base, and no other word changes |
| `DlVar.NoPlatform` | src/dl-var.c:101-112 | without a platform name its variables stay as they were |
| `DlVar.PlatformLengthIff` | src/dl-var.c:101-112 | the stored length fits the stored name exactly when all names before the last one are empty |
| `DlVar.TwoNamesAddUp` | src/dl-var.c:101-112 | two one-letter names give the length 2 |
| `DlVar.StackReadsBack` | src/dl-var.c:15-32 | read back, the stack is the kernel's with the base filled in |
| `Restart.SnapshotRestored` | src/dl-var.c:41-119 | from the snapshot to the restarted process: the executable is built, accepted and loaded, and after the fixer memory of the kept mappings is what it was at the breakpoint, but for the starter and the loader's variables |
| `Restart.ImageKept` | src/dl-var.c:41-119 | of any image the fixer changes the loader's variables alone, of the stack the values of AT_BASE entries besides, and the stack reads back |
| `Restart.FixerTouches` | src/dl-var.c:41-119 | the same byte by byte |
| `Restart.Start` | src/dl-var.c:41-119 | the fixer run on a memory leaves the outcome of the walk |
| `Ptrace.GetMemory` | src/my_gdb/dump.c:22-60 | all bytes of an aligned mapped range, and failure for any other |
| `Ptrace.Dumps` | src/my_gdb/dump.c:62-151 | one faithful dump per mapping, in order, exactly when every mapping can be dumped |
| `Ptrace.DumpNamesOrderedIff` | src/my_gdb/dump.c:127-133 | numbered names expand in order exactly below a million |
| `Ptrace.PaddedOrder` | src/my_gdb/dump.c:127-133 | names of numbers that fit compare like the numbers |
| `Breakpoints.Table.Add` | src/my_gdb/breakpoints.c:21-63 | one more active slot with the word as it was and with the trap byte in memory, or an unchanged table when it is full or the word is not mapped; in a word of its own the table stays right |
| `Breakpoints.Table.AddNew` | src/my_gdb/breakpoints.c:36-62 | the same where there is a slot and a word for it |
| `Breakpoints.Table.Fill` | src/my_gdb/breakpoints.c:46-62 | the next slot is filled in and active, its word written, no other byte of memory |
| `Breakpoints.TrapAlone` | src/my_gdb/breakpoints.c:36-62 | byte by byte: 0xCC at the address and nothing else |
| `Breakpoints.TrapTakenAway` | src/my_gdb/breakpoints.c:80-93 | and taking the breakpoint away leaves memory as it was |
| `Breakpoints.Table.Activate` | src/my_gdb/breakpoints.c:95-108 | the slot is active and its new word in memory, or nothing changes when it was active or the word is not mapped; a right table stays right |
| `Breakpoints.Table.Deactivate` | src/my_gdb/breakpoints.c:80-93 | the slot is inactive and its saved word in memory, with the same exceptions; a right table stays right |
| `Breakpoints.Table.Do` | src/my_gdb/breakpoints.c:65-78 | the single step runs one byte back on memory without the breakpoint, which is active again afterwards; a right table stays right if the step leaves the words with breakpoints alone |
| `Breakpoints.Table.SingleStep` | src/my_gdb/breakpoints.c:73-76 | program counter and memory after that step |
| `Breakpoints.Table.Resume` | src/my_gdb/my_gdb.c:274-275 | the debuggee's next memory and program counter; the table stays right if it leaves the words with breakpoints alone |
| `Breakpoints.Table.constructor` | src/my_gdb/breakpoints.c:18-19 | an empty table over unpatched memory |
| `Breakpoints.SwitchKeepsConsistent` | src/my_gdb/breakpoints.c:80-108 | writing a slot's word switches one breakpoint: memory stays the original with the trap byte at exactly the active addresses |
| `Breakpoints.RunKeepsConsistent` | src/my_gdb/my_gdb.c:274-277 | a run that leaves the patched words alone keeps that |
| `Breakpoints.AllInactiveRestores` | src/my_gdb/breakpoints.c:80-93 | with no breakpoint active memory is the original, byte for byte |
| `Breakpoints.SharedWordRestoredIff` | src/my_gdb/breakpoints.c:36-60 | two breakpoints in one word: which order of deactivation restores memory, and when the other one does too |
| `Registers.DumpRegs` | src/my_gdb/registers.c:25-42 | names and values in order, the program counter one back at a breakpoint |
| `Registers.RegsBlock` | src/regs.awk:8-18 | the value of the last line with each name, 0 without one |
| `Registers.LookupLast` | src/regs.awk:8-18 | a later line of the same name overrides an earlier one |
| `Registers.BlockAgrees` | src/regs.awk:8-18 | for distinct lower-case names the k-th word is the k-th register's value, in whatever order the lines come |
| `Registers.MissingNameIsZero` | src/regs.awk:15-15 | a name that is not dumped gives 0 |
| `Registers.X86_64Names` | src/cpus/x86_64/regs.list:14-40 | the real list has 27 distinct lower-case names, with the registers the debugger uses at their positions |
| `Registers.X86_64BlockAgrees` | src/regs.awk:8-18 | so every register of that list reaches its own word |
| `Registers.BlockAgreesIff` | src/regs2awk.make.sh:31-35 | of any list, block and registers agree for all values exactly at the lower-case names |
| `MyGdb.Parent` | src/my_gdb/my_gdb.c:254-295 | how every sequence of stops ends: waiting, death, failure, or the snapshot of the first hit that is no TLS stop; a snapshot records the breakpoint itself, and no earlier stop that is no arch_prctl call was one byte behind it |
| `MyGdb.SnapsIff` | src/my_gdb/my_gdb.c:265-293 | exactly when the snapshot is of a given stop: the first with another system call than 158 and a program counter one behind the breakpoint, with what has to be readable and aligned |
| `MyGdb.SnapshotHolds` | src/my_gdb/my_gdb.c:285-291 | every byte of every dump, from memory at that stop and, in the breakpoint's word, at the start |
| `MyGdb.SnapshotTls` | src/my_gdb/my_gdb.c:278-284 | the TLS data is that of the first system call 158 before it |
| `MyGdb.EndsOtherwise` | src/my_gdb/my_gdb.c:273-293 | without such a stop the debuggee's end ends the program, and until then it waits |
| `MyGdb.Loop` | src/my_gdb/my_gdb.c:273-293 | the event loop alone |
| `MyGdb.HandleStop` | src/my_gdb/my_gdb.c:276-292 | one turn of it |
| `MyGdb.Finish` | src/my_gdb/my_gdb.c:285-292 | registers and dumps of the final stop |
| `MyGdb.TakeDumps` | src/my_gdb/my_gdb.c:288-290 | the dumps are of memory with the breakpoint's word as it was saved, exactly when every mapping can be dumped |
| `MyGdb.Plant` | src/my_gdb/my_gdb.c:266-272 | one active breakpoint in a right table, exactly when its word is mapped |
| `MyGdb.Continue` | src/my_gdb/my_gdb.c:274-277 | the next stop's memory and program counter, the slot unchanged |
| `MyGdb.RecordedPc` | src/my_gdb/registers.c:30-33 | the recorded program counter is the breakpoint; no other register changes |
| `MyGdb.BreakpointMoves` | src/my_gdb/my_gdb.c:225-266 | the breakpoint is as far from the interpreter's entry in memory as in the file |
| `MyGdb.DumpedByte` | src/my_gdb/my_gdb.c:285-291 | for every debuggee: dumped bytes are its own, but for the breakpoint's word, which is the saved one |
| `MyGdb.NoTrapDumped` | src/my_gdb/my_gdb.c:285-291 | if it left that word alone, the dumps have the original byte at the breakpoint and no other byte differs |

## Left out

- File opening, write errors, messages, argument checks, `strtoul` and hexadecimal printing: numbers and byte sequences are passed directly.
- The 32-bit ELF class and big-endian files: the field widths of ELF-64 are modelled.
- Wrap-around of address sums: mappings, segments and files are assumed to end below 2^64.
- NonPtLoad.Run: requires that the stored entry sizes are those of the structs and that the header count fits 16 bits; a division by a p_align of 0 is modelled as the end of the program.
- Ptrace.GetMemory: requires `start <= stop`, as both callers ensure.
- Breakpoints.Table.Add: keeps the table right only in a word without another breakpoint; what happens in a shared word is `Breakpoints.SharedWordRestoredIff`.
- Breakpoints.Table.Resume: keeps the table right only if the debuggee does not write the words that hold breakpoints.
- MyGdb.Parent: what each `wait` reports and the lines of the maps files are parameters; the filter in src/maps.sh is not modelled.
- DlVar.Memory.DoWork: requires loader variables apart from the stack and from each other; words that overlap partly and the Alpha variant without `__libc_stack_end` are not modelled.
- DlSearch.Search: the segment's address, which comes from AT_BASE or the file, is not computed; memories and patterns of the invocations are arbitrary parameters.
- MapFilter.PtLoad: what elf_soname prints for a dump is a parameter; lines of the maps files that are not mappings are not modelled.
- MapFilter.PtLoad: with more lines than dumps the source fails one or two steps later than the model, with the same exit status.
- Promise.SnapshotLoads: asks for a soname of every mapping, addresses up to 2^47 and an executable of at most 2^46 bytes; `Snapshot.SnapshotPreserved` does not.
- Statify.Run: the starter's contents, the mappings and the contents of the mapped files are parameters.
- Fep.FindEntry: file names with white space, which src/fep.sh splits, are not modelled.
- InjectStarter.Inject: the pointer to the table of headers, uninitialised when the read fails early, is taken to lead to readable memory.
- Fep.FindEntry, InjectStarter.Inject: entries are read in the size of the struct; a stored entry size other than that and 0 is not modelled.
- Loader: of an executable the kernel checks magic number, type, processor, entry size, size of the table and page congruence; its other reasons to refuse a file, such as a missing right to execute it, are not modelled.
- Restart: the starter's own code between loading and the fixer, and its restoring of registers, are not modelled.
- The thread-local storage data itself, the starter's machine code, and the symbol and pattern lookups of the loader.
- src/Obsolete is not built and not modelled.
