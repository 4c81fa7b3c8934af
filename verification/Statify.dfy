/** The suite from the first stop of the process to the finished executable
    (src/statifier.sh in outline): debugger, dumps, and `CreateNewExe`. */
module Statify {
  import opened Arith
  import opened Bytes
  import opened Elf
  import opened Outcomes
  import opened HeaderMerge
  import opened NonPtLoad
  import opened MapFilter
  import opened Ptrace
  import opened Registers
  import opened Breakpoints
  import opened MyGdb
  import opened Loader
  import opened Fep
  import opened Snapshot

  /** What the layout program takes for granted, for up to `n` segments. */
  predicate ValidExe(exe: seq<byte>, n: nat, page: nat) {
    && 0 < page < TWO64
    && var r := ReadElf(exe, true);
       r.Done? ==> EntrySizesMatch(r.value.ehdr) && n + |Others(r.value.phdrs)| < 0x1_0000
  }

  lemma {:induction false} KeptAtMostAll(maps: seq<Mapping>, dumps: seq<DumpFile>, p: MapFilter.Process)
    requires |maps| <= |dumps|
    ensures |KeptIndices(maps, dumps, p)| <= |maps|
  {
    if maps != [] { KeptAtMostAll(maps[..|maps| - 1], dumps, p); }
  }

  lemma SelectionValid(maps: seq<Mapping>, dumps: seq<DumpFile>, p: MapFilter.Process, exe: seq<byte>, page: nat)
    requires |maps| <= |dumps| && Select(maps, dumps, p).Done? && ValidExe(exe, |maps|, page)
    ensures ValidInput(exe, EncodePhdrs(Select(maps, dumps, p).value.headers), page)
  {
    SelectionLockstep(maps, dumps, p);
    KeptAtMostAll(maps, dumps, p);
    var headers := Select(maps, dumps, p).value.headers;
    EncodedSizes(headers, []);
    DivModUnique(PHDR_SIZE * |headers|, PHDR_SIZE, |headers|, 0);
  }

  /** The process as the script sees it. */
  function Observed(initMaps: seq<Mapping>, sp: nat, dlArgc: nat): MapFilter.Process
    requires KernelStackIndex(initMaps, sp) < |initMaps|
  {
    var m := initMaps[KernelStackIndex(initMaps, sp)];
    MapFilter.Process(sp, m.start, m.stop, dlArgc)
  }

  /** What must be said about mappings, executable and the file that has room for
      the starter, for the promise to hold: kept mapping `j` contains the gap. */
  ghost predicate Suitable(place: Gap, s: Selection, maps: seq<Mapping>, elf: ElfFile, exe: seq<byte>, page: nat,
                           starter: seq<byte>, j: nat)
    requires page > 0 && place.segment < |place.phdrs|
  {
    && starter != [] && GapKept(place, |starter|, page, s.headers, j)
    && Prepared(s, maps, elf, exe, place.Address(), page)
  }

  lemma FilesFaithful(mem: map<nat, byte>, maps: seq<Mapping>, files: seq<seq<byte>>, dumps: seq<DumpFile>)
    requires |files| == |dumps| == |maps|
    requires forall i :: 0 <= i < |maps| ==> dumps[i].data == files[i]
    requires forall i :: 0 <= i < |maps| ==> maps[i].start <= maps[i].stop && DumpOf(mem, maps[i], files[i])
    ensures Faithful(mem, maps, dumps)
  {
    forall i | 0 <= i < |maps| ensures maps[i].start <= maps[i].stop && DumpOf(mem, maps[i], dumps[i].data) {
      assert DumpOf(mem, maps[i], files[i]);
    }
  }

  /** The place for the starter in the files the process has mapped. */
  function Place(maps: seq<Mapping>, disk: map<string, seq<byte>>, starter: seq<byte>, page: nat): (r: Outcome<Gap>)
    ensures r.Done? ==> r.value.segment < |r.value.phdrs|
  {
    PlaceIn(Listed(maps), disk, |starter|, page)
  }

  /** What has been built: for every suitable process, the kernel loads what is
      expected of the new executable. */
  ghost predicate Keeps(exe2: seq<byte>, m: map<nat, byte>, s: Selection, place: Gap, maps: seq<Mapping>,
                        exe: seq<byte>, page: nat, starter: seq<byte>)
    requires page > 0 && place.segment < |place.phdrs|
  {
    forall elf, j :: Suitable(place, s, maps, elf, exe, page, starter, j) ==>
      Exec(exe2, page) == Expected(elf, |s.headers|, page, m, place.Address(), starter)
  }

  /** The stages got through, and the new executable keeps the memory of the
      mappings that were chosen. */
  ghost predicate Delivered(exe2: seq<byte>, mem: map<nat, byte>, initMaps: seq<Mapping>, maps: seq<Mapping>,
                            dumps: seq<DumpFile>, sp: nat, dlArgc: nat, disk: map<string, seq<byte>>, exe: seq<byte>,
                            page: nat, starter: seq<byte>)
    requires page > 0 && |dumps| == |maps|
  {
    && KernelStackIndex(initMaps, sp) < |initMaps|
    && var p := Observed(initMaps, sp, dlArgc);
       && Select(maps, dumps, p).Done? && Place(maps, disk, starter, page).Done?
       && Keeps(exe2, KeptMemory(mem, maps, dumps, p), Select(maps, dumps, p).value,
                Place(maps, disk, starter, page).value, maps, exe, page, starter)
  }

  /** The breakpoint, moved by the interpreter's load offset, is planted and hit. */
  ghost predicate Hits(first: Stop, stops: seq<Stop>, interpreterEntry: nat, breakpointStart: nat)
    requires ProperStop(first) && ProperStops(stops)
  {
    first.Stopped? &&
    var bp := BreakpointAddress(breakpointStart, ValOffset(first.regs[PC_REG], interpreterEntry));
    var k := FinalStop(stops, bp);
    k < |stops| && stops[k].Stopped? && Mapped(first.mem, Aligned(bp))
  }

  /** Memory of the process at the first hit, without the trap byte. */
  ghost function HitMemory(first: Stop, stops: seq<Stop>, interpreterEntry: nat, breakpointStart: nat): map<nat, byte>
    requires ProperStop(first) && ProperStops(stops) && Hits(first, stops, interpreterEntry, breakpointStart)
  {
    var bp := BreakpointAddress(breakpointStart, ValOffset(first.regs[PC_REG], interpreterEntry));
    Clean(stops[FinalStop(stops, bp)].mem, first.mem, bp)
  }

  /** One dump for each mapping, of this memory and with this soname. */
  ghost predicate DumpsOf(dumps: seq<DumpFile>, mem: map<nat, byte>, maps: seq<Mapping>,
                          sonames: seq<Outcome<string>>) {
    && |sonames| == |maps| && Faithful(mem, maps, dumps)
    && forall i :: 0 <= i < |dumps| ==> dumps[i].soname == sonames[i]
  }

  /** The debugger gets through: the load offset is a multiple of a page, and at the
      hit the breakpoint's word and all mappings can be read. */
  ghost predicate Ready(first: Stop, stops: seq<Stop>, interpreterEntry: nat, breakpointStart: nat, page: nat,
                        maps: seq<Mapping>)
    requires ProperStop(first) && ProperStops(stops) && page > 0
  {
    && Hits(first, stops, interpreterEntry, breakpointStart)
    && (forall i :: 0 <= i < |maps| ==>
          Dumpable(HitMemory(first, stops, interpreterEntry, breakpointStart), maps[i]))
    && var offset := ValOffset(first.regs[PC_REG], interpreterEntry);
       var bp := BreakpointAddress(breakpointStart, offset);
       offset % page == 0 && Mapped(stops[FinalStop(stops, bp)].mem, Aligned(bp))
  }

  /** The debugger's part: one dump for each mapping, exactly when it gets through. */
  method DumpProcess(first: Stop, stops: seq<Stop>, names: seq<string>, interpreterEntry: nat, breakpointStart: nat,
                     page: nat, maps: seq<Mapping>, sonames: seq<Outcome<string>>)
    returns (r: Outcome<seq<DumpFile>>)
    requires ProperStop(first) && ProperStops(stops) && |names| == NUM_REGS && page > 0 && |sonames| == |maps|
    ensures r.Done? <==> Ready(first, stops, interpreterEntry, breakpointStart, page, maps)
    ensures r.Done? ==>
              && Hits(first, stops, interpreterEntry, breakpointStart)
              && DumpsOf(r.value, HitMemory(first, stops, interpreterEntry, breakpointStart), maps, sonames)
  {
    var snap := Parent(first, stops, names, interpreterEntry, breakpointStart, page, maps);
    if snap.Failed? {
      return Exit(snap.error);
    }
    if !snap.Snapped? {
      return Exit(NoSnapshot);
    }
    var dumps := seq(|maps|, i requires 0 <= i < |maps| => DumpFile(snap.dumps[i], sonames[i]));
    FilesFaithful(HitMemory(first, stops, interpreterEntry, breakpointStart), maps, snap.dumps, dumps);
    return Done(dumps);
  }

  /** Where the loader keeps its argument count: it is moved like the breakpoint. */
  function ArgcAddress(first: Stop, interpreterEntry: nat, dlArgc: nat): nat
    requires ProperStop(first) && first.Stopped?
  {
    (dlArgc + ValOffset(first.regs[PC_REG], interpreterEntry)) % TWO64
  }

  lemma PtLoadValid(initMaps: seq<Mapping>, maps: seq<Mapping>, dumps: seq<DumpFile>, sp: nat, dlArgc: nat,
                    exe: seq<byte>, page: nat)
    requires |dumps| == |maps| && ValidExe(exe, |maps|, page)
    ensures var sel := PtLoadResult(initMaps, maps, dumps, sp, dlArgc);
      sel.Done? ==> ValidInput(exe, EncodePhdrs(sel.value.headers), page)
  {
    if KernelStackIndex(initMaps, sp) < |initMaps| {
      var p := Observed(initMaps, sp, dlArgc);
      if Select(maps, dumps, p).Done? {
        SelectionValid(maps, dumps, p, exe, page);
      }
    }
  }

  /** What `CreateNewExe` makes of these dumps. */
  function Produced(initMaps: seq<Mapping>, maps: seq<Mapping>, dumps: seq<DumpFile>, sp: nat, dlArgc: nat,
                    disk: map<string, seq<byte>>, exe: seq<byte>, page: nat, starter: seq<byte>): Outcome<seq<byte>>
    requires |dumps| == |maps| && ValidExe(exe, |maps|, page)
  {
    PtLoadValid(initMaps, maps, dumps, sp, dlArgc, exe, page);
    NewExe(EntryOf(Place(maps, disk, starter, page)), PtLoadResult(initMaps, maps, dumps, sp, dlArgc), exe, page,
           starter)
  }

  /** The builder gets through: the kernel's stack is known, the mappings can be
      classified, some file has room, and the process is suitable. */
  ghost predicate Deliverable(initMaps: seq<Mapping>, maps: seq<Mapping>, dumps: seq<DumpFile>, sp: nat, dlArgc: nat,
                              disk: map<string, seq<byte>>, exe: seq<byte>, page: nat, starter: seq<byte>)
    requires page > 0 && |dumps| == |maps|
  {
    && KernelStackIndex(initMaps, sp) < |initMaps|
    && var sel := Select(maps, dumps, Observed(initMaps, sp, dlArgc));
       && sel.Done? && Place(maps, disk, starter, page).Done?
       && exists elf, j ::
            Suitable(Place(maps, disk, starter, page).value, sel.value, maps, elf, exe, page, starter, j)
  }

  /** Debugger and builder in sequence. They get through for every process that is
      ready and suitable, and the result is what `CreateNewExe` makes of the dumps.
      If the kernel loads it, its memory is that of the process at the breakpoint,
      without the trap byte, over all kept mappings, with the starter in the gap
      that was found for it. */
  method Run(first: Stop, stops: seq<Stop>, names: seq<string>, interpreterEntry: nat, breakpointStart: nat,
             page: nat, initMaps: seq<Mapping>, maps: seq<Mapping>, sonames: seq<Outcome<string>>,
             dlArgc: nat, disk: map<string, seq<byte>>, exe: seq<byte>, starter: seq<byte>)
    returns (r: Outcome<seq<byte>>, ghost dumps: seq<DumpFile>)
    requires ProperStop(first) && ProperStops(stops) && |names| == NUM_REGS
    requires |sonames| == |maps| && ValidExe(exe, |maps|, page)
    ensures r.Done? ==> Ready(first, stops, interpreterEntry, breakpointStart, page, maps)
    ensures Ready(first, stops, interpreterEntry, breakpointStart, page, maps) ==>
              var mem := HitMemory(first, stops, interpreterEntry, breakpointStart);
              var sp, argc := first.regs[SP_REG], ArgcAddress(first, interpreterEntry, dlArgc);
              && DumpsOf(dumps, mem, maps, sonames)
              && r == Produced(initMaps, maps, dumps, sp, argc, disk, exe, page, starter)
              && (Deliverable(initMaps, maps, dumps, sp, argc, disk, exe, page, starter) ==> r.Done?)
              && (r.Done? ==> Delivered(r.value, mem, initMaps, maps, dumps, sp, argc, disk, exe, page, starter))
  {
    dumps := [];
    var dumped := DumpProcess(first, stops, names, interpreterEntry, breakpointStart, page, maps, sonames);
    if dumped.Exit? {
      return Exit(dumped.error), dumps;
    }
    dumps := dumped.value;
    r := Build(HitMemory(first, stops, interpreterEntry, breakpointStart), initMaps, maps, dumped.value,
               first.regs[SP_REG], ArgcAddress(first, interpreterEntry, dlArgc), disk, exe, page, starter);
  }

  /** `CreateNewExe` on faithful dumps. */
  method Build(ghost mem: map<nat, byte>, initMaps: seq<Mapping>, maps: seq<Mapping>, dumps: seq<DumpFile>,
               sp: nat, dlArgc: nat, disk: map<string, seq<byte>>, exe: seq<byte>, page: nat, starter: seq<byte>)
    returns (r: Outcome<seq<byte>>)
    requires Faithful(mem, maps, dumps) && ValidExe(exe, |maps|, page)
    ensures r == Produced(initMaps, maps, dumps, sp, dlArgc, disk, exe, page, starter)
    ensures Deliverable(initMaps, maps, dumps, sp, dlArgc, disk, exe, page, starter) ==> r.Done?
    ensures r.Done? ==> Delivered(r.value, mem, initMaps, maps, dumps, sp, dlArgc, disk, exe, page, starter)
  {
    PtLoadValid(initMaps, maps, dumps, sp, dlArgc, exe, page);
    r := CreateNewExe(initMaps, maps, dumps, sp, dlArgc, disk, exe, page, starter);
    if r.Done? {
      var p := Observed(initMaps, sp, dlArgc);
      BuildKeeps(mem, maps, dumps, p, Select(maps, dumps, p).value, disk, exe, page, starter, r.value);
    }
    if Deliverable(initMaps, maps, dumps, sp, dlArgc, disk, exe, page, starter) {
      var p := Observed(initMaps, sp, dlArgc);
      SuitableBuilds(mem, maps, dumps, p, Select(maps, dumps, p).value, disk, exe, page, starter);
    }
  }

  lemma SuitableBuilds(mem: map<nat, byte>, maps: seq<Mapping>, dumps: seq<DumpFile>, p: MapFilter.Process,
                       s: Selection, disk: map<string, seq<byte>>, exe: seq<byte>, page: nat, starter: seq<byte>)
    requires Faithful(mem, maps, dumps) && Select(maps, dumps, p) == Done(s)
    requires ValidInput(exe, EncodePhdrs(s.headers), page) && Place(maps, disk, starter, page).Done?
    requires exists elf, j :: Suitable(Place(maps, disk, starter, page).value, s, maps, elf, exe, page, starter, j)
    ensures NewExe(EntryOf(Place(maps, disk, starter, page)), Done(s), exe, page, starter).Done?
  {
    var place := Place(maps, disk, starter, page).value;
    var elf, j :| Suitable(place, s, maps, elf, exe, page, starter, j);
    GapIsConfined(Listed(maps), disk, |starter|, page, s.headers, j);
    SnapshotPreserved(mem, maps, dumps, p, s, elf, exe, place.Address(), page, starter, j, j);
  }

  lemma BuildKeeps(mem: map<nat, byte>, maps: seq<Mapping>, dumps: seq<DumpFile>, p: MapFilter.Process, s: Selection,
                   disk: map<string, seq<byte>>, exe: seq<byte>, page: nat, starter: seq<byte>, exe2: seq<byte>)
    requires Faithful(mem, maps, dumps) && Select(maps, dumps, p) == Done(s)
    requires ValidInput(exe, EncodePhdrs(s.headers), page) && Place(maps, disk, starter, page).Done?
    requires NewExe(EntryOf(Place(maps, disk, starter, page)), Done(s), exe, page, starter) == Done(exe2)
    ensures Keeps(exe2, KeptMemory(mem, maps, dumps, p), s, Place(maps, disk, starter, page).value,
                  maps, exe, page, starter)
  {
    var place := Place(maps, disk, starter, page).value;
    forall elf, j | Suitable(place, s, maps, elf, exe, page, starter, j)
      ensures Exec(exe2, page)
              == Expected(elf, |s.headers|, page, KeptMemory(mem, maps, dumps, p), place.Address(), starter)
    {
      GapIsConfined(Listed(maps), disk, |starter|, page, s.headers, j);
      SnapshotPreserved(mem, maps, dumps, p, s, elf, exe, place.Address(), page, starter, j, j);
    }
  }

  // --------------------------------------- Readiness, without its own terms

  /** Stop `k` is the first that is no arch_prctl call and one byte behind the breakpoint
      `bp`, the interpreter was moved by whole pages, and what has to be read can be. */
  predicate HitAt(first: Stop, stops: seq<Stop>, interpreterEntry: nat, page: nat, maps: seq<Mapping>, k: nat,
                  bp: nat)
    requires ProperStop(first) && ProperStops(stops) && page > 0
  {
    && first.Stopped? && k < |stops| && stops[k].Stopped?
    && (first.regs[16] - interpreterEntry) % TWO64 % page == 0
    && stops[k].regs[15] != 158 && stops[k].regs[16] == (bp + 1) % TWO64
    && (forall i :: 0 <= i < k ==>
          stops[i].Stopped? && (stops[i].regs[15] == 158 || stops[i].regs[16] != (bp + 1) % TWO64))
    && (forall a :: bp - bp % 8 <= a < bp - bp % 8 + 8 ==> a in first.mem && a in stops[k].mem)
    && forall i :: 0 <= i < |maps| ==>
         && maps[i].start < maps[i].stop && maps[i].start % 8 == 0 && maps[i].stop % 8 == 0
         && forall a :: maps[i].start <= a < maps[i].stop ==> a in stops[k].mem
  }

  /** Exactly then the debugger gets through, and the snapshot is memory at that stop, but
      in the breakpoint's word what was there at the start. */
  lemma ReadyIff(first: Stop, stops: seq<Stop>, interpreterEntry: nat, breakpointStart: nat, page: nat,
                 maps: seq<Mapping>, k: nat, bp: nat)
    requires ProperStop(first) && ProperStops(stops) && page > 0 && first.Stopped?
    requires bp == (breakpointStart + (first.regs[16] - interpreterEntry) % TWO64) % TWO64
    ensures HitAt(first, stops, interpreterEntry, page, maps, k, bp) <==>
            Ready(first, stops, interpreterEntry, breakpointStart, page, maps) && k == FinalStop(stops, bp)
  {
    HitIsFinal(stops, bp, (bp + 1) % TWO64, k);
    if k < |stops| && stops[k].Stopped? && Mapped(first.mem, Aligned(bp)) {
      var clean := Clean(stops[k].mem, first.mem, bp);
      forall i | 0 <= i < |maps|
        ensures Dumpable(clean, maps[i]) <==>
                && maps[i].start < maps[i].stop && maps[i].start % 8 == 0 && maps[i].stop % 8 == 0
                && forall a :: maps[i].start <= a < maps[i].stop ==> a in stops[k].mem
      {
        SameKeysDumpable(clean, stops[k].mem, maps[i]);
      }
    }
  }

  lemma HitMemoryByte(first: Stop, stops: seq<Stop>, interpreterEntry: nat, breakpointStart: nat, page: nat,
                      maps: seq<Mapping>, k: nat, bp: nat, a: nat)
    requires ProperStop(first) && ProperStops(stops) && page > 0 && first.Stopped?
    requires bp == (breakpointStart + (first.regs[16] - interpreterEntry) % TWO64) % TWO64
    requires HitAt(first, stops, interpreterEntry, page, maps, k, bp) && a in stops[k].mem
    ensures Hits(first, stops, interpreterEntry, breakpointStart)
    ensures var mem := HitMemory(first, stops, interpreterEntry, breakpointStart);
      a in mem && mem[a] == if bp - bp % 8 <= a < bp - bp % 8 + 8 then first.mem[a] else stops[k].mem[a]
  {
    ReadyIff(first, stops, interpreterEntry, breakpointStart, page, maps, k, bp);
    if bp - bp % 8 <= a < bp - bp % 8 + 8 { ReadWordAt(first.mem, bp - bp % 8, a - (bp - bp % 8)); }
  }

  /** The loader's variable is as far from the interpreter's entry in memory as in the
      file. */
  lemma ArgcMoves(first: Stop, interpreterEntry: nat, dlArgc: nat)
    requires ProperStop(first) && first.Stopped?
    ensures (ArgcAddress(first, interpreterEntry, dlArgc) - first.regs[16]) % TWO64
            == (dlArgc - interpreterEntry) % TWO64
  {
    BreakpointMoves(first.regs[16], interpreterEntry, dlArgc);
  }
}
