/** `CreateNewExe` of src/statifier_create_exe.sh from the dumps to the finished
    executable, and the promise of the whole suite: running the executable shows
    the memory of the snapshot again. */
module Snapshot {
  import opened Arith
  import opened Bytes
  import opened Elf
  import opened Outcomes
  import opened Layout
  import opened Relocation
  import opened HeaderMerge
  import opened NonPtLoad
  import opened ImageFacts
  import opened MapFilter
  import opened Ptrace
  import opened PartialRead
  import opened InjectStarter
  import opened Fep
  import opened Loader
  import opened StarterPlace
  import opened Overlay

  /** The stages of `CreateNewExe` chained by what they hand on: the entry point,
      headers and dump files, and the file as far as it is built. */
  function NewExe(entry: Outcome<nat>, sel: Outcome<Selection>, exe: seq<byte>, page: nat, starter: seq<byte>)
    : Outcome<seq<byte>>
    requires sel.Done? ==> ValidInput(exe, EncodePhdrs(sel.value.headers), page)
  {
    match entry
    case Exit(e) => Exit(e)
    case Done(at) =>
      match sel
      case Exit(e) => Exit(e)
      case Done(s) => Finished(at, s, exe, page, starter)
  }

  function Finished(entry: nat, s: Selection, exe: seq<byte>, page: nat, starter: seq<byte>): Outcome<seq<byte>>
    requires ValidInput(exe, EncodePhdrs(s.headers), page)
  {
    match Output(exe, EncodePhdrs(s.headers), entry, page)
    case Exit(e) => Exit(e)
    case Done(image) =>
      OutputReads(exe, EncodePhdrs(s.headers), entry, page, Flatten(s.files));
      Injected(Assemble(image, s.files), starter)
  }

  method CreateNewExe(initMaps: seq<Mapping>, maps: seq<Mapping>, dumps: seq<DumpFile>, sp: nat, dlArgc: nat,
                      disk: map<string, seq<byte>>, exe: seq<byte>, page: nat, starter: seq<byte>)
    returns (r: Outcome<seq<byte>>)
    requires var sel := PtLoadResult(initMaps, maps, dumps, sp, dlArgc);
      sel.Done? ==> ValidInput(exe, EncodePhdrs(sel.value.headers), page)
    ensures r == NewExe(EntryOf(PlaceIn(Listed(maps), disk, |starter|, page)),
                        PtLoadResult(initMaps, maps, dumps, sp, dlArgc), exe, page, starter)
  {
    var entry := FindEntry(maps, disk, |starter|, page);
    if entry.Exit? { return Exit(entry.error); }
    var sel := PtLoad(initMaps, maps, dumps, sp, dlArgc);
    if sel.Exit? { return Exit(sel.error); }
    r := BuildFile(entry.value, sel.value, exe, page, starter);
  }

  /** The stages behind the two that read the maps file. */
  method BuildFile(entry: nat, s: Selection, exe: seq<byte>, page: nat, starter: seq<byte>)
    returns (r: Outcome<seq<byte>>)
    requires ValidInput(exe, EncodePhdrs(s.headers), page)
    ensures r == Finished(entry, s, exe, page, starter)
  {
    var loadFile := EncodePhdrs(s.headers);
    var image := NonPtLoad.Run(exe, loadFile, entry, page);
    if image.Exit? { return Exit(image.error); }
    OutputReads(exe, loadFile, entry, page, Flatten(s.files));
    var newExe := ToArray(Assemble(image.value, s.files));
    var before := AnyBefore();
    HeldIsRead(newExe[..], before);
    var injected := Inject(starter, newExe, before);
    if injected.Exit? { return Exit(injected.error); }
    return Done(newExe[..]);
  }

  // ------------------------------------------------------ The snapshot

  /** Mappings of the process: nonempty, inside the address space, disjoint. */
  predicate ProperMaps(maps: seq<Mapping>) {
    && (forall i :: 0 <= i < |maps| ==> maps[i].start < maps[i].stop < TWO64 && |maps[i].perm| >= 3)
    && (forall i, j :: 0 <= i < |maps| && 0 <= j < |maps| && i != j ==>
          maps[i].stop <= maps[j].start || maps[j].stop <= maps[i].start)
  }

  predicate Faithful(mem: map<nat, byte>, maps: seq<Mapping>, dumps: seq<DumpFile>) {
    && |dumps| == |maps|
    && forall i :: 0 <= i < |maps| ==> maps[i].start <= maps[i].stop && DumpOf(mem, maps[i], dumps[i].data)
  }

  predicate InMapping(m: Mapping, a: nat) {
    m.start <= a < m.stop
  }

  /** Memory of the process in the mappings that are kept. */
  ghost function KeptMemory(mem: map<nat, byte>, maps: seq<Mapping>, dumps: seq<DumpFile>, p: Process): map<nat, byte>
    requires |dumps| == |maps|
  {
    map a | a in mem && (exists i :: 0 <= i < |maps| && Kept(maps[i], dumps[i], p) && InMapping(maps[i], a)) :: mem[a]
  }

  // --------------------------------------------- Headers and dumps agree

  /** Headers as src/pt_load_1.c makes them, with dumps of their sizes. */
  ghost predicate Snapped(s: Selection) {
    && SizesMatch(s.headers, s.files)
    && DisjointInMemory(s.headers)
    && forall k :: 0 <= k < |s.headers| ==>
         var h := s.headers[k];
         && h.ptype == PT_LOAD && h.offset == 0 && h.Fits() && h.filesz == h.memsz && h.filesz > 0
         && h.vaddr + h.filesz < TWO64
  }

  lemma SelectionSnapped(mem: map<nat, byte>, maps: seq<Mapping>, dumps: seq<DumpFile>, p: Process)
    requires ProperMaps(maps) && Faithful(mem, maps, dumps) && Select(maps, dumps, p).Done?
    ensures Snapped(Select(maps, dumps, p).value)
  {
    SelectionLockstep(maps, dumps, p);
    KeptIndicesExact(maps, dumps, p);
    var s, kept := Select(maps, dumps, p).value, KeptIndices(maps, dumps, p);
    forall k | 0 <= k < |s.headers|
      ensures |s.files[k]| == s.headers[k].filesz
      ensures var h := s.headers[k];
        && h.ptype == PT_LOAD && h.offset == 0 && h.Fits() && h.filesz == h.memsz && h.filesz > 0
        && h.vaddr + h.filesz < TWO64
    {
      var m := maps[kept[k]];
      assert SegmentHeader(m.start, m.stop, FinalPermission(m, p)) == Done(s.headers[k]);
      assert DumpOf(mem, m, dumps[kept[k]].data);
    }
    forall i, j | 0 <= i < |s.headers| && 0 <= j < |s.headers| && i != j
      ensures s.headers[i].vaddr + s.headers[i].filesz <= s.headers[j].vaddr
              || s.headers[j].vaddr + s.headers[j].filesz <= s.headers[i].vaddr
    {
      var m, m' := maps[kept[i]], maps[kept[j]];
      assert SegmentHeader(m.start, m.stop, FinalPermission(m, p)) == Done(s.headers[i]);
      assert SegmentHeader(m'.start, m'.stop, FinalPermission(m', p)) == Done(s.headers[j]);
      assert kept[i] != kept[j];
    }
  }

  lemma DumpAddress(mem: map<nat, byte>, m: Mapping, d: seq<byte>, a: nat)
    requires m.start <= a < m.stop && DumpOf(mem, m, d)
    ensures a - m.start < |d| && a in mem && d[a - m.start] == mem[a]
  {
  }

  lemma MappingDescribed(mem: map<nat, byte>, maps: seq<Mapping>, dumps: seq<DumpFile>, p: Process, i: nat, h: Phdr)
    requires |dumps| == |maps| && i < |maps| && Kept(maps[i], dumps[i], p)
    requires maps[i].start <= maps[i].stop && DumpOf(mem, maps[i], dumps[i].data)
    requires h.vaddr == maps[i].start && h.filesz == maps[i].stop - maps[i].start
    ensures PartDescribes(h, dumps[i].data, KeptMemory(mem, maps, dumps, p))
  {
    forall a: nat | h.HoldsAddress(a)
      ensures a in KeptMemory(mem, maps, dumps, p)
      ensures KeptMemory(mem, maps, dumps, p)[a] == dumps[i].data[a - h.vaddr]
    {
      DumpAddress(mem, maps[i], dumps[i].data, a);
      assert InMapping(maps[i], a);
    }
  }

  lemma KeptPart(mem: map<nat, byte>, maps: seq<Mapping>, dumps: seq<DumpFile>, p: Process, k: nat)
    requires ProperMaps(maps) && Faithful(mem, maps, dumps) && Select(maps, dumps, p).Done?
    requires k < |Select(maps, dumps, p).value.headers|
    ensures var s := Select(maps, dumps, p).value;
      |s.files| == |s.headers| && PartDescribes(s.headers[k], s.files[k], KeptMemory(mem, maps, dumps, p))
  {
    SelectionLockstep(maps, dumps, p);
    KeptIndicesExact(maps, dumps, p);
    var s, i := Select(maps, dumps, p).value, KeptIndices(maps, dumps, p)[k];
    assert i in KeptIndices(maps, dumps, p);
    assert SegmentHeader(maps[i].start, maps[i].stop, FinalPermission(maps[i], p)) == Done(s.headers[k]);
    MappingDescribed(mem, maps, dumps, p, i, s.headers[k]);
  }

  lemma KeptAddress(mem: map<nat, byte>, maps: seq<Mapping>, dumps: seq<DumpFile>, p: Process, a: nat)
    requires ProperMaps(maps) && Faithful(mem, maps, dumps) && Select(maps, dumps, p).Done?
    requires a in KeptMemory(mem, maps, dumps, p)
    ensures var s := Select(maps, dumps, p).value; exists k :: 0 <= k < |s.headers| && s.headers[k].HoldsAddress(a)
  {
    SelectionLockstep(maps, dumps, p);
    KeptIndicesExact(maps, dumps, p);
    var s, kept := Select(maps, dumps, p).value, KeptIndices(maps, dumps, p);
    var i :| 0 <= i < |maps| && Kept(maps[i], dumps[i], p) && InMapping(maps[i], a);
    assert i in kept;
    var k :| 0 <= k < |kept| && kept[k] == i;
    assert SegmentHeader(maps[i].start, maps[i].stop, FinalPermission(maps[i], p)) == Done(s.headers[k]);
    assert s.headers[k].HoldsAddress(a);
  }

  /** Headers and dump files together describe the kept memory, all of it. */
  lemma SelectionDescribes(mem: map<nat, byte>, maps: seq<Mapping>, dumps: seq<DumpFile>, p: Process)
    requires ProperMaps(maps) && Faithful(mem, maps, dumps) && Select(maps, dumps, p).Done?
    ensures var s := Select(maps, dumps, p).value; Describes(s.headers, s.files, KeptMemory(mem, maps, dumps, p))
  {
    SelectionLockstep(maps, dumps, p);
    forall k: nat | k < |Select(maps, dumps, p).value.headers|
      ensures var s := Select(maps, dumps, p).value;
        PartDescribes(s.headers[k], s.files[k], KeptMemory(mem, maps, dumps, p))
    {
      KeptPart(mem, maps, dumps, p, k);
    }
    forall a | a in KeptMemory(mem, maps, dumps, p)
      ensures var s := Select(maps, dumps, p).value; exists k :: 0 <= k < |s.headers| && s.headers[k].HoldsAddress(a)
    {
      KeptAddress(mem, maps, dumps, p, a);
    }
  }

  /** The file of headers reads back as the headers. */
  lemma LoadsReadBack(headers: seq<Phdr>)
    requires headers != [] && forall k :: 0 <= k < |headers| ==> headers[k].Fits()
    ensures ReadLoads(EncodePhdrs(headers)) == Done(headers)
  {
    EncodedSizes(headers, []);
    var file := EncodePhdrs(headers);
    DivModUnique(|file|, PHDR_SIZE, |headers|, 0);
    assert file[0..PHDR_SIZE * |headers|] == file;
    ReadBackPhdrs(file, 0, headers);
  }

  // ----------------------------------------------------- The finished file

  lemma SamePart(p: Phdr, q: Phdr, part: seq<byte>, m: map<nat, byte>)
    requires PartDescribes(p, part, m) && q.vaddr == p.vaddr && q.filesz == p.filesz
    ensures PartDescribes(q, part, m)
  {
    assert forall a: nat :: q.HoldsAddress(a) ==> p.HoldsAddress(a);
  }

  /** The segments with their offsets describe the same memory. */
  lemma OffsetsDescribe(hs: seq<Phdr>, files: seq<seq<byte>>, base: nat, m: map<nat, byte>)
    requires Describes(hs, files, m)
    ensures Describes(AssignOffsets(hs, base), files, m)
  {
    var ps := AssignOffsets(hs, base);
    forall i | 0 <= i < |ps| ensures PartDescribes(ps[i], files[i], m) {
      SamePart(hs[i], ps[i], files[i], m);
    }
    forall a | a in m ensures exists i :: 0 <= i < |ps| && ps[i].HoldsAddress(a) {
      var i :| 0 <= i < |hs| && hs[i].HoldsAddress(a);
      assert ps[i].HoldsAddress(a);
    }
  }

  lemma OffsetsDisjoint(hs: seq<Phdr>, base: nat)
    requires DisjointInMemory(hs)
    ensures DisjointInMemory(AssignOffsets(hs, base))
  {
  }

  /** A confined starter is written where it belongs, segment by segment. */
  lemma ConfinedHits(hs: seq<Phdr>, base: nat, entry: nat, n: nat, j: nat, u: nat, i: nat)
    requires DisjointInMemory(hs) && Confined(hs, entry, n, j, u) && i < |hs|
    ensures WriteHits(AssignOffsets(hs, base)[i], Position(hs, base, j, entry), entry, n)
  {
    var p := AssignOffsets(hs, base)[i];
    forall a: nat | p.HoldsAddress(a)
      ensures var at := Position(hs, base, j, entry);
        && (at <= PositionOf(p, a) < at + n <==> entry <= a < entry + n)
        && (entry <= a < entry + n ==> PositionOf(p, a) - at == a - entry)
    {
      assert hs[i].HoldsAddress(a);
      OverwrittenIffStarter(hs, base, entry, n, j, u, i, a);
    }
  }

  /** The file behind `cat`: the image is a prefix that ends where the segments
      begin, and every dump is in place. */
  lemma AssembledInPlace(elf: ElfFile, s: Selection, plan: Plan, exe: seq<byte>)
    requires Snapped(s) && LaidOut(elf, s.headers, plan)
    requires Image(elf, plan, exe).Done? && LoopsAgree(elf.shdrs)
    ensures var file := Assemble(Image(elf, plan, exe).value, s.files);
      InPlace(plan.loads, s.files, file) && |file| == plan.base + FileSizes(s.headers)
  {
    forall i | 0 <= i < |plan.loads|
      ensures PartInPlace(plan.loads[i], s.files[i], Assemble(Image(elf, plan, exe).value, s.files))
    {
      DumpAtOffset(elf, s.headers, plan, exe, s.files, i);
    }
    LayoutEqualsEmission(elf, s.headers, plan, exe);
    AllSizes(s.headers, s.files);
  }

  lemma AllSizes(hs: seq<Phdr>, files: seq<seq<byte>>)
    requires SizesMatch(hs, files)
    ensures |Flatten(files)| == FileSizes(hs)
  {
    FileSizesMatch(hs, files, |hs|);
    assert files[..|hs|] == files && hs[..|hs|] == hs;
  }

  /** The planned headers survive the injection, which happens behind them. */
  lemma HeadersSurvive(elf: ElfFile, s: Selection, plan: Plan, exe: seq<byte>, at: nat, starter: seq<byte>)
    requires Snapped(s) && LaidOut(elf, s.headers, plan)
    requires Image(elf, plan, exe).Done? && LoopsAgree(elf.shdrs)
    requires var file := Assemble(Image(elf, plan, exe).value, s.files); plan.base <= at && at + |starter| <= |file|
    ensures var file := Assemble(Image(elf, plan, exe).value, s.files);
      && Image(elf, plan, exe).value <= file
      && Image(elf, plan, exe).value <= Overwrite(file, at, starter)
      && Headers(plan) <= Image(elf, plan, exe).value
  {
    LayoutEqualsEmission(elf, s.headers, plan, exe);
  }

  /** The entry point is looked up in the segment that holds it. */
  lemma EntryInSegment(hs: seq<Phdr>, base: nat, entry: nat, j: nat)
    requires DisjointInMemory(hs) && j < |hs| && hs[j].HoldsAddress(entry)
    requires forall k :: 0 <= k < |hs| ==> hs[k].ptype == PT_LOAD && hs[k].memsz == hs[k].filesz
    ensures EntryOffset(AssignOffsets(hs, base), entry) == Position(hs, base, j, entry)
  {
    var ps := AssignOffsets(hs, base);
    assert Covers(ps[j], entry);
    forall k | 0 <= k < j ensures !Covers(ps[k], entry) {
      assert hs[k].vaddr + hs[k].filesz <= hs[j].vaddr || hs[j].vaddr + hs[j].filesz <= hs[k].vaddr;
    }
    assert EntrySegment(ps, entry) == j;
  }

  /** What the stages leave: an assembled file with readable headers. */
  ghost predicate Planned(elf: ElfFile, s: Selection, plan: Plan, exe: seq<byte>, entry: nat) {
    && Snapped(s) && s.headers != []
    && LaidOut(elf, s.headers, plan) && Readable(plan) && plan.ehdr.entry == entry
    && LoopsAgree(elf.shdrs) && Image(elf, plan, exe).Done?
    && plan.base + FileSizes(s.headers) < TWO64
  }

  function BuiltFile(elf: ElfFile, s: Selection, plan: Plan, exe: seq<byte>): seq<byte>
    requires plan.end <= plan.base && Image(elf, plan, exe).Done?
  {
    Assemble(Image(elf, plan, exe).value, s.files)
  }

  lemma OffsetsFit(hs: seq<Phdr>, base: nat)
    requires base + FileSizes(hs) < TWO64
    ensures forall k :: 0 <= k < |hs| ==> AssignOffsets(hs, base)[k].offset < TWO64
  {
    forall k | 0 <= k < |hs| ensures AssignOffsets(hs, base)[k].offset < TWO64 {
      FileSizesMonotone(hs, k, |hs|);
      assert hs[..|hs|] == hs;
    }
  }

  /** Looked up in the headers of the assembled file, the entry point is where the
      planned segments have it. */
  lemma PlannedLookup(elf: ElfFile, s: Selection, plan: Plan, exe: seq<byte>, entry: nat)
    requires Planned(elf, s, plan, exe, entry)
    ensures var file := BuiltFile(elf, s, plan, exe);
      && ReadElf(file, false).Done? && ReadElf(file, false).value.ehdr.entry == entry
      && EntryOffset(ReadElf(file, false).value.phdrs, entry) == EntryOffset(plan.loads, entry)
  {
    var file := BuiltFile(elf, s, plan, exe);
    AssembledInPlace(elf, s, plan, exe);
    HeadersSurvive(elf, s, plan, exe, plan.base, []);
    OffsetsFit(s.headers, plan.base);
    ReadBackLoads(s.headers, plan, file);
    EntryAmongLoads(ReadElf(file, false).value.phdrs, entry);
  }

  /** src/inject_starter.c finds the planned place in the assembled file. */
  lemma InjectedInPlace(elf: ElfFile, s: Selection, plan: Plan, exe: seq<byte>, entry: nat, starter: seq<byte>, j: nat)
    requires Planned(elf, s, plan, exe, entry)
    requires j < |s.headers| && s.headers[j].HoldsAddress(entry)
    ensures var file := BuiltFile(elf, s, plan, exe);
      var at := Position(s.headers, plan.base, j, entry);
      && at >= plan.base && ReadElf(file, false).Done?
      && Injected(file, starter) ==
           if |file| < |starter| + at then Exit(StarterTooBig) else Done(Overwrite(file, at, starter))
  {
    PlannedLookup(elf, s, plan, exe, entry);
    EntryInSegment(s.headers, plan.base, entry, j);
    assert PHDR_SIZE > 0 && plan.base > 0;
  }

  /** In a built file the search for the entry point fails exactly when no segment
      holds it: file offset 0 never stands for a place. */
  lemma NoEntryIffOutside(elf: ElfFile, s: Selection, plan: Plan, exe: seq<byte>, entry: nat, starter: seq<byte>)
    requires Planned(elf, s, plan, exe, entry)
    ensures ReadElf(BuiltFile(elf, s, plan, exe), false).Done?
    ensures Injected(BuiltFile(elf, s, plan, exe), starter) == Exit(NoEntrySegment)
            <==> forall k :: 0 <= k < |s.headers| ==> !s.headers[k].HoldsAddress(entry)
  {
    PlannedLookup(elf, s, plan, exe, entry);
    ZeroMeansNoSegment(plan.loads, entry);
    CoveredIffHeld(s, plan.base, entry);
  }

  lemma CoveredIffHeld(s: Selection, base: nat, entry: nat)
    requires Snapped(s)
    ensures (forall k :: 0 <= k < |s.headers| ==> !Covers(AssignOffsets(s.headers, base)[k], entry))
            <==> forall k :: 0 <= k < |s.headers| ==> !s.headers[k].HoldsAddress(entry)
  {
    forall k | 0 <= k < |s.headers|
      ensures Covers(AssignOffsets(s.headers, base)[k], entry) <==> s.headers[k].HoldsAddress(entry)
    {
    }
  }

  /** Memory image of a file with planned headers. */
  lemma ExecOfPlanned(s: Selection, plan: Plan, final: seq<byte>, page: nat)
    requires Snapped(s) && s.headers != [] && Readable(plan) && page > 0
    requires plan.loads == AssignOffsets(s.headers, plan.base) && plan.base + FileSizes(s.headers) < TWO64
    requires Headers(plan) <= final && AlignedMappings(s.headers, page)
    ensures Exec(final, page) ==
            if KernelKnows(plan.ehdr) && TableAccepted(plan.ehdr.phnum) && plan.base % page == 0
            then Loaded(LoadSegments(final, plan.loads)) else Refused
  {
    OffsetsFit(s.headers, plan.base);
    ReadBackLoads(s.headers, plan, final);
    var phdrs := ReadElf(final, false).value.phdrs;
    LoadAmongLoads(final, phdrs);
    CongruentAmongLoads(phdrs, page);
    CongruentIffBaseAligned(s.headers, plan.base, page);
  }

  lemma BuiltMemory(elf: ElfFile, s: Selection, plan: Plan, exe: seq<byte>, entry: nat, page: nat,
                    starter: seq<byte>, m: map<nat, byte>, j: nat, u: nat)
    requires Planned(elf, s, plan, exe, entry) && page > 0 && AlignedMappings(s.headers, page)
    requires Describes(s.headers, s.files, m) && Confined(s.headers, entry, |starter|, j, u)
    ensures var file := BuiltFile(elf, s, plan, exe);
      var at := Position(s.headers, plan.base, j, entry);
      && ReadElf(file, false).Done? && at + |starter| <= |file|
      && Injected(file, starter) == Done(Overwrite(file, at, starter))
      && Exec(Overwrite(file, at, starter), page) ==
           if KernelKnows(plan.ehdr) && TableAccepted(plan.ehdr.phnum) && plan.base % page == 0
           then Loaded(WithStarter(m, entry, starter)) else Refused
  {
    var file := BuiltFile(elf, s, plan, exe);
    var at := Position(s.headers, plan.base, j, entry);
    InjectedInPlace(elf, s, plan, exe, entry, starter, j);
    AssembledInPlace(elf, s, plan, exe);
    ConfinedInFile(s.headers, plan.base, entry, |starter|, j, u);
    HeadersSurvive(elf, s, plan, exe, at, starter);
    ExecOfPlanned(s, plan, Overwrite(file, at, starter), page);
    OffsetsDescribe(s.headers, s.files, plan.base, m);
    OffsetsDisjoint(s.headers, plan.base);
    forall i | 0 <= i < |plan.loads| ensures WriteHits(plan.loads[i], at, entry, |starter|) {
      ConfinedHits(s.headers, plan.base, entry, |starter|, j, u, i);
    }
    LoadedIsOverlay(plan.loads, s.files, file, m, at, entry, starter);
  }

  lemma ConfinedInFile(hs: seq<Phdr>, base: nat, entry: nat, n: nat, j: nat, u: nat)
    requires Confined(hs, entry, n, j, u)
    ensures Position(hs, base, j, entry) + n <= base + FileSizes(hs)
  {
    RunShift(hs, base, j, u);
    FileSizesStep(hs, u);
    FileSizesMonotone(hs, u + 1, |hs|);
    assert hs[..|hs|] == hs;
  }

  /** The stages before the injection, seen from their result. */
  lemma StagesBuild(elf: ElfFile, s: Selection, exe: seq<byte>, entry: nat, page: nat)
    requires Snapped(s) && s.headers != []
    requires ValidInput(exe, EncodePhdrs(s.headers), page) && entry < TWO64
    requires ReadElf(exe, true) == Done(elf) && LoopsAgree(elf.shdrs)
    requires Output(exe, EncodePhdrs(s.headers), entry, page).Done?
    requires |Output(exe, EncodePhdrs(s.headers), entry, page).value| + FileSizes(s.headers) < TWO64
    ensures Plannable(elf, page)
    ensures var plan := MakePlan(elf, s.headers, entry, page);
      && Planned(elf, s, plan, exe, entry)
      && Output(exe, EncodePhdrs(s.headers), entry, page) == Image(elf, plan, exe)
  {
    ReadElfFits(exe, true);
    LoadsReadBack(s.headers);
    EncodedSizes(s.headers, []);
    PlanLaidOut(elf, s.headers, entry, page);
    PlanReadable(elf, s.headers, entry, page);
    LayoutEqualsEmission(elf, s.headers, MakePlan(elf, s.headers, entry, page), exe);
  }

  /** What must be said about mappings and executable for the promise to hold. */
  ghost predicate Prepared(s: Selection, maps: seq<Mapping>, elf: ElfFile, exe: seq<byte>, entry: nat, page: nat)
    requires page > 0
  {
    && ProperMaps(maps) && AlignedMappings(s.headers, page)
    && ReadElf(exe, true) == Done(elf) && LoopsAgree(elf.shdrs)
    && ValidInput(exe, EncodePhdrs(s.headers), page)
    && Output(exe, EncodePhdrs(s.headers), entry, page).Done?
    && |Output(exe, EncodePhdrs(s.headers), entry, page).value| + FileSizes(s.headers) < TWO64
  }

  /** In an output with `n` snapshot segments these begin on a page of the file:
      the first PT_LOAD segment of the executable is aligned to a page at least,
      or what is in front of them happens to end on one. */
  predicate BeginsOnPage(elf: ElfFile, n: nat, page: nat)
    requires page > 0
  {
    var f := FirstLoad(elf.phdrs);
    var used := EHDR_SIZE + PHDR_SIZE * (n + |Others(elf.phdrs)|) + SHDR_SIZE * elf.ehdr.shnum + PlacedSize(elf.shdrs);
    f < |elf.phdrs| && elf.phdrs[f].align > 0
    && (elf.phdrs[f].align >= page || RoundUp(used, elf.phdrs[f].align) % page == 0)
  }

  lemma BaseOnPageIff(elf: ElfFile, pls: seq<Phdr>, entry: nat, page: nat)
    requires Plannable(elf, page)
    ensures MakePlan(elf, pls, entry, page).base % page == 0 <==> BeginsOnPage(elf, |pls|, page)
  {
    var f := FirstLoad(elf.phdrs);
    var plan := MakePlan(elf, pls, entry, page);
    assert plan.start == EHDR_SIZE + PHDR_SIZE * (|pls| + |Others(elf.phdrs)|) + SHDR_SIZE * elf.ehdr.shnum;
    assert plan.base == RoundUp(plan.end, Min(elf.phdrs[f].align, page));
  }

  /** The kernel accepts an output with `n` snapshot segments: the executable was
      one it knows, the table is not too long, and the segments begin on a page. */
  predicate Acceptable(elf: ElfFile, n: nat, page: nat)
    requires page > 0
  {
    KernelKnows(elf.ehdr) && TableAccepted(n + |Others(elf.phdrs)|) && BeginsOnPage(elf, n, page)
  }

  lemma AcceptedIff(elf: ElfFile, pls: seq<Phdr>, entry: nat, page: nat)
    requires Plannable(elf, page)
    ensures var plan := MakePlan(elf, pls, entry, page);
      KernelKnows(plan.ehdr) && TableAccepted(plan.ehdr.phnum) && plan.base % page == 0
      <==> Acceptable(elf, |pls|, page)
  {
    BaseOnPageIff(elf, pls, entry, page);
  }

  /** What the kernel should make of the finished file: memory `m` with the starter
      over it, or nothing. */
  function Expected(elf: ElfFile, n: nat, page: nat, m: map<nat, byte>, entry: nat, starter: seq<byte>): Memory
    requires page > 0
  {
    if Acceptable(elf, n, page) then Loaded(WithStarter(m, entry, starter)) else Refused
  }

  /** THE PROMISE. A new executable was built from faithful dumps, its entry
      point and starter lying inside the kept memory. The kernel then loads
      exactly the memory of the kept mappings, with the starter's bytes at the
      entry point and every other byte as it was in the snapshot; it refuses the
      file exactly when it does not know the executable, the table of program
      headers is too long, or the segments do not begin on a page of the file. */
  lemma SnapshotPreserved(mem: map<nat, byte>, maps: seq<Mapping>, dumps: seq<DumpFile>, p: Process, s: Selection,
                          elf: ElfFile, exe: seq<byte>, entry: nat, page: nat, starter: seq<byte>, j: nat, u: nat)
    requires Faithful(mem, maps, dumps) && Select(maps, dumps, p) == Done(s) && page > 0
    requires Prepared(s, maps, elf, exe, entry, page) && Confined(s.headers, entry, |starter|, j, u)
    ensures var r := NewExe(Done(entry), Done(s), exe, page, starter);
      && r.Done?
      && Exec(r.value, page) == Expected(elf, |s.headers|, page, KeptMemory(mem, maps, dumps, p), entry, starter)
  {
    SelectionSnapped(mem, maps, dumps, p);
    SelectionDescribes(mem, maps, dumps, p);
    FinishedMemory(s, KeptMemory(mem, maps, dumps, p), maps, elf, exe, entry, page, starter, j, u);
  }

  /** The same for any headers and dumps that describe a memory. */
  lemma FinishedMemory(s: Selection, m: map<nat, byte>, maps: seq<Mapping>, elf: ElfFile, exe: seq<byte>, entry: nat,
                       page: nat, starter: seq<byte>, j: nat, u: nat)
    requires Snapped(s) && Describes(s.headers, s.files, m) && page > 0
    requires Prepared(s, maps, elf, exe, entry, page) && Confined(s.headers, entry, |starter|, j, u)
    ensures var r := Finished(entry, s, exe, page, starter);
      r.Done? && Exec(r.value, page) == Expected(elf, |s.headers|, page, m, entry, starter)
  {
    FinishedFile(s, maps, elf, exe, entry, page, starter, j, u);
    AcceptedIff(elf, s.headers, entry, page);
    BuiltMemory(elf, s, MakePlan(elf, s.headers, entry, page), exe, entry, page, starter, m, j, u);
  }

  /** The finished file, in terms of the plan. */
  lemma FinishedFile(s: Selection, maps: seq<Mapping>, elf: ElfFile, exe: seq<byte>, entry: nat, page: nat,
                     starter: seq<byte>, j: nat, u: nat)
    requires Snapped(s) && page > 0
    requires Prepared(s, maps, elf, exe, entry, page) && Confined(s.headers, entry, |starter|, j, u)
    ensures Plannable(elf, page)
    ensures var plan := MakePlan(elf, s.headers, entry, page);
      && Planned(elf, s, plan, exe, entry)
      && var file := BuiltFile(elf, s, plan, exe);
         var at := Position(s.headers, plan.base, j, entry);
         && plan.base <= at && at + |starter| <= |file| < TWO64
         && Finished(entry, s, exe, page, starter) == Done(Overwrite(file, at, starter))
  {
    StagesBuild(elf, s, exe, entry, page);
    var plan := MakePlan(elf, s.headers, entry, page);
    InjectedInPlace(elf, s, plan, exe, entry, starter, j);
    AssembledInPlace(elf, s, plan, exe);
    ConfinedInFile(s.headers, plan.base, entry, |starter|, j, u);
  }

  // ------------------------------------- Sections of the finished file

  /** Section `x` is allocated and lies in PT_LOAD segment `pe` of an executable
      whose segments are disjoint in the file and properly aligned. */
  ghost predicate InLoad(elf: ElfFile, page: nat, x: nat, pe: nat) {
    && x < |elf.shdrs| && elf.shdrs[x].Allocated()
    && pe < |elf.phdrs| && elf.phdrs[pe].ptype == PT_LOAD && DisjointInFile(elf.phdrs)
    && elf.phdrs[pe].HoldsOffset(elf.shdrs[x].offset)
    && PowerOfTwo(page) && PowerOfTwo(elf.phdrs[pe].align)
  }

  ghost function SectionAddress(elf: ElfFile, page: nat, x: nat, pe: nat): nat
    requires InLoad(elf, page, x, pe)
  {
    AddressOf(elf.phdrs[pe], elf.shdrs[x].offset)
  }

  /** The snapshot continues segment `pe`, and segment `v` belongs to the run of
      mappings it was split into. */
  ghost predicate Continued(pe: Phdr, headers: seq<Phdr>, page: nat, v: nat) {
    && MinAlign(pe, page) < TWO64
    && var t := FindLoad(pe, headers, page); t >= 0 && AdjacentRun(headers, t, v)
  }

  /** New offsets do not change which segment continues another. */
  lemma FindLoadPlaced(pe: Phdr, headers: seq<Phdr>, base: nat, page: nat)
    requires MinAlign(pe, page) < TWO64
    ensures FindLoad(pe, AssignOffsets(headers, base), page) == FindLoad(pe, headers, page)
  {
    var placed := AssignOffsets(headers, base);
    assert forall k :: 0 <= k < |headers| ==> placed[k].vaddr == headers[k].vaddr;
    var t, r := FindLoad(pe, headers, page), FindLoad(pe, placed, page);
    if t >= 0 { assert placed[t].vaddr == headers[t].vaddr; }
    if r >= 0 { assert placed[r].vaddr == headers[r].vaddr; }
  }

  /** Every allocated section is planned at its relocated offset. */
  ghost predicate SectionsPlanned(elf: ElfFile, plan: Plan, page: nat)
    requires Alignable(elf.phdrs, page)
  {
    && |plan.shdrs| == |elf.shdrs|
    && forall x :: 0 <= x < |elf.shdrs| && elf.shdrs[x].Allocated() ==>
         plan.shdrs[x].offset ==
         SectionOffset(elf.shdrs[x].offset, elf.shdrs[x].offset, elf.phdrs, plan.loads, page, 0)
  }

  lemma PlannedSectionOffset(elf: ElfFile, headers: seq<Phdr>, entry: nat, page: nat)
    requires Plannable(elf, page)
    ensures SectionsPlanned(elf, MakePlan(elf, headers, entry, page), page)
  {
  }

  /** Where such a plan puts an address of an allocated section. */
  lemma PlannedPosition(elf: ElfFile, headers: seq<Phdr>, plan: Plan, page: nat, x: nat, pe: nat, v: nat, d: nat)
    requires Alignable(elf.phdrs, page) && SectionsPlanned(elf, plan, page)
    requires plan.loads == AssignOffsets(headers, plan.base)
    requires InLoad(elf, page, x, pe) && elf.phdrs[pe].vaddr < TWO64
    requires Continued(elf.phdrs[pe], headers, page, v)
    requires headers[v].HoldsAddress(SectionAddress(elf, page, x, pe) + d)
    ensures var a := SectionAddress(elf, page, x, pe) + d;
      plan.loads[v].HoldsAddress(a) && PositionOf(plan.loads[v], a) == plan.shdrs[x].offset + d
  {
    var off := elf.shdrs[x].offset;
    FindLoadPlaced(elf.phdrs[pe], headers, plan.base, page);
    SectionSurvivesSplit(off, elf.phdrs, headers, plan.base, page, pe, v);
  }

  /** Address `a` of a segment is found at its file position. */
  predicate ShowsAddress(file: seq<byte>, p: Phdr, m: map<nat, byte>, a: nat)
    requires p.HoldsAddress(a)
  {
    a in m && PositionOf(p, a) < |file| && file[PositionOf(p, a)] == m[a]
  }

  ghost predicate ShowsMemory(file: seq<byte>, ps: seq<Phdr>, m: map<nat, byte>) {
    forall v, a: nat :: 0 <= v < |ps| && ps[v].HoldsAddress(a) ==> ShowsAddress(file, ps[v], m, a)
  }

  /** Any address of any segment, read from the overwritten file. */
  lemma PlacedByteRead(elf: ElfFile, s: Selection, plan: Plan, exe: seq<byte>, entry: nat, starter: seq<byte>,
                       m: map<nat, byte>, at: nat, final: seq<byte>, j: nat, u: nat, v: nat, a: nat)
    requires Planned(elf, s, plan, exe, entry)
    requires Describes(s.headers, s.files, m) && Confined(s.headers, entry, |starter|, j, u)
    requires at == Position(s.headers, plan.base, j, entry) && at + |starter| <= |BuiltFile(elf, s, plan, exe)|
    requires final == Overwrite(BuiltFile(elf, s, plan, exe), at, starter)
    requires v < |s.headers| && plan.loads[v].HoldsAddress(a)
    ensures ShowsAddress(final, plan.loads[v], WithStarter(m, entry, starter), a)
  {
    var file := BuiltFile(elf, s, plan, exe);
    AssembledInPlace(elf, s, plan, exe);
    OffsetsDescribe(s.headers, s.files, plan.base, m);
    ConfinedHits(s.headers, plan.base, entry, |starter|, j, u, v);
    assert PartInPlace(plan.loads[v], s.files[v], file) && PartDescribes(plan.loads[v], s.files[v], m);
    OverwrittenByte(plan.loads[v], s.files[v], file, m, at, entry, starter, a);
  }

  /** In a file, section header `x` has offset `off`, as far as its field goes. */
  predicate SectionHeaderAt(file: seq<byte>, x: nat, off: nat) {
    && ReadElf(file, true).Done? && x < |ReadElf(file, true).value.shdrs|
    && ReadElf(file, true).value.shdrs[x].offset == off % TWO64
  }

  /** In a file, the section header `x` found in it leads to these bytes, `d`
      bytes behind the section's start. */
  predicate SectionShows(file: seq<byte>, x: nat, d: nat, bytes: seq<byte>) {
    && ReadElf(file, true).Done? && x < |ReadElf(file, true).value.shdrs|
    && var at := ReadElf(file, true).value.shdrs[x].offset + d;
       at + |bytes| <= |file| && file[at..at + |bytes|] == bytes
  }

  lemma ShownThere(file: seq<byte>, x: nat, off: nat, d: nat, bytes: seq<byte>)
    requires SectionHeaderAt(file, x, off)
    requires off + d + |bytes| <= |file| < TWO64 && file[off + d..off + d + |bytes|] == bytes
    ensures SectionShows(file, x, d, bytes)
  {
    SmallRemainder(off, TWO64);
  }

  /** What can be said of the finished file through the plan it comes from: its
      section headers, parsed from its own bytes, have the planned offsets, the
      planned image is its beginning, and the segments show the memory. */
  ghost predicate ByPlan(elf: ElfFile, s: Selection, plan: Plan, exe: seq<byte>, page: nat, m: map<nat, byte>,
                         final: seq<byte>)
    requires Alignable(elf.phdrs, page)
  {
    && SectionsPlanned(elf, plan, page) && LaidOut(elf, s.headers, plan)
    && Image(elf, plan, exe).Done? && Image(elf, plan, exe).value <= final && |final| < TWO64
    && (forall x :: 0 <= x < |elf.shdrs| ==> SectionHeaderAt(final, x, plan.shdrs[x].offset))
    && ShowsMemory(final, plan.loads, m)
  }

  /** The table of a plan holds the relocated headers of the executable. */
  ghost predicate SegmentsPlanned(elf: ElfFile, plan: Plan, page: nat)
    requires Alignable(elf.phdrs, page)
  {
    |plan.shdrs| == |elf.shdrs| && FirstLoad(elf.phdrs) < |elf.phdrs| && IsLoads(plan.loads) &&
    plan.phdrs == Merge(RelocatePhdrs(elf.phdrs, plan.loads, page, elf.shdrs, plan.shdrs), plan.loads)
  }

  /** And it is found in the file. */
  ghost predicate TableByPlan(elf: ElfFile, plan: Plan, page: nat, final: seq<byte>)
    requires Alignable(elf.phdrs, page)
  {
    SegmentsPlanned(elf, plan, page) && Readable(plan) && Headers(plan) <= final
  }

  predicate IsLoads(ps: seq<Phdr>) {
    forall k :: 0 <= k < |ps| ==> ps[k].ptype == PT_LOAD
  }

  lemma PlannedSegments(elf: ElfFile, headers: seq<Phdr>, entry: nat, page: nat)
    requires Plannable(elf, page) && IsLoads(headers)
    ensures SegmentsPlanned(elf, MakePlan(elf, headers, entry, page), page)
  {
  }

  lemma FinishedByPlan(s: Selection, m: map<nat, byte>, maps: seq<Mapping>, elf: ElfFile, exe: seq<byte>, entry: nat,
                       page: nat, starter: seq<byte>, j: nat, u: nat) returns (plan: Plan, final: seq<byte>)
    requires Snapped(s) && Describes(s.headers, s.files, m) && page > 0
    requires Prepared(s, maps, elf, exe, entry, page) && Confined(s.headers, entry, |starter|, j, u)
    ensures Alignable(elf.phdrs, page) && WellRead(elf) && LoopsAgree(elf.shdrs)
    ensures Finished(entry, s, exe, page, starter) == Done(final)
    ensures ByPlan(elf, s, plan, exe, page, WithStarter(m, entry, starter), final)
    ensures TableByPlan(elf, plan, page, final)
  {
    FinishedFile(s, maps, elf, exe, entry, page, starter, j, u);
    ReadElfFits(exe, true);
    plan := MakePlan(elf, s.headers, entry, page);
    MadeTables(elf, s.headers, entry, page);
    var at := Position(s.headers, plan.base, j, entry);
    final := Overwrite(BuiltFile(elf, s, plan, exe), at, starter);
    TablesByPlan(elf, s, plan, exe, entry, page, starter, m, at, final, j, u);
  }

  /** The tables of a plan, before anything is written. */
  ghost predicate TablesPlanned(elf: ElfFile, plan: Plan, page: nat)
    requires Alignable(elf.phdrs, page)
  {
    && SectionsPlanned(elf, plan, page) && SegmentsPlanned(elf, plan, page)
    && |plan.shdrs| == plan.ehdr.shnum && plan.ehdr.shoff == EHDR_SIZE + PHDR_SIZE * |plan.phdrs|
  }

  lemma MadeTables(elf: ElfFile, headers: seq<Phdr>, entry: nat, page: nat)
    requires Plannable(elf, page) && IsLoads(headers)
    ensures TablesPlanned(elf, MakePlan(elf, headers, entry, page), page)
  {
    PlanCounts(elf, headers, entry, page);
    PlannedSectionOffset(elf, headers, entry, page);
    PlannedSegments(elf, headers, entry, page);
  }

  lemma TablesByPlan(elf: ElfFile, s: Selection, plan: Plan, exe: seq<byte>, entry: nat, page: nat, starter: seq<byte>,
                     m: map<nat, byte>, at: nat, final: seq<byte>, j: nat, u: nat)
    requires Planned(elf, s, plan, exe, entry) && Alignable(elf.phdrs, page) && TablesPlanned(elf, plan, page)
    requires Describes(s.headers, s.files, m) && Confined(s.headers, entry, |starter|, j, u)
    requires plan.base <= at == Position(s.headers, plan.base, j, entry)
    requires at + |starter| <= |BuiltFile(elf, s, plan, exe)| < TWO64
    requires final == Overwrite(BuiltFile(elf, s, plan, exe), at, starter)
    ensures ByPlan(elf, s, plan, exe, page, WithStarter(m, entry, starter), final)
    ensures TableByPlan(elf, plan, page, final)
  {
    PlannedPrefix(elf, s, plan, exe, entry, starter, at, final);
    PlannedShows(elf, s, plan, exe, entry, starter, m, at, final, j, u);
  }

  lemma PlannedPrefix(elf: ElfFile, s: Selection, plan: Plan, exe: seq<byte>, entry: nat, starter: seq<byte>,
                      at: nat, final: seq<byte>)
    requires Planned(elf, s, plan, exe, entry)
    requires |plan.shdrs| == plan.ehdr.shnum && plan.ehdr.shoff == EHDR_SIZE + PHDR_SIZE * |plan.phdrs|
    requires plan.base <= at && at + |starter| <= |BuiltFile(elf, s, plan, exe)|
    requires final == Overwrite(BuiltFile(elf, s, plan, exe), at, starter)
    ensures Image(elf, plan, exe).value <= final && Headers(plan) <= final
    ensures forall x :: 0 <= x < |elf.shdrs| ==> SectionHeaderAt(final, x, plan.shdrs[x].offset)
  {
    HeadersSurvive(elf, s, plan, exe, at, starter);
    HeadersBack(plan, final);
  }

  lemma PlannedShows(elf: ElfFile, s: Selection, plan: Plan, exe: seq<byte>, entry: nat, starter: seq<byte>,
                     m: map<nat, byte>, at: nat, final: seq<byte>, j: nat, u: nat)
    requires Planned(elf, s, plan, exe, entry)
    requires Describes(s.headers, s.files, m) && Confined(s.headers, entry, |starter|, j, u)
    requires at == Position(s.headers, plan.base, j, entry) && at + |starter| <= |BuiltFile(elf, s, plan, exe)|
    requires final == Overwrite(BuiltFile(elf, s, plan, exe), at, starter)
    ensures ShowsMemory(final, plan.loads, WithStarter(m, entry, starter))
  {
    forall v, a: nat | 0 <= v < |plan.loads| && plan.loads[v].HoldsAddress(a)
      ensures ShowsAddress(final, plan.loads[v], WithStarter(m, entry, starter), a)
    {
      PlacedByteRead(elf, s, plan, exe, entry, starter, m, at, final, j, u, v, a);
    }
  }

  lemma HeadersBack(plan: Plan, final: seq<byte>)
    requires Readable(plan) && Headers(plan) <= final && |plan.shdrs| == plan.ehdr.shnum
    requires plan.ehdr.shoff == EHDR_SIZE + PHDR_SIZE * |plan.phdrs|
    ensures forall x :: 0 <= x < |plan.shdrs| ==> SectionHeaderAt(final, x, plan.shdrs[x].offset)
  {
    forall x | 0 <= x < |plan.shdrs| ensures SectionHeaderAt(final, x, plan.shdrs[x].offset) {
      SectionOffsetsBack(plan, final, x);
    }
  }

  /** Byte `d` of an allocated section, read from the finished file through that
      file's own section header, is the byte the kernel loads at the section's
      address: also when the loader split the segment into mappings that touch,
      and in every piece `v` of it. */
  lemma SectionReadsMemory(elf: ElfFile, s: Selection, plan: Plan, exe: seq<byte>, page: nat, m: map<nat, byte>,
                           final: seq<byte>, x: nat, pe: nat, v: nat, d: nat, a: nat)
    requires Alignable(elf.phdrs, page) && WellRead(elf) && ByPlan(elf, s, plan, exe, page, m, final)
    requires InLoad(elf, page, x, pe) && Continued(elf.phdrs[pe], s.headers, page, v)
    requires a == SectionAddress(elf, page, x, pe) + d && s.headers[v].HoldsAddress(a)
    ensures a in m && SectionShows(final, x, d, [m[a]])
  {
    PlannedPosition(elf, s.headers, plan, page, x, pe, v, d);
    ByteShown(final, plan.loads, m, v, a, x, plan.shdrs[x].offset, d);
  }

  lemma ByteShown(file: seq<byte>, ps: seq<Phdr>, m: map<nat, byte>, v: nat, a: nat, x: nat, off: nat, d: nat)
    requires ShowsMemory(file, ps, m) && v < |ps| && ps[v].HoldsAddress(a)
    requires SectionHeaderAt(file, x, off) && PositionOf(ps[v], a) == off + d && |file| < TWO64
    ensures a in m && SectionShows(file, x, d, [m[a]])
  {
    assert ShowsAddress(file, ps[v], m, a);
    ShownThere(file, x, off, d, [m[a]]);
  }

  /** The promise for sections: in the file `CreateNewExe` makes of a snapshot, an
      allocated section reads as the memory at its address. */
  lemma SectionsPreserved(mem: map<nat, byte>, maps: seq<Mapping>, dumps: seq<DumpFile>, p: Process, s: Selection,
                          elf: ElfFile, exe: seq<byte>, entry: nat, page: nat, starter: seq<byte>, j: nat, u: nat,
                          x: nat, pe: nat, v: nat, d: nat, a: nat) returns (final: seq<byte>)
    requires Faithful(mem, maps, dumps) && Select(maps, dumps, p) == Done(s) && page > 0
    requires Prepared(s, maps, elf, exe, entry, page) && Confined(s.headers, entry, |starter|, j, u)
    requires InLoad(elf, page, x, pe) && Continued(elf.phdrs[pe], s.headers, page, v)
    requires a == SectionAddress(elf, page, x, pe) + d && s.headers[v].HoldsAddress(a)
    ensures NewExe(Done(entry), Done(s), exe, page, starter) == Done(final)
    ensures var m := KeptMemory(mem, maps, dumps, p);
      a in m && SectionShows(final, x, d, [WithStarter(m, entry, starter)[a]])
  {
    SelectionSnapped(mem, maps, dumps, p);
    SelectionDescribes(mem, maps, dumps, p);
    var m := KeptMemory(mem, maps, dumps, p);
    var plan;
    plan, final := FinishedByPlan(s, m, maps, elf, exe, entry, page, starter, j, u);
    SectionReadsMemory(elf, s, plan, exe, page, WithStarter(m, entry, starter), final, x, pe, v, d, a);
  }

  /** In a file, header `t` of those that are carried over leads to these bytes, `d`
      bytes behind its offset; nothing else in it differs from `p`. */
  predicate SegmentShows(file: seq<byte>, t: nat, p: Phdr, d: nat, bytes: seq<byte>) {
    && ReadElf(file, false).Done?
    && var others := Others(ReadElf(file, false).value.phdrs);
       && t < |others| && others[t] == p.(offset := others[t].offset)
       && var at := others[t].offset + d;
          at + |bytes| <= |file| && file[at..at + |bytes|] == bytes
  }

  /** The one segment that is moved with its PT_LOAD segment, and that one. */
  function MovedSegment(elf: ElfFile): Phdr
    requires StopIndex(elf.phdrs) < |elf.phdrs|
  {
    elf.phdrs[StopIndex(elf.phdrs)]
  }

  function MovedIn(elf: ElfFile): Phdr
    requires StopIndex(elf.phdrs) < |elf.phdrs|
  {
    elf.phdrs[Container(elf.phdrs, MovedSegment(elf).offset)]
  }

  /** The planned header of the moved segment, and where it leads. */
  lemma MovedHeader(elf: ElfFile, headers: seq<Phdr>, plan: Plan, page: nat, v: nat, d: nat, a: nat) returns (q: Phdr)
    requires Alignable(elf.phdrs, page) && WellRead(elf) && SegmentsPlanned(elf, plan, page)
    requires plan.loads == AssignOffsets(headers, plan.base)
    requires StopIndex(elf.phdrs) < |elf.phdrs| && PowerOfTwo(page) && PowerOfTwo(MovedIn(elf).align)
    requires Continued(MovedIn(elf), headers, page, v)
    requires a == AddressOf(MovedIn(elf), MovedSegment(elf).offset) + d && headers[v].HoldsAddress(a)
    ensures var t := |Others(elf.phdrs[..StopIndex(elf.phdrs)])|;
      && t < |Others(plan.phdrs)| && Others(plan.phdrs)[t] == q
      && q == MovedSegment(elf).(offset := q.offset)
      && plan.loads[v].HoldsAddress(a) && PositionOf(plan.loads[v], a) == q.offset + d
  {
    var ps, i := elf.phdrs, StopIndex(elf.phdrs);
    var moved := RelocatePhdrs(ps, plan.loads, page, elf.shdrs, plan.shdrs);
    q := moved[i];
    RelocationTouchesOffsetsOnly(ps, plan.loads, page, elf.shdrs, plan.shdrs);
    SameTypes(moved, ps);
    MergeConserves(moved, plan.loads);
    FilterThere(ps, moved, CarriedOver, i);
    MovedSegmentKeepsAddress(ps, plan.loads, page, elf.shdrs, plan.shdrs);
    FindLoadPlaced(MovedIn(elf), headers, plan.base, page);
    RunShift(headers, plan.base, FindLoad(MovedIn(elf), headers, page), v);
  }

  /** Byte `d` of the moved segment, read from the finished file through that file's
      own program header, is the byte loaded at its address. */
  lemma SegmentReadsMemory(elf: ElfFile, s: Selection, plan: Plan, exe: seq<byte>, page: nat, m: map<nat, byte>,
                           final: seq<byte>, v: nat, d: nat, a: nat)
    requires Alignable(elf.phdrs, page) && WellRead(elf) && ByPlan(elf, s, plan, exe, page, m, final)
    requires TableByPlan(elf, plan, page, final)
    requires StopIndex(elf.phdrs) < |elf.phdrs| && PowerOfTwo(page) && PowerOfTwo(MovedIn(elf).align)
    requires Continued(MovedIn(elf), s.headers, page, v)
    requires a == AddressOf(MovedIn(elf), MovedSegment(elf).offset) + d && s.headers[v].HoldsAddress(a)
    ensures a in m
    ensures SegmentShows(final, |Others(elf.phdrs[..StopIndex(elf.phdrs)])|, MovedSegment(elf), d, [m[a]])
  {
    var t := |Others(elf.phdrs[..StopIndex(elf.phdrs)])|;
    var q := MovedHeader(elf, s.headers, plan, page, v, d, a);
    SegmentThere(plan, final, t, MovedSegment(elf), q, m, v, d, a);
  }

  lemma SegmentThere(plan: Plan, final: seq<byte>, t: nat, p: Phdr, q: Phdr, m: map<nat, byte>, v: nat, d: nat, a: nat)
    requires Readable(plan) && Headers(plan) <= final && |final| < TWO64 && ShowsMemory(final, plan.loads, m)
    requires t < |Others(plan.phdrs)| && Others(plan.phdrs)[t] == q && q == p.(offset := q.offset) && p.Fits()
    requires v < |plan.loads| && plan.loads[v].HoldsAddress(a) && PositionOf(plan.loads[v], a) == q.offset + d
    ensures a in m && SegmentShows(final, t, p, d, [m[a]])
  {
    assert ShowsAddress(final, plan.loads[v], m, a);
    OthersBack(plan, final, t);
    PhdrRoundTrip(q);
  }

  /** The promise for the moved segment: in the file `CreateNewExe` makes of a
      snapshot, it reads as the memory at its address. */
  lemma SegmentPreserved(mem: map<nat, byte>, maps: seq<Mapping>, dumps: seq<DumpFile>, p: Process, s: Selection,
                         elf: ElfFile, exe: seq<byte>, entry: nat, page: nat, starter: seq<byte>, j: nat, u: nat,
                         v: nat, d: nat, a: nat) returns (final: seq<byte>)
    requires Faithful(mem, maps, dumps) && Select(maps, dumps, p) == Done(s) && page > 0
    requires Prepared(s, maps, elf, exe, entry, page) && Confined(s.headers, entry, |starter|, j, u)
    requires StopIndex(elf.phdrs) < |elf.phdrs| && PowerOfTwo(page) && PowerOfTwo(MovedIn(elf).align)
    requires Continued(MovedIn(elf), s.headers, page, v)
    requires a == AddressOf(MovedIn(elf), MovedSegment(elf).offset) + d && s.headers[v].HoldsAddress(a)
    ensures NewExe(Done(entry), Done(s), exe, page, starter) == Done(final)
    ensures var m := KeptMemory(mem, maps, dumps, p);
      a in m && SegmentShows(final, |Others(elf.phdrs[..StopIndex(elf.phdrs)])|, MovedSegment(elf), d,
                             [WithStarter(m, entry, starter)[a]])
  {
    SelectionSnapped(mem, maps, dumps, p);
    SelectionDescribes(mem, maps, dumps, p);
    var m := KeptMemory(mem, maps, dumps, p);
    var plan;
    plan, final := FinishedByPlan(s, m, maps, elf, exe, entry, page, starter, j, u);
    SegmentReadsMemory(elf, s, plan, exe, page, WithStarter(m, entry, starter), final, v, d, a);
  }

  /** A copied section has its old bytes in the finished file, found through that
      file's own section header, starter or not. */
  lemma CopiedSectionSurvives(elf: ElfFile, s: Selection, plan: Plan, exe: seq<byte>, page: nat, m: map<nat, byte>,
                              final: seq<byte>, x: nat)
    requires Alignable(elf.phdrs, page) && LoopsAgree(elf.shdrs) && ByPlan(elf, s, plan, exe, page, m, final)
    requires x < |elf.shdrs| && Placed(elf.shdrs[x]) && elf.shdrs[x].size > 0
    ensures var h := elf.shdrs[x];
      h.offset + h.size <= |exe| && SectionShows(final, x, 0, exe[h.offset..h.offset + h.size])
  {
    SectionContentKept(elf, s.headers, plan, exe, x);
    ImageShows(Image(elf, plan, exe).value, final, x, plan.shdrs[x].offset,
               exe[elf.shdrs[x].offset..elf.shdrs[x].offset + elf.shdrs[x].size]);
  }

  lemma ImageShows(image: seq<byte>, final: seq<byte>, x: nat, off: nat, bytes: seq<byte>)
    requires image <= final && |final| < TWO64 && SectionHeaderAt(final, x, off)
    requires off + |bytes| <= |image| && image[off..off + |bytes|] == bytes
    ensures SectionShows(final, x, 0, bytes)
  {
    PrefixKeeps(image, final, off, |bytes|);
    ShownThere(final, x, off, 0, bytes);
  }

  /** So does the file `CreateNewExe` makes of a snapshot. */
  lemma CopiedSectionsPreserved(mem: map<nat, byte>, maps: seq<Mapping>, dumps: seq<DumpFile>, p: Process,
                                s: Selection, elf: ElfFile, exe: seq<byte>, entry: nat, page: nat,
                                starter: seq<byte>, j: nat, u: nat, x: nat) returns (final: seq<byte>)
    requires Faithful(mem, maps, dumps) && Select(maps, dumps, p) == Done(s) && page > 0
    requires Prepared(s, maps, elf, exe, entry, page) && Confined(s.headers, entry, |starter|, j, u)
    requires x < |elf.shdrs| && Placed(elf.shdrs[x]) && elf.shdrs[x].size > 0
    ensures NewExe(Done(entry), Done(s), exe, page, starter) == Done(final)
    ensures var h := elf.shdrs[x];
      h.offset + h.size <= |exe| && SectionShows(final, x, 0, exe[h.offset..h.offset + h.size])
  {
    SelectionSnapped(mem, maps, dumps, p);
    SelectionDescribes(mem, maps, dumps, p);
    var m := KeptMemory(mem, maps, dumps, p);
    var plan;
    plan, final := FinishedByPlan(s, m, maps, elf, exe, entry, page, starter, j, u);
    CopiedSectionSurvives(elf, s, plan, exe, page, WithStarter(m, entry, starter), final, x);
  }

  lemma PrefixKeeps(a: seq<byte>, b: seq<byte>, i: nat, n: nat)
    requires a <= b && i + n <= |a|
    ensures b[i..i + n] == a[i..i + n]
  {
  }
}
