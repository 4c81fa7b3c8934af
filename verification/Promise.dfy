/** The promise of the suite for an ordinary process and an ordinary executable, told
    without the terms of the stages: mappings and bytes of memory, and types, flags,
    sizes and alignments in the executable's headers. */
module Promise {
  import opened Arith
  import opened Bytes
  import opened Elf
  import opened Outcomes
  import opened Layout
  import opened Relocation
  import opened HeaderMerge
  import opened NonPtLoad
  import opened ImageFacts
  import opened OutputFacts
  import opened MapFilter
  import opened Ptrace
  import opened Loader
  import opened StarterPlace
  import opened Overlay
  import opened Snapshot
  import opened Fep
  import Statify

  // ------------------------------------------------------ The executable

  lemma {:induction false} SizesBound(hs: seq<Shdr>, b: nat)
    requires forall i :: 0 <= i < |hs| && Placed(hs[i]) ==> hs[i].size <= b
    ensures PlacedSize(hs) <= |hs| * b
  {
    if hs != [] { SizesBound(hs[..|hs| - 1], b); }
  }

  lemma {:induction false} FilesBound(ps: seq<Phdr>, b: nat)
    requires forall i :: 0 <= i < |ps| ==> ps[i].filesz <= b
    ensures FileSizes(ps) <= |ps| * b
  {
    if ps != [] { FilesBound(ps[..|ps| - 1], b); }
  }

  /** The layout program gets through, and what it writes is not too long. */
  lemma OrdinaryOutput(exe: seq<byte>, elf: ElfFile, headers: seq<Phdr>, entry: nat, page: nat, f: nat)
    requires ReadElf(exe, true) == Done(elf) && |exe| <= 0x4000_0000_0000 && 0 < page <= 0x1_0000_0000
    requires elf.ehdr.phentsize == 56 && (elf.ehdr.shnum > 0 ==> elf.ehdr.shentsize == 64)
    requires f < |elf.phdrs| && elf.phdrs[f].ptype == 1 && forall k :: 0 <= k < f ==> elf.phdrs[k].ptype != 1
    requires forall k :: 0 <= k < |elf.phdrs| && elf.phdrs[k].ptype == 1 ==> elf.phdrs[k].align > 0
    requires forall x :: 0 <= x < |elf.shdrs| && elf.shdrs[x].stype == 0 ==> elf.shdrs[x].size == 0
    requires forall x :: 0 <= x < |elf.shdrs| && elf.shdrs[x].stype != 0 && elf.shdrs[x].flags / 2 % 2 == 0 ==>
               elf.shdrs[x].offset + elf.shdrs[x].size <= |exe|
    requires headers != [] && 56 * (|headers| + OthersBefore(elf.phdrs, |elf.phdrs|)) <= 65536
    requires forall k :: 0 <= k < |headers| ==> headers[k].Fits() && headers[k].filesz <= 0x8000_0000_0000
    ensures ValidInput(exe, EncodePhdrs(headers), page) && LoopsAgree(elf.shdrs)
    ensures Output(exe, EncodePhdrs(headers), entry, page).Done?
    ensures |Output(exe, EncodePhdrs(headers), entry, page).value| + FileSizes(headers) < TWO64
  {
    EncodedSizes(headers, []);
    DivModUnique(|EncodePhdrs(headers)|, 56, |headers|, 0);
    InputIsValid(exe, EncodePhdrs(headers), page, elf);
    LoadsReadBack(headers);
    AlignOfFirst(elf.phdrs, page, f);
    SectionBytesIff(elf.shdrs, exe);
    OutputStages(exe, EncodePhdrs(headers), entry, page, elf);
    NullSizeIff(elf.shdrs);
    OutputBound(exe, elf, headers, entry, page);
  }

  lemma OutputBound(exe: seq<byte>, elf: ElfFile, headers: seq<Phdr>, entry: nat, page: nat)
    requires ReadElf(exe, true) == Done(elf) && |exe| <= 0x4000_0000_0000 && 0 < page <= 0x1_0000_0000
    requires ValidInput(exe, EncodePhdrs(headers), page) && LoopsAgree(elf.shdrs)
    requires ReadLoads(EncodePhdrs(headers)) == Done(headers)
    requires Output(exe, EncodePhdrs(headers), entry, page).Done?
    requires forall x :: 0 <= x < |elf.shdrs| && elf.shdrs[x].stype != 0 && elf.shdrs[x].flags / 2 % 2 == 0 ==>
               elf.shdrs[x].offset + elf.shdrs[x].size <= |exe|
    requires |headers| + |Others(elf.phdrs)| <= 0x1_0000
    requires forall k :: 0 <= k < |headers| ==> headers[k].filesz <= 0x8000_0000_0000
    ensures |Output(exe, EncodePhdrs(headers), entry, page).value| + FileSizes(headers) < TWO64
  {
    OutputIsImage(exe, elf, headers, entry, page);
    var plan := MakePlan(elf, headers, entry, page);
    BaseBound(elf, headers, entry, page);
    FilesBound(headers, 0x8000_0000_0000);
    SectionsBound(elf.shdrs, |exe|);
    BelowTwo64(plan.base, |headers| + |Others(elf.phdrs)|, |elf.shdrs|, PlacedSize(elf.shdrs), page,
               FileSizes(headers), |headers|);
  }

  lemma OutputIsImage(exe: seq<byte>, elf: ElfFile, headers: seq<Phdr>, entry: nat, page: nat)
    requires ReadElf(exe, true) == Done(elf) && ValidInput(exe, EncodePhdrs(headers), page)
    requires ReadLoads(EncodePhdrs(headers)) == Done(headers) && LoopsAgree(elf.shdrs)
    requires Output(exe, EncodePhdrs(headers), entry, page).Done?
    ensures Plannable(elf, page) && elf.ehdr.shnum < 0x1_0000
    ensures |Output(exe, EncodePhdrs(headers), entry, page).value| == MakePlan(elf, headers, entry, page).base
  {
    ReadElfFits(exe, true);
    PlanLaidOut(elf, headers, entry, page);
    LayoutEqualsEmission(elf, headers, MakePlan(elf, headers, entry, page), exe);
  }

  lemma SectionsBound(hs: seq<Shdr>, size: nat)
    requires size <= 0x4000_0000_0000
    requires forall x :: 0 <= x < |hs| && hs[x].stype != 0 && hs[x].flags / 2 % 2 == 0 ==>
               hs[x].offset + hs[x].size <= size
    ensures PlacedSize(hs) <= |hs| * 0x4000_0000_0000
  {
    forall x | 0 <= x < |hs| && Placed(hs[x]) ensures hs[x].size <= 0x4000_0000_0000 {
      AllocatedBit(hs[x]);
    }
    SizesBound(hs, 0x4000_0000_0000);
  }

  lemma BelowTwo64(base: nat, n: nat, shnum: nat, placed: nat, page: nat, sizes: nat, m: nat)
    requires base <= 64 + 56 * n + 64 * shnum + placed + page
    requires n <= 0x1_0000 && shnum < 0x1_0000 && m <= 0x1_0000 && page <= 0x1_0000_0000
    requires placed <= shnum * 0x4000_0000_0000 && sizes <= m * 0x8000_0000_0000
    ensures base + sizes < TWO64
  {
  }

  lemma BaseBound(elf: ElfFile, headers: seq<Phdr>, entry: nat, page: nat)
    requires Plannable(elf, page)
    ensures MakePlan(elf, headers, entry, page).base
            <= 64 + 56 * (|headers| + |Others(elf.phdrs)|) + 64 * elf.ehdr.shnum + PlacedSize(elf.shdrs) + page
  {
    PlanCounts(elf, headers, entry, page);
  }

  // --------------------------------------------------------- The process

  /** Mappings of whole pages, dumped byte by byte. */
  ghost predicate Dumped(mem: map<nat, byte>, maps: seq<Mapping>, dumps: seq<DumpFile>, page: nat)
    requires page > 0
  {
    && |dumps| == |maps|
    && (forall i :: 0 <= i < |maps| ==>
          && maps[i].start < maps[i].stop <= 0x8000_0000_0000 && |maps[i].perm| >= 3
          && maps[i].start % page == 0 && maps[i].stop % page == 0
          && |dumps[i].data| == maps[i].stop - maps[i].start && dumps[i].soname.Done?)
    && (forall i, k :: 0 <= i < k < |maps| ==> maps[i].stop <= maps[k].start || maps[k].stop <= maps[i].start)
    && (forall i, a :: 0 <= i < |maps| && maps[i].start <= a < maps[i].stop ==>
          a in mem && mem[a] == dumps[i].data[a - maps[i].start])
  }

  lemma DumpedFaithful(mem: map<nat, byte>, maps: seq<Mapping>, dumps: seq<DumpFile>, p: Process, page: nat)
    requires page > 0 && Dumped(mem, maps, dumps, page)
    ensures ProperMaps(maps) && Faithful(mem, maps, dumps) && Select(maps, dumps, p).Done?
  {
    SelectIff(maps, dumps, p);
    forall i | 0 <= i < |maps| ensures DumpOf(mem, maps[i], dumps[i].data) {
    }
  }

  /** The kept mappings become headers of whole pages. */
  lemma OrdinarySelection(mem: map<nat, byte>, maps: seq<Mapping>, dumps: seq<DumpFile>, p: Process, page: nat,
                          s: Selection)
    requires page > 0 && Dumped(mem, maps, dumps, page) && Select(maps, dumps, p) == Done(s)
    ensures Snapped(s) && AlignedMappings(s.headers, page)
    ensures forall k :: 0 <= k < |s.headers| ==> s.headers[k].filesz <= 0x8000_0000_0000
  {
    DumpedFaithful(mem, maps, dumps, p, page);
    SelectionSnapped(mem, maps, dumps, p);
    SelectionLockstep(maps, dumps, p);
    var from := KeptIndices(maps, dumps, p);
    forall k | 0 <= k < |s.headers|
      ensures s.headers[k].vaddr % page == 0 && s.headers[k].filesz % page == 0
      ensures s.headers[k].filesz <= 0x8000_0000_0000
    {
      var m := maps[from[k]];
      assert SegmentHeader(m.start, m.stop, FinalPermission(m, p)) == Done(s.headers[k]);
      MultiplesDiffer(m.start, m.stop, page);
    }
  }

  lemma MultiplesDiffer(x: nat, y: nat, a: nat)
    requires a > 0 && x <= y && x % a == 0 && y % a == 0
    ensures (y - x) % a == 0
  {
    Distribute(a, y / a, -(x / a));
    DivModUnique(y - x, a, y / a - x / a, 0);
  }

  lemma {:induction false} CountAtMost(kept: seq<bool>, i: nat)
    requires i <= |kept|
    ensures CountKept(kept, i) <= i
  {
    if i > 0 { CountAtMost(kept, i - 1); }
  }

  /** The starter lies in kept mapping `j`, so it is confined. */
  lemma StarterInside(maps: seq<Mapping>, dumps: seq<DumpFile>, p: Process, kept: seq<bool>, s: Selection, j: nat,
                      entry: nat, n: nat)
    requires |kept| == |maps| <= |dumps| && Select(maps, dumps, p) == Done(s)
    requires forall i :: 0 <= i < |maps| ==> (kept[i] <==> Kept(maps[i], dumps[i], p))
    requires j < |maps| && kept[j] && maps[j].start <= entry < maps[j].stop && entry + n <= maps[j].stop
    ensures CountKept(kept, j) < |s.headers| <= |maps|
    ensures Confined(s.headers, entry, n, CountKept(kept, j), CountKept(kept, j))
  {
    SelectedParts(maps, dumps, p, kept);
    CountAtMost(kept, |maps|);
  }

  /** `kept` tells the mappings that are neither vdso nor stack, lie clear of the kernel's
      stack, and are not the gate page. */
  predicate KeptAre(kept: seq<bool>, maps: seq<Mapping>, dumps: seq<DumpFile>, p: Process) {
    && |kept| == |maps| == |dumps| && p.stackStart <= p.sp < p.stackStop
    && forall i :: 0 <= i < |maps| ==>
         (kept[i] <==>
          && maps[i].name != "[vdso]" && maps[i].name != "[stack]"
          && (maps[i].stop < p.stackStart || p.stackStop <= maps[i].start)
          && dumps[i].soname.Done? && !("linux-gate.so." <= dumps[i].soname.value))
  }

  /** An executable for x86-64 with room for `n` more headers. Its PT_LOAD segments are
      aligned, the first of them, `f`, to a page at least; its inactive section headers
      are empty, and its other sections without SHF_ALLOC lie in the file. */
  ghost predicate Ordinary(exe: seq<byte>, elf: ElfFile, n: nat, page: nat, f: nat) {
    && ReadElf(exe, true) == Done(elf) && |exe| <= 0x4000_0000_0000
    && elf.ehdr.ident % 0x1_0000_0000 == 0x464c_457f && elf.ehdr.machine == 62
    && (elf.ehdr.etype == 2 || elf.ehdr.etype == 3)
    && elf.ehdr.phentsize == 56 && (elf.ehdr.shnum > 0 ==> elf.ehdr.shentsize == 64)
    && 56 * (n + OthersBefore(elf.phdrs, |elf.phdrs|)) <= 65536
    && f < |elf.phdrs| && elf.phdrs[f].ptype == 1 && (forall k :: 0 <= k < f ==> elf.phdrs[k].ptype != 1)
    && elf.phdrs[f].align >= page
    && (forall k :: 0 <= k < |elf.phdrs| && elf.phdrs[k].ptype == 1 ==> elf.phdrs[k].align > 0)
    && (forall x :: 0 <= x < |elf.shdrs| && elf.shdrs[x].stype == 0 ==> elf.shdrs[x].size == 0)
    && forall x :: 0 <= x < |elf.shdrs| && elf.shdrs[x].stype != 0 && elf.shdrs[x].flags / 2 % 2 == 0 ==>
         elf.shdrs[x].offset + elf.shdrs[x].size <= |exe|
  }

  lemma KernelAccepts(exe: seq<byte>, elf: ElfFile, n: nat, m: nat, page: nat, f: nat)
    requires page > 0 && n <= m && Ordinary(exe, elf, m, page, f)
    ensures Acceptable(elf, n, page)
  {
    assert FirstLoad(elf.phdrs) == f;
    CountedBefore(elf.phdrs, |elf.phdrs|);
    assert elf.phdrs[..|elf.phdrs|] == elf.phdrs;
  }

  /** The address lies in a kept mapping. */
  predicate InKept(maps: seq<Mapping>, kept: seq<bool>, a: nat)
    requires |kept| == |maps|
  {
    exists i :: 0 <= i < |maps| && kept[i] && maps[i].start <= a < maps[i].stop
  }

  /** The kept memory, address by address. */
  lemma KeptAddressIff(mem: map<nat, byte>, maps: seq<Mapping>, dumps: seq<DumpFile>, p: Process, kept: seq<bool>,
                       page: nat, a: nat)
    requires page > 0 && Dumped(mem, maps, dumps, page) && KeptAre(kept, maps, dumps, p)
    ensures a in KeptMemory(mem, maps, dumps, p) <==> InKept(maps, kept, a)
  {
    KeptByName(mem, maps, dumps, p, kept, page);
    if i :| 0 <= i < |maps| && kept[i] && maps[i].start <= a < maps[i].stop {
      assert InMapping(maps[i], a) && a in mem;
    }
  }

  lemma StarterOver(m: map<nat, byte>, mem: map<nat, byte>, entry: nat, starter: seq<byte>, image: map<nat, byte>)
    requires forall a :: a in m ==> a in mem && m[a] == mem[a]
    requires image == WithStarter(m, entry, starter)
    ensures image.Keys == m.Keys
    ensures forall a: nat :: a in image && !(entry <= a < entry + |starter|) ==> a in mem && image[a] == mem[a]
    ensures forall a: nat :: a in image && entry <= a < entry + |starter| ==> image[a] == starter[a - entry]
  {
  }

  lemma KeptByName(mem: map<nat, byte>, maps: seq<Mapping>, dumps: seq<DumpFile>, p: Process, kept: seq<bool>,
                   page: nat)
    requires page > 0 && Dumped(mem, maps, dumps, page) && KeptAre(kept, maps, dumps, p)
    ensures forall i :: 0 <= i < |maps| ==> (kept[i] <==> Kept(maps[i], dumps[i], p))
  {
    forall i | 0 <= i < |maps| ensures kept[i] <==> Kept(maps[i], dumps[i], p) {
      KeptIff(maps[i], dumps[i], p);
    }
  }

  /** Such a process and such an executable, and a starter inside kept mapping `j`, meet
      what the promises ask for. */
  lemma PromisesApply(mem: map<nat, byte>, maps: seq<Mapping>, dumps: seq<DumpFile>, p: Process, kept: seq<bool>,
                      exe: seq<byte>, elf: ElfFile, page: nat, f: nat, entry: nat, n: nat, j: nat)
    returns (s: Selection, t: nat)
    requires 0 < page <= 0x1_0000_0000 && Dumped(mem, maps, dumps, page) && KeptAre(kept, maps, dumps, p)
    requires Ordinary(exe, elf, |maps|, page, f)
    requires j < |maps| && kept[j] && maps[j].start <= entry < maps[j].stop && entry + n <= maps[j].stop
    ensures Faithful(mem, maps, dumps) && Select(maps, dumps, p) == Done(s)
    ensures Prepared(s, maps, elf, exe, entry, page) && Confined(s.headers, entry, n, t, t)
    ensures Acceptable(elf, |s.headers|, page)
  {
    DumpedFaithful(mem, maps, dumps, p, page);
    KeptByName(mem, maps, dumps, p, kept, page);
    s, t := Select(maps, dumps, p).value, CountKept(kept, j);
    OrdinarySelection(mem, maps, dumps, p, page, s);
    StarterInside(maps, dumps, p, kept, s, j, entry, n);
    KernelAccepts(exe, elf, |s.headers|, |maps|, page, f);
    OrdinaryOutput(exe, elf, s.headers, entry, page, f);
  }

  /** THE PROMISE, in plain terms. The new executable is then built and loaded; its memory
      is that of the kept mappings, with the starter's bytes at the entry point. */
  lemma SnapshotLoads(mem: map<nat, byte>, maps: seq<Mapping>, dumps: seq<DumpFile>, p: Process, kept: seq<bool>,
                      exe: seq<byte>, elf: ElfFile, page: nat, f: nat, entry: nat, starter: seq<byte>, j: nat)
    returns (file: seq<byte>, image: map<nat, byte>)
    requires 0 < page <= 0x1_0000_0000 && Dumped(mem, maps, dumps, page) && KeptAre(kept, maps, dumps, p)
    requires Ordinary(exe, elf, |maps|, page, f)
    requires j < |maps| && kept[j] && maps[j].start <= entry < maps[j].stop && entry + |starter| <= maps[j].stop
    ensures Select(maps, dumps, p).Done?
    ensures ValidInput(exe, EncodePhdrs(Select(maps, dumps, p).value.headers), page)
    ensures NewExe(Done(entry), Select(maps, dumps, p), exe, page, starter) == Done(file)
    ensures Exec(file, page) == Loaded(image)
    ensures forall a: nat :: a in image <==> InKept(maps, kept, a)
    ensures forall a: nat :: a in image && !(entry <= a < entry + |starter|) ==> a in mem && image[a] == mem[a]
    ensures forall a: nat :: a in image && entry <= a < entry + |starter| ==> image[a] == starter[a - entry]
  {
    file := OrdinaryFile(mem, maps, dumps, p, kept, exe, elf, page, f, entry, starter, j);
    image := WithStarter(KeptMemory(mem, maps, dumps, p), entry, starter);
    ImageIs(mem, maps, dumps, p, kept, page, entry, starter, image);
  }

  lemma ImageIs(mem: map<nat, byte>, maps: seq<Mapping>, dumps: seq<DumpFile>, p: Process, kept: seq<bool>, page: nat,
                entry: nat, starter: seq<byte>, image: map<nat, byte>)
    requires page > 0 && Dumped(mem, maps, dumps, page) && KeptAre(kept, maps, dumps, p)
    requires image == WithStarter(KeptMemory(mem, maps, dumps, p), entry, starter)
    ensures forall a: nat :: a in image <==> InKept(maps, kept, a)
    ensures forall a: nat :: a in image && !(entry <= a < entry + |starter|) ==> a in mem && image[a] == mem[a]
    ensures forall a: nat :: a in image && entry <= a < entry + |starter| ==> image[a] == starter[a - entry]
  {
    StarterOver(KeptMemory(mem, maps, dumps, p), mem, entry, starter, image);
    forall a: nat ensures a in image <==> InKept(maps, kept, a) {
      KeptAddressIff(mem, maps, dumps, p, kept, page, a);
    }
  }

  lemma OrdinaryFile(mem: map<nat, byte>, maps: seq<Mapping>, dumps: seq<DumpFile>, p: Process, kept: seq<bool>,
                     exe: seq<byte>, elf: ElfFile, page: nat, f: nat, entry: nat, starter: seq<byte>, j: nat)
    returns (file: seq<byte>)
    requires 0 < page <= 0x1_0000_0000 && Dumped(mem, maps, dumps, page) && KeptAre(kept, maps, dumps, p)
    requires Ordinary(exe, elf, |maps|, page, f)
    requires j < |maps| && kept[j] && maps[j].start <= entry < maps[j].stop && entry + |starter| <= maps[j].stop
    ensures Select(maps, dumps, p).Done?
    ensures ValidInput(exe, EncodePhdrs(Select(maps, dumps, p).value.headers), page)
    ensures NewExe(Done(entry), Select(maps, dumps, p), exe, page, starter) == Done(file)
    ensures Exec(file, page) == Loaded(WithStarter(KeptMemory(mem, maps, dumps, p), entry, starter))
  {
    var s, t := PromisesApply(mem, maps, dumps, p, kept, exe, elf, page, f, entry, |starter|, j);
    SnapshotPreserved(mem, maps, dumps, p, s, elf, exe, entry, page, starter, t, t);
    file := NewExe(Done(entry), Done(s), exe, page, starter).value;
  }

  lemma OrdinaryExe(exe: seq<byte>, elf: ElfFile, n: nat, page: nat, f: nat)
    requires Ordinary(exe, elf, n, page, f) && 0 < page <= 0x1_0000_0000
    ensures Statify.ValidExe(exe, n, page)
  {
    CountedBefore(elf.phdrs, |elf.phdrs|);
    assert elf.phdrs[..|elf.phdrs|] == elf.phdrs;
  }

  /** The same for all of `CreateNewExe`, when fep.sh prints `entry`. The kernel's stack is
      the first initial mapping around the stack pointer. */
  lemma ProducedLoads(mem: map<nat, byte>, initMaps: seq<Mapping>, maps: seq<Mapping>, dumps: seq<DumpFile>, sp: nat,
                      dlArgc: nat, disk: map<string, seq<byte>>, kept: seq<bool>, exe: seq<byte>, elf: ElfFile,
                      page: nat, f: nat, entry: nat, starter: seq<byte>, k: nat, j: nat)
    returns (file: seq<byte>, image: map<nat, byte>)
    requires k < |initMaps| && initMaps[k].start <= sp < initMaps[k].stop
    requires forall l :: 0 <= l < k ==> !(initMaps[l].start <= sp < initMaps[l].stop)
    requires 0 < page <= 0x1_0000_0000 && Dumped(mem, maps, dumps, page)
    requires KeptAre(kept, maps, dumps, Process(sp, initMaps[k].start, initMaps[k].stop, dlArgc))
    requires Ordinary(exe, elf, |maps|, page, f)
    requires EntryOf(PlaceIn(Listed(maps), disk, |starter|, page)) == Done(entry)
    requires j < |maps| && kept[j] && maps[j].start <= entry < maps[j].stop && entry + |starter| <= maps[j].stop
    ensures Statify.ValidExe(exe, |maps|, page)
    ensures Statify.Produced(initMaps, maps, dumps, sp, dlArgc, disk, exe, page, starter) == Done(file)
    ensures Exec(file, page) == Loaded(image)
    ensures forall a: nat :: a in image <==> InKept(maps, kept, a)
    ensures forall a: nat :: a in image && !(entry <= a < entry + |starter|) ==> a in mem && image[a] == mem[a]
    ensures forall a: nat :: a in image && entry <= a < entry + |starter| ==> image[a] == starter[a - entry]
  {
    var p := Process(sp, initMaps[k].start, initMaps[k].stop, dlArgc);
    OrdinaryExe(exe, elf, |maps|, page, f);
    PtLoadIff(initMaps, maps, dumps, sp, dlArgc, k);
    file, image := SnapshotLoads(mem, maps, dumps, p, kept, exe, elf, page, f, entry, starter, j);
  }

  // --------------------------- Sections and segments of the new executable

  lemma SectionShown(file: seq<byte>, x: nat, d: nat, byte_: byte)
    requires SectionShows(file, x, d, [byte_])
    ensures ReadElf(file, true).Done? && x < |ReadElf(file, true).value.shdrs|
    ensures var at := ReadElf(file, true).value.shdrs[x].offset + d; at < |file| && file[at] == byte_
  {
    var at := ReadElf(file, true).value.shdrs[x].offset + d;
    assert file[at..at + 1][0] == file[at];
  }

  lemma BytesShown(file: seq<byte>, x: nat, bytes: seq<byte>)
    requires SectionShows(file, x, 0, bytes)
    ensures ReadElf(file, true).Done? && x < |ReadElf(file, true).value.shdrs|
    ensures var at := ReadElf(file, true).value.shdrs[x].offset;
      at + |bytes| <= |file| && file[at..at + |bytes|] == bytes
  {
  }

  lemma SegmentShown(file: seq<byte>, t: nat, p: Phdr, d: nat, byte_: byte) returns (n: nat)
    requires SegmentShows(file, t, p, d, [byte_])
    ensures ReadElf(file, false).Done? && n < |ReadElf(file, false).value.phdrs|
    ensures OthersBefore(ReadElf(file, false).value.phdrs, n) == t
    ensures var q := ReadElf(file, false).value.phdrs[n];
      q == p.(offset := q.offset) && q.offset + d < |file| && file[q.offset + d] == byte_
  {
    n := OtherNumbered(ReadElf(file, false).value.phdrs, t);
    var at := ReadElf(file, false).value.phdrs[n].offset + d;
    assert file[at..at + 1][0] == file[at];
  }

  /** The byte that is expected at an address of the kept memory. */
  lemma KeptByte(mem: map<nat, byte>, maps: seq<Mapping>, dumps: seq<DumpFile>, p: Process, entry: nat,
                 starter: seq<byte>, a: nat) returns (want: byte)
    requires |dumps| == |maps| && a in KeptMemory(mem, maps, dumps, p)
    ensures a in mem && want == if entry <= a < entry + |starter| then starter[a - entry] else mem[a]
    ensures want == WithStarter(KeptMemory(mem, maps, dumps, p), entry, starter)[a]
  {
    want := WithStarter(KeptMemory(mem, maps, dumps, p), entry, starter)[a];
  }

  lemma SectionInLoad(elf: ElfFile, page: nat, x: nat, k: nat)
    requires x < |elf.shdrs| && elf.shdrs[x].flags / 2 % 2 == 1
    requires k < |elf.phdrs| && elf.phdrs[k].ptype == 1
    requires elf.phdrs[k].offset <= elf.shdrs[x].offset < elf.phdrs[k].offset + elf.phdrs[k].filesz
    requires forall i, l :: 0 <= i < |elf.phdrs| && 0 <= l < |elf.phdrs| && i != l
                            && elf.phdrs[i].ptype == 1 && elf.phdrs[l].ptype == 1 ==>
               elf.phdrs[i].offset + elf.phdrs[i].filesz <= elf.phdrs[l].offset
               || elf.phdrs[l].offset + elf.phdrs[l].filesz <= elf.phdrs[i].offset
    requires PowerOfTwo(page) && PowerOfTwo(elf.phdrs[k].align)
    ensures InLoad(elf, page, x, k)
    ensures SectionAddress(elf, page, x, k) == elf.phdrs[k].vaddr + (elf.shdrs[x].offset - elf.phdrs[k].offset)
  {
    AllocatedBit(elf.shdrs[x]);
  }

  lemma SegmentInLoad(elf: ElfFile, i: nat, k: nat)
    requires i < |elf.phdrs| && k < |elf.phdrs|
    requires elf.phdrs[i].ptype != 1 && elf.phdrs[i].ptype != 3 && elf.phdrs[i].ptype != 6 && elf.phdrs[i].filesz > 0
    requires elf.phdrs[k].ptype == 1
    requires elf.phdrs[k].offset <= elf.phdrs[i].offset < elf.phdrs[k].offset + elf.phdrs[k].filesz
    requires forall l :: 0 <= l < k && elf.phdrs[l].ptype == 1 ==>
               !(elf.phdrs[l].offset <= elf.phdrs[i].offset < elf.phdrs[l].offset + elf.phdrs[l].filesz)
    requires forall h, l :: 0 <= h < i && 0 <= l < |elf.phdrs|
                            && elf.phdrs[h].ptype != 1 && elf.phdrs[h].ptype != 3 && elf.phdrs[h].ptype != 6
                            && elf.phdrs[h].filesz > 0 && elf.phdrs[l].ptype == 1 ==>
               !(elf.phdrs[l].offset <= elf.phdrs[h].offset < elf.phdrs[l].offset + elf.phdrs[l].filesz)
    ensures StopIndex(elf.phdrs) == i && MovedSegment(elf) == elf.phdrs[i] && MovedIn(elf) == elf.phdrs[k]
    ensures |Others(elf.phdrs[..i])| == OthersBefore(elf.phdrs, i)
  {
    FirstInsideStops(elf.phdrs, i, k);
    CountedBefore(elf.phdrs, i);
  }

  /** Segment `t` of the snapshot is the first one that starts where `pe` was mapped from,
      and those up to `v` touch it. */
  lemma ContinuedIs(pe: Phdr, headers: seq<Phdr>, page: nat, b: nat, t: nat, v: nat)
    requires PowerOfTwo(page) && PowerOfTwo(pe.align) && pe.vaddr < TWO64
    requires b == (if pe.align < page then pe.align else page) && b > 0
    requires t <= v < |headers| && headers[t].vaddr == pe.vaddr - pe.vaddr % b
    requires forall i :: 0 <= i < t ==> headers[i].vaddr != pe.vaddr - pe.vaddr % b
    requires forall i :: t <= i < v ==> headers[i].vaddr + headers[i].filesz == headers[i + 1].vaddr
    ensures Continued(pe, headers, page, v)
  {
    FindLoadIs(pe, headers, page, b, t);
  }

  /** An allocated section lies in PT_LOAD segment `k`, which the snapshot's segments `t`
      to `v` continue. Read through its header in the new executable, byte `d` of the
      section is the byte of memory at its address. */
  lemma SectionReads(mem: map<nat, byte>, maps: seq<Mapping>, dumps: seq<DumpFile>, p: Process, s: Selection,
                     elf: ElfFile, exe: seq<byte>, entry: nat, page: nat, starter: seq<byte>, j: nat, u: nat,
                     x: nat, k: nat, b: nat, t: nat, v: nat, d: nat, a: nat)
    returns (file: seq<byte>)
    requires Faithful(mem, maps, dumps) && Select(maps, dumps, p) == Done(s) && page > 0
    requires Prepared(s, maps, elf, exe, entry, page) && Confined(s.headers, entry, |starter|, j, u)
    requires x < |elf.shdrs| && elf.shdrs[x].flags / 2 % 2 == 1
    requires k < |elf.phdrs| && elf.phdrs[k].ptype == 1
    requires elf.phdrs[k].offset <= elf.shdrs[x].offset < elf.phdrs[k].offset + elf.phdrs[k].filesz
    requires forall i, l :: 0 <= i < |elf.phdrs| && 0 <= l < |elf.phdrs| && i != l
                            && elf.phdrs[i].ptype == 1 && elf.phdrs[l].ptype == 1 ==>
               elf.phdrs[i].offset + elf.phdrs[i].filesz <= elf.phdrs[l].offset
               || elf.phdrs[l].offset + elf.phdrs[l].filesz <= elf.phdrs[i].offset
    requires PowerOfTwo(page) && PowerOfTwo(elf.phdrs[k].align)
    requires b == (if elf.phdrs[k].align < page then elf.phdrs[k].align else page) && b > 0
    requires t <= v < |s.headers| && s.headers[t].vaddr == elf.phdrs[k].vaddr - elf.phdrs[k].vaddr % b
    requires forall i :: 0 <= i < t ==> s.headers[i].vaddr != elf.phdrs[k].vaddr - elf.phdrs[k].vaddr % b
    requires forall i :: t <= i < v ==> s.headers[i].vaddr + s.headers[i].filesz == s.headers[i + 1].vaddr
    requires a == elf.phdrs[k].vaddr + (elf.shdrs[x].offset - elf.phdrs[k].offset) + d
    requires s.headers[v].vaddr <= a < s.headers[v].vaddr + s.headers[v].filesz
    ensures NewExe(Done(entry), Done(s), exe, page, starter) == Done(file)
    ensures ReadElf(file, true).Done? && x < |ReadElf(file, true).value.shdrs| && a in mem
    ensures var at := ReadElf(file, true).value.shdrs[x].offset + d;
      at < |file| && file[at] == if entry <= a < entry + |starter| then starter[a - entry] else mem[a]
  {
    ReadElfFits(exe, true);
    SectionInLoad(elf, page, x, k);
    ContinuedIs(elf.phdrs[k], s.headers, page, b, t, v);
    file := SectionsPreserved(mem, maps, dumps, p, s, elf, exe, entry, page, starter, j, u, x, k, v, d, a);
    var want := KeptByte(mem, maps, dumps, p, entry, starter, a);
    SectionShown(file, x, d, want);
  }

  /** A section without SHF_ALLOC has its old bytes, found through its header in the new
      executable. */
  lemma CopiedSectionReads(mem: map<nat, byte>, maps: seq<Mapping>, dumps: seq<DumpFile>, p: Process, s: Selection,
                           elf: ElfFile, exe: seq<byte>, entry: nat, page: nat, starter: seq<byte>, j: nat, u: nat,
                           x: nat) returns (file: seq<byte>)
    requires Faithful(mem, maps, dumps) && Select(maps, dumps, p) == Done(s) && page > 0
    requires Prepared(s, maps, elf, exe, entry, page) && Confined(s.headers, entry, |starter|, j, u)
    requires x < |elf.shdrs|
    requires elf.shdrs[x].flags / 2 % 2 == 0 && elf.shdrs[x].stype != 0 && elf.shdrs[x].size > 0
    ensures NewExe(Done(entry), Done(s), exe, page, starter) == Done(file)
    ensures ReadElf(file, true).Done? && x < |ReadElf(file, true).value.shdrs|
    ensures elf.shdrs[x].offset + elf.shdrs[x].size <= |exe|
    ensures var at := ReadElf(file, true).value.shdrs[x].offset;
      var old_ := exe[elf.shdrs[x].offset..elf.shdrs[x].offset + elf.shdrs[x].size];
      at + |old_| <= |file| && file[at..at + |old_|] == old_
  {
    AllocatedBit(elf.shdrs[x]);
    file := CopiedSectionsPreserved(mem, maps, dumps, p, s, elf, exe, entry, page, starter, j, u, x);
    BytesShown(file, x, exe[elf.shdrs[x].offset..elf.shdrs[x].offset + elf.shdrs[x].size]);
  }

  /** Header `i` is the first that is not empty, of none of the types 1, 3 and 6, and in
      the part of the file that a PT_LOAD segment maps, `k` being the first such one.
      In the new executable the header behind as many of other types leads to memory
      at its address; nothing else in it has changed. */
  lemma SegmentReads(mem: map<nat, byte>, maps: seq<Mapping>, dumps: seq<DumpFile>, p: Process, s: Selection,
                     elf: ElfFile, exe: seq<byte>, entry: nat, page: nat, starter: seq<byte>, j: nat, u: nat,
                     i: nat, k: nat, b: nat, t: nat, v: nat, d: nat, a: nat)
    returns (file: seq<byte>, n: nat)
    requires Faithful(mem, maps, dumps) && Select(maps, dumps, p) == Done(s) && page > 0
    requires Prepared(s, maps, elf, exe, entry, page) && Confined(s.headers, entry, |starter|, j, u)
    requires i < |elf.phdrs| && k < |elf.phdrs|
    requires elf.phdrs[i].ptype != 1 && elf.phdrs[i].ptype != 3 && elf.phdrs[i].ptype != 6 && elf.phdrs[i].filesz > 0
    requires elf.phdrs[k].ptype == 1
    requires elf.phdrs[k].offset <= elf.phdrs[i].offset < elf.phdrs[k].offset + elf.phdrs[k].filesz
    requires forall l :: 0 <= l < k && elf.phdrs[l].ptype == 1 ==>
               !(elf.phdrs[l].offset <= elf.phdrs[i].offset < elf.phdrs[l].offset + elf.phdrs[l].filesz)
    requires forall h, l :: 0 <= h < i && 0 <= l < |elf.phdrs|
                            && elf.phdrs[h].ptype != 1 && elf.phdrs[h].ptype != 3 && elf.phdrs[h].ptype != 6
                            && elf.phdrs[h].filesz > 0 && elf.phdrs[l].ptype == 1 ==>
               !(elf.phdrs[l].offset <= elf.phdrs[h].offset < elf.phdrs[l].offset + elf.phdrs[l].filesz)
    requires PowerOfTwo(page) && PowerOfTwo(elf.phdrs[k].align)
    requires b == (if elf.phdrs[k].align < page then elf.phdrs[k].align else page) && b > 0
    requires t <= v < |s.headers| && s.headers[t].vaddr == elf.phdrs[k].vaddr - elf.phdrs[k].vaddr % b
    requires forall l :: 0 <= l < t ==> s.headers[l].vaddr != elf.phdrs[k].vaddr - elf.phdrs[k].vaddr % b
    requires forall l :: t <= l < v ==> s.headers[l].vaddr + s.headers[l].filesz == s.headers[l + 1].vaddr
    requires a == elf.phdrs[k].vaddr + (elf.phdrs[i].offset - elf.phdrs[k].offset) + d
    requires s.headers[v].vaddr <= a < s.headers[v].vaddr + s.headers[v].filesz
    ensures NewExe(Done(entry), Done(s), exe, page, starter) == Done(file)
    ensures ReadElf(file, false).Done? && n < |ReadElf(file, false).value.phdrs| && a in mem
    ensures OthersBefore(ReadElf(file, false).value.phdrs, n) == OthersBefore(elf.phdrs, i)
    ensures var q := ReadElf(file, false).value.phdrs[n];
      && q == elf.phdrs[i].(offset := q.offset) && q.offset + d < |file|
      && file[q.offset + d] == if entry <= a < entry + |starter| then starter[a - entry] else mem[a]
  {
    ReadElfFits(exe, true);
    SegmentInLoad(elf, i, k);
    ContinuedIs(elf.phdrs[k], s.headers, page, b, t, v);
    file := SegmentPreserved(mem, maps, dumps, p, s, elf, exe, entry, page, starter, j, u, v, d, a);
    var want := KeptByte(mem, maps, dumps, p, entry, starter, a);
    n := SegmentShown(file, OthersBefore(elf.phdrs, i), elf.phdrs[i], d, want);
  }
}
