/** A smallest process and executable to which the promise of `Statify` applies:
    one text segment, one mapping of one page, no sections. The executable is
    aligned to 4096 bytes; pages have 4096 or 65536. */
module Instance {
  import opened Arith
  import opened Bytes
  import opened Elf
  import opened Outcomes
  import opened Layout
  import opened Relocation
  import opened HeaderMerge
  import opened NonPtLoad
  import opened ImageFacts
  import opened MapFilter
  import opened Ptrace
  import opened Fep
  import opened Loader
  import opened Overlay
  import opened Snapshot
  import opened Statify
  import opened Promise

  const SMALL_PAGE: nat := 0x1000
  const LARGE_PAGE: nat := 0x1_0000
  const PROCESS: MapFilter.Process := MapFilter.Process(0x7000_0800, 0x7000_0000, 0x7000_1000, 0)

  /** The mapping of the text segment, and the header made from it. */
  function TextMapping(page: nat): Mapping {
    Mapping(0x40_0000, 0x40_0000 + page, "r-xp", "/bin/true")
  }

  function KeptHeader(page: nat): Phdr {
    Phdr(PT_LOAD, 5, 0, 0x40_0000, 0x40_0000, page, page, 1)
  }

  /** An executable with one program header behind its ELF header, and these section
      headers behind that. */
  predicate SmallHeader(e: Ehdr, hs: seq<Shdr>) {
    && e.Fits() && KernelKnows(e) && e.phoff == EHDR_SIZE && e.phnum == 1
    && e.shnum == |hs| && (hs != [] ==> e.shoff == EHDR_SIZE + PHDR_SIZE && e.shentsize == SHDR_SIZE)
  }

  /** A file of 512 bytes: the tables behind the header, sections behind them. */
  function SmallFile(e: Ehdr, p: Phdr, hs: seq<Shdr>, rest: seq<byte>): seq<byte> {
    EncodeEhdr(e) + EncodePhdrs([p]) + EncodeShdrs(hs) + rest
  }

  lemma SmallFileReads(e: Ehdr, p: Phdr, hs: seq<Shdr>, rest: seq<byte>)
    requires SmallHeader(e, hs) && p.Fits() && forall k :: 0 <= k < |hs| ==> hs[k].Fits()
    ensures var file := SmallFile(e, p, hs, rest);
      && |file| == EHDR_SIZE + PHDR_SIZE + SHDR_SIZE * |hs| + |rest|
      && ReadElf(file, true) == Done(ElfFile(e, [p], hs)) && ReadElf(file, false) == Done(ElfFile(e, [p], []))
  {
    var file := SmallFile(e, p, hs, rest);
    EncodedSizes([p], hs);
    var front := EncodeEhdr(e) + EncodePhdrs([p]);
    assert front <= file && file[..EHDR_SIZE] == EncodeEhdr(e);
    assert file[EHDR_SIZE..EHDR_SIZE + PHDR_SIZE * |[p]|] == EncodePhdrs([p]);
    EhdrRoundTrip(e);
    ReadBackPhdrs(file, EHDR_SIZE, [p]);
    assert file == front + (EncodeShdrs(hs) + rest);
    assert file[|front|..|front| + |EncodeShdrs(hs)|] == EncodeShdrs(hs);
    ReadBackShdrs(file, |front|, hs);
  }

  lemma MappingKept(data: seq<byte>, page: nat)
    requires 0 < page < 0x6000_0000
    ensures Select([TextMapping(page)], [DumpFile(data, Done("libc.so.6"))], PROCESS)
            == Done(Selection([KeptHeader(page)], [data]))
  {
    var m, d := TextMapping(page), DumpFile(data, Done("libc.so.6"));
    assert "libc.so.6"[1] == 'i' && "libc.so.6"[3] == 'c' && "linux-gate.so."[3] == 'u';
    assert Ignored(m, d, PROCESS) == Done(false);
    assert "r-xp"[0] == 'r' && "r-xp"[1] == '-' && "-wx"[0] == '-' && "rwx"[1] == 'w';
    assert FinalPermission(m, PROCESS) == "r-xp";
    assert SegmentHeader(m.start, m.stop, "r-xp") == Done(KeptHeader(page));
    assert [] + [KeptHeader(page)] == [KeptHeader(page)] && [] + [data] == [data];
    assert SelectNext(Selection([], []), m, d, PROCESS) == Done(Selection([KeptHeader(page)], [data]));
    assert [m][..0] == [];
  }

  lemma SmallFileValid(e: Ehdr, p: Phdr, hs: seq<Shdr>, rest: seq<byte>, kept: Phdr, page: nat)
    requires SmallHeader(e, hs) && SmallText(p) && kept.Fits() && 0 < page < TWO64
    requires forall k :: 0 <= k < |hs| ==> hs[k].Fits()
    ensures Plannable(ElfFile(e, [p], hs), page)
    ensures ValidInput(SmallFile(e, p, hs, rest), EncodePhdrs([kept]), page)
  {
    SmallFileReads(e, p, hs, rest);
    EncodedSizes([kept], []);
    FilterNone([p], CarriedOver);
    assert FirstLoad([p]) == 0;
  }

  /** The image ends within a boundary behind its headers. */
  lemma OneSegmentSize(elf: ElfFile, kept: Phdr, entry: nat, page: nat)
    requires Plannable(elf, page) && elf.shdrs == [] && |elf.phdrs| == 1
    ensures MakePlan(elf, [kept], entry, page).base <= 0x100 + page
  {
    PlanCounts(elf, [kept], entry, page);
  }

  lemma OneSegmentBuilt(elf: ElfFile, kept: Phdr, entry: nat, page: nat, exe: seq<byte>)
    requires Plannable(elf, page) && ValidInput(exe, EncodePhdrs([kept]), page) && kept.Fits()
    requires ReadElf(exe, true) == Done(elf) && elf.shdrs == [] && |elf.phdrs| == 1
    ensures Output(exe, EncodePhdrs([kept]), entry, page).Done?
    ensures |Output(exe, EncodePhdrs([kept]), entry, page).value| <= 0x100 + page
  {
    var plan := MakePlan(elf, [kept], entry, page);
    LoadsReadBack([kept]);
    PlanLaidOut(elf, [kept], entry, page);
    assert Output(exe, EncodePhdrs([kept]), entry, page) == Image(elf, plan, exe);
    LayoutEqualsEmission(elf, [kept], plan, exe);
    OneSegmentSize(elf, kept, entry, page);
  }

  function ZeroMemory(start: nat, stop: nat): (m: map<nat, byte>)
    ensures forall a: nat :: a in m <==> start <= a < stop
    ensures forall a: nat :: a in m ==> m[a] == 0
    decreases stop - start
  {
    if stop <= start then map[] else ZeroMemory(start + 1, stop)[start := 0]
  }

  /** A text segment of 512 bytes, aligned to 4096. */
  predicate SmallText(p: Phdr) {
    && p.Fits() && p.ptype == PT_LOAD && p.flags == 5 && p.vaddr == 0x40_0000
    && p.filesz == p.memsz == 0x200 && p.align == SMALL_PAGE
  }

  lemma SomeHeaders(hs: seq<Shdr>) returns (e: Ehdr, p: Phdr)
    requires |hs| < 0x1_0000
    ensures SmallHeader(e, hs) && SmallText(p) && e.etype == ET_EXEC
  {
    e := Ehdr(0x0001_0102_464c_457f, ET_EXEC, EM_X86_64, 1, 0x40_0000, 64, 120, 0, 64, 56, 1, 64, |hs|, 0);
    p := Phdr(PT_LOAD, 5, 0, 0x40_0000, 0x40_0000, 0x200, 0x200, 0x1000);
  }

  lemma SomeExecutable(e: Ehdr, p: Phdr, kept: Phdr, page: nat, entry: nat)
    requires SmallHeader(e, []) && SmallText(p) && kept.Fits() && 0 < page < TWO64
    ensures var elf, exe := ElfFile(e, [p], []), SmallFile(e, p, [], Zeros(0x188));
      && |exe| == 0x200
      && ReadElf(exe, true) == Done(elf) && ReadElf(exe, false) == Done(elf)
      && ValidInput(exe, EncodePhdrs([kept]), page)
      && Output(exe, EncodePhdrs([kept]), entry, page).Done?
      && |Output(exe, EncodePhdrs([kept]), entry, page).value| <= 0x100 + page
  {
    SmallFileReads(e, p, [], Zeros(0x188));
    SmallFileValid(e, p, [], Zeros(0x188), kept, page);
    OneSegmentBuilt(ElfFile(e, [p], []), kept, entry, page, SmallFile(e, p, [], Zeros(0x188)));
  }

  /** A page of zeros, mapped and dumped. */
  lemma ZeroDump(page: nat) returns (mem: map<nat, byte>, dumps: seq<DumpFile>)
    requires 0 < page < 0x6000_0000
    ensures ProperMaps([TextMapping(page)]) && |dumps| == 1 && Faithful(mem, [TextMapping(page)], dumps)
    ensures Select([TextMapping(page)], dumps, PROCESS) == Done(Selection([KeptHeader(page)], [dumps[0].data]))
  {
    var data := Zeros(page);
    mem := ZeroMemory(0x40_0000, 0x40_0000 + page);
    dumps := [DumpFile(data, Done("libc.so.6"))];
    MappingKept(data, page);
    assert DumpOf(mem, TextMapping(page), data);
  }

  lemma PageAligned(page: nat)
    requires page == 0x1000 || page == 0x1_0000
    ensures AlignedMappings([KeptHeader(page)], page)
  {
    if page == 0x1000 {
      assert 0x40_0000 % 0x1000 == 0 && 0x1000 % 0x1000 == 0;
    } else {
      assert 0x40_0000 % 0x1_0000 == 0 && 0x1_0000 % 0x1_0000 == 0;
    }
  }

  lemma PagePowers()
    ensures PowerOfTwo(SMALL_PAGE) && PowerOfTwo(LARGE_PAGE)
  {
    assert Pow2(8) == 256;
    Pow2Add(8, 4);
    Pow2Add(8, 8);
    assert Pow2(4) == 16 && Pow2(12) == SMALL_PAGE && Pow2(16) == LARGE_PAGE;
  }

  /** The starter goes behind the text, in the first segment of the only file. */
  lemma TextHasRoom(p: Phdr, elf: ElfFile, page: nat, size: nat, disk: map<string, seq<byte>>)
    requires SmallText(p) && elf.phdrs == [p] && (page == SMALL_PAGE || page == LARGE_PAGE)
    requires 0 < size <= 0xe00 && "/bin/true" in disk && ReadElf(disk["/bin/true"], false) == Done(elf)
    ensures PlaceIn(Listed([TextMapping(page)]), disk, size, page) == Done(Gap([p], 0x40_0000, 0))
    ensures Gap([p], 0x40_0000, 0).Address() == 0x40_0200
  {
    assert ']' !in "/bin/true" && TextMapping(page).name != "";
    OneFileListed(TextMapping(page));
    assert [p][0] == p;
    RoomBehindText(p, size, page);
    assert FirstLoad([p]) == 0;
    OneFilePlace(TextMapping(page), elf, disk, size, page);
  }

  lemma OneFileListed(m: Mapping)
    requires NamesFile(m)
    ensures Listed([m]) == [m]
  {
    assert [m][..0] == [] && [] + [m] == [m];
  }

  lemma OneFilePlace(m: Mapping, elf: ElfFile, disk: map<string, seq<byte>>, size: nat, page: nat)
    requires m.name in disk && ReadElf(disk[m.name], false) == Done(elf)
    requires |elf.phdrs| > 0 && HasRoom(elf.phdrs[0], size, page)
    ensures PlaceIn([m], disk, size, page) == Done(Gap(elf.phdrs, m.start, 0))
  {
    assert Chosen(elf.phdrs, size, page) == 0;
  }

  lemma RoomBehindText(p: Phdr, size: nat, page: nat)
    requires SmallText(p) && (page == SMALL_PAGE || page == LARGE_PAGE) && 0 < size <= 0xe00
    ensures HasRoom(p, size, page) && UsedSpace(p) == 0x200
  {
    assert BitAnd(5, PF_X) == 1 by { assert BitAnd(2, 0) == 0; }
    assert RoundUp(0x200, 16) == 0x200 && RoundUp(0x200, 0x1000) == 0x1000;
  }

  lemma TextGapKept(p: Phdr, size: nat, page: nat)
    requires SmallText(p) && (page == 0x1000 || page == 0x1_0000) && 0 < size <= 0xe00
    ensures GapKept(Gap([p], 0x40_0000, 0), size, page, [KeptHeader(page)], 0)
  {
    assert [p][0] == p && FirstLoad([p]) == 0;
    RoomBehindText(p, size, page);
    PagePowers();
    if page == 0x1000 {
      assert 0x40_0000 % 0x1000 == 0 && RoundUp(0x40_0200, 0x1000) == 0x40_1000;
    } else {
      assert 0x40_0000 % 0x1_0000 == 0 && RoundUp(0x40_0200, 0x1_0000) == 0x41_0000;
    }
  }

  /** Everything the promise asks for can be had at once, for either page size and
      any starter that fits behind the text. */
  lemma PromiseApplies(starter: seq<byte>, page: nat)
    returns (mem: map<nat, byte>, dumps: seq<DumpFile>, s: Selection, elf: ElfFile, exe: seq<byte>,
             disk: map<string, seq<byte>>, place: Gap)
    requires page == SMALL_PAGE || page == LARGE_PAGE
    requires 0 < |starter| <= 0xe00
    ensures Faithful(mem, [TextMapping(page)], dumps) && Select([TextMapping(page)], dumps, PROCESS) == Done(s)
    ensures PlaceIn(Listed([TextMapping(page)]), disk, |starter|, page) == Done(place)
    ensures Suitable(place, s, [TextMapping(page)], elf, exe, page, starter, 0)
    ensures place.Address() == 0x40_0200 && s.headers == [KeptHeader(page)]
    ensures |elf.phdrs| == 1 && SmallText(elf.phdrs[0]) && SmallHeader(elf.ehdr, []) && elf.shdrs == []
  {
    mem, dumps := ZeroDump(page);
    s := Selection([KeptHeader(page)], [dumps[0].data]);
    var e, p := SomeHeaders([]);
    elf, exe := ElfFile(e, [p], []), SmallFile(e, p, [], Zeros(0x188));
    place := Gap([p], 0x40_0000, 0);
    SomeExecutable(e, p, KeptHeader(page), page, 0x40_0200);
    disk := map["/bin/true" := exe];
    TextHasRoom(p, elf, page, |starter|, disk);
    TextGapKept(p, |starter|, page);
    PageAligned(page);
    OneSegmentPrepared(s, elf, exe, 0x40_0200, page);
  }

  lemma OneSegmentPrepared(s: Selection, elf: ElfFile, exe: seq<byte>, entry: nat, page: nat)
    requires page > 0 && s.headers == [KeptHeader(page)] && AlignedMappings(s.headers, page)
    requires ProperMaps([TextMapping(page)]) && ReadElf(exe, true) == Done(elf) && elf.shdrs == []
    requires ValidInput(exe, EncodePhdrs(s.headers), page) && Output(exe, EncodePhdrs(s.headers), entry, page).Done?
    requires |Output(exe, EncodePhdrs(s.headers), entry, page).value| <= 0x100 + page <= 0x10_0000
    ensures Prepared(s, [TextMapping(page)], elf, exe, entry, page)
  {
    assert [KeptHeader(page)][..0] == [];
    assert FileSizes(s.headers) == page;
  }

  /** The kernel knows the executable; the segments begin on a page of 4096 bytes,
      but not on one of 65536. */
  lemma BeginsOnSmallPage(elf: ElfFile)
    requires |elf.phdrs| == 1 && SmallText(elf.phdrs[0]) && SmallHeader(elf.ehdr, []) && elf.shdrs == []
    ensures BeginsOnPage(elf, 1, SMALL_PAGE) && !BeginsOnPage(elf, 1, LARGE_PAGE)
    ensures Acceptable(elf, 1, SMALL_PAGE) && !Acceptable(elf, 1, LARGE_PAGE)
  {
    assert FirstLoad(elf.phdrs) == 0;
    FilterNone(elf.phdrs, CarriedOver);
    assert RoundUp(120, SMALL_PAGE) == SMALL_PAGE;
  }

  /** The entry point fep.sh prints. */
  function FoundEntry(page: nat, disk: map<string, seq<byte>>, starter: seq<byte>): Outcome<nat> {
    EntryOf(PlaceIn(Listed([TextMapping(page)]), disk, |starter|, page))
  }

  /** With 4096-byte pages the kernel loads the snapshot ... */
  lemma LoadedOnSmallPages(starter: seq<byte>)
    returns (mem: map<nat, byte>, dumps: seq<DumpFile>, s: Selection, exe: seq<byte>, disk: map<string, seq<byte>>)
    requires 0 < |starter| <= 0xe00
    ensures ValidInput(exe, EncodePhdrs(s.headers), SMALL_PAGE) && Faithful(mem, [TextMapping(SMALL_PAGE)], dumps)
    ensures Select([TextMapping(SMALL_PAGE)], dumps, PROCESS) == Done(s)
    ensures var r := NewExe(FoundEntry(SMALL_PAGE, disk, starter), Done(s), exe, SMALL_PAGE, starter);
      r.Done? && Exec(r.value, SMALL_PAGE)
                 == Loaded(WithStarter(KeptMemory(mem, [TextMapping(SMALL_PAGE)], dumps, PROCESS), 0x40_0200, starter))
  {
    var elf, place;
    mem, dumps, s, elf, exe, disk, place := PromiseApplies(starter, SMALL_PAGE);
    BeginsOnSmallPage(elf);
    GapIsConfined(Listed([TextMapping(SMALL_PAGE)]), disk, |starter|, SMALL_PAGE, s.headers, 0);
    SnapshotPreserved(mem, [TextMapping(SMALL_PAGE)], dumps, PROCESS, s, elf, exe, 0x40_0200, SMALL_PAGE, starter, 0,
                      0);
  }

  /** ... and with 65536-byte pages it refuses the file, although every stage got
      through. */
  lemma RefusedOnLargePages(starter: seq<byte>)
    returns (mem: map<nat, byte>, dumps: seq<DumpFile>, s: Selection, exe: seq<byte>, disk: map<string, seq<byte>>)
    requires 0 < |starter| <= 0xe00
    ensures ValidInput(exe, EncodePhdrs(s.headers), LARGE_PAGE) && Faithful(mem, [TextMapping(LARGE_PAGE)], dumps)
    ensures Select([TextMapping(LARGE_PAGE)], dumps, PROCESS) == Done(s)
    ensures var r := NewExe(FoundEntry(LARGE_PAGE, disk, starter), Done(s), exe, LARGE_PAGE, starter);
      r.Done? && Exec(r.value, LARGE_PAGE) == Refused
  {
    var elf, place;
    mem, dumps, s, elf, exe, disk, place := PromiseApplies(starter, LARGE_PAGE);
    BeginsOnSmallPage(elf);
    GapIsConfined(Listed([TextMapping(LARGE_PAGE)]), disk, |starter|, LARGE_PAGE, s.headers, 0);
    SnapshotPreserved(mem, [TextMapping(LARGE_PAGE)], dumps, PROCESS, s, elf, exe, 0x40_0200, LARGE_PAGE, starter, 0,
                      0);
  }

  // ------------------------------------------------- An inactive header

  const INACTIVE: Shdr := Shdr(0, SHT_NULL, 0, 0, 0, 4, 0, 0, 0, 0)
  const STRINGS: Shdr := Shdr(0, 3, 0, 0, 248, 4, 0, 0, 1, 0)

  lemma InactiveSizes()
    ensures PlacedSize([INACTIVE, STRINGS]) == 4 && NullSize([INACTIVE, STRINGS]) == 4
  {
    var hs := [INACTIVE, STRINGS];
    assert hs[..1] == [INACTIVE] && [INACTIVE][..0] == [] && hs[..2 - 1] == [INACTIVE];
    assert Placed(STRINGS) && !Placed(INACTIVE) && Copied(INACTIVE);
    assert PlacedSize([INACTIVE]) == 0 && NullSize([INACTIVE]) == 4;
  }

  /** Of such an executable the layout program writes four bytes too many. */
  lemma InactiveOutput(elf: ElfFile, kept: Phdr, entry: nat, page: nat, exe: seq<byte>)
    returns (image: seq<byte>, base: nat)
    requires Plannable(elf, page) && ValidInput(exe, EncodePhdrs([kept]), page) && kept.Fits()
    requires ReadElf(exe, true) == Done(elf) && elf.shdrs == [INACTIVE, STRINGS] && |exe| >= 252
    requires |elf.phdrs| == 1 && elf.phdrs[0].ptype == PT_LOAD
    ensures Output(exe, EncodePhdrs([kept]), entry, page) == Done(image) && |image| == base + 4
    ensures MakePlan(elf, [kept], entry, page).loads == [kept.(offset := base)]
  {
    var plan := MakePlan(elf, [kept], entry, page);
    LoadsReadBack([kept]);
    PlanLaidOut(elf, [kept], entry, page);
    InactiveSizes();
    assert StopIndex(elf.phdrs) == 1;
    assert Divides(elf, plan.loads, page);
    assert CopiesReadable(elf.shdrs, exe);
    assert Output(exe, EncodePhdrs([kept]), entry, page) == Image(elf, plan, exe);
    EmissionExcess(elf, [kept], plan, exe);
    AssignFirst([kept], plan.base);
    image, base := Image(elf, plan, exe).value, plan.base;
    assert plan.loads == [kept.(offset := base)];
  }

  lemma InactiveExecutable(hs: seq<Shdr>, kept: Phdr) returns (elf: ElfFile, exe: seq<byte>)
    requires |hs| == 2 && hs[0].Fits() && hs[1].Fits() && kept.Fits()
    ensures ReadElf(exe, true) == Done(elf) && |exe| == 0x200 && KernelKnows(elf.ehdr)
    ensures elf.shdrs == hs && |elf.phdrs| == 1 && elf.phdrs[0].ptype == PT_LOAD
    ensures Plannable(elf, SMALL_PAGE) && ValidInput(exe, EncodePhdrs([kept]), SMALL_PAGE)
  {
    var e, p := SomeHeaders(hs);
    elf, exe := ElfFile(e, [p], hs), SmallFile(e, p, hs, Zeros(0x108));
    SmallFileReads(e, p, hs, Zeros(0x108));
    SmallFileValid(e, p, hs, Zeros(0x108), kept, SMALL_PAGE);
  }

  /** An executable with an inactive header of size 4 in front of its string table:
      it is read and laid out, and every dump behind it starts four bytes late. */
  lemma InactiveHeaderMisplaces(kept: Phdr, dump: seq<byte>, entry: nat)
    returns (elf: ElfFile, exe: seq<byte>, image: seq<byte>, base: nat)
    requires kept.Fits() && |dump| == kept.filesz
    ensures ReadElf(exe, true) == Done(elf) && KernelKnows(elf.ehdr) && Plannable(elf, SMALL_PAGE)
    ensures ValidInput(exe, EncodePhdrs([kept]), SMALL_PAGE)
    ensures Output(exe, EncodePhdrs([kept]), entry, SMALL_PAGE) == Done(image)
    ensures MakePlan(elf, [kept], entry, SMALL_PAGE).loads == [kept.(offset := base)]
    ensures base + 4 <= |Assemble(image, [dump])| && Assemble(image, [dump])[base + 4..] == dump
  {
    elf, exe := InactiveExecutable([INACTIVE, STRINGS], kept);
    image, base := InactiveOutput(elf, kept, entry, SMALL_PAGE, exe);
    LateDump(image, base, dump);
  }

  lemma LateDump(image: seq<byte>, base: nat, dump: seq<byte>)
    requires |image| == base + 4
    ensures base + 4 <= |Assemble(image, [dump])| && Assemble(image, [dump])[base + 4..] == dump
  {
    assert [dump][..0] == [] && Flatten([dump]) == [] + dump;
  }

  // ---------------------------------------- An ordinary executable

  const NO_SECTION: Shdr := Shdr(0, SHT_NULL, 0, 0, 0, 0, 0, 0, 0, 0)
  const TEXT: Shdr := Shdr(0, 1, 6, 0x40_0100, 0x100, 0x100, 0, 0, 16, 0)

  lemma ZerosDumped(page: nat) returns (mem: map<nat, byte>, dumps: seq<DumpFile>)
    requires page == SMALL_PAGE
    ensures Dumped(mem, [TextMapping(page)], dumps, page) && KeptAre([true], [TextMapping(page)], dumps, PROCESS)
  {
    mem := ZeroMemory(0x40_0000, 0x40_0000 + page);
    dumps := [DumpFile(Zeros(page), Done("libc.so.6"))];
    assert "libc.so.6"[2] == 'b' && "linux-gate.so."[2] == 'n';
    assert |"/bin/true"| == 9 && |"[vdso]"| == 6 && |"[stack]"| == 7;
    assert 0x40_0000 % 0x1000 == 0 && 0x40_1000 % 0x1000 == 0;
  }

  lemma TextExecutable() returns (elf: ElfFile, exe: seq<byte>)
    ensures Ordinary(exe, elf, 1, SMALL_PAGE, 0) && elf.shdrs == [NO_SECTION, TEXT]
    ensures |elf.phdrs| == 1 && elf.phdrs[0].offset <= TEXT.offset < elf.phdrs[0].offset + elf.phdrs[0].filesz
  {
    var e, p;
    e, p, exe := TwoSections([NO_SECTION, TEXT]);
    elf := ElfFile(e, [p], [NO_SECTION, TEXT]);
    TextIsOrdinary(e, p, [NO_SECTION, TEXT], exe);
  }

  lemma TwoSections(hs: seq<Shdr>) returns (e: Ehdr, p: Phdr, exe: seq<byte>)
    requires |hs| == 2 && hs[0].Fits() && hs[1].Fits()
    ensures SmallHeader(e, hs) && e.etype == ET_EXEC && SmallText(p) && p.offset == 0
    ensures |exe| == 0x200 && ReadElf(exe, true) == Done(ElfFile(e, [p], hs))
  {
    e, p := SomeHeaders(hs);
    p := p.(offset := 0);
    exe := SmallFile(e, p, hs, Zeros(0x108));
    SmallFileReads(e, p, hs, Zeros(0x108));
  }

  lemma TextIsOrdinary(e: Ehdr, p: Phdr, hs: seq<Shdr>, exe: seq<byte>)
    requires SmallHeader(e, hs) && SmallText(p) && hs == [NO_SECTION, TEXT]
    requires e.etype == ET_EXEC && |exe| == 0x200 && ReadElf(exe, true) == Done(ElfFile(e, [p], hs))
    ensures Ordinary(exe, ElfFile(e, [p], hs), 1, SMALL_PAGE, 0)
  {
    assert OthersBefore([p], 1) == 0;
    assert hs[0].size == 0 && TEXT.flags / 2 % 2 == 1;
  }

  /** An executable with an allocated section, and a process of one page: the promise in
      plain terms applies to them, and the new executable is loaded. */
  lemma OrdinaryLoads(starter: seq<byte>)
    returns (mem: map<nat, byte>, dumps: seq<DumpFile>, elf: ElfFile, exe: seq<byte>, file: seq<byte>,
             image: map<nat, byte>)
    requires |starter| <= 0xe00
    ensures elf.shdrs == [NO_SECTION, TEXT] && ReadElf(exe, true) == Done(elf) && |dumps| == 1
    ensures Select([TextMapping(SMALL_PAGE)], dumps, PROCESS).Done?
    ensures ValidInput(exe, EncodePhdrs(Select([TextMapping(SMALL_PAGE)], dumps, PROCESS).value.headers), SMALL_PAGE)
    ensures NewExe(Done(0x40_0200), Select([TextMapping(SMALL_PAGE)], dumps, PROCESS), exe, SMALL_PAGE, starter)
            == Done(file)
    ensures Exec(file, SMALL_PAGE) == Loaded(image)
    ensures forall a: nat :: a in image <==> 0x40_0000 <= a < 0x40_1000
  {
    mem, dumps := ZerosDumped(SMALL_PAGE);
    elf, exe := TextExecutable();
    file, image := SnapshotLoads(mem, [TextMapping(SMALL_PAGE)], dumps, PROCESS, [true], exe, elf, SMALL_PAGE, 0,
                                 0x40_0200, starter, 0);
    forall a: nat ensures InKept([TextMapping(SMALL_PAGE)], [true], a) <==> 0x40_0000 <= a < 0x40_1000 {
      assert [TextMapping(SMALL_PAGE)][0].start == 0x40_0000 && [true][0];
    }
  }
}
