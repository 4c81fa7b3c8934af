/** What src/non_pt_load.c makes of an executable, told from its input: types,
    flags, sizes and alignments of the headers, and bytes of the files. */
module OutputFacts {
  import opened Arith
  import opened Bytes
  import opened Elf
  import opened Outcomes
  import opened Layout
  import opened Relocation
  import opened HeaderMerge
  import opened NonPtLoad
  import opened ImageFacts

  // --------------------------------------------------------- When it succeeds

  lemma AlignOfFirst(ps: seq<Phdr>, page: nat, f: nat)
    requires f <= |ps| && forall k :: 0 <= k < f ==> ps[k].ptype != 1
    requires f < |ps| ==> ps[f].ptype == 1
    ensures LoadAlign(ps, page) == if f == |ps| then 0 else if ps[f].align < page then ps[f].align else page
  {
    assert FirstLoad(ps) == f;
  }

  /** The headers read from the file of headers, which get offsets. */
  lemma PlannedAddresses(elf: ElfFile, pls: seq<Phdr>, entry: nat, page: nat)
    requires Plannable(elf, page)
    ensures var plan := MakePlan(elf, pls, entry, page);
      |plan.loads| == |pls| && forall k :: 0 <= k < |pls| ==> plan.loads[k].vaddr == pls[k].vaddr
  {
  }

  /** What is taken for granted about entry sizes and the number of headers. */
  lemma InputIsValid(exe: seq<byte>, loadFile: seq<byte>, page: nat, elf: ElfFile)
    requires ReadElf(exe, true) == Done(elf) && 0 < page < 0x1_0000_0000_0000_0000
    requires elf.ehdr.phentsize == 56 && (elf.ehdr.shnum > 0 ==> elf.ehdr.shentsize == 64)
    requires |loadFile| / 56 + OthersBefore(elf.phdrs, |elf.phdrs|) < 0x1_0000
    ensures ValidInput(exe, loadFile, page)
  {
    CountedBefore(elf.phdrs, |elf.phdrs|);
    assert elf.phdrs[..|elf.phdrs|] == elf.phdrs;
  }

  /** An executable whose PT_LOAD segments all have an alignment (or a snapshot without
      a segment at address 0): an output is written exactly if there is a PT_LOAD
      segment, the first one has an alignment, the file of headers holds whole headers
      and at least one, and the sections to copy lie in the executable. */
  lemma OutputIff(exe: seq<byte>, loadFile: seq<byte>, entry: nat, page: nat, elf: ElfFile, f: nat)
    requires ValidInput(exe, loadFile, page) && ReadElf(exe, true) == Done(elf)
    requires f <= |elf.phdrs| && forall k :: 0 <= k < f ==> elf.phdrs[k].ptype != 1
    requires f < |elf.phdrs| ==> elf.phdrs[f].ptype == 1
    requires (forall k :: 0 <= k < |elf.phdrs| && elf.phdrs[k].ptype == 1 ==> elf.phdrs[k].align > 0)
             || (forall k :: 0 <= k < |loadFile| / 56 ==> DecodePhdr(loadFile[56 * k..56 * (k + 1)]).vaddr != 0)
    ensures var hs := elf.shdrs;
      Output(exe, loadFile, entry, page).Done? <==>
      && f < |elf.phdrs| && elf.phdrs[f].align > 0
      && |loadFile| > 0 && |loadFile| % 56 == 0
      && ((forall i :: 0 <= i < |hs| && hs[i].stype != 0 && hs[i].flags / 2 % 2 == 0 ==> hs[i].size == 0)
          || (forall i :: 0 <= i < |hs| && hs[i].flags / 2 % 2 == 0 && hs[i].size > 0 ==>
                hs[i].offset + hs[i].size <= |exe|))
  {
    AlignOfFirst(elf.phdrs, page, f);
    SectionBytesIff(elf.shdrs, exe);
    if ReadLoads(loadFile).Done? {
      assert ReadLoads(loadFile).value == ReadPhdrs(loadFile, 0, |loadFile| / 56);
    }
    OutputStages(exe, loadFile, entry, page, elf);
  }

  /** The same by the stages of the program. */
  lemma OutputStages(exe: seq<byte>, loadFile: seq<byte>, entry: nat, page: nat, elf: ElfFile)
    requires ValidInput(exe, loadFile, page) && ReadElf(exe, true) == Done(elf)
    requires (forall k :: 0 <= k < |elf.phdrs| && elf.phdrs[k].ptype == 1 ==> elf.phdrs[k].align > 0)
             || (ReadLoads(loadFile).Done? ==> NoneAtZero(ReadLoads(loadFile).value))
    ensures Output(exe, loadFile, entry, page).Done? <==>
            LoadAlign(elf.phdrs, page) > 0 && ReadLoads(loadFile).Done? && SectionBytes(elf.shdrs, exe).Done?
  {
    ReadAlignable(exe, page);
    if LoadAlign(elf.phdrs, page) > 0 && ReadLoads(loadFile).Done? {
      PlanWritten(elf, ReadLoads(loadFile).value, entry, page, exe);
    }
  }

  predicate NoneAtZero(pls: seq<Phdr>) {
    forall k :: 0 <= k < |pls| ==> pls[k].vaddr != 0
  }

  lemma PlanWritten(elf: ElfFile, pls: seq<Phdr>, entry: nat, page: nat, exe: seq<byte>)
    requires Plannable(elf, page)
    requires (forall k :: 0 <= k < |elf.phdrs| && elf.phdrs[k].ptype == 1 ==> elf.phdrs[k].align > 0)
             || NoneAtZero(pls)
    ensures Written(elf, MakePlan(elf, pls, entry, page), exe, page).Done? <==> SectionBytes(elf.shdrs, exe).Done?
  {
    PlanDivides(elf, pls, entry, page);
  }

  lemma PlanDivides(elf: ElfFile, pls: seq<Phdr>, entry: nat, page: nat)
    requires Plannable(elf, page)
    requires (forall k :: 0 <= k < |elf.phdrs| && elf.phdrs[k].ptype == 1 ==> elf.phdrs[k].align > 0)
             || (forall k :: 0 <= k < |pls| ==> pls[k].vaddr != 0)
    ensures Divides(elf, MakePlan(elf, pls, entry, page).loads, page)
  {
    PlannedAddresses(elf, pls, entry, page);
    RelocationGetsThrough(elf.shdrs, elf.phdrs, MakePlan(elf, pls, entry, page).loads, page);
  }

  // ------------------------------------------------------ Its program headers

  lemma {:induction false} SameOthers(a: seq<Phdr>, b: seq<Phdr>, i: nat)
    requires |a| == |b| && i <= |a| && forall k :: 0 <= k < |a| ==> a[k].ptype == b[k].ptype
    ensures OthersBefore(a, i) == OthersBefore(b, i)
  {
    if i > 0 { SameOthers(a, b, i - 1); }
  }

  /** A table of planned headers, written and read back. */
  lemma TableBack(plan: Plan, file: seq<byte>)
    requires Headers(plan) <= file && plan.phdrs != []
    requires plan.ehdr.phoff == EHDR_SIZE && plan.ehdr.phnum == |plan.phdrs| < 0x1_0000
    requires 0 < plan.ehdr.phentsize < 0x1_0000
    ensures ReadElf(file, false).Done?
    ensures var back := ReadElf(file, false).value.phdrs;
      |back| == |plan.phdrs| && forall k :: 0 <= k < |back| ==> back[k] == Stored(plan.phdrs[k])
  {
    HeaderPrefix(plan, file);
    EhdrTableKept(plan.ehdr);
    forall k | 0 <= k < |plan.phdrs|
      ensures ReadPhdrs(file, EHDR_SIZE, |plan.phdrs|)[k] == Stored(plan.phdrs[k])
    {
      ReadBackPhdr(file, EHDR_SIZE, plan.phdrs, k);
    }
  }

  /** Headers `ps` with other offsets, merged with the dumps' headers, written and read
      back as `back`. */
  ghost predicate ReadsMerged(ps: seq<Phdr>, moved: seq<Phdr>, loads: seq<Phdr>, back: seq<Phdr>) {
    && |moved| == |ps| && |back| == |Merge(moved, loads)|
    && (forall i :: 0 <= i < |ps| ==> ps[i].Fits() && moved[i] == ps[i].(offset := moved[i].offset))
    && (forall k :: 0 <= k < |loads| ==> loads[k].ptype == 1 && loads[k].(offset := 0).Fits())
    && forall k :: 0 <= k < |back| ==> back[k] == Stored(Merge(moved, loads)[k])
  }

  lemma MergedTypesBack(ps: seq<Phdr>, moved: seq<Phdr>, loads: seq<Phdr>, back: seq<Phdr>, f: nat)
    requires ReadsMerged(ps, moved, loads, back)
    requires f < |ps| && ps[f].ptype == 1 && forall k :: 0 <= k < f ==> ps[k].ptype != 1
    ensures |back| == |loads| + OthersBefore(ps, |ps|)
    ensures forall k :: 0 <= k < |back| ==> back[k].ptype != 3 && back[k].ptype != 6
  {
    assert moved[f].ptype == 1;
    MergedTypes(moved, loads, f);
    SameOthers(ps, moved, |ps|);
    TypesMergedFit(ps, moved, loads);
    StoredTypes(Merge(moved, loads), back);
  }

  lemma TypesMergedFit(ps: seq<Phdr>, moved: seq<Phdr>, loads: seq<Phdr>)
    requires |moved| == |ps| && FirstLoad(moved) < |moved|
    requires forall i :: 0 <= i < |ps| ==> ps[i].Fits() && moved[i] == ps[i].(offset := moved[i].offset)
    requires forall k :: 0 <= k < |loads| ==> loads[k].ptype == 1
    ensures forall k :: 0 <= k < |Merge(moved, loads)| ==> Merge(moved, loads)[k].ptype < 0x1_0000_0000
  {
    forall i | 0 <= i < |moved| ensures moved[i].ptype < 0x1_0000_0000 {
      assert ps[i].Fits();
    }
    MergeTypesFit(moved, loads);
  }

  lemma StoredTypes(table: seq<Phdr>, back: seq<Phdr>)
    requires |back| == |table| && forall k :: 0 <= k < |back| ==> back[k] == Stored(table[k])
    requires forall k :: 0 <= k < |table| ==> table[k].ptype < 0x1_0000_0000
    ensures forall k :: 0 <= k < |back| ==> back[k].ptype == table[k].ptype
  {
    forall k | 0 <= k < |back| ensures back[k].ptype == table[k].ptype {
      PhdrTypeRoundTrip(table[k]);
    }
  }

  lemma MergedDumpBack(ps: seq<Phdr>, moved: seq<Phdr>, loads: seq<Phdr>, back: seq<Phdr>, f: nat, k: nat,
                       n: nat)
    requires ReadsMerged(ps, moved, loads, back) && k < |loads|
    requires f < |ps| && ps[f].ptype == 1 && forall l :: 0 <= l < f ==> ps[l].ptype != 1
    requires n == OthersBefore(ps, f) + k
    ensures n < |back| && back[n] == loads[k].(offset := loads[k].offset % TWO64)
  {
    SameOthers(ps, moved, f);
    MergedDump(moved, loads, f, k, n);
    PhdrOffsetKept(loads[k]);
  }

  lemma MergedOtherBack(ps: seq<Phdr>, moved: seq<Phdr>, loads: seq<Phdr>, back: seq<Phdr>, f: nat, i: nat,
                        n: nat)
    requires ReadsMerged(ps, moved, loads, back) && i < |ps|
    requires f < |ps| && ps[f].ptype == 1 && forall k :: 0 <= k < f ==> ps[k].ptype != 1
    requires ps[i].ptype != 1 && ps[i].ptype != 3 && ps[i].ptype != 6
    requires n == OthersBefore(ps, i) + if i < f then 0 else |loads|
    ensures n < |back| && back[n] == ps[i].(offset := moved[i].offset % TWO64)
  {
    SameOthers(ps, moved, i);
    MergedOther(moved, loads, f, i, n);
    PhdrOffsetKept(moved[i]);
  }

  /** The executable is read, the headers of the dumps are read and are of type PT_LOAD,
      and this is the output. */
  ghost predicate Writes(exe: seq<byte>, loadFile: seq<byte>, entry: nat, page: nat, elf: ElfFile, pls: seq<Phdr>,
                         image: seq<byte>)
  {
    && ValidInput(exe, loadFile, page) && ReadElf(exe, true) == Done(elf) && ReadLoads(loadFile) == Done(pls)
    && (forall k :: 0 <= k < |pls| ==> pls[k].ptype == 1)
    && Output(exe, loadFile, entry, page) == Done(image)
  }

  lemma WrittenPlan(exe: seq<byte>, loadFile: seq<byte>, entry: nat, page: nat, elf: ElfFile, pls: seq<Phdr>,
                    image: seq<byte>)
    requires Writes(exe, loadFile, entry, page, elf, pls, image)
    ensures Plannable(elf, page) && WellRead(elf)
    ensures var plan := MakePlan(elf, pls, entry, page);
      && plan.end <= plan.base && Image(elf, plan, exe) == Done(image) && Headers(plan) <= image
      && plan.phdrs != [] && |plan.phdrs| < 0x1_0000
  {
    ReadElfFits(exe, true);
    PlanCounts(elf, pls, entry, page);
  }

  lemma LoadsRead(loadFile: seq<byte>, pls: seq<Phdr>)
    requires pls != [] && |loadFile| == 56 * |pls|
    requires forall k :: 0 <= k < |pls| ==>
               56 * (k + 1) <= |loadFile| && pls[k] == DecodePhdr(loadFile[56 * k..56 * (k + 1)])
    ensures ReadLoads(loadFile) == Done(pls)
  {
    DivModUnique(|loadFile|, 56, |pls|, 0);
    assert ReadPhdrs(loadFile, 0, |pls|) == pls;
  }

  lemma LoadsFit(loadFile: seq<byte>, pls: seq<Phdr>)
    requires ReadLoads(loadFile) == Done(pls)
    ensures forall k :: 0 <= k < |pls| ==> pls[k].Fits()
  {
    forall k | 0 <= k < |pls| ensures pls[k].Fits() {
      DecodedPhdrFits(loadFile[0 + PHDR_SIZE * k..0 + PHDR_SIZE * (k + 1)]);
    }
  }

  /** The table of what is written, read back in front of anything. */
  lemma WrittenTable(exe: seq<byte>, loadFile: seq<byte>, entry: nat, page: nat, elf: ElfFile, pls: seq<Phdr>,
                     image: seq<byte>, rest: seq<byte>) returns (moved: seq<Phdr>, loads: seq<Phdr>)
    requires Writes(exe, loadFile, entry, page, elf, pls, image)
    ensures ReadElf(image + rest, false).Done?
    ensures ReadsMerged(elf.phdrs, moved, loads, ReadElf(image + rest, false).value.phdrs)
    ensures |loads| == |pls| && forall k :: 0 <= k < |pls| ==> loads[k] == pls[k].(offset := loads[k].offset)
  {
    WrittenPlan(exe, loadFile, entry, page, elf, pls, image);
    LoadsFit(loadFile, pls);
    var plan := MakePlan(elf, pls, entry, page);
    PlanCounts(elf, pls, entry, page);
    moved, loads := PlanTable(elf, plan, pls, page, image + rest);
  }

  lemma PlanTable(elf: ElfFile, plan: Plan, pls: seq<Phdr>, page: nat, file: seq<byte>)
    returns (moved: seq<Phdr>, loads: seq<Phdr>)
    requires Alignable(elf.phdrs, page) && WellRead(elf) && |elf.shdrs| == |plan.shdrs|
    requires plan.loads == AssignOffsets(pls, plan.base)
    requires forall k :: 0 <= k < |pls| ==> pls[k].Fits() && pls[k].ptype == 1
    requires plan.phdrs == Merge(RelocatePhdrs(elf.phdrs, plan.loads, page, elf.shdrs, plan.shdrs), plan.loads)
    requires Headers(plan) <= file && plan.phdrs != []
    requires plan.ehdr.phoff == EHDR_SIZE && plan.ehdr.phnum == |plan.phdrs| < 0x1_0000
    requires 0 < plan.ehdr.phentsize < 0x1_0000
    ensures ReadElf(file, false).Done? && ReadsMerged(elf.phdrs, moved, loads, ReadElf(file, false).value.phdrs)
    ensures |loads| == |pls| && forall k :: 0 <= k < |pls| ==> loads[k] == pls[k].(offset := loads[k].offset)
  {
    TableBack(plan, file);
    loads := plan.loads;
    moved := RelocatePhdrs(elf.phdrs, loads, page, elf.shdrs, plan.shdrs);
    RelocationTouchesOffsetsOnly(elf.phdrs, loads, page, elf.shdrs, plan.shdrs);
  }

  /** All that asks for: an executable and headers that can be read, and an output. */
  lemma InputsWrite(exe: seq<byte>, loadFile: seq<byte>, entry: nat, page: nat, elf: ElfFile, pls: seq<Phdr>,
                    image: seq<byte>)
    requires ValidInput(exe, loadFile, page) && ReadElf(exe, true) == Done(elf)
    requires Output(exe, loadFile, entry, page) == Done(image)
    requires pls != [] && |loadFile| == 56 * |pls|
    requires forall k :: 0 <= k < |pls| ==>
               && 56 * (k + 1) <= |loadFile| && pls[k] == DecodePhdr(loadFile[56 * k..56 * (k + 1)])
               && pls[k].ptype == 1
    ensures Writes(exe, loadFile, entry, page, elf, pls, image)
  {
    LoadsRead(loadFile, pls);
  }

  /** In the table of the output, whatever follows that, there is neither a PT_INTERP nor
      a PT_PHDR header, and no more than the dumps' and those of the other types. */
  lemma OutputTypes(exe: seq<byte>, loadFile: seq<byte>, entry: nat, page: nat, elf: ElfFile, pls: seq<Phdr>,
                    image: seq<byte>, rest: seq<byte>, f: nat)
    requires Writes(exe, loadFile, entry, page, elf, pls, image)
    requires f < |elf.phdrs| && elf.phdrs[f].ptype == 1 && forall k :: 0 <= k < f ==> elf.phdrs[k].ptype != 1
    ensures ReadElf(image + rest, false).Done?
    ensures var back := ReadElf(image + rest, false).value.phdrs;
      && |back| == |pls| + OthersBefore(elf.phdrs, |elf.phdrs|)
      && forall k :: 0 <= k < |back| ==> back[k].ptype != 3 && back[k].ptype != 6
  {
    var moved, loads := WrittenTable(exe, loadFile, entry, page, elf, pls, image, rest);
    MergedTypesBack(elf.phdrs, moved, loads, ReadElf(image + rest, false).value.phdrs, f);
  }

  /** The dumps' headers are there in their order, behind the headers of other types
      that preceded the first PT_LOAD header: all but their offsets as they were. */
  lemma OutputDump(exe: seq<byte>, loadFile: seq<byte>, entry: nat, page: nat, elf: ElfFile, pls: seq<Phdr>,
                   image: seq<byte>, rest: seq<byte>, f: nat, k: nat, n: nat)
    requires Writes(exe, loadFile, entry, page, elf, pls, image)
    requires f < |elf.phdrs| && elf.phdrs[f].ptype == 1 && forall k :: 0 <= k < f ==> elf.phdrs[k].ptype != 1
    requires k < |pls| && n == OthersBefore(elf.phdrs, f) + k
    ensures ReadElf(image + rest, false).Done? && n < |ReadElf(image + rest, false).value.phdrs|
    ensures var q := ReadElf(image + rest, false).value.phdrs[n]; q == pls[k].(offset := q.offset)
  {
    var moved, loads := WrittenTable(exe, loadFile, entry, page, elf, pls, image, rest);
    MergedDumpBack(elf.phdrs, moved, loads, ReadElf(image + rest, false).value.phdrs, f, k, n);
  }

  /** And every header of another type is there, once, behind those that preceded it. */
  lemma OutputOther(exe: seq<byte>, loadFile: seq<byte>, entry: nat, page: nat, elf: ElfFile, pls: seq<Phdr>,
                    image: seq<byte>, rest: seq<byte>, f: nat, i: nat, n: nat)
    requires Writes(exe, loadFile, entry, page, elf, pls, image)
    requires f < |elf.phdrs| && elf.phdrs[f].ptype == 1 && forall k :: 0 <= k < f ==> elf.phdrs[k].ptype != 1
    requires i < |elf.phdrs|
    requires elf.phdrs[i].ptype != 1 && elf.phdrs[i].ptype != 3 && elf.phdrs[i].ptype != 6
    requires n == OthersBefore(elf.phdrs, i) + if i < f then 0 else |pls|
    ensures ReadElf(image + rest, false).Done? && n < |ReadElf(image + rest, false).value.phdrs|
    ensures var q := ReadElf(image + rest, false).value.phdrs[n]; q == elf.phdrs[i].(offset := q.offset)
  {
    var moved, loads := WrittenTable(exe, loadFile, entry, page, elf, pls, image, rest);
    MergedOtherBack(elf.phdrs, moved, loads, ReadElf(image + rest, false).value.phdrs, f, i, n);
  }

  // ------------------------------------- Its ELF header and its sections

  /** Number of headers in the output. */
  lemma CountOfHeaders(elf: ElfFile, pls: seq<Phdr>, entry: nat, page: nat, n: nat)
    requires Plannable(elf, page) && n == |pls| + OthersBefore(elf.phdrs, |elf.phdrs|)
    ensures var plan := MakePlan(elf, pls, entry, page);
      && |plan.phdrs| == n && plan.start == 64 + 56 * n + 64 * elf.ehdr.shnum
      && plan.ehdr == OutEhdr(elf.ehdr, entry, n)
  {
    PlanCounts(elf, pls, entry, page);
    CountedBefore(elf.phdrs, |elf.phdrs|);
    assert elf.phdrs[..|elf.phdrs|] == elf.phdrs;
  }

  lemma WrittenReadable(exe: seq<byte>, loadFile: seq<byte>, entry: nat, page: nat, elf: ElfFile, pls: seq<Phdr>,
                        image: seq<byte>)
    requires Writes(exe, loadFile, entry, page, elf, pls, image) && entry < 0x1_0000_0000_0000_0000
    ensures Plannable(elf, page) && Readable(MakePlan(elf, pls, entry, page))
  {
    ReadElfFits(exe, true);
    PlanReadable(elf, pls, entry, page);
  }

  /** The ELF header of the output: an executable at a fixed address, entered where the
      starter is, with its tables behind one another; all else as it was. */
  lemma OutputHeader(exe: seq<byte>, loadFile: seq<byte>, entry: nat, page: nat, elf: ElfFile, pls: seq<Phdr>,
                     image: seq<byte>, rest: seq<byte>, n: nat)
    requires Writes(exe, loadFile, entry, page, elf, pls, image) && entry < 0x1_0000_0000_0000_0000
    requires n == |pls| + OthersBefore(elf.phdrs, |elf.phdrs|)
    ensures ReadElf(image + rest, false).Done?
    ensures ReadElf(image + rest, false).value.ehdr
            == elf.ehdr.(etype := if elf.ehdr.etype == 3 then 2 else elf.ehdr.etype,
                         entry := entry, phoff := 64, phnum := n, shoff := 64 + 56 * n)
  {
    WrittenPlan(exe, loadFile, entry, page, elf, pls, image);
    WrittenReadable(exe, loadFile, entry, page, elf, pls, image);
    CountOfHeaders(elf, pls, entry, page, n);
    var plan := MakePlan(elf, pls, entry, page);
    HeaderPrefix(plan, image + rest);
    EhdrRoundTrip(plan.ehdr);
  }

  /** What a plan makes of a section header that is not moved with a segment. */
  lemma PlannedSection(elf: ElfFile, pls: seq<Phdr>, entry: nat, page: nat, x: nat, plan: Plan, at: nat)
    requires Plannable(elf, page) && plan == MakePlan(elf, pls, entry, page) && x < |elf.shdrs| == |plan.shdrs|
    requires elf.shdrs[x].flags / 2 % 2 == 0
    requires at == if elf.shdrs[x].stype != 0 then plan.start + SizesBefore(elf.shdrs, x) else elf.shdrs[x].offset
    ensures plan.shdrs[x] == elf.shdrs[x].(offset := at)
  {
    AllocatedBit(elf.shdrs[x]);
    PlacedOffset(elf.shdrs, plan.start, x);
    AllocatedBit(Place(elf.shdrs, plan.start)[x]);
  }

  lemma PlannedOutside(elf: ElfFile, pls: seq<Phdr>, entry: nat, page: nat, x: nat, plan: Plan)
    requires Plannable(elf, page) && plan == MakePlan(elf, pls, entry, page) && x < |elf.shdrs| == |plan.shdrs|
    requires elf.shdrs[x].flags / 2 % 2 == 1
    requires forall k :: 0 <= k < |elf.phdrs| && elf.phdrs[k].ptype == 1 ==>
               !(elf.phdrs[k].offset <= elf.shdrs[x].offset < elf.phdrs[k].offset + elf.phdrs[k].filesz)
    ensures plan.shdrs[x] == elf.shdrs[x]
  {
    AllocatedBit(elf.shdrs[x]);
    OffsetBehindOwner(elf.shdrs[x].offset, elf.shdrs[x].offset, elf.phdrs, plan.loads, page, 0);
  }

  /** The section headers of the output: one without SHF_ALLOC leads behind the three
      tables and the sections copied before it, an inactive one is as it was. */
  lemma OutputSection(exe: seq<byte>, loadFile: seq<byte>, entry: nat, page: nat, elf: ElfFile, pls: seq<Phdr>,
                      image: seq<byte>, rest: seq<byte>, n: nat, x: nat, at: nat)
    requires Writes(exe, loadFile, entry, page, elf, pls, image) && entry < 0x1_0000_0000_0000_0000
    requires n == |pls| + OthersBefore(elf.phdrs, |elf.phdrs|) && x < |elf.shdrs|
    requires elf.shdrs[x].flags / 2 % 2 == 0
    requires at == if elf.shdrs[x].stype != 0 then 64 + 56 * n + 64 * elf.ehdr.shnum + SizesBefore(elf.shdrs, x)
                   else elf.shdrs[x].offset
    ensures ReadElf(image + rest, true).Done? && |ReadElf(image + rest, true).value.shdrs| == |elf.shdrs|
    ensures ReadElf(image + rest, true).value.shdrs[x] == elf.shdrs[x].(offset := at % TWO64)
  {
    ReadShdrsFit(exe);
    var plan := WrittenTables(exe, loadFile, entry, page, elf, pls, image, n);
    PlannedSection(elf, pls, entry, page, x, plan, at);
    SectionBack(plan, image + rest, elf.shdrs[x], x, at);
  }

  /** An allocated section outside every PT_LOAD segment keeps its header, too. */
  lemma OutputSectionOutside(exe: seq<byte>, loadFile: seq<byte>, entry: nat, page: nat, elf: ElfFile, pls: seq<Phdr>,
                             image: seq<byte>, rest: seq<byte>, x: nat)
    requires Writes(exe, loadFile, entry, page, elf, pls, image) && entry < 0x1_0000_0000_0000_0000
    requires x < |elf.shdrs| && elf.shdrs[x].flags / 2 % 2 == 1
    requires forall k :: 0 <= k < |elf.phdrs| && elf.phdrs[k].ptype == 1 ==>
               !(elf.phdrs[k].offset <= elf.shdrs[x].offset < elf.phdrs[k].offset + elf.phdrs[k].filesz)
    ensures ReadElf(image + rest, true).Done? && |ReadElf(image + rest, true).value.shdrs| == |elf.shdrs|
    ensures ReadElf(image + rest, true).value.shdrs[x] == elf.shdrs[x]
  {
    ReadShdrsFit(exe);
    var plan := WrittenTables(exe, loadFile, entry, page, elf, pls, image,
                              |pls| + OthersBefore(elf.phdrs, |elf.phdrs|));
    PlannedOutside(elf, pls, entry, page, x, plan);
    SectionBack(plan, image + rest, elf.shdrs[x], x, elf.shdrs[x].offset);
    SmallRemainder(elf.shdrs[x].offset, TWO64);
  }

  lemma WrittenTables(exe: seq<byte>, loadFile: seq<byte>, entry: nat, page: nat, elf: ElfFile, pls: seq<Phdr>,
                      image: seq<byte>, n: nat) returns (plan: Plan)
    requires Writes(exe, loadFile, entry, page, elf, pls, image) && entry < 0x1_0000_0000_0000_0000
    requires n == |pls| + OthersBefore(elf.phdrs, |elf.phdrs|)
    ensures Plannable(elf, page) && plan == MakePlan(elf, pls, entry, page)
    ensures Readable(plan) && Headers(plan) <= image && |plan.shdrs| == |elf.shdrs| == plan.ehdr.shnum
    ensures plan.ehdr.shoff == EHDR_SIZE + PHDR_SIZE * |plan.phdrs|
    ensures plan.start == 64 + 56 * n + 64 * elf.ehdr.shnum
    ensures forall x :: 0 <= x < |elf.shdrs| ==> plan.shdrs[x] == elf.shdrs[x].(offset := plan.shdrs[x].offset)
  {
    WrittenPlan(exe, loadFile, entry, page, elf, pls, image);
    WrittenReadable(exe, loadFile, entry, page, elf, pls, image);
    CountOfHeaders(elf, pls, entry, page, n);
    PlannedShdrs(elf, pls, entry, page);
    plan := MakePlan(elf, pls, entry, page);
  }

  lemma SectionBack(plan: Plan, file: seq<byte>, h: Shdr, x: nat, at: nat)
    requires Readable(plan) && Headers(plan) <= file && x < |plan.shdrs| == plan.ehdr.shnum
    requires plan.ehdr.shoff == EHDR_SIZE + PHDR_SIZE * |plan.phdrs|
    requires h.Fits() && plan.shdrs[x] == h.(offset := at)
    ensures ReadElf(file, true).Done? && |ReadElf(file, true).value.shdrs| == |plan.shdrs|
    ensures ReadElf(file, true).value.shdrs[x] == h.(offset := at % TWO64)
  {
    SectionOffsetsBack(plan, file, x);
    ShdrOffsetKept(plan.shdrs[x]);
  }

  /** If inactive headers are empty, the bytes of a section without SHF_ALLOC are where
      its header leads. */
  lemma OutputSectionBytes(exe: seq<byte>, loadFile: seq<byte>, entry: nat, page: nat, elf: ElfFile, pls: seq<Phdr>,
                           image: seq<byte>, n: nat, x: nat, at: nat)
    requires Writes(exe, loadFile, entry, page, elf, pls, image)
    requires n == |pls| + OthersBefore(elf.phdrs, |elf.phdrs|) && x < |elf.shdrs|
    requires forall i :: 0 <= i < |elf.shdrs| && elf.shdrs[i].stype == 0 ==> elf.shdrs[i].size == 0
    requires elf.shdrs[x].flags / 2 % 2 == 0 && elf.shdrs[x].stype != 0 && elf.shdrs[x].size > 0
    requires at == 64 + 56 * n + 64 * elf.ehdr.shnum + SizesBefore(elf.shdrs, x)
    ensures var h := elf.shdrs[x];
      && at + h.size <= |image| && h.offset + h.size <= |exe|
      && image[at..at + h.size] == exe[h.offset..h.offset + h.size]
  {
    WrittenPlan(exe, loadFile, entry, page, elf, pls, image);
    CountOfHeaders(elf, pls, entry, page, n);
    PlanLaidOut(elf, pls, entry, page);
    NullSizeIff(elf.shdrs);
    PlacedBytes(elf, pls, MakePlan(elf, pls, entry, page), exe, image, x, at);
  }

  lemma PlacedBytes(elf: ElfFile, pls: seq<Phdr>, plan: Plan, exe: seq<byte>, image: seq<byte>, x: nat, at: nat)
    requires LaidOut(elf, pls, plan) && Image(elf, plan, exe) == Done(image) && LoopsAgree(elf.shdrs)
    requires x < |elf.shdrs| && at == plan.start + SizesBefore(elf.shdrs, x)
    requires elf.shdrs[x].flags / 2 % 2 == 0 && elf.shdrs[x].stype != 0 && elf.shdrs[x].size > 0
    ensures var h := elf.shdrs[x];
      && at + h.size <= |image| && h.offset + h.size <= |exe|
      && image[at..at + h.size] == exe[h.offset..h.offset + h.size]
  {
    PlacedThere(elf, pls, plan, x, at);
    SectionContentKept(elf, pls, plan, exe, x);
  }

  lemma PlacedThere(elf: ElfFile, pls: seq<Phdr>, plan: Plan, x: nat, at: nat)
    requires LaidOut(elf, pls, plan) && x < |elf.shdrs| && at == plan.start + SizesBefore(elf.shdrs, x)
    requires elf.shdrs[x].flags / 2 % 2 == 0 && elf.shdrs[x].stype != 0
    ensures Placed(elf.shdrs[x]) && plan.shdrs[x].offset == at
  {
    AllocatedBit(elf.shdrs[x]);
    PlacedSizeIs(elf.shdrs, x);
  }

  /** And the output ends on the first PT_LOAD segment's boundary, or a page's, behind
      the tables and the sections, with zeros in between. */
  lemma OutputSize(exe: seq<byte>, loadFile: seq<byte>, entry: nat, page: nat, elf: ElfFile, pls: seq<Phdr>,
                   image: seq<byte>, n: nat, f: nat, a: nat, used: nat)
    requires Writes(exe, loadFile, entry, page, elf, pls, image)
    requires n == |pls| + OthersBefore(elf.phdrs, |elf.phdrs|)
    requires forall i :: 0 <= i < |elf.shdrs| && elf.shdrs[i].stype == 0 ==> elf.shdrs[i].size == 0
    requires f < |elf.phdrs| && elf.phdrs[f].ptype == 1 && forall k :: 0 <= k < f ==> elf.phdrs[k].ptype != 1
    requires a == (if elf.phdrs[f].align < page then elf.phdrs[f].align else page) && a > 0
    requires used == 64 + 56 * n + 64 * elf.ehdr.shnum + SizesBefore(elf.shdrs, |elf.shdrs|)
    ensures |image| % a == 0 && used <= |image| < used + a
    ensures forall i :: used <= i < |image| ==> image[i] == 0
  {
    WrittenPlan(exe, loadFile, entry, page, elf, pls, image);
    CountOfHeaders(elf, pls, entry, page, n);
    PlanLaidOut(elf, pls, entry, page);
    AlignOfFirst(elf.phdrs, page, f);
    NullSizeIff(elf.shdrs);
    PlacedSizeIs(elf.shdrs, |elf.shdrs|);
    assert elf.shdrs[..|elf.shdrs|] == elf.shdrs;
    ImageEnds(elf, pls, MakePlan(elf, pls, entry, page), exe, image);
  }

  lemma ImageEnds(elf: ElfFile, pls: seq<Phdr>, plan: Plan, exe: seq<byte>, image: seq<byte>)
    requires LaidOut(elf, pls, plan) && Image(elf, plan, exe) == Done(image) && LoopsAgree(elf.shdrs)
    ensures |image| == plan.base && forall i :: plan.end <= i < |image| ==> image[i] == 0
  {
    PlacementAgreesWithCopy(elf.shdrs, exe);
    var sections := SectionBytes(elf.shdrs, exe).value;
    assert image == Headers(plan) + sections + Zeros(plan.base - plan.end);
    assert |Headers(plan) + sections| == plan.end;
  }
}
