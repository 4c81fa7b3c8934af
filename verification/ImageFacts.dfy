/** What holds of the file src/non_pt_load.c writes: its size, its tables read
    back, and the sections copied into it. */
module ImageFacts {
  import opened Arith
  import opened Bytes
  import opened Elf
  import opened Layout
  import opened Relocation
  import opened HeaderMerge
  import opened NonPtLoad

  /** A placement and a copy loop that agree; see `PlacementAgreesWithCopy`. */
  predicate LoopsAgree(hs: seq<Shdr>) {
    PlacedSize(hs) == 0 || NullSize(hs) == 0
  }

  /** The arithmetic of a plan, in the order the pieces come in the file. */
  ghost predicate LaidOut(elf: ElfFile, pls: seq<Phdr>, plan: Plan) {
    && |Headers(plan)| == plan.start
    && plan.end == plan.start + PlacedSize(elf.shdrs)
    && plan.end <= plan.base
    && plan.loads == AssignOffsets(pls, plan.base)
    && |plan.shdrs| == |elf.shdrs|
    && forall i :: 0 <= i < |elf.shdrs| && Placed(elf.shdrs[i]) ==>
         plan.shdrs[i].offset == plan.start + PlacedSize(elf.shdrs[..i])
  }

  lemma PlanLaidOut(elf: ElfFile, pls: seq<Phdr>, entry: nat, page: nat)
    requires Plannable(elf, page)
    ensures LaidOut(elf, pls, MakePlan(elf, pls, entry, page))
  {
    PlanCounts(elf, pls, entry, page);
    var plan := MakePlan(elf, pls, entry, page);
    EncodedSizes(plan.phdrs, plan.shdrs);
  }

  /** The output header: an executable at a fixed address, entered at the given
      point, whose three tables follow one another without a gap. */
  lemma PlanHeader(elf: ElfFile, pls: seq<Phdr>, entry: nat, page: nat)
    requires Plannable(elf, page)
    ensures var plan := MakePlan(elf, pls, entry, page);
      var e := plan.ehdr;
      && e.etype != ET_DYN && (elf.ehdr.etype != ET_DYN ==> e.etype == elf.ehdr.etype)
      && e.entry == entry
      && e.phoff == |EncodeEhdr(e)|
      && e.shoff == e.phoff + |EncodePhdrs(plan.phdrs)|
      && plan.start == e.shoff + |EncodeShdrs(plan.shdrs)|
      && e.shstrndx == elf.ehdr.shstrndx && e.machine == elf.ehdr.machine && e.ident == elf.ehdr.ident
  {
    PlanCounts(elf, pls, entry, page);
    var plan := MakePlan(elf, pls, entry, page);
    EncodedSizes(plan.phdrs, plan.shdrs);
  }

  /** All bytes written equal `pt_load_offset` exactly when the two section loops
      agree. */
  lemma LayoutEqualsEmission(elf: ElfFile, pls: seq<Phdr>, plan: Plan, exe: seq<byte>)
    requires LaidOut(elf, pls, plan) && Image(elf, plan, exe).Done?
    ensures |Image(elf, plan, exe).value| == plan.base <==> LoopsAgree(elf.shdrs)
  {
    PlacementAgreesWithCopy(elf.shdrs, exe);
  }

  /** How far they miss it: by the sizes of inactive headers. */
  lemma EmissionExcess(elf: ElfFile, pls: seq<Phdr>, plan: Plan, exe: seq<byte>)
    requires LaidOut(elf, pls, plan) && Image(elf, plan, exe).Done? && PlacedSize(elf.shdrs) > 0
    ensures |Image(elf, plan, exe).value| == plan.base + NullSize(elf.shdrs)
  {
    var hs := elf.shdrs;
    CopiedLength(hs, exe, |hs|);
    assert Copies(hs, exe)[..|hs|] == Copies(hs, exe) && hs[..|hs|] == hs;
  }

  /** The dumps have the sizes their headers announce. */
  predicate SizesMatch(pls: seq<Phdr>, files: seq<seq<byte>>) {
    |files| == |pls| && forall k :: 0 <= k < |pls| ==> |files[k]| == pls[k].filesz
  }

  lemma {:induction false} FileSizesMatch(pls: seq<Phdr>, files: seq<seq<byte>>, i: nat)
    requires SizesMatch(pls, files) && i <= |pls|
    ensures |Flatten(files[..i])| == FileSizes(pls[..i])
  {
    if i > 0 {
      FileSizesMatch(pls, files, i - 1);
      FileSizesStep(pls, i - 1);
      FlattenStep(files, i - 1);
    }
  }

  /** Appended by `cat` behind the image, every dump starts at the offset in its
      header; with loops that disagree, none does. */
  lemma DumpsStartAtTheirOffsets(elf: ElfFile, pls: seq<Phdr>, plan: Plan, exe: seq<byte>,
                                 files: seq<seq<byte>>, i: nat)
    requires LaidOut(elf, pls, plan) && Image(elf, plan, exe).Done?
    requires SizesMatch(pls, files) && i < |pls|
    ensures |Image(elf, plan, exe).value| + |Flatten(files[..i])| == plan.loads[i].offset <==> LoopsAgree(elf.shdrs)
  {
    LayoutEqualsEmission(elf, pls, plan, exe);
    FileSizesMatch(pls, files, i);
  }

  /** Then each of them starts behind its offset, by the same distance. */
  lemma DumpsDisplaced(elf: ElfFile, pls: seq<Phdr>, plan: Plan, exe: seq<byte>, files: seq<seq<byte>>, i: nat)
    requires LaidOut(elf, pls, plan) && Image(elf, plan, exe).Done? && PlacedSize(elf.shdrs) > 0
    requires SizesMatch(pls, files) && i < |pls|
    ensures |Image(elf, plan, exe).value| + |Flatten(files[..i])| == plan.loads[i].offset + NullSize(elf.shdrs)
  {
    EmissionExcess(elf, pls, plan, exe);
    FileSizesMatch(pls, files, i);
  }

  /** The finished file up to the injection of the starter. */
  function Assemble(image: seq<byte>, files: seq<seq<byte>>): seq<byte> {
    image + Flatten(files)
  }

  lemma DumpAtOffset(elf: ElfFile, pls: seq<Phdr>, plan: Plan, exe: seq<byte>, files: seq<seq<byte>>, i: nat)
    requires LaidOut(elf, pls, plan) && Image(elf, plan, exe).Done? && LoopsAgree(elf.shdrs)
    requires SizesMatch(pls, files) && i < |pls|
    ensures var file := Assemble(Image(elf, plan, exe).value, files);
      var at := plan.loads[i].offset;
      && plan.base <= at && at + pls[i].filesz <= |file|
      && file[at..at + pls[i].filesz] == files[i]
  {
    DumpsStartAtTheirOffsets(elf, pls, plan, exe, files, i);
    PartBehindPrefix(Image(elf, plan, exe).value, files, i);
  }

  lemma PartBehindPrefix(a: seq<byte>, files: seq<seq<byte>>, i: nat)
    requires i < |files|
    ensures var at := |a| + |Flatten(files[..i])|;
      && at + |files[i]| <= |Assemble(a, files)|
      && Assemble(a, files)[at..at + |files[i]|] == files[i]
  {
    FlattenSlice(files, i);
    BehindPrefix(a, Flatten(files), |Flatten(files[..i])|, |files[i]|);
  }

  lemma BehindPrefix(a: seq<byte>, b: seq<byte>, i: nat, n: nat)
    requires i + n <= |b|
    ensures (a + b)[|a| + i..|a| + i + n] == b[i..i + n]
  {
  }

  /** A copied section is found at its new offset with its old bytes. */
  lemma SectionContentKept(elf: ElfFile, pls: seq<Phdr>, plan: Plan, exe: seq<byte>, i: nat)
    requires LaidOut(elf, pls, plan) && Image(elf, plan, exe).Done? && LoopsAgree(elf.shdrs)
    requires i < |elf.shdrs| && Placed(elf.shdrs[i]) && elf.shdrs[i].size > 0
    ensures var h := elf.shdrs[i];
      var at := plan.shdrs[i].offset;
      && plan.start <= at && at + h.size <= plan.end <= |Image(elf, plan, exe).value|
      && h.offset + h.size <= |exe|
      && Image(elf, plan, exe).value[at..at + h.size] == exe[h.offset..h.offset + h.size]
  {
    PlacedBeforeEnd(elf.shdrs, i);
    LayoutEqualsEmission(elf, pls, plan, exe);
    CopiedContent(elf.shdrs, exe, i);
    var h := elf.shdrs[i];
    MiddlePart(Headers(plan), SectionBytes(elf.shdrs, exe).value, Zeros(plan.base - plan.end),
               PlacedSize(elf.shdrs[..i]), plan.shdrs[i].offset, exe[h.offset..h.offset + h.size]);
  }

  lemma PlacedBeforeEnd(hs: seq<Shdr>, i: nat)
    requires i < |hs| && Placed(hs[i])
    ensures PlacedSize(hs[..i]) + hs[i].size <= PlacedSize(hs)
    ensures NullSize(hs) == 0 ==> NullSize(hs[..i]) == 0
  {
    PlacedSizeStep(hs, i);
    PlacedSizeMonotone(hs, i + 1, |hs|);
    NullSizeMonotone(hs, i, |hs|);
    assert hs[..|hs|] == hs;
  }

  lemma MiddlePart(a: seq<byte>, b: seq<byte>, c: seq<byte>, i: nat, at: nat, bytes: seq<byte>)
    requires i + |bytes| <= |b| && b[i..i + |bytes|] == bytes && at == |a| + i
    ensures (a + b + c)[at..at + |bytes|] == bytes
  {
    BehindPrefix(a, b, i, |bytes|);
    assert (a + b + c)[..|a + b|] == a + b;
  }

  /** A segment outside every PT_LOAD segment follows the section it starts with:
      if that one is copied, the output has its bytes at the segment's new
      offset. */
  lemma SegmentFollowsSection(elf: ElfFile, pls: seq<Phdr>, plan: Plan, exe: seq<byte>, page: nat, i: nat, x: nat,
                              from: nat, to: nat)
    requires LaidOut(elf, pls, plan) && Image(elf, plan, exe).Done? && LoopsAgree(elf.shdrs)
    requires Alignable(elf.phdrs, page) && i < |elf.phdrs| && elf.phdrs[i].filesz > 0
    requires elf.phdrs[i].ptype != 1 && elf.phdrs[i].ptype != 3 && elf.phdrs[i].ptype != 6
    requires forall k, l :: 0 <= k <= i && 0 <= l < |elf.phdrs| && elf.phdrs[k].filesz > 0 && elf.phdrs[l].ptype == 1
                            && elf.phdrs[k].ptype != 1 && elf.phdrs[k].ptype != 3 && elf.phdrs[k].ptype != 6 ==>
               !(elf.phdrs[l].offset <= elf.phdrs[k].offset < elf.phdrs[l].offset + elf.phdrs[l].filesz)
    requires x < |elf.shdrs| && elf.shdrs[x].offset == elf.phdrs[i].offset == from
    requires forall y :: 0 <= y < x ==> elf.shdrs[y].offset != elf.phdrs[i].offset
    requires elf.shdrs[x].flags / 2 % 2 == 0 && elf.shdrs[x].stype != 0 && elf.shdrs[x].size > 0
    requires to == RelocatedPhdr(elf.phdrs, plan.loads, page, elf.shdrs, plan.shdrs, i).offset
    ensures var n := elf.shdrs[x].size;
      && to + n <= |Image(elf, plan, exe).value| && from + n <= |exe|
      && Image(elf, plan, exe).value[to..to + n] == exe[from..from + n]
  {
    FollowsOffset(elf.phdrs, plan.loads, page, elf.shdrs, plan.shdrs, i, x);
    ContentFrom(elf, pls, plan, exe, x, from, to);
  }

  lemma ContentFrom(elf: ElfFile, pls: seq<Phdr>, plan: Plan, exe: seq<byte>, x: nat, from: nat, to: nat)
    requires LaidOut(elf, pls, plan) && Image(elf, plan, exe).Done? && LoopsAgree(elf.shdrs)
    requires x < |elf.shdrs|
    requires elf.shdrs[x].flags / 2 % 2 == 0 && elf.shdrs[x].stype != 0 && elf.shdrs[x].size > 0
    requires from == elf.shdrs[x].offset && to == plan.shdrs[x].offset
    ensures var n := elf.shdrs[x].size;
      && to + n <= |Image(elf, plan, exe).value| && from + n <= |exe|
      && Image(elf, plan, exe).value[to..to + n] == exe[from..from + n]
  {
    AllocatedBit(elf.shdrs[x]);
    SectionContentKept(elf, pls, plan, exe, x);
  }

  lemma FollowsOffset(ps: seq<Phdr>, loads: seq<Phdr>, page: nat, hs: seq<Shdr>, hsOut: seq<Shdr>, i: nat, x: nat)
    requires Alignable(ps, page) && i < |ps| && ps[i].filesz > 0 && |hs| == |hsOut|
    requires ps[i].ptype != 1 && ps[i].ptype != 3 && ps[i].ptype != 6
    requires forall k, l :: 0 <= k <= i && 0 <= l < |ps| && ps[k].filesz > 0 && ps[l].ptype == 1
                            && ps[k].ptype != 1 && ps[k].ptype != 3 && ps[k].ptype != 6 ==>
               !(ps[l].offset <= ps[k].offset < ps[l].offset + ps[l].filesz)
    requires x < |hs| && hs[x].offset == ps[i].offset && forall y :: 0 <= y < x ==> hs[y].offset != ps[i].offset
    ensures RelocatedPhdr(ps, loads, page, hs, hsOut, i).offset == hsOut[x].offset
  {
    RelocatedOutside(ps, loads, page, hs, hsOut, i, x);
  }

  // ------------------------------------------------------ Reading it back

  lemma {:induction false} FilterAgrees(a: seq<Phdr>, b: seq<Phdr>, keep: Phdr -> bool)
    requires |a| == |b|
    requires forall k :: 0 <= k < |a| ==> (keep(a[k]) <==> keep(b[k])) && (keep(a[k]) ==> a[k] == b[k])
    ensures Filter(a, keep) == Filter(b, keep)
  {
    if a != [] {
      FilterAgrees(a[..|a| - 1], b[..|b| - 1], keep);
    }
  }

  /** The tables of a plan can be read back from the file. */
  ghost predicate Readable(plan: Plan) {
    && plan.ehdr.Fits() && plan.ehdr.phentsize != 0
    && plan.ehdr.phoff == EHDR_SIZE && plan.ehdr.phnum == |plan.phdrs| && plan.phdrs != []
    && (forall k :: 0 <= k < |plan.phdrs| ==> plan.phdrs[k].ptype < 0x1_0000_0000)
    && Loads(plan.phdrs) == plan.loads
  }

  lemma {:induction false} TypesFit(ps: seq<Phdr>, keep: Phdr -> bool)
    requires forall k :: 0 <= k < |ps| ==> ps[k].ptype < 0x1_0000_0000
    ensures forall k :: 0 <= k < |Filter(ps, keep)| ==> Filter(ps, keep)[k].ptype < 0x1_0000_0000
  {
    if ps != [] { TypesFit(ps[..|ps| - 1], keep); }
  }

  lemma MergeTypesFit(ps: seq<Phdr>, pls: seq<Phdr>)
    requires FirstLoad(ps) < |ps|
    requires forall k :: 0 <= k < |ps| ==> ps[k].ptype < 0x1_0000_0000
    requires forall k :: 0 <= k < |pls| ==> pls[k].ptype == PT_LOAD
    ensures forall k :: 0 <= k < |Merge(ps, pls)| ==> Merge(ps, pls)[k].ptype < 0x1_0000_0000
  {
    TypesFit(ps[..FirstLoad(ps)], CarriedOver);
    TypesFit(ps[FirstLoad(ps)..], CarriedOver);
  }

  lemma PlanReadable(elf: ElfFile, pls: seq<Phdr>, entry: nat, page: nat)
    requires Plannable(elf, page) && WellRead(elf) && elf.ehdr.phentsize != 0
    requires pls != [] && |pls| + |Others(elf.phdrs)| < 0x1_0000 && entry < TWO64
    requires forall k :: 0 <= k < |pls| ==> pls[k].ptype == PT_LOAD
    ensures Readable(MakePlan(elf, pls, entry, page))
  {
    var plan := MakePlan(elf, pls, entry, page);
    PlanCounts(elf, pls, entry, page);
    PlanMerge(elf, pls, entry, page);
    assert plan.ehdr.Fits();
  }

  lemma PlanMerge(elf: ElfFile, pls: seq<Phdr>, entry: nat, page: nat)
    requires Plannable(elf, page) && WellRead(elf)
    requires forall k :: 0 <= k < |pls| ==> pls[k].ptype == PT_LOAD
    ensures var plan := MakePlan(elf, pls, entry, page);
      && Loads(plan.phdrs) == plan.loads
      && forall k :: 0 <= k < |plan.phdrs| ==> plan.phdrs[k].ptype < 0x1_0000_0000
  {
    var plan := MakePlan(elf, pls, entry, page);
    var moved := RelocatePhdrs(elf.phdrs, plan.loads, page, elf.shdrs, plan.shdrs);
    RelocationTouchesOffsetsOnly(elf.phdrs, plan.loads, page, elf.shdrs, plan.shdrs);
    SameTypes(moved, elf.phdrs);
    MergeConserves(moved, plan.loads);
    MergeTypesFit(moved, plan.loads);
  }

  /** Parsed from the bytes, the file has the planned ELF header, and its PT_LOAD
      headers are exactly the planned ones. */
  lemma ReadBackLoads(pls: seq<Phdr>, plan: Plan, file: seq<byte>)
    requires Readable(plan) && plan.loads == AssignOffsets(pls, plan.base)
    requires Headers(plan) <= file
    requires forall k :: 0 <= k < |pls| ==> pls[k].Fits() && plan.loads[k].offset < TWO64
    ensures var r := ReadElf(file, false);
      r.Done? && r.value.ehdr == plan.ehdr && Loads(r.value.phdrs) == plan.loads
  {
    HeaderPrefix(plan, file);
    EhdrRoundTrip(plan.ehdr);
    PlannedLoadsFit(plan, pls);
    ReadBackByType(file, plan.phdrs);
  }

  lemma PlannedLoadsFit(plan: Plan, pls: seq<Phdr>)
    requires Loads(plan.phdrs) == plan.loads == AssignOffsets(pls, plan.base)
    requires forall k :: 0 <= k < |pls| ==> pls[k].Fits() && plan.loads[k].offset < TWO64
    ensures forall k :: 0 <= k < |plan.phdrs| && plan.phdrs[k].ptype == PT_LOAD ==> plan.phdrs[k].Fits()
  {
    forall k | 0 <= k < |plan.phdrs| && plan.phdrs[k].ptype == PT_LOAD ensures plan.phdrs[k].Fits() {
      FilterContains(plan.phdrs, k);
      var t :| 0 <= t < |plan.loads| && plan.loads[t] == plan.phdrs[k];
      assert pls[t].Fits();
    }
  }

  lemma {:induction false} FilterContains(ps: seq<Phdr>, k: nat)
    requires k < |ps| && IsLoad(ps[k])
    ensures ps[k] in Loads(ps)
  {
    if k < |ps| - 1 { FilterContains(ps[..|ps| - 1], k); }
  }

  lemma HeaderPrefix(plan: Plan, file: seq<byte>)
    requires Headers(plan) <= file
    ensures EHDR_SIZE + PHDR_SIZE * |plan.phdrs| <= |file|
    ensures file[..EHDR_SIZE] == EncodeEhdr(plan.ehdr)
    ensures file[EHDR_SIZE..EHDR_SIZE + PHDR_SIZE * |plan.phdrs|] == EncodePhdrs(plan.phdrs)
  {
    EncodedSizes(plan.phdrs, plan.shdrs);
    ThreeParts(EncodeEhdr(plan.ehdr), EncodePhdrs(plan.phdrs), EncodeShdrs(plan.shdrs), file);
  }

  lemma ThreeParts(a: seq<byte>, b: seq<byte>, c: seq<byte>, file: seq<byte>)
    requires a + b + c <= file
    ensures |a| + |b| <= |file| && file[..|a|] == a && file[|a|..|a| + |b|] == b
  {
    assert file == a + (b + (c + file[|a + b + c|..]));
  }

  /** The headers that are carried over, written with the others and read back. */
  lemma OthersBack(plan: Plan, file: seq<byte>, t: nat)
    requires Readable(plan) && Headers(plan) <= file && t < |Others(plan.phdrs)|
    ensures ReadElf(file, false).Done?
    ensures var back := Others(ReadElf(file, false).value.phdrs);
      t < |back| && back[t] == Stored(Others(plan.phdrs)[t])
  {
    HeaderPrefix(plan, file);
    EhdrRoundTrip(plan.ehdr);
    var back := ReadPhdrs(file, EHDR_SIZE, |plan.phdrs|);
    forall k | 0 <= k < |plan.phdrs|
      ensures back[k] == Stored(plan.phdrs[k]) && (CarriedOver(plan.phdrs[k]) <==> CarriedOver(back[k]))
    {
      ReadBackPhdr(file, EHDR_SIZE, plan.phdrs, k);
      PhdrTypeRoundTrip(plan.phdrs[k]);
    }
    FilterStored(plan.phdrs, back, CarriedOver, t);
  }

  /** Written behind the other tables, the section headers are read back from
      there with their offsets. */
  lemma SectionOffsetsBack(plan: Plan, file: seq<byte>, x: nat)
    requires Readable(plan) && Headers(plan) <= file && x < |plan.shdrs| == plan.ehdr.shnum
    requires plan.ehdr.shoff == EHDR_SIZE + PHDR_SIZE * |plan.phdrs|
    ensures ReadElf(file, true).Done?
    ensures |ReadElf(file, true).value.shdrs| == |plan.shdrs|
    ensures ReadElf(file, true).value.shdrs[x] == DecodeShdr(EncodeShdr(plan.shdrs[x]))
    ensures ReadElf(file, true).value.shdrs[x].offset == plan.shdrs[x].offset % TWO64
  {
    HeaderPrefix(plan, file);
    EhdrRoundTrip(plan.ehdr);
    SectionPrefix(plan, file);
    ReadBackShdr(file, plan.ehdr.shoff, plan.shdrs, x);
    ShdrOffsetField(plan.shdrs[x]);
  }

  lemma SectionPrefix(plan: Plan, file: seq<byte>)
    requires Headers(plan) <= file
    ensures var at, n := EHDR_SIZE + PHDR_SIZE * |plan.phdrs|, SHDR_SIZE * |plan.shdrs|;
      at + n <= |file| && file[at..at + n] == EncodeShdrs(plan.shdrs)
  {
    EncodedSizes(plan.phdrs, plan.shdrs);
    LastPart(EncodeEhdr(plan.ehdr) + EncodePhdrs(plan.phdrs), EncodeShdrs(plan.shdrs), file);
  }

  lemma LastPart(a: seq<byte>, b: seq<byte>, file: seq<byte>)
    requires a + b <= file
    ensures |a| + |b| <= |file| && file[|a|..|a| + |b|] == b
  {
    assert file == a + (b + file[|a + b|..]);
  }

  /** Whatever the program writes, and whatever follows it, has headers that can
      be read. */
  lemma OutputReads(exe: seq<byte>, loadFile: seq<byte>, entry: nat, page: nat, rest: seq<byte>)
    requires ValidInput(exe, loadFile, page) && Output(exe, loadFile, entry, page).Done?
    ensures ReadElf(Output(exe, loadFile, entry, page).value + rest, false).Done?
  {
    ReadElfFits(exe, true);
    var elf, pls := ReadElf(exe, true).value, ReadLoads(loadFile).value;
    var plan := MakePlan(elf, pls, entry, page);
    PlanCounts(elf, pls, entry, page);
    assert Headers(plan) <= Output(exe, loadFile, entry, page).value;
    PlanReads(plan, Output(exe, loadFile, entry, page).value + rest);
  }

  lemma PlanReads(plan: Plan, file: seq<byte>)
    requires Headers(plan) <= file && plan.phdrs != []
    requires plan.ehdr.phoff == EHDR_SIZE && plan.ehdr.phnum == |plan.phdrs| < 0x1_0000
    requires 0 < plan.ehdr.phentsize < 0x1_0000
    ensures ReadElf(file, false).Done?
  {
    HeaderPrefix(plan, file);
    EhdrTableKept(plan.ehdr);
  }

  lemma ReadBackByType(file: seq<byte>, ps: seq<Phdr>)
    requires EHDR_SIZE + PHDR_SIZE * |ps| <= |file|
    requires file[EHDR_SIZE..EHDR_SIZE + PHDR_SIZE * |ps|] == EncodePhdrs(ps)
    requires forall k :: 0 <= k < |ps| ==> ps[k].ptype < 0x1_0000_0000 && (ps[k].ptype == PT_LOAD ==> ps[k].Fits())
    ensures Loads(ReadPhdrs(file, EHDR_SIZE, |ps|)) == Loads(ps)
  {
    var back := ReadPhdrs(file, EHDR_SIZE, |ps|);
    forall k | 0 <= k < |ps|
      ensures (IsLoad(back[k]) <==> IsLoad(ps[k])) && (IsLoad(back[k]) ==> back[k] == ps[k])
    {
      ReadBackPhdr(file, EHDR_SIZE, ps, k);
      PhdrTypeRoundTrip(ps[k]);
      if ps[k].ptype == PT_LOAD { PhdrRoundTrip(ps[k]); }
    }
    FilterAgrees(back, ps, IsLoad);
  }
}
