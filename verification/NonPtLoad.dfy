/** The program that writes everything in front of the snapshot segments
    (src/non_pt_load.c), and what holds of the file it begins. */
module NonPtLoad {
  import opened Arith
  import opened Bytes
  import opened Elf
  import opened Outcomes
  import opened Layout
  import opened Relocation
  import opened HeaderMerge

  /** Everything the program computes before it writes. */
  datatype Plan = Plan(
    ehdr: Ehdr,          // ehdr_out
    phdrs: seq<Phdr>,    // phdrs_out
    shdrs: seq<Shdr>,    // shdrs_out
    loads: seq<Phdr>,    // phdrs_pt_load with their new offsets
    start: nat,          // start_of_non_alloc_sections
    end: nat,            // end_of_non_alloc_sections
    base: nat)           // pt_load_offset

  function OutEhdr(e: Ehdr, entry: nat, phnum: nat): Ehdr {
    e.(etype := if e.etype == ET_DYN then ET_EXEC else e.etype,
       entry := entry,
       phoff := EHDR_SIZE,
       phnum := phnum,
       shoff := EHDR_SIZE + PHDR_SIZE * phnum)
  }

  predicate Plannable(elf: ElfFile, page: nat) {
    && Alignable(elf.phdrs, page)
    && |elf.shdrs| == elf.ehdr.shnum
    && LoadAlign(elf.phdrs, page) > 0
  }

  function MakePlan(elf: ElfFile, pls: seq<Phdr>, entry: nat, page: nat): Plan
    requires Plannable(elf, page)
  {
    var ehdr := OutEhdr(elf.ehdr, entry, |pls| + |Others(elf.phdrs)|);
    var start := ehdr.shoff + SHDR_SIZE * ehdr.shnum;
    var end := start + PlacedSize(elf.shdrs);
    var base := RoundUp(end, LoadAlign(elf.phdrs, page));
    var loads := AssignOffsets(pls, base);
    var shdrs := RelocateHeaders(Place(elf.shdrs, start), elf.shdrs, elf.phdrs, loads, page);
    var phdrs := RelocatePhdrs(elf.phdrs, loads, page, elf.shdrs, shdrs);
    Plan(ehdr, Merge(phdrs, loads), shdrs, loads, start, end, base)
  }

  function Headers(plan: Plan): seq<byte> {
    EncodeEhdr(plan.ehdr) + EncodePhdrs(plan.phdrs) + EncodeShdrs(plan.shdrs)
  }

  function Zeros(n: nat): (z: seq<byte>)
    ensures |z| == n
  {
    seq(n, _ => 0)
  }

  function Image(elf: ElfFile, plan: Plan, exe: seq<byte>): Outcome<seq<byte>>
    requires plan.end <= plan.base
  {
    match SectionBytes(elf.shdrs, exe)
    case Exit(e) => Exit(e)
    case Done(sections) => Done(Headers(plan) + sections + Zeros(plan.base - plan.end))
  }

  function ReadLoads(file: seq<byte>): Outcome<seq<Phdr>> {
    if |file| == 0 then Exit(EmptyPhdrFile)
    else if |file| % PHDR_SIZE != 0 then Exit(RaggedPhdrFile)
    else Done(ReadPhdrs(file, 0, |file| / PHDR_SIZE))
  }

  /** No division by a p_align of 0 is reached. */
  predicate Divides(elf: ElfFile, loads: seq<Phdr>, page: nat)
    requires Alignable(elf.phdrs, page)
  {
    SectionsDivide(elf.shdrs, elf.phdrs, loads, page) && SegmentDivides(elf.phdrs, loads, page)
  }

  /** The output phases, reached when the relocation got through. */
  function Written(elf: ElfFile, plan: Plan, exe: seq<byte>, page: nat): Outcome<seq<byte>>
    requires plan.end <= plan.base && Alignable(elf.phdrs, page)
  {
    if Divides(elf, plan.loads, page) then Image(elf, plan, exe) else Exit(DivisionByZero)
  }

  /** The program once the executable is read. */
  function OutputOf(elf: ElfFile, exe: seq<byte>, loadFile: seq<byte>, entry: nat, page: nat): Outcome<seq<byte>>
    requires |elf.shdrs| == elf.ehdr.shnum && Alignable(elf.phdrs, page)
  {
    if LoadAlign(elf.phdrs, page) == 0 then Exit(NoLoadAlign)
    else
      match ReadLoads(loadFile)
      case Exit(e) => Exit(e)
      case Done(pls) => Written(elf, MakePlan(elf, pls, entry, page), exe, page)
  }

  /** The program as a whole. */
  function Output(exe: seq<byte>, loadFile: seq<byte>, entry: nat, page: nat): Outcome<seq<byte>>
    requires ValidInput(exe, loadFile, page)
  {
    ReadAlignable(exe, page);
    match ReadElf(exe, true)
    case Exit(e) => Exit(e)
    case Done(elf) => OutputOf(elf, exe, loadFile, entry, page)
  }

  /** What the program takes for granted: entry sizes are those of the structs,
      and the 16-bit header count suffices. */
  predicate ValidInput(exe: seq<byte>, loadFile: seq<byte>, page: nat) {
    && 0 < page < TWO64
    && var r := ReadElf(exe, true);
       r.Done? ==>
         var elf := r.value;
         EntrySizesMatch(elf.ehdr) && |loadFile| / PHDR_SIZE + |Others(elf.phdrs)| < 0x1_0000
  }

  lemma ReadAlignable(exe: seq<byte>, page: nat)
    requires 0 < page < TWO64
    ensures ReadElf(exe, true).Done? ==> Alignable(ReadElf(exe, true).value.phdrs, page)
  {
    if ReadElf(exe, true).Done? { ReadElfFits(exe, true); }
  }

  method ToArray<T>(s: seq<T>) returns (a: array<T>)
    ensures fresh(a) && a[..] == s
  {
    a := new T[|s|](i requires 0 <= i < |s| => s[i]);
  }

  lemma {:induction false} SameTypes(a: seq<Phdr>, b: seq<Phdr>)
    requires |a| == |b|
    requires forall k :: 0 <= k < |a| ==> a[k].ptype == b[k].ptype
    ensures FirstLoad(a) == FirstLoad(b) && |Others(a)| == |Others(b)|
  {
    if a != [] {
      SameTypes(a[..|a| - 1], b[..|b| - 1]);
    }
  }

  /** The counted size of the header table is the size after relocation too. */
  lemma PlanCounts(elf: ElfFile, pls: seq<Phdr>, entry: nat, page: nat)
    requires Plannable(elf, page)
    ensures var plan := MakePlan(elf, pls, entry, page);
      && |plan.phdrs| == plan.ehdr.phnum == |pls| + |Others(elf.phdrs)|
      && |plan.shdrs| == plan.ehdr.shnum
      && |plan.loads| == |pls|
      && plan.start <= plan.end <= plan.base
  {
    var plan := MakePlan(elf, pls, entry, page);
    var moved := RelocatePhdrs(elf.phdrs, plan.loads, page, elf.shdrs, plan.shdrs);
    RelocationTouchesOffsetsOnly(elf.phdrs, plan.loads, page, elf.shdrs, plan.shdrs);
    SameTypes(moved, elf.phdrs);
    MergeCount(moved, plan.loads);
  }

  /** The layout phase: header, section placement, filler, segment offsets. */
  method LayOut(elf: ElfFile, pls: seq<Phdr>, entry: nat, page: nat, phdrsExe: array<Phdr>,
                shdrsOut: array<Shdr>, phdrsLoad: array<Phdr>)
    returns (ehdr: Ehdr, start: nat, end: nat, base: nat, fill: seq<byte>)
    requires Plannable(elf, page) && pls != []
    requires phdrsExe[..] == elf.phdrs && shdrsOut[..] == elf.shdrs && phdrsLoad[..] == pls
    requires phdrsExe != phdrsLoad
    modifies shdrsOut, phdrsLoad
    ensures phdrsExe[..] == elf.phdrs
    ensures ehdr == OutEhdr(elf.ehdr, entry, |pls| + |Others(elf.phdrs)|)
    ensures start == ehdr.shoff + SHDR_SIZE * ehdr.shnum
    ensures end == start + PlacedSize(elf.shdrs)
    ensures base == RoundUp(end, LoadAlign(elf.phdrs, page))
    ensures shdrsOut[..] == Place(elf.shdrs, start)
    ensures phdrsLoad[..] == AssignOffsets(pls, base)
    ensures fill == Zeros(base - end)
  {
    var align := FindAlign(phdrsExe, page);
    var others := CountOthers(phdrsExe);
    ehdr := OutEhdr(elf.ehdr, entry, phdrsLoad.Length + others);
    start := ehdr.shoff + SHDR_SIZE * ehdr.shnum;
    end := PlaceNonAlloc(shdrsOut, start);
    assert phdrsLoad[..] == pls;
    base, fill := Filler(end, align);
    UpdateLoadOffsets(phdrsLoad, base);
  }

  /** Relocating the other segments and merging the tables. */
  method Combine(elf: ElfFile, ghost plan: Plan, page: nat, phdrsExe: array<Phdr>, phdrsLoad: array<Phdr>,
                 loadMap: array<int>, shdrsExe: array<Shdr>, shdrsOut: array<Shdr>, phnum: nat)
    returns (ok: bool, phdrsOut: array<Phdr>)
    requires Plannable(elf, page)
    requires phdrsExe != phdrsLoad && phdrsExe[..] == elf.phdrs && phdrsLoad[..] == plan.loads
    requires shdrsExe[..] == elf.shdrs && shdrsOut[..] == plan.shdrs && |elf.shdrs| == |plan.shdrs|
    requires phnum == |plan.loads| + |Others(elf.phdrs)|
    requires loadMap.Length == phdrsExe.Length
    requires forall i :: 0 <= i < phdrsExe.Length && phdrsExe[i].ptype == PT_LOAD ==>
               loadMap[i] == FindLoad(phdrsExe[i], plan.loads, page)
    modifies phdrsExe
    ensures fresh(phdrsOut)
    ensures ok <==> SegmentDivides(elf.phdrs, plan.loads, page)
    ensures ok ==> phdrsOut[..] == Merge(RelocatePhdrs(elf.phdrs, plan.loads, page, elf.shdrs, plan.shdrs), plan.loads)
  {
    phdrsOut := new Phdr[phnum];
    ok := RelocateSegments(phdrsExe, phdrsLoad, loadMap, page, shdrsExe, shdrsOut);
    if !ok { return; }
    RelocationTouchesOffsetsOnly(elf.phdrs, plan.loads, page, elf.shdrs, plan.shdrs);
    SameTypes(phdrsExe[..], elf.phdrs);
    MergeHeaders(phdrsExe, phdrsLoad, phdrsOut);
  }

  /** The relocation phase: segment map, allocated sections, other segments. */
  method RelocateAll(elf: ElfFile, ghost plan: Plan, page: nat, phdrsExe: array<Phdr>, phdrsLoad: array<Phdr>,
                     shdrsExe: array<Shdr>, shdrsOut: array<Shdr>, phnum: nat)
    returns (ok: bool, phdrsOut: array<Phdr>)
    requires Plannable(elf, page)
    requires phdrsExe != phdrsLoad && shdrsExe != shdrsOut
    requires phdrsExe[..] == elf.phdrs && phdrsLoad[..] == plan.loads
    requires shdrsExe[..] == elf.shdrs && |elf.shdrs| == shdrsOut.Length
    requires plan.shdrs == RelocateHeaders(shdrsOut[..], elf.shdrs, elf.phdrs, plan.loads, page)
    requires forall i :: 0 <= i < shdrsOut.Length ==> (shdrsOut[i].Allocated() <==> shdrsExe[i].Allocated())
    requires phnum == |plan.loads| + |Others(elf.phdrs)|
    modifies phdrsExe, shdrsOut
    ensures fresh(phdrsOut)
    ensures ok <==> Divides(elf, plan.loads, page)
    ensures ok ==>
              && phdrsOut[..] == Merge(RelocatePhdrs(elf.phdrs, plan.loads, page, elf.shdrs, plan.shdrs), plan.loads)
              && shdrsOut[..] == plan.shdrs
  {
    var loadMap := MapLoads(phdrsExe, phdrsLoad, page);
    ok := RelocateSections(shdrsOut, shdrsExe, phdrsExe, phdrsLoad, loadMap, page);
    if !ok {
      phdrsOut := new Phdr[0];
      return;
    }
    ok, phdrsOut := Combine(elf, plan, page, phdrsExe, phdrsLoad, loadMap, shdrsExe, shdrsOut, phnum);
  }

  method Write(elf: ElfFile, pls: seq<Phdr>, entry: nat, page: nat, exe: seq<byte>, ghost plan: Plan)
    returns (r: Outcome<seq<byte>>)
    requires Plannable(elf, page) && pls != [] && plan.end <= plan.base
    requires plan.ehdr == OutEhdr(elf.ehdr, entry, |pls| + |Others(elf.phdrs)|)
    requires plan.start == plan.ehdr.shoff + SHDR_SIZE * plan.ehdr.shnum
    requires plan.end == plan.start + PlacedSize(elf.shdrs)
    requires plan.base == RoundUp(plan.end, LoadAlign(elf.phdrs, page))
    requires plan.loads == AssignOffsets(pls, plan.base)
    requires plan.shdrs == RelocateHeaders(Place(elf.shdrs, plan.start), elf.shdrs, elf.phdrs, plan.loads, page)
    requires plan.phdrs == Merge(RelocatePhdrs(elf.phdrs, plan.loads, page, elf.shdrs, plan.shdrs), plan.loads)
    requires forall k :: 0 <= k < |elf.shdrs| ==> plan.shdrs[k] == elf.shdrs[k].(offset := plan.shdrs[k].offset)
    ensures r == Written(elf, plan, exe, page)
  {
    var phdrsExe := ToArray(elf.phdrs);
    var shdrsExe := ToArray(elf.shdrs);
    var shdrsOut := ToArray(elf.shdrs);
    var phdrsLoad := ToArray(pls);
    var ehdr, start, end, base, fill := LayOut(elf, pls, entry, page, phdrsExe, shdrsOut, phdrsLoad);
    assert start == plan.start && end == plan.end;
    assert base == plan.base;
    forall i | 0 <= i < shdrsOut.Length ensures shdrsOut[i].Allocated() <==> shdrsExe[i].Allocated() {
      assert shdrsOut[i] == shdrsOut[..][i] && shdrsExe[i] == shdrsExe[..][i];
    }
    var ok, phdrsOut := RelocateAll(elf, plan, page, phdrsExe, phdrsLoad, shdrsExe, shdrsOut, ehdr.phnum);
    if !ok { return Exit(DivisionByZero); }
    r := Emit(elf, plan, ehdr, phdrsOut, shdrsExe, shdrsOut, end - start, fill, exe);
  }

  /** The output phase: headers, section copies, filler. */
  method Emit(ghost elf: ElfFile, ghost plan: Plan, ehdr: Ehdr, phdrsOut: array<Phdr>, shdrsExe: array<Shdr>,
              shdrsOut: array<Shdr>, size: nat, fill: seq<byte>, exe: seq<byte>) returns (r: Outcome<seq<byte>>)
    requires ehdr == plan.ehdr && phdrsOut[..] == plan.phdrs && plan.end <= plan.base
    requires fill == Zeros(plan.base - plan.end)
    requires shdrsExe[..] == elf.shdrs && shdrsOut[..] == plan.shdrs && |plan.shdrs| == |elf.shdrs|
    requires forall k :: 0 <= k < |elf.shdrs| ==> plan.shdrs[k] == elf.shdrs[k].(offset := plan.shdrs[k].offset)
    requires size == PlacedSize(elf.shdrs)
    ensures r == Image(elf, plan, exe)
  {
    var headers := EncodeEhdr(ehdr) + EncodePhdrs(phdrsOut[..]) + EncodeShdrs(shdrsOut[..]);
    var sections := CopyPlanned(elf, plan, shdrsExe, shdrsOut, size, exe);
    match sections
    case Exit(e) => r := Exit(e);
    case Done(s) => r := Done(headers + s + fill);
  }

  method CopyPlanned(ghost elf: ElfFile, ghost plan: Plan, shdrsExe: array<Shdr>, shdrsOut: array<Shdr>,
                     size: nat, exe: seq<byte>) returns (r: Outcome<seq<byte>>)
    requires shdrsExe[..] == elf.shdrs && shdrsOut[..] == plan.shdrs && |plan.shdrs| == |elf.shdrs|
    requires forall k :: 0 <= k < |elf.shdrs| ==> plan.shdrs[k] == elf.shdrs[k].(offset := plan.shdrs[k].offset)
    requires size == PlacedSize(elf.shdrs)
    ensures r == SectionBytes(elf.shdrs, exe)
  {
    forall k | 0 <= k < shdrsOut.Length ensures shdrsOut[k] == shdrsExe[k].(offset := shdrsOut[k].offset) {
      assert shdrsOut[k] == shdrsOut[..][k] && shdrsExe[k] == shdrsExe[..][k];
    }
    r := CopySections(shdrsOut, shdrsExe, size, exe);
  }

  /** Section headers differ from the original ones in nothing but the offset. */
  lemma PlannedShdrs(elf: ElfFile, pls: seq<Phdr>, entry: nat, page: nat)
    requires Plannable(elf, page)
    ensures var plan := MakePlan(elf, pls, entry, page);
      |plan.shdrs| == |elf.shdrs| &&
      forall k :: 0 <= k < |elf.shdrs| ==> plan.shdrs[k] == elf.shdrs[k].(offset := plan.shdrs[k].offset)
  {
  }

  method RunOn(elf: ElfFile, exe: seq<byte>, loadFile: seq<byte>, entry: nat, page: nat)
    returns (r: Outcome<seq<byte>>)
    requires |elf.shdrs| == elf.ehdr.shnum && Alignable(elf.phdrs, page)
    ensures r == OutputOf(elf, exe, loadFile, entry, page)
  {
    if LoadAlign(elf.phdrs, page) == 0 { return Exit(NoLoadAlign); }
    var l := ReadLoads(loadFile);
    if l.Exit? { return Exit(l.error); }
    ghost var plan := MakePlan(elf, l.value, entry, page);
    PlannedShdrs(elf, l.value, entry, page);
    r := Write(elf, l.value, entry, page, exe, plan);
  }

  method Run(exe: seq<byte>, loadFile: seq<byte>, entry: nat, page: nat) returns (r: Outcome<seq<byte>>)
    requires ValidInput(exe, loadFile, page)
    ensures r == Output(exe, loadFile, entry, page)
  {
    var e := ReadElf(exe, true);
    if e.Exit? { return Exit(e.error); }
    ReadAlignable(exe, page);
    r := RunOn(e.value, exe, loadFile, entry, page);
  }
}
