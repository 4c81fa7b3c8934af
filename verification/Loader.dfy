/** What the kernel makes of an executable: System V gABI, chapter 5, sections
    "Program Header" and "Program Loading", for segments with p_filesz equal to
    p_memsz. */
module Loader {
  import opened Bytes
  import opened Elf
  import opened Outcomes
  import opened HeaderMerge

  /** File position of an address of segment `p`. */
  function PositionOf(p: Phdr, a: nat): nat
    requires p.HoldsAddress(a)
  {
    p.offset + (a - p.vaddr)
  }

  predicate Backed(file: seq<byte>, p: Phdr, a: nat) {
    p.HoldsAddress(a) && PositionOf(p, a) < |file|
  }

  /** Bytes of one segment in memory, as far as the file reaches. */
  function SegmentBytes(file: seq<byte>, p: Phdr): map<nat, byte> {
    map a: nat | p.vaddr <= a < p.vaddr + p.filesz && Backed(file, p, a) :: file[PositionOf(p, a)]
  }

  /** Segments are mapped in table order; a later one replaces what it covers. */
  function LoadSegments(file: seq<byte>, ps: seq<Phdr>): map<nat, byte> {
    if ps == [] then map[]
    else
      var last := ps[|ps| - 1];
      LoadSegments(file, ps[..|ps| - 1]) + if IsLoad(last) then SegmentBytes(file, last) else map[]
  }

  predicate PageCongruent(ps: seq<Phdr>, page: nat)
    requires page > 0
  {
    forall i :: 0 <= i < |ps| && ps[i].ptype == PT_LOAD ==> ps[i].offset % page == ps[i].vaddr % page
  }

  /** The memory image; None where the kernel refuses the file. */
  datatype Memory = Refused | Loaded(bytes: map<nat, byte>)

  /** What the kernel checks of an ELF header: magic number, type, processor, and
      size of the table entries. */
  predicate KernelKnows(e: Ehdr) {
    && e.ident % 0x1_0000_0000 == ELF_MAGIC
    && (e.etype == ET_EXEC || e.etype == ET_DYN)
    && e.machine == EM_X86_64
    && e.phentsize == PHDR_SIZE
  }

  /** The table of program headers has at most 64 kilobytes. */
  predicate TableAccepted(phnum: nat) {
    PHDR_SIZE * phnum <= 0x1_0000
  }

  function Exec(file: seq<byte>, page: nat): Memory
    requires page > 0
  {
    match ReadElf(file, false)
    case Exit(_) => Refused
    case Done(elf) =>
      if KernelKnows(elf.ehdr) && TableAccepted(elf.ehdr.phnum) && PageCongruent(elf.phdrs, page)
      then Loaded(LoadSegments(file, elf.phdrs)) else Refused
  }

  lemma LoadSnoc(file: seq<byte>, init: seq<Phdr>, last: Phdr)
    ensures LoadSegments(file, init + [last]) ==
            LoadSegments(file, init) + if IsLoad(last) then SegmentBytes(file, last) else map[]
  {
    assert (init + [last])[..|init|] == init;
  }

  lemma {:induction false} LoadAmongLoads(file: seq<byte>, ps: seq<Phdr>)
    ensures LoadSegments(file, ps) == LoadSegments(file, Loads(ps))
  {
    if ps != [] {
      var init, last := ps[..|ps| - 1], ps[|ps| - 1];
      assert ps == init + [last];
      LoadAmongLoads(file, init);
      LoadSnoc(file, init, last);
      LoadsSnoc(init, last);
      if IsLoad(last) { LoadSnoc(file, Loads(init), last); }
    }
  }

  lemma {:induction false} CongruentAmongLoads(ps: seq<Phdr>, page: nat)
    requires page > 0
    ensures PageCongruent(ps, page) <==> PageCongruent(Loads(ps), page)
  {
    if ps != [] {
      var init, last := ps[..|ps| - 1], ps[|ps| - 1];
      CongruentAmongLoads(init, page);
      assert ps == init + [last];
      CongruentSnoc(init, last, page);
      LoadsSnoc(init, last);
      if IsLoad(last) {
        CongruentSnoc(Loads(init), last, page);
      }
    }
  }

  lemma CongruentSnoc(init: seq<Phdr>, last: Phdr, page: nat)
    requires page > 0
    ensures PageCongruent(init + [last], page) <==>
            PageCongruent(init, page) && (last.ptype == PT_LOAD ==> last.offset % page == last.vaddr % page)
  {
    assert (init + [last])[|init|] == last;
    assert forall k :: 0 <= k < |init| ==> (init + [last])[k] == init[k];
  }

  /** PT_LOAD segments that do not overlap in memory. */
  predicate DisjointInMemory(ps: seq<Phdr>) {
    forall i, j :: 0 <= i < |ps| && 0 <= j < |ps| && i != j ==>
      ps[i].vaddr + ps[i].filesz <= ps[j].vaddr || ps[j].vaddr + ps[j].filesz <= ps[i].vaddr
  }

  predicate InFile(ps: seq<Phdr>, size: nat) {
    forall i :: 0 <= i < |ps| ==> ps[i].ptype == PT_LOAD && ps[i].offset + ps[i].filesz <= size
  }

  /** Every address of every segment shows the byte the segment maps there. */
  lemma {:induction false} LoadedAt(file: seq<byte>, ps: seq<Phdr>, i: nat, a: nat)
    requires DisjointInMemory(ps) && InFile(ps, |file|)
    requires i < |ps| && ps[i].HoldsAddress(a)
    ensures a in LoadSegments(file, ps)
    ensures PositionOf(ps[i], a) < |file| && LoadSegments(file, ps)[a] == file[PositionOf(ps[i], a)]
  {
    var n := |ps| - 1;
    if i < n {
      LoadedAt(file, ps[..n], i, a);
      assert !ps[n].HoldsAddress(a);
    }
  }

  /** And nothing else is loaded. */
  lemma {:induction false} LoadedOnly(file: seq<byte>, ps: seq<Phdr>, a: nat)
    requires a in LoadSegments(file, ps)
    ensures exists i :: 0 <= i < |ps| && ps[i].HoldsAddress(a)
  {
    var n := |ps| - 1;
    if a in LoadSegments(file, ps[..n]) {
      LoadedOnly(file, ps[..n], a);
      var i :| 0 <= i < n && ps[..n][i].HoldsAddress(a);
      assert ps[i].HoldsAddress(a);
    } else {
      assert ps[n].HoldsAddress(a);
    }
  }

  /** In numbers: an ELF file for x86-64, executable or shared, whose table has entries
      of 56 bytes and at most 64 kilobytes, and whose PT_LOAD segments have offset and
      address congruent modulo the page. */
  lemma ExecIff(file: seq<byte>, elf: ElfFile, page: nat)
    requires page > 0 && ReadElf(file, false) == Done(elf)
    ensures Exec(file, page).Loaded? <==>
            && elf.ehdr.ident % 0x1_0000_0000 == 0x7f + 0x100 * ('E' as int) + 0x1_0000 * ('L' as int)
                                                 + 0x100_0000 * ('F' as int)
            && (elf.ehdr.etype == 2 || elf.ehdr.etype == 3) && elf.ehdr.machine == 62
            && elf.ehdr.phentsize == 56 && 56 * elf.ehdr.phnum <= 65536
            && forall k :: 0 <= k < |elf.phdrs| && elf.phdrs[k].ptype == 1 ==>
                 elf.phdrs[k].offset % page == elf.phdrs[k].vaddr % page
  {
  }
}
