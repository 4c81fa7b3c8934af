/** The ELF-64 file format as the programs use it: headers, their little-endian
    layout in a file, and reading them back (src/my_lib.inc.c). */
module Elf {
  import opened Arith
  import opened Bytes
  import opened Outcomes

  const PT_LOAD: nat := 1
  const PT_INTERP: nat := 3
  const PT_PHDR: nat := 6
  const PF_X: nat := 1
  const PF_W: nat := 2
  const PF_R: nat := 4
  const SHT_NULL: nat := 0
  const SHF_ALLOC: nat := 2
  const ET_EXEC: nat := 2
  const ET_DYN: nat := 3

  const EM_X86_64: nat := 62
  /** Bytes 0x7f, E, L, F, read as a little-endian number. */
  const ELF_MAGIC: nat := 0x464c_457f

  const EHDR_SIZE: nat := 64
  const PHDR_SIZE: nat := 56
  const SHDR_SIZE: nat := 64

  const EHDR_WIDTHS: seq<nat> := [16, 2, 2, 4, 8, 8, 8, 4, 2, 2, 2, 2, 2, 2]
  const PHDR_WIDTHS: seq<nat> := [4, 4, 8, 8, 8, 8, 8, 8]
  const SHDR_WIDTHS: seq<nat> := [4, 4, 8, 8, 8, 8, 4, 4, 8, 8]

  datatype Ehdr = Ehdr(
    ident: nat, etype: nat, machine: nat, version: nat, entry: nat, phoff: nat, shoff: nat, flags: nat,
    ehsize: nat, phentsize: nat, phnum: nat, shentsize: nat, shnum: nat, shstrndx: nat)
  {
    function Fields(): (vs: seq<nat>)
      ensures |vs| == 14
    {
      [ident, etype, machine, version, entry, phoff, shoff, flags,
       ehsize, phentsize, phnum, shentsize, shnum, shstrndx]
    }

    /** Every field fits its width in the file. */
    predicate Fits() {
      && ident < TWO64 * TWO64
      && etype < 0x1_0000 && machine < 0x1_0000 && version < 0x1_0000_0000
      && entry < TWO64 && phoff < TWO64 && shoff < TWO64 && flags < 0x1_0000_0000
      && ehsize < 0x1_0000 && phentsize < 0x1_0000 && phnum < 0x1_0000
      && shentsize < 0x1_0000 && shnum < 0x1_0000 && shstrndx < 0x1_0000
    }
  }

  datatype Phdr = Phdr(
    ptype: nat, flags: nat, offset: nat, vaddr: nat, paddr: nat, filesz: nat, memsz: nat, align: nat)
  {
    function Fields(): (vs: seq<nat>)
      ensures |vs| == 8
    {
      [ptype, flags, offset, vaddr, paddr, filesz, memsz, align]
    }

    predicate Fits() {
      && ptype < 0x1_0000_0000 && flags < 0x1_0000_0000
      && offset < TWO64 && vaddr < TWO64 && paddr < TWO64
      && filesz < TWO64 && memsz < TWO64 && align < TWO64
    }

    /** The file offset lies in the part of the file this segment maps. */
    predicate HoldsOffset(off: nat) {
      offset <= off < offset + filesz
    }

    /** The address lies in the part of memory filled from the file. */
    predicate HoldsAddress(addr: nat) {
      vaddr <= addr < vaddr + filesz
    }
  }

  datatype Shdr = Shdr(
    name: nat, stype: nat, flags: nat, addr: nat, offset: nat, size: nat,
    link: nat, info: nat, addralign: nat, entsize: nat)
  {
    function Fields(): (vs: seq<nat>)
      ensures |vs| == 10
    {
      [name, stype, flags, addr, offset, size, link, info, addralign, entsize]
    }

    predicate Fits() {
      && name < 0x1_0000_0000 && stype < 0x1_0000_0000
      && flags < TWO64 && addr < TWO64 && offset < TWO64 && size < TWO64
      && link < 0x1_0000_0000 && info < 0x1_0000_0000 && addralign < TWO64 && entsize < TWO64
    }

    /** SHF_ALLOC: the section occupies memory during execution. */
    predicate Allocated() {
      BitAnd(flags, SHF_ALLOC) != 0
    }
  }

  /** SHF_ALLOC is the second lowest bit. */
  lemma AllocatedBit(h: Shdr)
    ensures h.Allocated() <==> h.flags / 2 % 2 == 1
  {
    LowBits(h.flags);
  }

  lemma EhdrSize()
    ensures Sum(EHDR_WIDTHS) == EHDR_SIZE
  {
  }

  lemma PhdrSize()
    ensures Sum(PHDR_WIDTHS) == PHDR_SIZE
  {
  }

  lemma ShdrSize()
    ensures Sum(SHDR_WIDTHS) == SHDR_SIZE
  {
  }

  function EncodeEhdr(e: Ehdr): (s: seq<byte>)
    ensures |s| == EHDR_SIZE
  {
    EhdrSize();
    PackLength(EHDR_WIDTHS, e.Fields());
    Pack(EHDR_WIDTHS, e.Fields())
  }

  function DecodeEhdr(s: seq<byte>): Ehdr
    requires |s| == EHDR_SIZE
  {
    EhdrSize();
    var v := Unpack(EHDR_WIDTHS, s);
    Ehdr(v[0], v[1], v[2], v[3], v[4], v[5], v[6], v[7], v[8], v[9], v[10], v[11], v[12], v[13])
  }

  function EncodePhdr(p: Phdr): (s: seq<byte>)
    ensures |s| == PHDR_SIZE
  {
    PhdrSize();
    PackLength(PHDR_WIDTHS, p.Fields());
    Pack(PHDR_WIDTHS, p.Fields())
  }

  function DecodePhdr(s: seq<byte>): Phdr
    requires |s| == PHDR_SIZE
  {
    PhdrSize();
    var v := Unpack(PHDR_WIDTHS, s);
    Phdr(v[0], v[1], v[2], v[3], v[4], v[5], v[6], v[7])
  }

  function EncodeShdr(h: Shdr): (s: seq<byte>)
    ensures |s| == SHDR_SIZE
  {
    ShdrSize();
    PackLength(SHDR_WIDTHS, h.Fields());
    Pack(SHDR_WIDTHS, h.Fields())
  }

  function DecodeShdr(s: seq<byte>): Shdr
    requires |s| == SHDR_SIZE
  {
    ShdrSize();
    var v := Unpack(SHDR_WIDTHS, s);
    Shdr(v[0], v[1], v[2], v[3], v[4], v[5], v[6], v[7], v[8], v[9])
  }

  /** Values that fit their fields are packed without loss. */
  lemma UnpackPackFits(ws: seq<nat>, vs: seq<nat>)
    requires |ws| == |vs|
    requires forall i :: 0 <= i < |vs| ==> vs[i] < Pow256(ws[i])
    ensures |Pack(ws, vs)| == Sum(ws) && Unpack(ws, Pack(ws, vs)) == vs
  {
    UnpackPack(ws, vs);
    var back := Unpack(ws, Pack(ws, vs));
    forall i | 0 <= i < |vs| ensures back[i] == vs[i] {
      DivModUnique(vs[i], Pow256(ws[i]), 0, vs[i]);
    }
  }

  lemma EhdrFieldsFit(e: Ehdr)
    requires e.Fits()
    ensures forall i :: 0 <= i < |EHDR_WIDTHS| ==> e.Fields()[i] < Pow256(EHDR_WIDTHS[i])
  {
    WidthLimits();
  }

  lemma PhdrFieldsFit(p: Phdr)
    requires p.Fits()
    ensures forall i :: 0 <= i < |PHDR_WIDTHS| ==> p.Fields()[i] < Pow256(PHDR_WIDTHS[i])
  {
    WidthLimits();
  }

  /** An ELF header whose fields fit survives being written and read back. */
  lemma EhdrRoundTrip(e: Ehdr)
    requires e.Fits()
    ensures DecodeEhdr(EncodeEhdr(e)) == e
  {
    EhdrFieldsFit(e);
    UnpackPackFits(EHDR_WIDTHS, e.Fields());
  }

  lemma PhdrRoundTrip(p: Phdr)
    requires p.Fits()
    ensures DecodePhdr(EncodePhdr(p)) == p
  {
    PhdrFieldsFit(p);
    UnpackPackFits(PHDR_WIDTHS, p.Fields());
  }

  lemma ShdrFieldsFit(h: Shdr)
    requires h.Fits()
    ensures forall i :: 0 <= i < |SHDR_WIDTHS| ==> h.Fields()[i] < Pow256(SHDR_WIDTHS[i])
  {
    WidthLimits();
  }

  lemma ShdrRoundTrip(h: Shdr)
    requires h.Fits()
    ensures DecodeShdr(EncodeShdr(h)) == h
  {
    ShdrFieldsFit(h);
    UnpackPackFits(SHDR_WIDTHS, h.Fields());
  }

  /** The three structs of the gABI, byte by byte: chapter 4, sections "ELF Header"
      and "Sections", and chapter 5, section "Program Header". */
  lemma PhdrFormat(s: seq<byte>)
    requires |s| == PHDR_SIZE
    ensures var p := DecodePhdr(s);
      && p.ptype == DecodeLE(s[0..4]) && p.flags == DecodeLE(s[4..8])
      && p.offset == DecodeLE(s[8..16]) && p.vaddr == DecodeLE(s[16..24]) && p.paddr == DecodeLE(s[24..32])
      && p.filesz == DecodeLE(s[32..40]) && p.memsz == DecodeLE(s[40..48]) && p.align == DecodeLE(s[48..56])
  {
    PhdrSize();
    FieldAt(PHDR_WIDTHS, s, 0, 0);
    FieldAt(PHDR_WIDTHS, s, 1, 4);
    FieldAt(PHDR_WIDTHS, s, 2, 8);
    FieldAt(PHDR_WIDTHS, s, 3, 16);
    FieldAt(PHDR_WIDTHS, s, 4, 24);
    FieldAt(PHDR_WIDTHS, s, 5, 32);
    FieldAt(PHDR_WIDTHS, s, 6, 40);
    FieldAt(PHDR_WIDTHS, s, 7, 48);
  }

  lemma ShdrFormat(s: seq<byte>)
    requires |s| == SHDR_SIZE
    ensures var h := DecodeShdr(s);
      && h.name == DecodeLE(s[0..4]) && h.stype == DecodeLE(s[4..8]) && h.flags == DecodeLE(s[8..16])
      && h.addr == DecodeLE(s[16..24]) && h.offset == DecodeLE(s[24..32]) && h.size == DecodeLE(s[32..40])
      && h.link == DecodeLE(s[40..44]) && h.info == DecodeLE(s[44..48])
      && h.addralign == DecodeLE(s[48..56]) && h.entsize == DecodeLE(s[56..64])
  {
    ShdrSize();
    ShdrFields(SHDR_WIDTHS, s);
  }

  lemma ShdrFields(w: seq<nat>, s: seq<byte>)
    requires |w| == 10 && |s| == SHDR_SIZE == Sum(w)
    requires w[0] == 4 && w[1] == 4 && w[2] == 8 && w[3] == 8 && w[4] == 8
    requires w[5] == 8 && w[6] == 4 && w[7] == 4 && w[8] == 8 && w[9] == 8
    ensures var v := Unpack(w, s);
      && v[0] == DecodeLE(s[0..4]) && v[1] == DecodeLE(s[4..8]) && v[2] == DecodeLE(s[8..16])
      && v[3] == DecodeLE(s[16..24]) && v[4] == DecodeLE(s[24..32]) && v[5] == DecodeLE(s[32..40])
      && v[6] == DecodeLE(s[40..44]) && v[7] == DecodeLE(s[44..48])
      && v[8] == DecodeLE(s[48..56]) && v[9] == DecodeLE(s[56..64])
  {
    FieldAt(w, s, 0, 0);
    FieldAt(w, s, 1, 4);
    FieldAt(w, s, 2, 8);
    FieldAt(w, s, 3, 16);
    FieldAt(w, s, 4, 24);
    FieldAt(w, s, 5, 32);
    FieldAt(w, s, 6, 40);
    FieldAt(w, s, 7, 44);
    FieldAt(w, s, 8, 48);
    FieldAt(w, s, 9, 56);
  }

  lemma EhdrFormat(s: seq<byte>)
    requires |s| == EHDR_SIZE
    ensures var e := DecodeEhdr(s);
      && e.ident == DecodeLE(s[0..16]) && e.etype == DecodeLE(s[16..18]) && e.machine == DecodeLE(s[18..20])
      && e.version == DecodeLE(s[20..24]) && e.entry == DecodeLE(s[24..32]) && e.phoff == DecodeLE(s[32..40])
      && e.shoff == DecodeLE(s[40..48]) && e.flags == DecodeLE(s[48..52]) && e.ehsize == DecodeLE(s[52..54])
      && e.phentsize == DecodeLE(s[54..56]) && e.phnum == DecodeLE(s[56..58])
      && e.shentsize == DecodeLE(s[58..60]) && e.shnum == DecodeLE(s[60..62]) && e.shstrndx == DecodeLE(s[62..64])
  {
    EhdrSize();
    EhdrFields(EHDR_WIDTHS, s);
  }

  /** The same for fields of these widths. */
  lemma EhdrFields(w: seq<nat>, s: seq<byte>)
    requires |w| == 14 && |s| == EHDR_SIZE == Sum(w)
    requires w[0] == 16 && w[1] == 2 && w[2] == 2 && w[3] == 4 && w[4] == 8 && w[5] == 8 && w[6] == 8
    requires w[7] == 4 && w[8] == 2 && w[9] == 2 && w[10] == 2 && w[11] == 2 && w[12] == 2 && w[13] == 2
    ensures var v := Unpack(w, s);
      && v[0] == DecodeLE(s[0..16]) && v[1] == DecodeLE(s[16..18]) && v[2] == DecodeLE(s[18..20])
      && v[3] == DecodeLE(s[20..24]) && v[4] == DecodeLE(s[24..32]) && v[5] == DecodeLE(s[32..40])
      && v[6] == DecodeLE(s[40..48]) && v[7] == DecodeLE(s[48..52]) && v[8] == DecodeLE(s[52..54])
      && v[9] == DecodeLE(s[54..56]) && v[10] == DecodeLE(s[56..58]) && v[11] == DecodeLE(s[58..60])
      && v[12] == DecodeLE(s[60..62]) && v[13] == DecodeLE(s[62..64])
  {
    FieldAt(w, s, 0, 0);
    FieldAt(w, s, 1, 16);
    FieldAt(w, s, 2, 18);
    FieldAt(w, s, 3, 20);
    FieldAt(w, s, 4, 24);
    FieldAt(w, s, 5, 32);
    FieldAt(w, s, 6, 40);
    FieldAt(w, s, 7, 48);
    FieldAt(w, s, 8, 52);
    FieldAt(w, s, 9, 54);
    FieldAt(w, s, 10, 56);
    FieldAt(w, s, 11, 58);
    FieldAt(w, s, 12, 60);
    FieldAt(w, s, 13, 62);
  }

  /** Where the fields in front of field `i` end. */
  function Front(ws: seq<nat>, i: nat): nat
    requires i <= |ws|
  {
    if i == 0 then 0 else Front(ws, i - 1) + ws[i - 1]
  }

  lemma {:induction false} FrontSum(ws: seq<nat>, i: nat)
    requires i <= |ws|
    ensures Front(ws, i) == Sum(ws[..i])
  {
    if i > 0 {
      FrontSum(ws, i - 1);
      SumStep(ws, i - 1);
    } else {
      assert ws[..0] == [];
    }
  }

  lemma FieldAt(ws: seq<nat>, s: seq<byte>, i: nat, at: nat)
    requires |s| == Sum(ws) && i < |ws| && at == Front(ws, i)
    ensures at + ws[i] <= |s| && Unpack(ws, s)[i] == DecodeLE(s[at..at + ws[i]])
    ensures Front(ws, i + 1) == at + ws[i]
  {
    FrontSum(ws, i);
    UnpackAt(ws, s, i, at);
  }

  /** A value that fits its field is kept, whatever the others do. */
  lemma FieldKept(ws: seq<nat>, vs: seq<nat>, i: nat)
    requires |ws| == |vs| && i < |vs| && vs[i] < Pow256(ws[i])
    ensures |Pack(ws, vs)| == Sum(ws) && Unpack(ws, Pack(ws, vs))[i] == vs[i]
  {
    UnpackPack(ws, vs);
    DivModUnique(vs[i], Pow256(ws[i]), 0, vs[i]);
  }

  /** Where the table of program headers is survives even if another field of
      the ELF header overflows. */
  lemma EhdrTableKept(e: Ehdr)
    requires e.phoff < TWO64 && e.phentsize < 0x1_0000 && e.phnum < 0x1_0000
    ensures var back := DecodeEhdr(EncodeEhdr(e));
      back.phoff == e.phoff && back.phentsize == e.phentsize && back.phnum == e.phnum
  {
    WidthLimits();
    FieldKept(EHDR_WIDTHS, e.Fields(), 5);
    FieldKept(EHDR_WIDTHS, e.Fields(), 9);
    FieldKept(EHDR_WIDTHS, e.Fields(), 10);
  }

  /** The offset in a section header is kept modulo the width of its field. */
  lemma ShdrOffsetField(h: Shdr)
    ensures DecodeShdr(EncodeShdr(h)).offset == h.offset % TWO64
  {
    WidthLimits();
    UnpackPack(SHDR_WIDTHS, h.Fields());
  }

  /** All values but one are kept. */
  lemma AllButOneKept(ws: seq<nat>, vs: seq<nat>, i: nat)
    requires |ws| == |vs| && i < |vs|
    requires forall k :: 0 <= k < |vs| && k != i ==> vs[k] < Pow256(ws[k])
    ensures |Pack(ws, vs)| == Sum(ws) && Unpack(ws, Pack(ws, vs)) == vs[i := vs[i] % Pow256(ws[i])]
  {
    UnpackPack(ws, vs);
    var back := Unpack(ws, Pack(ws, vs));
    forall k | 0 <= k < |vs| && k != i ensures back[k] == vs[k] {
      FieldKept(ws, vs, k);
    }
  }

  /** A section header whose other fields fit is kept but for what its offset has too
      much. */
  lemma ShdrOffsetKept(h: Shdr)
    requires h.(offset := 0).Fits()
    ensures DecodeShdr(EncodeShdr(h)) == h.(offset := h.offset % TWO64)
  {
    assert Pow256(8) == TWO64 by { WidthLimits(); }
    OtherFieldsFit(h);
    AllButOneKept(SHDR_WIDTHS, h.Fields(), 4);
  }

  lemma OtherFieldsFit(h: Shdr)
    requires h.(offset := 0).Fits()
    ensures forall k :: 0 <= k < |SHDR_WIDTHS| && k != 4 ==> h.Fields()[k] < Pow256(SHDR_WIDTHS[k])
  {
    ShdrFieldsFit(h.(offset := 0));
    assert forall k :: 0 <= k < 10 && k != 4 ==> h.(offset := 0).Fields()[k] == h.Fields()[k];
  }

  /** So is a program header. */
  lemma PhdrOffsetKept(p: Phdr)
    requires p.(offset := 0).Fits()
    ensures DecodePhdr(EncodePhdr(p)) == p.(offset := p.offset % TWO64)
  {
    WidthLimits();
    PhdrFieldsFit(p.(offset := 0));
    assert forall k :: 0 <= k < 8 && k != 2 ==> p.(offset := 0).Fields()[k] == p.Fields()[k];
    AllButOneKept(PHDR_WIDTHS, p.Fields(), 2);
  }

  /** The type of a header survives even if some offset overflows its field. */
  lemma PhdrTypeRoundTrip(p: Phdr)
    requires p.ptype < 0x1_0000_0000
    ensures DecodePhdr(EncodePhdr(p)).ptype == p.ptype
  {
    WidthLimits();
    UnpackPack(PHDR_WIDTHS, p.Fields());
  }

  function EncodePhdrs(ps: seq<Phdr>): seq<byte> {
    Flatten(seq(|ps|, i requires 0 <= i < |ps| => EncodePhdr(ps[i])))
  }

  function EncodeShdrs(hs: seq<Shdr>): seq<byte> {
    Flatten(seq(|hs|, i requires 0 <= i < |hs| => EncodeShdr(hs[i])))
  }

  lemma EncodedSizes(ps: seq<Phdr>, hs: seq<Shdr>)
    ensures |EncodePhdrs(ps)| == PHDR_SIZE * |ps|
    ensures |EncodeShdrs(hs)| == SHDR_SIZE * |hs|
  {
    FlattenRecords(seq(|ps|, i requires 0 <= i < |ps| => EncodePhdr(ps[i])), PHDR_SIZE);
    FlattenRecords(seq(|hs|, i requires 0 <= i < |hs| => EncodeShdr(hs[i])), SHDR_SIZE);
  }

  function ReadPhdrs(file: seq<byte>, at: nat, n: nat): (ps: seq<Phdr>)
    requires at + PHDR_SIZE * n <= |file|
    ensures |ps| == n
  {
    seq(n, i requires 0 <= i < n => DecodePhdr(file[at + PHDR_SIZE * i..at + PHDR_SIZE * (i + 1)]))
  }

  function ReadShdrs(file: seq<byte>, at: nat, n: nat): (hs: seq<Shdr>)
    requires at + SHDR_SIZE * n <= |file|
    ensures |hs| == n
  {
    seq(n, i requires 0 <= i < n => DecodeShdr(file[at + SHDR_SIZE * i..at + SHDR_SIZE * (i + 1)]))
  }

  /** A header table found anywhere in a file reads back entry by entry. */
  lemma ReadBackPhdr(file: seq<byte>, at: nat, ps: seq<Phdr>, i: nat)
    requires i < |ps|
    requires at + PHDR_SIZE * |ps| <= |file|
    requires file[at..at + PHDR_SIZE * |ps|] == EncodePhdrs(ps)
    ensures ReadPhdrs(file, at, |ps|)[i] == DecodePhdr(EncodePhdr(ps[i]))
  {
    var parts := seq(|ps|, k requires 0 <= k < |ps| => EncodePhdr(ps[k]));
    FlattenRecords(parts, PHDR_SIZE);
    FlattenSlice(parts, i);
    var table := file[at..at + PHDR_SIZE * |ps|];
    assert table[PHDR_SIZE * i..PHDR_SIZE * (i + 1)] == parts[i];
    SliceOfSlice(file, at, at + PHDR_SIZE * |ps|, PHDR_SIZE * i, PHDR_SIZE * (i + 1));
  }

  /** So does a table of section headers. */
  lemma ReadBackShdr(file: seq<byte>, at: nat, hs: seq<Shdr>, i: nat)
    requires i < |hs|
    requires at + SHDR_SIZE * |hs| <= |file|
    requires file[at..at + SHDR_SIZE * |hs|] == EncodeShdrs(hs)
    ensures ReadShdrs(file, at, |hs|)[i] == DecodeShdr(EncodeShdr(hs[i]))
  {
    var parts := seq(|hs|, k requires 0 <= k < |hs| => EncodeShdr(hs[k]));
    FlattenRecords(parts, SHDR_SIZE);
    FlattenSlice(parts, i);
    var table := file[at..at + SHDR_SIZE * |hs|];
    assert table[SHDR_SIZE * i..SHDR_SIZE * (i + 1)] == parts[i];
    SliceOfSlice(file, at, at + SHDR_SIZE * |hs|, SHDR_SIZE * i, SHDR_SIZE * (i + 1));
  }

  lemma ReadBackShdrs(file: seq<byte>, at: nat, hs: seq<Shdr>)
    requires at + SHDR_SIZE * |hs| <= |file|
    requires file[at..at + SHDR_SIZE * |hs|] == EncodeShdrs(hs)
    requires forall k :: 0 <= k < |hs| ==> hs[k].Fits()
    ensures ReadShdrs(file, at, |hs|) == hs
  {
    forall i | 0 <= i < |hs| ensures ReadShdrs(file, at, |hs|)[i] == hs[i] {
      ReadBackShdr(file, at, hs, i);
      ShdrRoundTrip(hs[i]);
    }
  }

  /** All headers of a file whose fields fit read back as they were. */
  lemma ReadBackPhdrs(file: seq<byte>, at: nat, ps: seq<Phdr>)
    requires at + PHDR_SIZE * |ps| <= |file|
    requires file[at..at + PHDR_SIZE * |ps|] == EncodePhdrs(ps)
    requires forall k :: 0 <= k < |ps| ==> ps[k].Fits()
    ensures ReadPhdrs(file, at, |ps|) == ps
  {
    forall i | 0 <= i < |ps| ensures ReadPhdrs(file, at, |ps|)[i] == ps[i] {
      ReadBackPhdr(file, at, ps, i);
      PhdrRoundTrip(ps[i]);
    }
  }

  datatype ElfFile = ElfFile(ehdr: Ehdr, phdrs: seq<Phdr>, shdrs: seq<Shdr>)

  /** `get_ehdr_phdrs_and_shdrs`; the section headers are read on request.
      A table is indexed by the struct size, so the stored entry sizes have to
      agree with it; see `EntrySizesMatch`. */
  function ReadElf(file: seq<byte>, wantShdrs: bool): (r: Outcome<ElfFile>)
  {
    if |file| < EHDR_SIZE then Exit(ShortRead)
    else
      var e := DecodeEhdr(file[..EHDR_SIZE]);
      if e.phentsize == 0 then Exit(BadPhentsize)
      else if e.phnum == 0 then Exit(NoPhdrs)
      else if |file| < e.phoff + PHDR_SIZE * e.phnum then Exit(ShortRead)
      else if wantShdrs && e.shnum > 0 && |file| < e.shoff + SHDR_SIZE * e.shnum then Exit(ShortRead)
      else
        Done(ElfFile(e, ReadPhdrs(file, e.phoff, e.phnum),
                     if wantShdrs && e.shnum > 0 then ReadShdrs(file, e.shoff, e.shnum) else []))
  }

  predicate EntrySizesMatch(e: Ehdr) {
    e.phentsize == PHDR_SIZE && (e.shnum > 0 ==> e.shentsize == SHDR_SIZE)
  }

  lemma DecodeBound(s: seq<byte>)
    ensures DecodeLE(s) < Pow256(|s|)
  {
  }

  lemma {:induction false} UnpackBounds(ws: seq<nat>, s: seq<byte>)
    requires |s| == Sum(ws)
    ensures forall i :: 0 <= i < |ws| ==> Unpack(ws, s)[i] < Pow256(ws[i])
  {
    if ws != [] {
      DecodeBound(s[..ws[0]]);
      UnpackBounds(ws[1..], s[ws[0]..]);
      forall i | 0 <= i < |ws| ensures Unpack(ws, s)[i] < Pow256(ws[i]) {
        if i > 0 { assert ws[1..][i - 1] == ws[i]; }
      }
    }
  }

  /** Headers read from a file fit their fields. */
  lemma DecodedEhdrFits(s: seq<byte>)
    requires |s| == EHDR_SIZE
    ensures DecodeEhdr(s).Fits()
  {
    EhdrSize();
    WidthLimits();
    UnpackBounds(EHDR_WIDTHS, s);
  }

  lemma DecodedPhdrFits(s: seq<byte>)
    requires |s| == PHDR_SIZE
    ensures DecodePhdr(s).Fits()
  {
    PhdrSize();
    WidthLimits();
    UnpackBounds(PHDR_WIDTHS, s);
  }

  /** Headers of a file that was read: they fit their fields. */
  predicate WellRead(elf: ElfFile) {
    elf.ehdr.Fits() && forall k :: 0 <= k < |elf.phdrs| ==> elf.phdrs[k].Fits()
  }

  lemma ReadElfFits(file: seq<byte>, wantShdrs: bool)
    requires ReadElf(file, wantShdrs).Done?
    ensures WellRead(ReadElf(file, wantShdrs).value)
  {
    DecodedEhdrFits(file[..EHDR_SIZE]);
    var e := DecodeEhdr(file[..EHDR_SIZE]);
    forall k | 0 <= k < e.phnum ensures ReadPhdrs(file, e.phoff, e.phnum)[k].Fits() {
      DecodedPhdrFits(file[e.phoff + PHDR_SIZE * k..e.phoff + PHDR_SIZE * (k + 1)]);
    }
  }

  lemma DecodedShdrFits(s: seq<byte>)
    requires |s| == SHDR_SIZE
    ensures DecodeShdr(s).Fits()
  {
    ShdrSize();
    WidthLimits();
    UnpackBounds(SHDR_WIDTHS, s);
  }

  lemma ReadShdrsFit(file: seq<byte>)
    requires ReadElf(file, true).Done?
    ensures forall x :: 0 <= x < |ReadElf(file, true).value.shdrs| ==> ReadElf(file, true).value.shdrs[x].Fits()
  {
    var e := DecodeEhdr(file[..EHDR_SIZE]);
    if e.shnum > 0 {
      forall x | 0 <= x < e.shnum ensures ReadShdrs(file, e.shoff, e.shnum)[x].Fits() {
        DecodedShdrFits(file[e.shoff + SHDR_SIZE * x..e.shoff + SHDR_SIZE * (x + 1)]);
      }
    }
  }

  /** Exactly which files can be read: 64 bytes of header, with entries of some size and
      at least one of them, and both tables in the file. */
  lemma ReadElfIff(file: seq<byte>, wantShdrs: bool)
    ensures ReadElf(file, wantShdrs).Done? <==>
            && |file| >= 64
            && var e := DecodeEhdr(file[..64]);
               && e.phentsize != 0 && e.phnum != 0 && e.phoff + 56 * e.phnum <= |file|
               && (wantShdrs && e.shnum > 0 ==> e.shoff + 64 * e.shnum <= |file|)
  {
  }

  /** And what is read then: the header, and entry by entry from where it says. */
  lemma PhdrRead(file: seq<byte>, wantShdrs: bool, k: nat)
    requires ReadElf(file, wantShdrs).Done? && k < |ReadElf(file, wantShdrs).value.phdrs|
    ensures var elf := ReadElf(file, wantShdrs).value;
      var at := elf.ehdr.phoff + 56 * k;
      && elf.ehdr == DecodeEhdr(file[..64]) && |elf.phdrs| == elf.ehdr.phnum
      && at + 56 <= |file| && elf.phdrs[k] == DecodePhdr(file[at..at + 56])
  {
    var e := DecodeEhdr(file[..64]);
    Distribute(56, e.phnum - k - 1, k + 1);
    assert ReadPhdrs(file, e.phoff, e.phnum)[k] == DecodePhdr(file[e.phoff + 56 * k..e.phoff + 56 * (k + 1)]);
  }

  lemma ShdrRead(file: seq<byte>, x: nat)
    requires ReadElf(file, true).Done? && x < |ReadElf(file, true).value.shdrs|
    ensures var elf := ReadElf(file, true).value;
      var at := elf.ehdr.shoff + 64 * x;
      && elf.ehdr == DecodeEhdr(file[..64]) && |elf.shdrs| == elf.ehdr.shnum
      && at + 64 <= |file| && elf.shdrs[x] == DecodeShdr(file[at..at + 64])
  {
    var e := DecodeEhdr(file[..64]);
    Distribute(64, e.shnum - x - 1, x + 1);
    assert ReadShdrs(file, e.shoff, e.shnum)[x] == DecodeShdr(file[e.shoff + 64 * x..e.shoff + 64 * (x + 1)]);
  }
}
