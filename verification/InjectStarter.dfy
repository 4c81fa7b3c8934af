/** Overwriting the starter's place in the finished executable
    (src/inject_starter.c). */
module InjectStarter {
  import opened Bytes
  import opened Elf
  import opened Outcomes
  import opened Relocation
  import opened HeaderMerge
  import opened PartialRead

  predicate Covers(p: Phdr, entry: nat) {
    p.ptype == PT_LOAD && p.vaddr <= entry < p.vaddr + p.memsz
  }

  /** The first PT_LOAD segment around the entry point, or the length. */
  function EntrySegment(ps: seq<Phdr>, entry: nat): (i: nat)
    ensures i <= |ps|
    ensures i < |ps| ==> Covers(ps[i], entry)
    ensures forall k :: 0 <= k < i ==> !Covers(ps[k], entry)
  {
    FirstIndex(ps, (p: Phdr) => Covers(p, entry))
  }

  /** File offset of the entry point; 0 stands for "no segment". */
  function EntryOffset(ps: seq<Phdr>, entry: nat): nat {
    var i := EntrySegment(ps, entry);
    if i == |ps| then 0 else entry - ps[i].vaddr + ps[i].offset
  }

  method FindOffset(ps: seq<Phdr>, entry: nat) returns (offset: nat)
    ensures offset == EntryOffset(ps, entry)
  {
    offset := 0;
    for i := 0 to |ps|
      invariant offset == 0 && forall k :: 0 <= k < i ==> !Covers(ps[k], entry)
    {
      if ps[i].ptype != PT_LOAD {
        continue;
      }
      if entry >= ps[i].vaddr && entry < ps[i].vaddr + ps[i].memsz {
        assert EntrySegment(ps, entry) == i;
        offset := entry - ps[i].vaddr + ps[i].offset;
        break;
      }
    }
  }

  function Overwrite(file: seq<byte>, at: nat, new_: seq<byte>): seq<byte>
    requires at + |new_| <= |file|
  {
    file[..at] + new_ + file[at + |new_|..]
  }

  /** What becomes of the file with the headers the program holds. */
  function InjectedWith(elf: ElfFile, file: seq<byte>, starter: seq<byte>): Outcome<seq<byte>> {
    var offset := EntryOffset(elf.phdrs, elf.ehdr.entry);
    if offset == 0 then Exit(NoEntrySegment)
    else if |file| < |starter| + offset then Exit(StarterTooBig)
    else Done(Overwrite(file, offset, starter))
  }

  /** The program on a file whose headers can be read. */
  function Injected(file: seq<byte>, starter: seq<byte>): Outcome<seq<byte>>
    requires ReadElf(file, false).Done?
  {
    InjectedWith(ReadElf(file, false).value, file, starter)
  }

  /** The program as a whole, its variables holding `before` when it starts. A
      failed read is reported as 0 and looked for as -1, so the program goes on with
      what was read and what was there before. On `Exit` the file is left alone. */
  method Inject(starter: seq<byte>, exe: array<byte>, before: Before) returns (r: Outcome<()>)
    requires before.Valid()
    modifies exe
    ensures match InjectedWith(Held(old(exe[..]), before), old(exe[..]), starter)
            case Exit(e) => r == Exit(e) && exe[..] == old(exe[..])
            case Done(file) => r == Done(()) && exe[..] == file
  {
    var elf := Held(exe[..], before);
    var offset := FindOffset(elf.phdrs, elf.ehdr.entry);
    if offset == 0 { return Exit(NoEntrySegment); }
    if exe.Length < |starter| + offset { return Exit(StarterTooBig); }
    WriteAt(exe, offset, starter);
    return Done(());
  }

  /** `fseek` and `fwrite` into the existing file. */
  method WriteAt(exe: array<byte>, at: nat, data: seq<byte>)
    requires at + |data| <= exe.Length
    modifies exe
    ensures exe[..] == Overwrite(old(exe[..]), at, data)
  {
    forall i | 0 <= i < |data| {
      exe[at + i] := data[i];
    }
  }

  /** Segments at positive offsets: the marker 0 then means "no segment covers
      the entry point" and nothing else. */
  lemma ZeroMeansNoSegment(ps: seq<Phdr>, entry: nat)
    requires forall i :: 0 <= i < |ps| && ps[i].ptype == PT_LOAD ==> ps[i].offset > 0
    ensures EntryOffset(ps, entry) == 0 <==> forall i :: 0 <= i < |ps| ==> !Covers(ps[i], entry)
  {
  }

  /** Other headers between the PT_LOAD headers do not matter. */
  lemma {:induction false} EntryAmongLoads(ps: seq<Phdr>, entry: nat)
    ensures EntryOffset(ps, entry) == EntryOffset(Loads(ps), entry)
    ensures EntrySegment(ps, entry) < |ps| <==> EntrySegment(Loads(ps), entry) < |Loads(ps)|
  {
    if ps != [] {
      var init, last := ps[..|ps| - 1], ps[|ps| - 1];
      EntryAmongLoads(init, entry);
      EntrySnoc(init, last, entry);
      assert ps == init + [last];
      LoadsSnoc(init, last);
      if IsLoad(last) { EntrySnoc(Loads(init), last, entry); }
    }
  }

  lemma EntrySnoc(init: seq<Phdr>, last: Phdr, entry: nat)
    ensures EntrySegment(init + [last], entry) ==
            if EntrySegment(init, entry) < |init| then EntrySegment(init, entry)
            else if Covers(last, entry) then |init| else |init| + 1
    ensures EntryOffset(init + [last], entry) ==
            if EntrySegment(init, entry) < |init| then EntryOffset(init, entry)
            else if Covers(last, entry) then entry - last.vaddr + last.offset else 0
  {
    var ps := init + [last];
    var k := EntrySegment(init, entry);
    assert ps[|init|] == last;
    assert forall j :: 0 <= j < |init| ==> ps[j] == init[j];
    assert EntrySegment(ps, entry) == if k < |init| then k else if Covers(last, entry) then |init| else |ps|;
  }

  /** Of a file whose headers can be read: the starter replaces the bytes behind the
      place where the first PT_LOAD segment around the entry point has it, if it fits
      into the file. */
  lemma InjectedThere(file: seq<byte>, elf: ElfFile, starter: seq<byte>, k: nat, at: nat)
    requires ReadElf(file, false) == Done(elf) && k < |elf.phdrs|
    requires elf.phdrs[k].ptype == 1
    requires elf.phdrs[k].vaddr <= elf.ehdr.entry < elf.phdrs[k].vaddr + elf.phdrs[k].memsz
    requires forall l :: 0 <= l < k && elf.phdrs[l].ptype == 1 ==>
               !(elf.phdrs[l].vaddr <= elf.ehdr.entry < elf.phdrs[l].vaddr + elf.phdrs[l].memsz)
    requires at == elf.phdrs[k].offset + (elf.ehdr.entry - elf.phdrs[k].vaddr) && at > 0
    ensures Injected(file, starter) ==
            if at + |starter| <= |file| then Done(file[..at] + starter + file[at + |starter|..])
            else Exit(StarterTooBig)
  {
    assert EntrySegment(elf.phdrs, elf.ehdr.entry) == k;
  }

  lemma InjectedNowhere(file: seq<byte>, elf: ElfFile, starter: seq<byte>)
    requires ReadElf(file, false) == Done(elf)
    requires forall k :: 0 <= k < |elf.phdrs| && elf.phdrs[k].ptype == 1 ==>
               !(elf.phdrs[k].vaddr <= elf.ehdr.entry < elf.phdrs[k].vaddr + elf.phdrs[k].memsz)
    ensures Injected(file, starter) == Exit(NoEntrySegment)
  {
    assert EntrySegment(elf.phdrs, elf.ehdr.entry) == |elf.phdrs|;
  }
}
