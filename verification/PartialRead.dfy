/** What `get_ehdr_phdrs_and_shdrs` of src/my_lib.inc.c leaves in its caller's
    variables when it fails: the bytes that were read, in front of whatever was
    there before. */
module PartialRead {
  import opened Arith
  import opened Bytes
  import opened Elf

  /** Memory before the call: the ELF header's variable, and what the table's
      pointer leads to, byte by byte. */
  datatype Before = Before(ehdr: seq<byte>, table: nat -> byte)
  {
    predicate Valid() {
      |ehdr| == EHDR_SIZE
    }
  }

  /** Some memory, of which nothing is known. */
  method AnyBefore() returns (before: Before)
    ensures before.Valid()
  {
    before := Before(seq(EHDR_SIZE, _ => 0), _ => 0);
  }

  function HeaderBytes(file: seq<byte>, before: Before): (s: seq<byte>)
    requires before.Valid()
    ensures |s| == EHDR_SIZE
  {
    var n := Min(|file|, EHDR_SIZE);
    file[..n] + before.ehdr[n..]
  }

  /** The table is read only behind a whole header with an entry size. */
  function TableByte(file: seq<byte>, e: Ehdr, before: Before, i: nat): byte {
    if |file| >= EHDR_SIZE && e.phentsize != 0 && e.phoff + i < |file| then file[e.phoff + i] else before.table(i)
  }

  function EntryBytes(file: seq<byte>, e: Ehdr, before: Before, k: nat): (s: seq<byte>)
    ensures |s| == PHDR_SIZE
  {
    seq<byte>(PHDR_SIZE, i requires 0 <= i < PHDR_SIZE => TableByte(file, e, before, PHDR_SIZE * k + i))
  }

  function TableHeld(file: seq<byte>, e: Ehdr, before: Before): (ps: seq<Phdr>)
    ensures |ps| == e.phnum
  {
    seq(e.phnum, k requires 0 <= k < e.phnum => DecodePhdr(EntryBytes(file, e, before, k)))
  }

  /** What the caller's variables hold after the call. The loops over the table
      run to the header's e_phnum. */
  function Held(file: seq<byte>, before: Before): ElfFile
    requires before.Valid()
  {
    var e := DecodeEhdr(HeaderBytes(file, before));
    ElfFile(e, TableHeld(file, e, before), [])
  }

  /** An entry that lies in the file is the file's own. */
  lemma EntryRead(file: seq<byte>, e: Ehdr, before: Before, k: nat)
    requires |file| >= EHDR_SIZE && e.phentsize != 0 && e.phoff + PHDR_SIZE * (k + 1) <= |file|
    ensures EntryBytes(file, e, before, k) == file[e.phoff + PHDR_SIZE * k..e.phoff + PHDR_SIZE * (k + 1)]
  {
    Distribute(PHDR_SIZE, k, 1);
    var at := e.phoff + PHDR_SIZE * k;
    assert at + PHDR_SIZE <= |file|;
    forall i | 0 <= i < PHDR_SIZE ensures EntryBytes(file, e, before, k)[i] == file[at..at + PHDR_SIZE][i] {
      assert EntryBytes(file, e, before, k)[i] == TableByte(file, e, before, PHDR_SIZE * k + i);
      assert e.phoff + (PHDR_SIZE * k + i) == at + i < |file|;
    }
  }

  lemma HeaderRead(file: seq<byte>, before: Before)
    requires before.Valid() && |file| >= EHDR_SIZE
    ensures HeaderBytes(file, before) == file[..EHDR_SIZE]
  {
  }

  /** A read that succeeds leaves the file's headers and nothing of what was there
      before. */
  lemma HeldIsRead(file: seq<byte>, before: Before)
    requires before.Valid() && ReadElf(file, false).Done?
    ensures Held(file, before) == ReadElf(file, false).value
  {
    HeaderRead(file, before);
    var e := DecodeEhdr(file[..EHDR_SIZE]);
    forall k | 0 <= k < e.phnum
      ensures TableHeld(file, e, before)[k] == ReadPhdrs(file, e.phoff, e.phnum)[k]
    {
      TableBound(e.phoff, k, e.phnum, |file|);
      EntryRead(file, e, before, k);
    }
  }

  lemma TableBound(at: nat, k: nat, n: nat, size: nat)
    requires k < n && at + PHDR_SIZE * n <= size
    ensures at + PHDR_SIZE * (k + 1) <= size
  {
    Distribute(PHDR_SIZE, k + 1, n - k - 1);
  }
}
