/** What src/inject_starter.c does to a file whose headers it cannot read. Its
    test at line 52 misses the failure, so it goes on with the headers that the
    failed read left; when it may overwrite the file all the same. */
module UnreadHeaders {
  import opened Arith
  import opened Bytes
  import opened Elf
  import opened Outcomes
  import opened PartialRead
  import opened InjectStarter
  import opened CutHeader

  /** Some memory contents before the call make the program overwrite the file. */
  ghost predicate Endangered(file: seq<byte>, starter: seq<byte>) {
    exists before: Before :: before.Valid() && InjectedWith(Held(file, before), file, starter).Done?
  }

  /** The first header around the entry point decides. */
  lemma FirstDecides(elf: ElfFile, file: seq<byte>, starter: seq<byte>)
    ensures var i := EntrySegment(elf.phdrs, elf.ehdr.entry);
      InjectedWith(elf, file, starter).Done?
      <==> i < |elf.phdrs| && Leads(elf.phdrs[i], elf.ehdr.entry, |starter|, |file|)
  {
  }

  // ------------------------------------------------------ A header at will

  /** A header that leads to the second byte of the file. */
  function Stray(entry: nat): Phdr {
    Phdr(PT_LOAD, 0, 1, entry, 0, 1, 1, 1)
  }

  lemma StrayLeads(entry: nat, n: nat, size: nat)
    requires entry < TWO64 && n < size
    ensures DecodePhdr(EncodePhdr(Stray(entry))) == Stray(entry) && Leads(Stray(entry), entry, n, size)
  {
    PhdrRoundTrip(Stray(entry));
  }

  /** Memory in which these bytes are entry `k` of the table. */
  function TableWith(k: nat, bytes: seq<byte>, rest: nat -> byte): nat -> byte
    requires |bytes| == PHDR_SIZE
  {
    (i: nat) => if PHDR_SIZE * k <= i < PHDR_SIZE * k + PHDR_SIZE then bytes[i - PHDR_SIZE * k] else rest(i)
  }

  /** An entry behind the end of the file is the one in memory. */
  lemma EntryLeftOver(file: seq<byte>, e: Ehdr, before: Before, k: nat, bytes: seq<byte>)
    requires |bytes| == PHDR_SIZE
    requires |file| < EHDR_SIZE || e.phentsize == 0 || |file| <= e.phoff + PHDR_SIZE * k
    requires forall i :: 0 <= i < PHDR_SIZE ==> before.table(PHDR_SIZE * k + i) == bytes[i]
    ensures EntryBytes(file, e, before, k) == bytes
  {
    forall i | 0 <= i < PHDR_SIZE ensures EntryBytes(file, e, before, k)[i] == bytes[i] {
      assert EntryBytes(file, e, before, k)[i] == TableByte(file, e, before, PHDR_SIZE * k + i);
    }
  }

  /** No table was read, and it has entries: memory alone decides, and may hold a
      header that leads into any file longer than the starter. */
  lemma UnreadTable(file: seq<byte>, starter: seq<byte>, ehdr: seq<byte>)
    requires |ehdr| == EHDR_SIZE && |starter| < |file|
    requires var e := DecodeEhdr(HeaderBytes(file, Before(ehdr, _ => 0)));
      e.phnum > 0 && (|file| < EHDR_SIZE || e.phentsize == 0)
    ensures Endangered(file, starter)
  {
    var e := DecodeEhdr(HeaderBytes(file, Before(ehdr, _ => 0)));
    DecodedEhdrFits(HeaderBytes(file, Before(ehdr, _ => 0)));
    var bytes := EncodePhdr(Stray(e.entry));
    var before := Before(ehdr, TableWith(0, bytes, _ => 0));
    StrayLeads(e.entry, |starter|, |file|);
    EntryLeftOver(file, e, before, 0, bytes);
    var held := Held(file, before);
    assert held.phdrs[0] == Stray(e.entry);
    assert EntrySegment(held.phdrs, e.entry) == 0;
    FirstDecides(held, file, starter);
  }

  // ------------------------------------------- The causes, one after another

  /** Without program headers: the loop over the table runs not once, and the file
      is left alone whatever memory holds. */
  lemma NoPhdrsLeftAlone(file: seq<byte>, starter: seq<byte>, before: Before)
    requires before.Valid() && ReadElf(file, false) == Exit(NoPhdrs)
    ensures InjectedWith(Held(file, before), file, starter) == Exit(NoEntrySegment)
  {
    HeaderRead(file, before);
  }

  /** With an entry size of 0, the file's own header says how many entries to look
      at, and memory what they are. */
  lemma BadEntrySizeIff(file: seq<byte>, starter: seq<byte>)
    requires ReadElf(file, false) == Exit(BadPhentsize)
    ensures Endangered(file, starter) <==> DecodeEhdr(file[..EHDR_SIZE]).phnum > 0 && |starter| < |file|
  {
    var e := DecodeEhdr(file[..EHDR_SIZE]);
    if before: Before :| before.Valid() && InjectedWith(Held(file, before), file, starter).Done? {
      HeaderRead(file, before);
      FirstDecides(Held(file, before), file, starter);
    }
    if e.phnum > 0 && |starter| < |file| {
      var ehdr := seq<byte>(EHDR_SIZE, _ => 0);
      HeaderRead(file, Before(ehdr, _ => 0));
      UnreadTable(file, starter, ehdr);
    }
  }

  lemma ShortHeaderNecessary(file: seq<byte>, starter: seq<byte>, before: Before)
    requires |file| < EHDR_SIZE && before.Valid() && InjectedWith(Held(file, before), file, starter).Done?
    ensures |starter| < |file| && (|file| < 58 || file[56] != 0 || file[57] != 0)
  {
    FirstDecides(Held(file, before), file, starter);
    PhnumBytes(HeaderBytes(file, before));
  }

  /** With an ELF header that is cut off, the bytes of e_phnum decide: two zeros in
      the file, or anything. */
  lemma ShortHeaderIff(file: seq<byte>, starter: seq<byte>)
    requires |file| < EHDR_SIZE
    ensures Endangered(file, starter)
            <==> |starter| < |file| && (|file| < 58 || file[56] != 0 || file[57] != 0)
  {
    if before: Before :| before.Valid() && InjectedWith(Held(file, before), file, starter).Done? {
      ShortHeaderNecessary(file, starter, before);
    }
    if |starter| < |file| && (|file| < 58 || file[56] != 0 || file[57] != 0) {
      var ehdr := seq<byte>(EHDR_SIZE, _ => 1);
      PhnumBytes(HeaderBytes(file, Before(ehdr, _ => 0)));
      UnreadTable(file, starter, ehdr);
    }
  }

  lemma PhnumBytes(s: seq<byte>)
    requires |s| == EHDR_SIZE
    ensures DecodeEhdr(s).phnum == 0 <==> s[56] == 0 && s[57] == 0
  {
    EhdrFormat(s);
    assert s[56..58][1..] == [s[57]] && s[56..58][0] == s[56];
    assert [s[57]][1..] == [];
    assert DecodeLE([s[57]]) == s[57] + 256 * DecodeLE([]);
  }

  // ------------------------------------------------------ A table cut short

  /** The table reaches beyond the end of the file. */
  predicate CutTable(file: seq<byte>) {
    && |file| >= EHDR_SIZE
    && var e := DecodeEhdr(file[..EHDR_SIZE]);
       e.phentsize != 0 && e.phnum != 0 && |file| < e.phoff + PHDR_SIZE * e.phnum
  }

  /** Entries that lie in the file, and the bytes of the one that is cut. */
  function WholeEntries(file: seq<byte>, at: nat): nat {
    if |file| < at then 0 else (|file| - at) / PHDR_SIZE
  }

  function CutBytes(file: seq<byte>, at: nat): (b: seq<byte>)
    ensures |b| < PHDR_SIZE
  {
    if |file| < at then [] else file[|file| - (|file| - at) % PHDR_SIZE..]
  }

  lemma CutPlace(file: seq<byte>)
    requires CutTable(file)
    ensures var e := DecodeEhdr(file[..EHDR_SIZE]);
      var k, b := WholeEntries(file, e.phoff), CutBytes(file, e.phoff);
      && k < e.phnum
      && (if |file| < e.phoff then k == 0 && b == []
          else e.phoff + PHDR_SIZE * k + |b| == |file| && b == file[e.phoff + PHDR_SIZE * k..])
  {
    var e := DecodeEhdr(file[..EHDR_SIZE]);
    var k := WholeEntries(file, e.phoff);
    if |file| >= e.phoff {
      assert |file| - e.phoff == PHDR_SIZE * k + (|file| - e.phoff) % PHDR_SIZE;
      if k >= e.phnum {
        Distribute(PHDR_SIZE, e.phnum, k - e.phnum);
        MulGrows(PHDR_SIZE, k - e.phnum);
      }
    } else {
      MulGrows(PHDR_SIZE, e.phnum);
    }
  }

  /** The cut entry: its bytes in the file, and memory behind them. */
  lemma CutEntry(file: seq<byte>, before: Before)
    requires CutTable(file)
    ensures var e := DecodeEhdr(file[..EHDR_SIZE]);
      var k, b := WholeEntries(file, e.phoff), CutBytes(file, e.phoff);
      EntryBytes(file, e, before, k) == b + EntryBytes(file, e, before, k)[|b|..]
  {
    CutPlace(file);
    var e := DecodeEhdr(file[..EHDR_SIZE]);
    var k, b := WholeEntries(file, e.phoff), CutBytes(file, e.phoff);
    var s := EntryBytes(file, e, before, k);
    forall i | 0 <= i < |b| ensures s[i] == b[i] {
      assert s[i] == TableByte(file, e, before, PHDR_SIZE * k + i);
      assert file[e.phoff + PHDR_SIZE * k..][i] == file[e.phoff + PHDR_SIZE * k + i];
    }
    assert s[..|b|] == b;
  }

  /** The entries that lie in the file. */
  function WholeHeaders(file: seq<byte>, at: nat): (ps: seq<Phdr>)
    ensures |ps| == WholeEntries(file, at)
  {
    if |file| < at then [] else ReadPhdrs(file, at, WholeEntries(file, at))
  }

  /** The table that is held: the entries in the file, the cut one, and others. */
  lemma HeldCut(file: seq<byte>, before: Before)
    requires CutTable(file) && before.Valid()
    ensures var e, held := DecodeEhdr(file[..EHDR_SIZE]), Held(file, before);
      var k, b := WholeEntries(file, e.phoff), CutBytes(file, e.phoff);
      && held.ehdr == e && |held.phdrs| == e.phnum && k < e.phnum
      && held.phdrs[..k] == WholeHeaders(file, e.phoff)
      && held.phdrs[k] == DecodePhdr(b + EntryBytes(file, e, before, k)[|b|..])
  {
    HeaderRead(file, before);
    CutPlace(file);
    CutEntry(file, before);
    WholeHeld(file, before);
  }

  lemma WholeHeld(file: seq<byte>, before: Before)
    requires CutTable(file)
    ensures var e := DecodeEhdr(file[..EHDR_SIZE]);
      var k := WholeEntries(file, e.phoff);
      k < e.phnum && TableHeld(file, e, before)[..k] == WholeHeaders(file, e.phoff)
  {
    CutPlace(file);
    var e := DecodeEhdr(file[..EHDR_SIZE]);
    var k := WholeEntries(file, e.phoff);
    forall i: nat | i < k ensures TableHeld(file, e, before)[i] == WholeHeaders(file, e.phoff)[i] {
      TableBound(e.phoff, i, k, |file|);
      EntryRead(file, e, before, i);
    }
  }

  /** Entries in front of the cut one decide if one of them covers the entry
      point. */
  lemma EntryInFront(ps: seq<Phdr>, k: nat, entry: nat)
    requires k <= |ps|
    ensures if EntrySegment(ps[..k], entry) < k then EntrySegment(ps, entry) == EntrySegment(ps[..k], entry)
            else EntrySegment(ps, entry) >= k
  {
    var i := EntrySegment(ps, entry);
    assert forall j :: 0 <= j < k ==> ps[..k][j] == ps[j];
    if i < k { assert Covers(ps[..k][i], entry); }
  }

  /** Memory that completes the cut entry to `bytes`. */
  lemma CutEntryWith(file: seq<byte>, before: Before, bytes: seq<byte>)
    requires CutTable(file) && |bytes| == PHDR_SIZE
    requires var at := DecodeEhdr(file[..EHDR_SIZE]).phoff;
      && CutBytes(file, at) <= bytes
      && forall i :: 0 <= i < PHDR_SIZE ==> before.table(PHDR_SIZE * WholeEntries(file, at) + i) == bytes[i]
    ensures var e := DecodeEhdr(file[..EHDR_SIZE]);
      EntryBytes(file, e, before, WholeEntries(file, e.phoff)) == bytes
  {
    CutPlace(file);
    CutEntry(file, before);
    var e := DecodeEhdr(file[..EHDR_SIZE]);
    var k, b := WholeEntries(file, e.phoff), CutBytes(file, e.phoff);
    var s := EntryBytes(file, e, before, k);
    forall i | 0 <= i < PHDR_SIZE ensures s[i] == bytes[i] {
      assert s[i] == TableByte(file, e, before, PHDR_SIZE * k + i);
      if i < |b| { assert (b + s[|b|..])[i] == b[i]; }
    }
  }

  /** When `count` entries of which these are known, and of the next one the bytes
      `b`, may lead into a file: the first known one around the entry point does;
      or, without one, the cut entry may; or it may be passed over, and there is one
      more, of which nothing was read. */
  predicate TableDanger(whole: seq<Phdr>, b: seq<byte>, count: nat, entry: nat, n: nat, size: nat)
    requires |b| <= PHDR_SIZE
  {
    var i := EntrySegment(whole, entry);
    if i < |whole| then Leads(whole[i], entry, n, size)
    else
      || MayLead(b, entry, n, size)
      || (|whole| + 1 < count && !Covers(DecodePhdr(b + Fill(0, PHDR_SIZE - |b|)), entry) && n < size)
  }

  predicate CutDanger(file: seq<byte>, starter: seq<byte>)
    requires CutTable(file)
  {
    var e := DecodeEhdr(file[..EHDR_SIZE]);
    TableDanger(WholeHeaders(file, e.phoff), CutBytes(file, e.phoff), e.phnum, e.entry, |starter|, |file|)
  }

  lemma TableNecessary(ps: seq<Phdr>, whole: seq<Phdr>, b: seq<byte>, rest: seq<byte>, entry: nat, n: nat, size: nat)
    requires |whole| < |ps| && ps[..|whole|] == whole && entry < TWO64
    requires |b + rest| == PHDR_SIZE && ps[|whole|] == DecodePhdr(b + rest)
    requires var i := EntrySegment(ps, entry); i < |ps| && Leads(ps[i], entry, n, size)
    ensures TableDanger(whole, b, |ps|, entry, n, size)
  {
    EntryInFront(ps, |whole|, entry);
    CanLeadIff(b, entry, n, size);
    CanMissIff(b, entry);
    var i := EntrySegment(ps, entry);
    if i == |whole| {
      assert Leads(DecodePhdr(b + rest), entry, n, size);
    } else if i > |whole| {
      assert !Covers(DecodePhdr(b + rest), entry);
    }
  }

  lemma CutTableNecessary(file: seq<byte>, starter: seq<byte>, before: Before)
    requires CutTable(file) && before.Valid() && InjectedWith(Held(file, before), file, starter).Done?
    ensures CutDanger(file, starter)
  {
    HeldCut(file, before);
    DecodedEhdrFits(file[..EHDR_SIZE]);
    var held := Held(file, before);
    FirstDecides(held, file, starter);
    var e := held.ehdr;
    var whole, b := WholeHeaders(file, e.phoff), CutBytes(file, e.phoff);
    var rest := EntryBytes(file, e, before, |whole|)[|b|..];
    TableNecessary(held.phdrs, whole, b, rest, e.entry, |starter|, |file|);
  }

  /** The first entry from `k` on that covers the entry point leads into the file. */
  lemma EntryLeads(elf: ElfFile, k: nat, j: nat, file: seq<byte>, starter: seq<byte>)
    requires k <= j < |elf.phdrs| && EntrySegment(elf.phdrs[..k], elf.ehdr.entry) == k
    requires forall t :: k <= t < j ==> !Covers(elf.phdrs[t], elf.ehdr.entry)
    requires Leads(elf.phdrs[j], elf.ehdr.entry, |starter|, |file|)
    ensures InjectedWith(elf, file, starter).Done?
  {
    EntryInFront(elf.phdrs, k, elf.ehdr.entry);
    assert EntrySegment(elf.phdrs, elf.ehdr.entry) == j;
    FirstDecides(elf, file, starter);
  }

  /** A cut entry that is completed to lead into the file. */
  lemma CutEntryLeads(file: seq<byte>, starter: seq<byte>, bytes: seq<byte>)
    requires CutTable(file)
    requires var e := DecodeEhdr(file[..EHDR_SIZE]);
      && EntrySegment(WholeHeaders(file, e.phoff), e.entry) == WholeEntries(file, e.phoff)
      && CutBytes(file, e.phoff) <= bytes && |bytes| == PHDR_SIZE
      && Leads(DecodePhdr(bytes), e.entry, |starter|, |file|)
    ensures Endangered(file, starter)
  {
    var at := DecodeEhdr(file[..EHDR_SIZE]).phoff;
    var k := WholeEntries(file, at);
    var before := Before(seq<byte>(EHDR_SIZE, _ => 0), TableWith(k, bytes, _ => 0));
    HeldCut(file, before);
    CutEntryWith(file, before, bytes);
    assert bytes == CutBytes(file, at) + bytes[|CutBytes(file, at)|..];
    EntryLeads(Held(file, before), k, k, file, starter);
  }

  /** A cut entry that is passed over, in front of one more entry. */
  lemma NextEntryLeads(file: seq<byte>, starter: seq<byte>, bytes: seq<byte>)
    requires CutTable(file) && |starter| < |file|
    requires var e := DecodeEhdr(file[..EHDR_SIZE]);
      && EntrySegment(WholeHeaders(file, e.phoff), e.entry) == WholeEntries(file, e.phoff)
      && WholeEntries(file, e.phoff) + 1 < e.phnum
      && CutBytes(file, e.phoff) <= bytes && |bytes| == PHDR_SIZE && !Covers(DecodePhdr(bytes), e.entry)
    ensures Endangered(file, starter)
  {
    var e := DecodeEhdr(file[..EHDR_SIZE]);
    var k := WholeEntries(file, e.phoff);
    var before := NextEntryHeld(file, bytes);
    StrayLeads(e.entry, |starter|, |file|);
    EntryLeads(Held(file, before), k, k + 1, file, starter);
  }

  lemma NextEntryHeld(file: seq<byte>, bytes: seq<byte>) returns (before: Before)
    requires CutTable(file)
    requires var e := DecodeEhdr(file[..EHDR_SIZE]);
      WholeEntries(file, e.phoff) + 1 < e.phnum && CutBytes(file, e.phoff) <= bytes && |bytes| == PHDR_SIZE
    ensures before.Valid() && DecodeEhdr(file[..EHDR_SIZE]).entry < TWO64
    ensures var e, held := DecodeEhdr(file[..EHDR_SIZE]), Held(file, before);
      var k := WholeEntries(file, e.phoff);
      && held.ehdr == e && |held.phdrs| == e.phnum && held.phdrs[..k] == WholeHeaders(file, e.phoff)
      && held.phdrs[k] == DecodePhdr(bytes) && held.phdrs[k + 1] == DecodePhdr(EncodePhdr(Stray(e.entry)))
  {
    var e := DecodeEhdr(file[..EHDR_SIZE]);
    DecodedEhdrFits(file[..EHDR_SIZE]);
    var k, b, stray := WholeEntries(file, e.phoff), CutBytes(file, e.phoff), EncodePhdr(Stray(e.entry));
    before := Before(seq<byte>(EHDR_SIZE, _ => 0), TableWith(k, bytes, TableWith(k + 1, stray, _ => 0)));
    HeldCut(file, before);
    CutEntryWith(file, before, bytes);
    NextEntryLeftOver(file, before, bytes, stray);
    assert bytes == b + bytes[|b|..];
  }

  lemma NextEntryLeftOver(file: seq<byte>, before: Before, bytes: seq<byte>, stray: seq<byte>)
    requires CutTable(file) && |bytes| == |stray| == PHDR_SIZE
    requires var k := WholeEntries(file, DecodeEhdr(file[..EHDR_SIZE]).phoff);
      before.table == TableWith(k, bytes, TableWith(k + 1, stray, _ => 0))
    ensures var e := DecodeEhdr(file[..EHDR_SIZE]);
      EntryBytes(file, e, before, WholeEntries(file, e.phoff) + 1) == stray
  {
    var e := DecodeEhdr(file[..EHDR_SIZE]);
    var k := WholeEntries(file, e.phoff);
    Distribute(PHDR_SIZE, k, 1);
    CutPlace(file);
    EntryLeftOver(file, e, before, k + 1, stray);
  }

  lemma WholeEntryLeads(file: seq<byte>, starter: seq<byte>)
    requires CutTable(file)
    requires var e := DecodeEhdr(file[..EHDR_SIZE]);
      var ps := WholeHeaders(file, e.phoff);
      var i := EntrySegment(ps, e.entry);
      i < |ps| && Leads(ps[i], e.entry, |starter|, |file|)
    ensures Endangered(file, starter)
  {
    var before := Before(seq<byte>(EHDR_SIZE, _ => 0), _ => 0);
    HeldCut(file, before);
    var held := Held(file, before);
    EntryInFront(held.phdrs, WholeEntries(file, held.ehdr.phoff), held.ehdr.entry);
    FirstDecides(held, file, starter);
  }

  lemma CutTableSufficient(file: seq<byte>, starter: seq<byte>)
    requires CutTable(file) && CutDanger(file, starter)
    ensures Endangered(file, starter)
  {
    DecodedEhdrFits(file[..EHDR_SIZE]);
    var e := DecodeEhdr(file[..EHDR_SIZE]);
    var ps, b := WholeHeaders(file, e.phoff), CutBytes(file, e.phoff);
    if EntrySegment(ps, e.entry) < |ps| {
      WholeEntryLeads(file, starter);
    } else if MayLead(b, e.entry, |starter|, |file|) {
      var bytes := LeadingBytes(b, e.entry, |starter|, |file|);
      CutEntryLeads(file, starter, bytes);
    } else {
      NextEntryLeads(file, starter, b + Fill(0, PHDR_SIZE - |b|));
    }
  }

  // -------------------------------------------------------- Every cause

  /** What of an unreadable file decides about the danger to it. */
  predicate Danger(file: seq<byte>, starter: seq<byte>)
    requires ReadElf(file, false).Exit?
  {
    if |file| < EHDR_SIZE then |starter| < |file| && (|file| < 58 || file[56] != 0 || file[57] != 0)
    else
      var e := DecodeEhdr(file[..EHDR_SIZE]);
      if e.phnum == 0 then false
      else if e.phentsize == 0 then |starter| < |file|
      else CutDanger(file, starter)
  }

  /** The failed test at line 52: memory contents that let the program overwrite a
      file it could not read exist exactly for these files. */
  lemma EndangeredIff(file: seq<byte>, starter: seq<byte>)
    requires ReadElf(file, false).Exit?
    ensures Endangered(file, starter) <==> Danger(file, starter)
  {
    if |file| < EHDR_SIZE {
      ShortHeaderIff(file, starter);
    } else if DecodeEhdr(file[..EHDR_SIZE]).phentsize == 0 {
      BadEntrySizeIff(file, starter);
    } else if DecodeEhdr(file[..EHDR_SIZE]).phnum == 0 {
      forall before: Before | before.Valid() ensures InjectedWith(Held(file, before), file, starter).Exit? {
        NoPhdrsLeftAlone(file, starter, before);
      }
    } else {
      if before: Before :| before.Valid() && InjectedWith(Held(file, before), file, starter).Done? {
        CutTableNecessary(file, starter, before);
      }
      if Danger(file, starter) { CutTableSufficient(file, starter); }
    }
  }

  /** The smallest case: a file of two bytes and a starter of one. */
  lemma TwoBytesOverwritten(file: seq<byte>, starter: seq<byte>)
    requires |file| == 2 && |starter| == 1
    ensures ReadElf(file, false) == Exit(ShortRead) && Endangered(file, starter)
  {
    EndangeredIff(file, starter);
  }
}
