/** Finding a place for the starter behind an executable segment of one of the
    mapped files (src/fep.c, src/fep.sh). */
module Fep {
  import opened Arith
  import opened Bytes
  import opened Elf
  import opened Outcomes
  import opened Relocation
  import opened HeaderMerge
  import opened MapFilter
  import opened StarterPlace

  /** Space used by a segment, rounded up to the starter's alignment. */
  function UsedSpace(p: Phdr): nat {
    RoundUp(p.memsz, 16)
  }

  /** Space behind that up to the next boundary, counted from the segment start. */
  function UnusedSpace(p: Phdr, page: nat): nat
    requires MinAlign(p, page) > 0
  {
    RoundUp(UsedSpace(p), MinAlign(p, page)) - UsedSpace(p)
  }

  /** Executable segments without zero-filled memory behind the file's bytes. */
  predicate Candidate(p: Phdr) {
    p.ptype == PT_LOAD && BitAnd(p.flags, PF_X) != 0 && p.filesz == p.memsz
  }

  predicate HasRoom(p: Phdr, size: nat, page: nat) {
    && Candidate(p)
    && MinAlign(p, page) > 0
    && size <= UnusedSpace(p, page)
  }

  /** The loop ends at a segment with room, or at a division by its alignment 0. */
  predicate EndsSearch(p: Phdr, size: nat, page: nat) {
    Candidate(p) && (MinAlign(p, page) == 0 || HasRoom(p, size, page))
  }

  /** The segment at which the loop ends, or the length. */
  function Chosen(ps: seq<Phdr>, size: nat, page: nat): (i: nat)
    ensures i <= |ps|
    ensures i < |ps| ==> EndsSearch(ps[i], size, page)
    ensures forall k :: 0 <= k < i ==> !EndsSearch(ps[k], size, page)
  {
    FirstIndex(ps, (p: Phdr) => EndsSearch(p, size, page))
  }

  /** The address printed for segment `i`. The base that is subtracted is reset
      to 0 for every segment but the first PT_LOAD segment. */
  function Entry(ps: seq<Phdr>, start: nat, i: nat): nat
    requires i < |ps|
  {
    start + (if i == FirstLoad(ps) then 0 else ps[i].vaddr) + UsedSpace(ps[i])
  }

  /** Used space of a segment and unused space behind it. */
  method MeasureSpace(p: Phdr, align: nat, page: nat) returns (used: nat, unused: nat)
    requires align == MinAlign(p, page) > 0
    ensures used == UsedSpace(p) && unused == UnusedSpace(p, page)
  {
    used := p.memsz;
    var rest := used % 16;
    if rest != 0 {
      used := used + (16 - rest);
    }
    var total := used;
    rest := used % align;
    if rest != 0 {
      total := total + (align - rest);
    }
    unused := total - used;
  }

  method FindPlace(ps: seq<Phdr>, start: nat, size: nat, page: nat) returns (r: Outcome<Option<nat>>)
    ensures var i := Chosen(ps, size, page);
      r == if i == |ps| then Done(None)
           else if MinAlign(ps[i], page) == 0 then Exit(DivisionByZero)
           else Done(Some(Entry(ps, start, i)))
  {
    var first := true;
    for i := 0 to |ps|
      invariant forall k :: 0 <= k < i ==> !EndsSearch(ps[k], size, page)
      invariant first <==> i <= FirstLoad(ps)
    {
      var fileStart := 0;
      if ps[i].ptype != PT_LOAD {
        continue;
      }
      if first {
        first := false;
        fileStart := ps[i].vaddr;
      }
      if BitAnd(ps[i].flags, PF_X) == 0 {
        continue;
      }
      if ps[i].filesz != ps[i].memsz {
        continue;
      }
      var align := if ps[i].align < page then ps[i].align else page;
      if align == 0 {
        assert Chosen(ps, size, page) == i;
        return Exit(DivisionByZero);
      }
      var used, unused := MeasureSpace(ps[i], align, page);
      if unused < size {
        continue;
      }
      assert Chosen(ps, size, page) == i;
      return Done(Some(start + (ps[i].vaddr - fileStart) + used));
    }
    return Done(None);
  }

  // ------------------------------------------------- Is the address right?

  /** Where the bytes of segment `i` begin in memory. The file's first mapping
      begins at `start`, and the kernel puts the page of the first PT_LOAD segment
      there, not its first byte. */
  function Actual(ps: seq<Phdr>, start: nat, i: nat, page: nat): int
    requires i < |ps| && FirstLoad(ps) < |ps| && page > 0
  {
    var v := ps[FirstLoad(ps)].vaddr;
    start + ps[i].vaddr - (v - v % page)
  }

  /** Where the segment's bytes end, for segments in order of their addresses. */
  function SegmentEnd(ps: seq<Phdr>, start: nat, i: nat, page: nat): nat
    requires i < |ps| && FirstLoad(ps) < |ps| && page > 0 && ps[FirstLoad(ps)].vaddr <= ps[i].vaddr
  {
    Actual(ps, start, i, page) + ps[i].memsz
  }

  /** Exactly when the printed address lies the used space behind the chosen
      segment's first byte: for the first PT_LOAD segment, if it begins on a page;
      for any other one, if the file's addresses begin in page 0. */
  lemma EntryIsBehindSegmentIff(ps: seq<Phdr>, start: nat, i: nat, page: nat)
    requires i < |ps| && FirstLoad(ps) < |ps| && page > 0
    ensures var v := ps[FirstLoad(ps)].vaddr;
      Entry(ps, start, i) == Actual(ps, start, i, page) + UsedSpace(ps[i])
      <==> if i == FirstLoad(ps) then v % page == 0 else v < page
  {
    var v := ps[FirstLoad(ps)].vaddr;
    if v < page { SmallRemainder(v, page); }
  }

  /** Rounding up to 16 first makes no difference to a larger power of two. */
  lemma RoundUpTwice(x: nat, a: nat)
    requires a > 0 && a % 16 == 0
    ensures RoundUp(RoundUp(x, 16), a) == RoundUp(x, a)
  {
    var r := RoundUp(x, a);
    MultipleOfMultiple(r, a, 16);
    RoundUpIsLeast(x, r, 16);
    RoundUpIsLeast(RoundUp(x, 16), r, a);
    RoundUpIsLeast(x, RoundUp(RoundUp(x, 16), a), a);
  }

  /** A segment has room for a nonempty starter only behind a boundary coarser
      than 16, which 16 then divides. */
  lemma RoomNeedsCoarseBoundary(p: Phdr, size: nat, page: nat)
    requires HasRoom(p, size, page) && size > 0
    requires PowerOfTwo(MinAlign(p, page))
    ensures MinAlign(p, page) % 16 == 0
  {
    assert Pow2(4) == 16;
    assert PowerOfTwo(16);
    var a := MinAlign(p, page);
    if a < 16 {
      PowerOfTwoDivides(a, 16);
      MultipleOfMultiple(UsedSpace(p), 16, a);
    } else {
      PowerOfTwoDivides(16, a);
    }
  }

  lemma MultipleOfMultiple(x: nat, b: nat, a: nat)
    requires a > 0 && b > 0 && x % b == 0 && b % a == 0
    ensures x % a == 0
  {
    Associate(a, b / a, x / b);
    DivModUnique(x, a, b / a * (x / b), 0);
  }

  /** Rounding up is monotone, also from a boundary to a coarser one. */
  lemma RoundUpMonotone(x: nat, y: nat, a: nat, b: nat)
    requires a > 0 && b > 0 && b % a == 0 && x <= y
    ensures RoundUp(x, a) <= RoundUp(y, b)
  {
    MultipleOfMultiple(RoundUp(y, b), b, a);
    RoundUpIsLeast(x, RoundUp(y, b), a);
  }

  /** The starter lies behind the segment's own bytes and before the end of their
      last page. */
  predicate InGap(ps: seq<Phdr>, start: nat, i: nat, size: nat, page: nat)
    requires i < |ps| && FirstLoad(ps) < |ps| && page > 0
    requires ps[FirstLoad(ps)].vaddr <= ps[i].vaddr
  {
    var entry, end := Entry(ps, start, i), SegmentEnd(ps, start, i, page);
    end <= entry && entry + size <= RoundUp(end, page)
  }

  /** What the headers alone say about that. Bytes of the first segment must end
      within what rounding up to 16 leaves. For any other segment the file's
      addresses must begin in page 0, and the room must be there when counted from
      the page in which the segment begins. */
  predicate GapCondition(ps: seq<Phdr>, i: nat, size: nat, page: nat)
    requires i < |ps| && FirstLoad(ps) < |ps| && page > 0
  {
    var p, x := ps[i], ps[i].vaddr % page;
    if i == FirstLoad(ps) then x + p.memsz <= UsedSpace(p)
    else ps[FirstLoad(ps)].vaddr < page && x + UsedSpace(p) + size <= RoundUp(x + p.memsz, page)
  }

  /** Rounding up counts from the boundary below. */
  lemma RoundUpFrom(start: nat, v: nat, n: nat, a: nat)
    requires a > 0 && start % a == 0
    ensures v % a <= v && RoundUp(start + v + n, a) == start + (v - v % a) + RoundUp(v % a + n, a)
  {
    var below := v - v % a;
    MulGrows(a, v / a);
    DivModUnique(below, a, v / a, 0);
    ModPlusMultiple(start, below, a);
    RoundUpShift(v % a + n, start + below, a);
  }

  /** The condition is exact, for every segment the search accepts. */
  lemma InGapIff(ps: seq<Phdr>, start: nat, i: nat, size: nat, page: nat)
    requires i < |ps| && FirstLoad(ps) < |ps| && ps[FirstLoad(ps)].vaddr <= ps[i].vaddr
    requires HasRoom(ps[i], size, page) && size > 0
    requires PowerOfTwo(page) && PowerOfTwo(ps[i].align) && start % page == 0
    ensures page > 0
    ensures InGap(ps, start, i, size, page) <==> GapCondition(ps, i, size, page)
  {
    var p, v := ps[i], ps[FirstLoad(ps)].vaddr;
    if i == FirstLoad(ps) {
      FirstRoomIsThere(p, size, page);
      FirstGapIff(start, p.vaddr, p.memsz, UsedSpace(p), size, page);
    } else if v < page {
      SmallRemainder(v, page);
      RoundUpFrom(start, p.vaddr, p.memsz, page);
    } else {
      PageBelow(v, page);
    }
  }

  lemma FirstGapIff(start: nat, v: nat, memsz: nat, used: nat, size: nat, page: nat)
    requires page > 0 && start % page == 0 && used + size <= RoundUp(v % page + memsz, page)
    ensures var x := v % page;
      start + x + memsz <= start + used && start + used + size <= RoundUp(start + x + memsz, page)
      <==> x + memsz <= used
  {
    RoundUpShift(v % page + memsz, start, page);
  }

  lemma PageBelow(v: nat, page: nat)
    requires 0 < page <= v
    ensures v - v % page >= page
  {
    if v / page == 0 { assert false; }
    Distribute(page, v / page - 1, 1);
    MulGrows(page, v / page - 1);
  }

  /** Room counted from the first byte is there when counted from its page. */
  lemma FirstRoomIsThere(p: Phdr, size: nat, page: nat)
    requires HasRoom(p, size, page) && size > 0 && PowerOfTwo(page) && PowerOfTwo(p.align)
    ensures UsedSpace(p) + size <= RoundUp(p.vaddr % page + p.memsz, page)
  {
    var a := MinAlign(p, page);
    RoomNeedsCoarseBoundary(p, size, page);
    RoundUpTwice(p.memsz, a);
    PowerOfTwoDivides(a, page);
    RoundUpMonotone(p.memsz, p.vaddr % page + p.memsz, a, page);
  }

  /** For segments on their boundary: the first one on a page, or a later one in a
      file whose addresses begin in page 0. A starter that is accepted then lies
      behind the segment's own bytes and before the end of its last boundary, and
      its address is a multiple of 16. */
  lemma GapIsSafe(ps: seq<Phdr>, start: nat, size: nat, page: nat)
    requires size > 0 && PowerOfTwo(page) && start % page == 0
    requires Chosen(ps, size, page) < |ps| && FirstLoad(ps) < |ps|
    requires var i, v := Chosen(ps, size, page), ps[FirstLoad(ps)].vaddr;
      && PowerOfTwo(ps[i].align) && ps[i].vaddr % MinAlign(ps[i], page) == 0
      && if i == FirstLoad(ps) then v % page == 0 else v < page
    ensures var i := Chosen(ps, size, page);
      var entry, actual, a := Entry(ps, start, i), Actual(ps, start, i, page), MinAlign(ps[i], page);
      && entry % 16 == 0
      && 0 <= actual && actual + ps[i].memsz <= entry
      && entry + size <= RoundUp(actual + ps[i].memsz, a)
  {
    var i, v := Chosen(ps, size, page), ps[FirstLoad(ps)].vaddr;
    var a := MinAlign(ps[i], page);
    EntryIsBehindSegmentIff(ps, start, i, page);
    RoomNeedsCoarseBoundary(ps[i], size, page);
    PowerOfTwoDivides(a, page);
    MultipleOfMultiple(start, page, a);
    if v < page { SmallRemainder(v, page); }
    var actual := Actual(ps, start, i, page);
    assert actual == start + if i == FirstLoad(ps) then 0 else ps[i].vaddr;
    assert actual % a == 0 by { ModPlusMultiple(start, ps[i].vaddr, a); }
    RoundUpTwice(ps[i].memsz, a);
    RoundUpShift(ps[i].memsz, actual, a);
    MultipleOfMultiple(actual, a, 16);
    ModPlusMultiple(actual, UsedSpace(ps[i]), 16);
  }

  /** All the room the search counts is there behind the printed address: always
      for the first PT_LOAD segment, and for a later one in a file that begins in
      page 0 exactly when it begins on its boundary or reaches over one boundary
      more than its size alone would. */
  lemma CountedRoomIsThereIff(ps: seq<Phdr>, start: nat, i: nat, page: nat)
    requires i < |ps| && FirstLoad(ps) < |ps| && page > 0
    requires i == FirstLoad(ps) || ps[FirstLoad(ps)].vaddr < page
    requires ps[FirstLoad(ps)].vaddr <= ps[i].vaddr
    requires var a := MinAlign(ps[i], page); a > 0 && a % 16 == 0 && start % a == 0
    ensures var p, a := ps[i], MinAlign(ps[i], page);
      var x := p.vaddr % a;
      Entry(ps, start, i) + UnusedSpace(p, page) <= RoundUp(SegmentEnd(ps, start, i, page), a)
      <==> i == FirstLoad(ps) || x == 0 || RoundUp(x + p.memsz, a) > RoundUp(p.memsz, a)
  {
    var p, a := ps[i], MinAlign(ps[i], page);
    RoundUpTwice(p.memsz, a);
    if i == FirstLoad(ps) {
      FirstRoom(start, p.vaddr % page, p.memsz, a);
    } else {
      SmallRemainder(ps[FirstLoad(ps)].vaddr, page);
      LaterRoomIff(start, p.vaddr, p.memsz, a);
    }
  }

  lemma FirstRoom(start: nat, x: nat, memsz: nat, a: nat)
    requires a > 0 && start % a == 0
    ensures start + RoundUp(memsz, a) <= RoundUp(start + x + memsz, a)
  {
    RoundUpShift(memsz, start, a);
    RoundUpMonotone(start + memsz, start + x + memsz, a, a);
  }

  lemma LaterRoomIff(start: nat, v: nat, memsz: nat, a: nat)
    requires a > 0 && start % a == 0
    ensures var x := v % a;
      start + v + RoundUp(memsz, a) <= RoundUp(start + v + memsz, a)
      <==> x == 0 || RoundUp(x + memsz, a) > RoundUp(memsz, a)
  {
    RoundUpFrom(start, v, memsz, a);
    var small, large := RoundUp(memsz, a), RoundUp(v % a + memsz, a);
    if small < large { MultiplesApart(small, large, a); }
  }

  lemma MultiplesApart(m: nat, n: nat, a: nat)
    requires a > 0 && m % a == 0 && n % a == 0 && m < n
    ensures m + a <= n
  {
    if n < m + a {
      ModPlusMultiple(n - m, m, a);
      SmallRemainder(n - m, a);
    }
  }

  lemma ExecutableFlag()
    ensures BitAnd(PF_R, PF_X) == 0 && BitAnd(PF_R + PF_X, PF_X) == 1
  {
    assert BitAnd(2, 0) == 0;
  }

  /** A text segment behind a read-only one, in an executable linked at a fixed
      address: the printed address is far outside every segment. */
  lemma SecondSegmentMisplaced()
    ensures var rodata := Phdr(PT_LOAD, PF_R, 0, 0x40_0000, 0x40_0000, 0x500, 0x500, 0x1000);
      var text := Phdr(PT_LOAD, PF_R + PF_X, 0x1000, 0x40_1000, 0x40_1000, 0x200, 0x200, 0x1000);
      var ps := [rodata, text];
      && Chosen(ps, 0x100, 0x1000) == 1
      && Entry(ps, 0x40_0000, 1) == 0x80_1200
      && Actual(ps, 0x40_0000, 1, 0x1000) + UsedSpace(text) == 0x40_1200
  {
    var rodata := Phdr(PT_LOAD, PF_R, 0, 0x40_0000, 0x40_0000, 0x500, 0x500, 0x1000);
    var text := Phdr(PT_LOAD, PF_R + PF_X, 0x1000, 0x40_1000, 0x40_1000, 0x200, 0x200, 0x1000);
    var ps := [rodata, text];
    assert ps[0] == rodata && ps[1] == text;
    assert FirstLoad(ps) == 0;
    ExecutableFlag();
    assert !EndsSearch(rodata, 0x100, 0x1000);
    assert HasRoom(text, 0x100, 0x1000);
  }

  /** A first segment that begins inside a page: the printed address lies in front
      of the segment's end, so the starter goes over live text. */
  lemma FirstSegmentOverwritten()
    ensures var text := Phdr(PT_LOAD, PF_R + PF_X, 0x40, 0x40_0040, 0x40_0040, 0x1f0, 0x1f0, 0x1000);
      && Chosen([text], 0x100, 0x1000) == 0
      && Entry([text], 0x40_0000, 0) == 0x40_01f0
      && Actual([text], 0x40_0000, 0, 0x1000) + text.memsz == 0x40_0230
      && !GapCondition([text], 0, 0x100, 0x1000)
  {
    var text := Phdr(PT_LOAD, PF_R + PF_X, 0x40, 0x40_0040, 0x40_0040, 0x1f0, 0x1f0, 0x1000);
    assert [text][0] == text;
    assert FirstLoad([text]) == 0;
    ExecutableFlag();
    assert HasRoom(text, 0x100, 0x1000);
  }

  // ------------------------------------------------- One file after another

  /** Lines of the maps file that name no file: no name, or one with a bracket. */
  predicate NamesFile(m: Mapping) {
    m.name != "" && ']' !in m.name
  }

  predicate HasName(ms: seq<Mapping>, name: string) {
    exists k :: 0 <= k < |ms| && ms[k].name == name
  }

  /** The first line of each file, in order. */
  function Listed(maps: seq<Mapping>): seq<Mapping> {
    if maps == [] then []
    else
      var before, last := Listed(maps[..|maps| - 1]), maps[|maps| - 1];
      if NamesFile(last) && !HasName(before, last.name) then before + [last] else before
  }

  method ListFiles(maps: seq<Mapping>) returns (files: seq<Mapping>)
    ensures files == Listed(maps)
  {
    files := [];
    var names: set<string> := {};
    for i := 0 to |maps|
      invariant files == Listed(maps[..i])
      invariant forall n :: n in names <==> HasName(files, n)
    {
      assert maps[..i + 1][..i] == maps[..i];
      var m := maps[i];
      if m.name == "" {
        continue;
      }
      if ']' in m.name {
        continue;
      }
      if m.name in names {
        continue;
      }
      names := names + {m.name};
      NameAdded(files, m);
      files := files + [m];
    }
    assert maps[..|maps|] == maps;
  }

  lemma NameAdded(ms: seq<Mapping>, m: Mapping)
    ensures forall n :: HasName(ms + [m], n) <==> HasName(ms, n) || n == m.name
  {
    forall n ensures HasName(ms + [m], n) <==> HasName(ms, n) || n == m.name {
      if HasName(ms, n) {
        var k :| 0 <= k < |ms| && ms[k].name == n;
        assert (ms + [m])[k].name == n;
      }
      assert (ms + [m])[|ms|] == m;
    }
  }

  /** Exactly the named files are listed. */
  lemma {:induction false} ListedName(maps: seq<Mapping>, name: string)
    ensures HasName(Listed(maps), name) <==>
            exists k :: 0 <= k < |maps| && maps[k].name == name && name != "" && ']' !in name
  {
    if maps != [] {
      var n := |maps| - 1;
      var init, last := maps[..n], maps[n];
      ListedName(init, name);
      NameAdded(Listed(init), last);
      if k :| 0 <= k < n && init[k].name == name && name != "" && ']' !in name {
        assert maps[k] == init[k];
      }
    }
  }

  /** Line `k` is the first one of its file. */
  predicate FirstLine(maps: seq<Mapping>, k: nat) {
    k < |maps| && NamesFile(maps[k]) && !HasName(maps[..k], maps[k].name)
  }

  /** Each entry of the list is the first line of its file, so every file is
      listed once. */
  lemma {:induction false} ListedFirst(maps: seq<Mapping>, t: nat) returns (k: nat)
    requires t < |Listed(maps)|
    ensures FirstLine(maps, k) && Listed(maps)[t] == maps[k]
  {
    var n := |maps| - 1;
    var init, last := maps[..n], maps[n];
    if t < |Listed(init)| {
      k := ListedFirst(init, t);
      assert init[..k] == maps[..k];
    } else {
      k := n;
      ListedName(init, last.name);
      assert forall l :: 0 <= l < n && init[l].name == last.name ==> NamesFile(init[l]);
    }
  }

  /** A place that was found: headers of the file, where its first mapping
      begins, and the segment. */
  datatype Gap = Gap(phdrs: seq<Phdr>, start: nat, segment: nat)
  {
    function Address(): nat
      requires segment < |phdrs|
    {
      Entry(phdrs, start, segment)
    }
  }

  /** The first place in the files, tried in order. `disk` is what the files
      hold. */
  function PlaceIn(files: seq<Mapping>, disk: map<string, seq<byte>>, size: nat, page: nat): (r: Outcome<Gap>)
    ensures r.Done? ==> r.value.segment < |r.value.phdrs|
  {
    if files == [] then Exit(NoRoom)
    else if files[0].name !in disk then Exit(NoFile)
    else
      match ReadElf(disk[files[0].name], false)
      case Exit(e) => Exit(e)
      case Done(elf) =>
        var i := Chosen(elf.phdrs, size, page);
        if i == |elf.phdrs| then PlaceIn(files[1..], disk, size, page)
        else if MinAlign(elf.phdrs[i], page) == 0 then Exit(DivisionByZero)
        else Done(Gap(elf.phdrs, files[0].start, i))
  }

  function EntryOf(place: Outcome<Gap>): Outcome<nat>
    requires place.Done? ==> place.value.segment < |place.value.phdrs|
  {
    match place
    case Exit(e) => Exit(e)
    case Done(g) => Done(g.Address())
  }

  method FindEntry(maps: seq<Mapping>, disk: map<string, seq<byte>>, size: nat, page: nat) returns (r: Outcome<nat>)
    ensures r == EntryOf(PlaceIn(Listed(maps), disk, size, page))
  {
    var files := ListFiles(maps);
    var i := 0;
    while i < |files|
      invariant 0 <= i <= |files|
      invariant PlaceIn(files[i..], disk, size, page) == PlaceIn(files, disk, size, page)
    {
      assert files[i..][0] == files[i] && files[i..][1..] == files[i + 1..];
      if files[i].name !in disk {
        return Exit(NoFile);
      }
      var elf := ReadElf(disk[files[i].name], false);
      if elf.Exit? {
        return Exit(elf.error);
      }
      var entry := FindPlace(elf.value.phdrs, files[i].start, size, page);
      if entry.Exit? {
        return Exit(entry.error);
      }
      if entry.value.Some? {
        return Done(entry.value.value);
      }
      i := i + 1;
    }
    return Exit(NoRoom);
  }

  predicate FileHasRoom(disk: map<string, seq<byte>>, name: string, size: nat, page: nat) {
    && name in disk && ReadElf(disk[name], false).Done?
    && var ps := ReadElf(disk[name], false).value.phdrs; exists i :: 0 <= i < |ps| && HasRoom(ps[i], size, page)
  }

  /** The place is in a file with this name and start, in the first of its
      segments that has room. */
  predicate PlaceOf(g: Gap, m: Mapping, disk: map<string, seq<byte>>, size: nat, page: nat) {
    && g.start == m.start && m.name in disk && ReadElf(disk[m.name], false).Done?
    && g.phdrs == ReadElf(disk[m.name], false).value.phdrs
    && g.segment == Chosen(g.phdrs, size, page) < |g.phdrs|
    && HasRoom(g.phdrs[g.segment], size, page) && FirstLoad(g.phdrs) < |g.phdrs|
  }

  lemma PlaceStep(files: seq<Mapping>, disk: map<string, seq<byte>>, size: nat, page: nat, g: Gap)
    requires PlaceIn(files, disk, size, page) == Done(g)
    ensures files != []
    ensures PlaceOf(g, files[0], disk, size, page)
            || (PlaceIn(files[1..], disk, size, page) == Done(g) && !FileHasRoom(disk, files[0].name, size, page))
  {
    var ps := ReadElf(disk[files[0].name], false).value.phdrs;
    var i := Chosen(ps, size, page);
    if i < |ps| {
      assert g == Gap(ps, files[0].start, i) && ps[i].ptype == PT_LOAD;
    } else {
      assert forall k :: 0 <= k < |ps| && HasRoom(ps[k], size, page) ==> EndsSearch(ps[k], size, page);
    }
  }

  /** A place that is found is in one of the files, and no earlier one has room. */
  lemma {:induction false} PlaceFound(files: seq<Mapping>, disk: map<string, seq<byte>>, size: nat, page: nat, g: Gap)
    returns (t: nat)
    requires PlaceIn(files, disk, size, page) == Done(g)
    ensures t < |files| && PlaceOf(g, files[t], disk, size, page)
    ensures forall k :: 0 <= k < t ==> !FileHasRoom(disk, files[k].name, size, page)
  {
    var rest := files[1..];
    PlaceStep(files, disk, size, page, g);
    if PlaceOf(g, files[0], disk, size, page) {
      t := 0;
    } else {
      var u := PlaceFound(rest, disk, size, page, g);
      t := u + 1;
      forall k | 0 <= k < t ensures !FileHasRoom(disk, files[k].name, size, page) {
        if k > 0 { assert files[k] == rest[k - 1]; }
      }
    }
  }

  // ------------------------------------------- What the snapshot asks for

  /** Kept mapping `j` reaches from the end of the segment to the end of its last
      page, and the segment is one whose gap is where the search thinks it is. */
  ghost predicate GapKept(g: Gap, size: nat, page: nat, hs: seq<Phdr>, j: nat) {
    && g.segment < |g.phdrs| && FirstLoad(g.phdrs) < |g.phdrs| && PowerOfTwo(page)
    && g.start % page == 0 && PowerOfTwo(g.phdrs[g.segment].align)
    && g.phdrs[FirstLoad(g.phdrs)].vaddr <= g.phdrs[g.segment].vaddr
    && GapCondition(g.phdrs, g.segment, size, page)
    && j < |hs|
    && var end := SegmentEnd(g.phdrs, g.start, g.segment, page);
       hs[j].vaddr <= end && RoundUp(end, page) <= hs[j].vaddr + hs[j].filesz
  }

  /** The gap that is found then satisfies what the snapshot theorem asks of the
      starter. */
  lemma GapIsConfined(files: seq<Mapping>, disk: map<string, seq<byte>>, size: nat, page: nat, hs: seq<Phdr>, j: nat)
    requires size > 0 && PlaceIn(files, disk, size, page).Done?
    requires GapKept(PlaceIn(files, disk, size, page).value, size, page, hs, j)
    ensures Confined(hs, PlaceIn(files, disk, size, page).value.Address(), size, j, j)
  {
    var g := PlaceIn(files, disk, size, page).value;
    var t := PlaceFound(files, disk, size, page, g);
    InGapIff(g.phdrs, g.start, g.segment, size, page);
  }

  // ----------------------------------------- The search, without its own terms

  /** A segment has room if it is PT_LOAD and executable, all of it is in the file, and
      the starter fits between its end, rounded up to 16, and the next boundary. */
  lemma HasRoomIff(p: Phdr, size: nat, page: nat, a: nat)
    requires a == if p.align < page then p.align else page
    ensures HasRoom(p, size, page) <==>
            && p.ptype == 1 && p.flags % 2 == 1 && p.filesz == p.memsz
            && a > 0 && RoundUp(p.memsz, 16) + size <= RoundUp(RoundUp(p.memsz, 16), a)
  {
    LowBits(p.flags);
  }

  /** Segment `i` is the first one with room, and none before it is executable, all in
      the file and without alignment: then its end is what is printed. */
  lemma PlaceIs(ps: seq<Phdr>, start: nat, size: nat, page: nat, i: nat, f: nat)
    requires i < |ps| && f <= i && ps[f].ptype == 1 && forall k :: 0 <= k < f ==> ps[k].ptype != 1
    requires forall k :: 0 <= k <= i && ps[k].ptype == 1 ==> ps[k].align > 0
    requires page > 0 && HasRoom(ps[i], size, page) && forall k :: 0 <= k < i ==> !HasRoom(ps[k], size, page)
    ensures Chosen(ps, size, page) == i && MinAlign(ps[i], page) > 0
    ensures Entry(ps, start, i) == start + (if i == f then 0 else ps[i].vaddr) + RoundUp(ps[i].memsz, 16)
  {
    assert FirstLoad(ps) == f;
    assert forall k :: 0 <= k < i ==> !EndsSearch(ps[k], size, page);
  }

  /** A file without room is passed over. */
  lemma NoPlace(ps: seq<Phdr>, size: nat, page: nat)
    requires page > 0 && forall k :: 0 <= k < |ps| && ps[k].ptype == 1 ==> ps[k].align > 0
    requires forall k :: 0 <= k < |ps| ==> !HasRoom(ps[k], size, page)
    ensures Chosen(ps, size, page) == |ps|
  {
    assert forall k :: 0 <= k < |ps| ==> !EndsSearch(ps[k], size, page);
  }

  /** The file can be read and has alignments in its PT_LOAD headers. */
  predicate Searchable(disk: map<string, seq<byte>>, name: string) {
    && name in disk && ReadElf(disk[name], false).Done?
    && var ps := ReadElf(disk[name], false).value.phdrs;
       forall k :: 0 <= k < |ps| && ps[k].ptype == 1 ==> ps[k].align > 0
  }

  lemma {:induction false} FilesSkipped(files: seq<Mapping>, disk: map<string, seq<byte>>, size: nat, page: nat, t: nat)
    requires t <= |files| && page > 0
    requires forall k :: 0 <= k < t ==>
               Searchable(disk, files[k].name) && !FileHasRoom(disk, files[k].name, size, page)
    ensures PlaceIn(files, disk, size, page) == PlaceIn(files[t..], disk, size, page)
    decreases t
  {
    if t > 0 {
      NoPlace(ReadElf(disk[files[0].name], false).value.phdrs, size, page);
      assert files[t..] == files[1..][t - 1..];
      assert forall k :: 0 <= k < t - 1 ==> files[1..][k] == files[k + 1];
      FilesSkipped(files[1..], disk, size, page, t - 1);
    } else {
      assert files[0..] == files;
    }
  }

  /** The first line of a file is in the list, behind first lines of other files that
      come before it. */
  lemma {:induction false} ListedThere(maps: seq<Mapping>, l: nat) returns (t: nat)
    requires FirstLine(maps, l)
    ensures t < |Listed(maps)| && Listed(maps)[t] == maps[l]
    ensures forall k :: 0 <= k < t ==> Listed(maps)[k] in maps[..l] && NamesFile(Listed(maps)[k])
  {
    var n := |maps| - 1;
    var init := maps[..n];
    if l < n {
      assert init[..l] == maps[..l];
      t := ListedThere(init, l);
    } else {
      ListedName(init, maps[l].name);
      t := |Listed(init)|;
      forall k | 0 <= k < t ensures Listed(maps)[k] in maps[..l] && NamesFile(Listed(maps)[k]) {
        var m := ListedFirst(init, k);
        assert init[m] in maps[..l];
      }
    }
  }

  /** From the maps file to the printed address: line `l` is the first one of a file,
      segment `i` the first one with room in it, and no file of an earlier line has
      room. */
  lemma EntryFound(maps: seq<Mapping>, disk: map<string, seq<byte>>, size: nat, page: nat, l: nat, i: nat, f: nat,
                   ps: seq<Phdr>)
    requires page > 0 && l < |maps| && maps[l].name != "" && ']' !in maps[l].name
    requires forall k :: 0 <= k < l ==> maps[k].name != maps[l].name
    requires forall k :: 0 <= k < l && maps[k].name != "" && ']' !in maps[k].name ==>
               Searchable(disk, maps[k].name) && !FileHasRoom(disk, maps[k].name, size, page)
    requires Searchable(disk, maps[l].name) && ps == ReadElf(disk[maps[l].name], false).value.phdrs
    requires i < |ps| && f <= i && ps[f].ptype == 1 && forall k :: 0 <= k < f ==> ps[k].ptype != 1
    requires HasRoom(ps[i], size, page) && forall k :: 0 <= k < i ==> !HasRoom(ps[k], size, page)
    ensures EntryOf(PlaceIn(Listed(maps), disk, size, page))
            == Done(maps[l].start + (if i == f then 0 else ps[i].vaddr) + RoundUp(ps[i].memsz, 16))
  {
    var files := Listed(maps);
    var t := ListedThere(maps, l);
    forall k | 0 <= k < t
      ensures Searchable(disk, files[k].name) && !FileHasRoom(disk, files[k].name, size, page)
    {
      var m :| 0 <= m < l && maps[m] == files[k];
    }
    FilesSkipped(files, disk, size, page, t);
    assert files[t..][0] == maps[l];
    PlaceIs(ps, maps[l].start, size, page, i, f);
    FirstFilePlace(files[t..], disk, size, page, ps, i);
  }

  lemma FirstFilePlace(files: seq<Mapping>, disk: map<string, seq<byte>>, size: nat, page: nat, ps: seq<Phdr>, i: nat)
    requires files != [] && files[0].name in disk && ReadElf(disk[files[0].name], false).Done?
    requires ps == ReadElf(disk[files[0].name], false).value.phdrs
    requires Chosen(ps, size, page) == i < |ps| && MinAlign(ps[i], page) > 0
    ensures EntryOf(PlaceIn(files, disk, size, page)) == Done(Entry(ps, files[0].start, i))
  {
  }

  /** A file that cannot be opened or read ends the search, as does a segment that asks
      for room without an alignment. */
  lemma SearchFails(maps: seq<Mapping>, disk: map<string, seq<byte>>, size: nat, page: nat, l: nat)
    requires page > 0 && l < |maps| && maps[l].name != "" && ']' !in maps[l].name
    requires forall k :: 0 <= k < l ==> maps[k].name != maps[l].name
    requires forall k :: 0 <= k < l && maps[k].name != "" && ']' !in maps[k].name ==>
               Searchable(disk, maps[k].name) && !FileHasRoom(disk, maps[k].name, size, page)
    ensures maps[l].name !in disk ==> EntryOf(PlaceIn(Listed(maps), disk, size, page)) == Exit(NoFile)
    ensures maps[l].name in disk && ReadElf(disk[maps[l].name], false).Exit? ==>
              EntryOf(PlaceIn(Listed(maps), disk, size, page)).Exit?
    ensures maps[l].name in disk && ReadElf(disk[maps[l].name], false).Done? ==>
              var ps := ReadElf(disk[maps[l].name], false).value.phdrs;
              forall i :: 0 <= i < |ps| && ps[i].ptype == 1 && ps[i].flags % 2 == 1 && ps[i].filesz == ps[i].memsz
                          && ps[i].align == 0 && (forall k :: 0 <= k < i ==> !HasRoom(ps[k], size, page)) ==>
                EntryOf(PlaceIn(Listed(maps), disk, size, page)) == Exit(DivisionByZero)
  {
    var files := Listed(maps);
    var t := ListedThere(maps, l);
    forall k | 0 <= k < t
      ensures Searchable(disk, files[k].name) && !FileHasRoom(disk, files[k].name, size, page)
    {
      var m :| 0 <= m < l && maps[m] == files[k];
    }
    FilesSkipped(files, disk, size, page, t);
    assert files[t..][0] == maps[l];
    if maps[l].name in disk && ReadElf(disk[maps[l].name], false).Done? {
      var ps := ReadElf(disk[maps[l].name], false).value.phdrs;
      forall i | 0 <= i < |ps| && ps[i].ptype == 1 && ps[i].flags % 2 == 1 && ps[i].filesz == ps[i].memsz
                 && ps[i].align == 0 && (forall k :: 0 <= k < i ==> !HasRoom(ps[k], size, page))
        ensures EntryOf(PlaceIn(files, disk, size, page)) == Exit(DivisionByZero)
      {
        UnalignedEnds(ps, size, page, i);
      }
    }
  }

  lemma UnalignedEnds(ps: seq<Phdr>, size: nat, page: nat, i: nat)
    requires page > 0 && i < |ps| && ps[i].ptype == 1 && ps[i].flags % 2 == 1 && ps[i].filesz == ps[i].memsz
    requires ps[i].align == 0 && forall k :: 0 <= k < i ==> !HasRoom(ps[k], size, page)
    ensures Chosen(ps, size, page) <= i && MinAlign(ps[Chosen(ps, size, page)], page) == 0
  {
    LowBits(ps[i].flags);
    assert EndsSearch(ps[i], size, page);
  }

  /** No file with room, and every file searchable: that is what is reported. */
  lemma NoneFound(maps: seq<Mapping>, disk: map<string, seq<byte>>, size: nat, page: nat)
    requires page > 0
    requires forall k :: 0 <= k < |maps| && maps[k].name != "" && ']' !in maps[k].name ==>
               Searchable(disk, maps[k].name) && !FileHasRoom(disk, maps[k].name, size, page)
    ensures EntryOf(PlaceIn(Listed(maps), disk, size, page)) == Exit(NoRoom)
  {
    var files := Listed(maps);
    forall k | 0 <= k < |files|
      ensures Searchable(disk, files[k].name) && !FileHasRoom(disk, files[k].name, size, page)
    {
      var m := ListedFirst(maps, k);
      assert maps[m].name != "" && ']' !in maps[m].name;
    }
    FilesSkipped(files, disk, size, page, |files|);
  }
}
