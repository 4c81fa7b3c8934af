/** Moving file offsets of the original executable to the output file
    (src/non_pt_load.c:288-440): which snapshot segment continues which PT_LOAD
    segment, and the new offsets of sections and of the other segments. */
module Relocation {
  import opened Arith
  import opened Elf
  import opened Layout

  /** The least index whose element satisfies `p`, or the length. */
  function FirstIndex<T>(s: seq<T>, p: T -> bool): (i: nat)
    ensures i <= |s|
    ensures i < |s| ==> p(s[i])
    ensures forall k :: 0 <= k < i ==> !p(s[k])
  {
    if s == [] then 0 else if p(s[0]) then 0 else 1 + FirstIndex(s[1..], p)
  }

  /** Alignments are words. */
  predicate Alignable(ps: seq<Phdr>, page: nat) {
    0 < page < TWO64 && forall i :: 0 <= i < |ps| ==> ps[i].align < TWO64
  }

  // ------------------------------------- Segments of the executable in memory

  function MinAlign(pe: Phdr, page: nat): nat {
    Min(pe.align, page)
  }

  /** The first snapshot segment that starts where the kernel starts mapping
      `pe`, or -1. */
  function FindLoad(pe: Phdr, pls: seq<Phdr>, page: nat): (j: int)
    requires MinAlign(pe, page) < TWO64
    ensures -1 <= j < |pls|
    ensures j >= 0 ==> pls[j].vaddr == MaskLow(pe.vaddr, MinAlign(pe, page))
    ensures forall k :: 0 <= k < (if j >= 0 then j else |pls|) ==>
              pls[k].vaddr != MaskLow(pe.vaddr, MinAlign(pe, page))
  {
    var start := MaskLow(pe.vaddr, MinAlign(pe, page));
    var j := FirstIndex(pls, (pl: Phdr) => pl.vaddr == start);
    if j == |pls| then -1 else j
  }

  /** `map_pt_load`; entries of other segments stay uninitialised. */
  method MapLoads(phdrs: array<Phdr>, pls: array<Phdr>, page: nat) returns (loadMap: array<int>)
    requires Alignable(phdrs[..], page)
    ensures fresh(loadMap) && loadMap.Length == phdrs.Length
    ensures forall i :: 0 <= i < phdrs.Length && phdrs[i].ptype == PT_LOAD ==>
              loadMap[i] == FindLoad(phdrs[i], pls[..], page)
  {
    loadMap := new int[phdrs.Length];
    for i := 0 to phdrs.Length
      invariant forall k :: 0 <= k < i && phdrs[k].ptype == PT_LOAD ==>
                  loadMap[k] == FindLoad(phdrs[k], pls[..], page)
    {
      if phdrs[i].ptype != PT_LOAD {
        continue;
      }
      assert phdrs[i] == phdrs[..][i];
      var j := 0;
      while j < pls.Length
        invariant 0 <= j <= pls.Length
        invariant forall k :: 0 <= k < j ==> pls[k].vaddr != MaskLow(phdrs[i].vaddr, MinAlign(phdrs[i], page))
      {
        var minAlign := if phdrs[i].align < page then phdrs[i].align else page;
        if MaskLow(phdrs[i].vaddr, minAlign) == pls[j].vaddr {
          loadMap[i] := j;
          break;
        }
        j := j + 1;
      }
      if j == pls.Length {
        loadMap[i] := -1;
      }
    }
  }

  /** The new offset for old offset `off` in segment `pe` continued by `pl`. A
      remainder by 0, which ends the program, counts as 0 here. */
  function Translate(pe: Phdr, pl: Phdr, off: nat, page: nat): nat
    requires pe.offset <= off
  {
    var a := MinAlign(pe, page);
    pl.offset + off - pe.offset + if a == 0 then 0 else pe.vaddr % a
  }

  /** The address at which old offset `off` of segment `pe` was loaded. */
  function AddressOf(pe: Phdr, off: nat): nat
    requires pe.offset <= off
  {
    pe.vaddr + (off - pe.offset)
  }

  /** A translated offset is as far into the snapshot segment as the address of
      the old offset is. */
  lemma TranslateKeepsAddress(pe: Phdr, pls: seq<Phdr>, off: nat, page: nat)
    requires PowerOfTwo(pe.align) && PowerOfTwo(page) && pe.vaddr < TWO64
    requires pe.offset <= off
    ensures 0 < MinAlign(pe, page) < TWO64
    ensures var t := FindLoad(pe, pls, page);
      t >= 0 ==> Translate(pe, pls[t], off, page) - pls[t].offset + pls[t].vaddr == AddressOf(pe, off)
  {
    MaskIsRoundDown(pe.vaddr, MinAlign(pe, page));
  }

  // -------------------------------------------------------------- Sections

  /** The inner loop over the segments from `j` on; a later segment overrides an
      earlier one, an unmapped one ends the loop. */
  function SectionOffset(off: nat, cur: nat, phdrs: seq<Phdr>, pls: seq<Phdr>, page: nat, j: nat): nat
    requires j <= |phdrs| && Alignable(phdrs, page)
    decreases |phdrs| - j
  {
    if j == |phdrs| then cur
    else if phdrs[j].ptype == PT_LOAD && phdrs[j].HoldsOffset(off) then
      var t := FindLoad(phdrs[j], pls, page);
      if t == -1 then cur
      else SectionOffset(off, Translate(phdrs[j], pls[t], off, page), phdrs, pls, page, j + 1)
    else SectionOffset(off, cur, phdrs, pls, page, j + 1)
  }

  /** The section headers `placed` after the loop over allocated sections. */
  function RelocateHeaders(placed: seq<Shdr>, hs: seq<Shdr>, phdrs: seq<Phdr>, pls: seq<Phdr>, page: nat)
    : (r: seq<Shdr>)
    requires |placed| == |hs| && Alignable(phdrs, page)
    ensures |r| == |hs|
  {
    seq(|hs|, i requires 0 <= i < |hs| =>
      if placed[i].Allocated()
      then placed[i].(offset := SectionOffset(hs[i].offset, placed[i].offset, phdrs, pls, page, 0))
      else placed[i])
  }

  /** That loop does not divide by 0. */
  predicate SectionDivides(off: nat, phdrs: seq<Phdr>, pls: seq<Phdr>, page: nat, j: nat)
    requires j <= |phdrs| && Alignable(phdrs, page)
    decreases |phdrs| - j
  {
    if j == |phdrs| then true
    else if phdrs[j].ptype == PT_LOAD && phdrs[j].HoldsOffset(off) then
      FindLoad(phdrs[j], pls, page) == -1
      || (MinAlign(phdrs[j], page) > 0 && SectionDivides(off, phdrs, pls, page, j + 1))
    else SectionDivides(off, phdrs, pls, page, j + 1)
  }

  predicate SectionsDivide(hs: seq<Shdr>, phdrs: seq<Phdr>, pls: seq<Phdr>, page: nat)
    requires Alignable(phdrs, page)
  {
    forall i :: 0 <= i < |hs| && hs[i].Allocated() ==> SectionDivides(hs[i].offset, phdrs, pls, page, 0)
  }

  /** The loop for one section; not `ok` stands for a division by 0. */
  method NewOffset(off: nat, cur: nat, phdrs: array<Phdr>, pls: array<Phdr>, loadMap: array<int>, page: nat)
    returns (ok: bool, new_: nat)
    requires loadMap.Length == phdrs.Length && Alignable(phdrs[..], page)
    requires forall i :: 0 <= i < phdrs.Length && phdrs[i].ptype == PT_LOAD ==>
               loadMap[i] == FindLoad(phdrs[i], pls[..], page)
    ensures ok <==> SectionDivides(off, phdrs[..], pls[..], page, 0)
    ensures ok ==> new_ == SectionOffset(off, cur, phdrs[..], pls[..], page, 0)
  {
    ghost var ps, ls := phdrs[..], pls[..];
    new_ := cur;
    var j := 0;
    while j < phdrs.Length
      invariant 0 <= j <= phdrs.Length
      invariant SectionDivides(off, ps, ls, page, j) <==> SectionDivides(off, ps, ls, page, 0)
      invariant SectionOffset(off, new_, ps, ls, page, j) == SectionOffset(off, cur, ps, ls, page, 0)
    {
      var pe := phdrs[j];
      assert pe == ps[j];
      if pe.ptype == PT_LOAD && pe.offset <= off && off < pe.offset + pe.filesz {
        if loadMap[j] == -1 {
          return true, new_;
        }
        var minAlign := if pe.align < page then pe.align else page;
        if minAlign == 0 {
          return false, new_;
        }
        new_ := pls[loadMap[j]].offset + off - pe.offset + pe.vaddr % minAlign;
      }
      j := j + 1;
    }
    ok := true;
  }

  method RelocateSections(so: array<Shdr>, se: array<Shdr>, phdrs: array<Phdr>, pls: array<Phdr>,
                          loadMap: array<int>, page: nat) returns (ok: bool)
    requires so != se && so.Length == se.Length && loadMap.Length == phdrs.Length
    requires forall i :: 0 <= i < so.Length ==> (so[i].Allocated() <==> se[i].Allocated())
    requires Alignable(phdrs[..], page)
    requires forall i :: 0 <= i < phdrs.Length && phdrs[i].ptype == PT_LOAD ==>
               loadMap[i] == FindLoad(phdrs[i], pls[..], page)
    modifies so
    ensures ok <==> SectionsDivide(se[..], phdrs[..], pls[..], page)
    ensures ok ==> so[..] == RelocateHeaders(old(so[..]), se[..], phdrs[..], pls[..], page)
  {
    ghost var was, hs, ps, ls := so[..], se[..], phdrs[..], pls[..];
    ghost var goal := RelocateHeaders(was, hs, ps, ls, page);
    for i := 0 to so.Length
      invariant forall k :: 0 <= k < i ==> so[k] == goal[k]
      invariant forall k :: 0 <= k < i && hs[k].Allocated() ==> SectionDivides(hs[k].offset, ps, ls, page, 0)
      invariant forall k :: i <= k < so.Length ==> so[k] == was[k]
    {
      assert hs[i] == se[i] && (was[i].Allocated() <==> hs[i].Allocated());
      if !so[i].Allocated() {
        continue;
      }
      var divides, offset := NewOffset(se[i].offset, so[i].offset, phdrs, pls, loadMap, page);
      if !divides {
        return false;
      }
      so[i] := so[i].(offset := offset);
    }
    ok := true;
  }

  /** At most one PT_LOAD segment maps any part of the file. */
  predicate DisjointInFile(ps: seq<Phdr>) {
    forall i, j :: 0 <= i < |ps| && 0 <= j < |ps| && i != j && ps[i].ptype == PT_LOAD && ps[j].ptype == PT_LOAD ==>
      ps[i].offset + ps[i].filesz <= ps[j].offset || ps[j].offset + ps[j].filesz <= ps[i].offset
  }

  lemma {:induction false} OffsetBehindOwner(off: nat, cur: nat, phdrs: seq<Phdr>, pls: seq<Phdr>, page: nat, j: nat)
    requires j <= |phdrs| && Alignable(phdrs, page)
    requires forall k :: j <= k < |phdrs| ==> !(phdrs[k].ptype == PT_LOAD && phdrs[k].HoldsOffset(off))
    ensures SectionOffset(off, cur, phdrs, pls, page, j) == cur
    decreases |phdrs| - j
  {
    if j < |phdrs| { OffsetBehindOwner(off, cur, phdrs, pls, page, j + 1); }
  }

  lemma {:induction false} OffsetByOwner(off: nat, cur: nat, phdrs: seq<Phdr>, pls: seq<Phdr>, page: nat, j: nat,
                                         pe: nat)
    requires j <= pe < |phdrs| && Alignable(phdrs, page)
    requires phdrs[pe].ptype == PT_LOAD && phdrs[pe].HoldsOffset(off)
    requires forall k :: j <= k < |phdrs| && k != pe ==> !(phdrs[k].ptype == PT_LOAD && phdrs[k].HoldsOffset(off))
    ensures var t := FindLoad(phdrs[pe], pls, page);
      SectionOffset(off, cur, phdrs, pls, page, j) == if t == -1 then cur else Translate(phdrs[pe], pls[t], off, page)
    decreases |phdrs| - j
  {
    if j < pe {
      OffsetByOwner(off, cur, phdrs, pls, page, j + 1, pe);
    } else {
      var t := FindLoad(phdrs[pe], pls, page);
      if t != -1 {
        OffsetBehindOwner(off, Translate(phdrs[pe], pls[t], off, page), phdrs, pls, page, j + 1);
      }
    }
  }

  /** An allocated section inside a segment that the snapshot continues keeps its
      virtual address; inside any other segment, or none, it keeps its offset. */
  lemma SectionKeepsAddress(off: nat, phdrs: seq<Phdr>, pls: seq<Phdr>, page: nat, pe: nat)
    requires Alignable(phdrs, page) && DisjointInFile(phdrs) && PowerOfTwo(page)
    requires pe < |phdrs| && phdrs[pe].ptype == PT_LOAD && phdrs[pe].HoldsOffset(off)
    requires PowerOfTwo(phdrs[pe].align) && phdrs[pe].vaddr < TWO64
    ensures var t := FindLoad(phdrs[pe], pls, page);
      var new_ := SectionOffset(off, off, phdrs, pls, page, 0);
      if t == -1 then new_ == off
      else new_ - pls[t].offset + pls[t].vaddr == off - phdrs[pe].offset + phdrs[pe].vaddr
  {
    OffsetByOwner(off, off, phdrs, pls, page, 0, pe);
    TranslateKeepsAddress(phdrs[pe], pls, off, page);
  }

  /** If the loader split the segment into mappings that touch, the offset
      computed from the first piece `t` is right in every later piece `u`. */
  lemma SectionSurvivesSplit(off: nat, phdrs: seq<Phdr>, pls: seq<Phdr>, base: nat, page: nat, pe: nat, u: nat)
    requires Alignable(phdrs, page) && DisjointInFile(phdrs) && PowerOfTwo(page)
    requires pe < |phdrs| && phdrs[pe].ptype == PT_LOAD && phdrs[pe].HoldsOffset(off)
    requires PowerOfTwo(phdrs[pe].align) && phdrs[pe].vaddr < TWO64
    requires var t := FindLoad(phdrs[pe], AssignOffsets(pls, base), page); t >= 0 && AdjacentRun(pls, t, u)
    ensures var placed := AssignOffsets(pls, base);
      SectionOffset(off, off, phdrs, placed, page, 0) ==
      placed[u].offset + (AddressOf(phdrs[pe], off) - pls[u].vaddr)
  {
    var placed := AssignOffsets(pls, base);
    SectionKeepsAddress(off, phdrs, placed, page, pe);
    RunShift(pls, base, FindLoad(phdrs[pe], placed, page), u);
  }

  // ---------------------------------------------------------- Other segments

  /** Segments whose offset the pass may change. */
  predicate Movable(p: Phdr) {
    p.filesz != 0 && p.ptype != PT_LOAD && p.ptype != PT_INTERP && p.ptype != PT_PHDR
  }

  /** The first PT_LOAD segment that maps file offset `off`, or the length. */
  function Container(ps: seq<Phdr>, off: nat): (j: nat)
    ensures j <= |ps|
    ensures j < |ps| ==> ps[j].ptype == PT_LOAD && ps[j].HoldsOffset(off)
    ensures forall k :: 0 <= k < j ==> !(ps[k].ptype == PT_LOAD && ps[k].HoldsOffset(off))
  {
    FirstIndex(ps, (p: Phdr) => p.ptype == PT_LOAD && p.HoldsOffset(off))
  }

  /** The segment at which the pass stops for good: the first movable one inside
      a PT_LOAD segment. */
  function StopIndex(ps: seq<Phdr>): (i: nat)
    ensures i <= |ps|
    ensures i < |ps| ==> Movable(ps[i]) && Container(ps, ps[i].offset) < |ps|
    ensures forall k :: 0 <= k < i ==> !(Movable(ps[k]) && Container(ps, ps[k].offset) < |ps|)
  {
    FirstIndex(ps, (p: Phdr) => Movable(p) && Container(ps, p.offset) < |ps|)
  }

  function SectionAt(hs: seq<Shdr>, off: nat): (j: nat)
    ensures j <= |hs|
    ensures j < |hs| ==> hs[j].offset == off
    ensures forall k :: 0 <= k < j ==> hs[k].offset != off
  {
    FirstIndex(hs, (h: Shdr) => h.offset == off)
  }

  /** Header `i` after the pass. */
  function RelocatedPhdr(ps: seq<Phdr>, pls: seq<Phdr>, page: nat, hs: seq<Shdr>, hsOut: seq<Shdr>, i: nat): Phdr
    requires i < |ps| && Alignable(ps, page) && |hs| == |hsOut|
  {
    var p := ps[i];
    if !Movable(p) || StopIndex(ps) < i then p
    else if StopIndex(ps) == i then
      var j := Container(ps, p.offset);
      var t := FindLoad(ps[j], pls, page);
      if t == -1 then p else p.(offset := Translate(ps[j], pls[t], p.offset, page))
    else
      var s := SectionAt(hs, p.offset);
      if s == |hs| then p else p.(offset := hsOut[s].offset)
  }

  function RelocatePhdrs(ps: seq<Phdr>, pls: seq<Phdr>, page: nat, hs: seq<Shdr>, hsOut: seq<Shdr>): (r: seq<Phdr>)
    requires Alignable(ps, page) && |hs| == |hsOut|
    ensures |r| == |ps|
  {
    seq(|ps|, i requires 0 <= i < |ps| => RelocatedPhdr(ps, pls, page, hs, hsOut, i))
  }

  /** The scan for the PT_LOAD segment around one offset. The table is being
      rewritten in place, but never in its PT_LOAD entries. */
  method FindContainer(phdrs: array<Phdr>, off: nat, ghost was: seq<Phdr>) returns (j: nat)
    requires |was| == phdrs.Length
    requires forall k :: 0 <= k < |was| ==>
               phdrs[k].ptype == was[k].ptype && (was[k].ptype == PT_LOAD ==> phdrs[k] == was[k])
    ensures j == Container(was, off)
  {
    j := 0;
    while j < phdrs.Length
      invariant 0 <= j <= phdrs.Length
      invariant forall k :: 0 <= k < j ==> !(was[k].ptype == PT_LOAD && was[k].HoldsOffset(off))
    {
      if phdrs[j].ptype == PT_LOAD && off >= phdrs[j].offset && off < phdrs[j].offset + phdrs[j].filesz {
        return;
      }
      j := j + 1;
    }
  }

  method FindSection(se: array<Shdr>, off: nat) returns (j: nat)
    ensures j == SectionAt(se[..], off)
  {
    j := 0;
    while j < se.Length
      invariant 0 <= j <= se.Length
      invariant forall k :: 0 <= k < j ==> se[k].offset != off
    {
      if off == se[j].offset {
        return;
      }
      j := j + 1;
    }
  }

  /** The pass changes nothing but offsets, and no PT_LOAD entry at all. */
  lemma RelocationTouchesOffsetsOnly(ps: seq<Phdr>, pls: seq<Phdr>, page: nat, hs: seq<Shdr>, hsOut: seq<Shdr>)
    requires Alignable(ps, page) && |hs| == |hsOut|
    ensures var r := RelocatePhdrs(ps, pls, page, hs, hsOut);
      forall i :: 0 <= i < |ps| ==>
        && r[i] == ps[i].(offset := r[i].offset)
        && (ps[i].ptype == 1 || ps[i].ptype == 3 || ps[i].ptype == 6 || ps[i].filesz == 0 ==> r[i] == ps[i])
  {
  }

  /** The step of the pass at index `i`, with no stop before it. */
  lemma PassStep(ps: seq<Phdr>, pls: seq<Phdr>, page: nat, hs: seq<Shdr>, hsOut: seq<Shdr>, i: nat)
    requires i < |ps| && i <= StopIndex(ps) && Alignable(ps, page) && |hs| == |hsOut|
    ensures var r := RelocatePhdrs(ps, pls, page, hs, hsOut);
      var j := Container(ps, ps[i].offset);
      if !Movable(ps[i]) then i < StopIndex(ps) && r[i] == ps[i]
      else if j < |ps| then
        && (forall k :: i < k < |ps| ==> r[k] == ps[k])
        && r[i] == var t := FindLoad(ps[j], pls, page);
                   if t == -1 then ps[i] else ps[i].(offset := Translate(ps[j], pls[t], ps[i].offset, page))
      else
        && i < StopIndex(ps)
        && r[i] == var s := SectionAt(hs, ps[i].offset);
                   if s == |hs| then ps[i] else ps[i].(offset := hsOut[s].offset)
  {
  }

  /** The pass does not divide by 0 at the one segment it moves with its PT_LOAD
      segment. */
  predicate SegmentDivides(ps: seq<Phdr>, pls: seq<Phdr>, page: nat)
    requires Alignable(ps, page)
  {
    var i := StopIndex(ps);
    i < |ps| ==>
      var pe := ps[Container(ps, ps[i].offset)];
      FindLoad(pe, pls, page) >= 0 ==> MinAlign(pe, page) > 0
  }

  /** The body of the loop; `stop` is its `break`, and not `ok` a division by 0. */
  method RelocateTurn(phdrs: array<Phdr>, i: nat, pls: array<Phdr>, loadMap: array<int>, page: nat,
                      se: array<Shdr>, so: array<Shdr>, ghost was: seq<Phdr>) returns (ok: bool, stop: bool)
    requires phdrs != pls && loadMap.Length == phdrs.Length == |was| && se.Length == so.Length
    requires Alignable(was, page) && i < |was| && i <= StopIndex(was)
    requires PassedUpTo(phdrs[..], was, pls[..], page, se[..], so[..], i)
    requires forall k :: 0 <= k < |was| && was[k].ptype == PT_LOAD ==> loadMap[k] == FindLoad(was[k], pls[..], page)
    modifies phdrs
    ensures stop <==> i == StopIndex(was)
    ensures ok <==> (stop ==> SegmentDivides(was, pls[..], page))
    ensures ok ==> PassedUpTo(phdrs[..], was, pls[..], page, se[..], so[..], i + 1)
  {
    ok, stop := true, false;
    assert phdrs[i] == phdrs[..][i];
    var t := phdrs[i].ptype;
    if phdrs[i].filesz == 0 || t == PT_LOAD || t == PT_INTERP || t == PT_PHDR {
      return;
    }
    LoadsUntouched(phdrs[..], was, pls[..], page, se[..], so[..], i);
    ok, stop := RelocateSegment(phdrs, i, pls, loadMap, page, se, so, was);
  }

  /** The same for a movable segment. */
  method RelocateSegment(phdrs: array<Phdr>, i: nat, pls: array<Phdr>, loadMap: array<int>, page: nat,
                         se: array<Shdr>, so: array<Shdr>, ghost was: seq<Phdr>) returns (ok: bool, stop: bool)
    requires phdrs != pls && loadMap.Length == phdrs.Length == |was| && se.Length == so.Length
    requires Alignable(was, page)
    requires i < |was| && i <= StopIndex(was) && Movable(was[i]) && phdrs[i] == was[i]
    requires forall k :: 0 <= k < |was| ==>
               phdrs[k].ptype == was[k].ptype && (was[k].ptype == PT_LOAD ==> phdrs[k] == was[k])
    requires forall k :: 0 <= k < |was| && was[k].ptype == PT_LOAD ==> loadMap[k] == FindLoad(was[k], pls[..], page)
    modifies phdrs
    ensures stop <==> i == StopIndex(was)
    ensures ok <==> (stop ==> SegmentDivides(was, pls[..], page))
    ensures ok ==> phdrs[i] == RelocatedPhdr(was, pls[..], page, se[..], so[..], i)
    ensures forall k :: 0 <= k < |was| && k != i ==> phdrs[k] == old(phdrs[k])
  {
    PassStep(was, pls[..], page, se[..], so[..], i);
    var p := phdrs[i];
    var j := FindContainer(phdrs, p.offset, was);
    ok := true;
    stop := j < phdrs.Length;
    if stop {
      var pe := phdrs[j];
      if loadMap[j] != -1 {
        var minAlign := if pe.align < page then pe.align else page;
        if minAlign == 0 {
          ok := false;
        } else {
          phdrs[i] := p.(offset := pls[loadMap[j]].offset + p.offset - pe.offset + pe.vaddr % minAlign);
        }
      }
      return;
    }
    var s := FindSection(se, p.offset);
    if s < se.Length {
      phdrs[i] := p.(offset := so[s].offset);
    }
  }

  method RelocateSegments(phdrs: array<Phdr>, pls: array<Phdr>, loadMap: array<int>, page: nat,
                          se: array<Shdr>, so: array<Shdr>) returns (ok: bool)
    requires phdrs != pls && loadMap.Length == phdrs.Length && se.Length == so.Length
    requires Alignable(phdrs[..], page)
    requires forall i :: 0 <= i < phdrs.Length && phdrs[i].ptype == PT_LOAD ==>
               loadMap[i] == FindLoad(phdrs[i], pls[..], page)
    modifies phdrs
    ensures ok <==> SegmentDivides(old(phdrs[..]), pls[..], page)
    ensures ok ==> phdrs[..] == RelocatePhdrs(old(phdrs[..]), pls[..], page, se[..], so[..])
  {
    ghost var was, ls, hs, hsOut := phdrs[..], pls[..], se[..], so[..];
    ok := true;
    for i := 0 to phdrs.Length
      invariant ok && i <= StopIndex(was)
      invariant PassedUpTo(phdrs[..], was, ls, page, hs, hsOut, i)
    {
      var stop;
      ok, stop := RelocateTurn(phdrs, i, pls, loadMap, page, se, so, was);
      if stop {
        BehindStop(was, ls, page, hs, hsOut);
        break;
      }
    }
  }

  /** The table after the first `i` turns. */
  ghost predicate PassedUpTo(cur: seq<Phdr>, was: seq<Phdr>, pls: seq<Phdr>, page: nat, hs: seq<Shdr>,
                             hsOut: seq<Shdr>, i: nat)
    requires Alignable(was, page) && |hs| == |hsOut|
  {
    && |cur| == |was|
    && (forall k :: 0 <= k < i && k < |was| ==> cur[k] == RelocatedPhdr(was, pls, page, hs, hsOut, k))
    && (forall k :: i <= k < |was| ==> cur[k] == was[k])
  }

  lemma LoadsUntouched(cur: seq<Phdr>, was: seq<Phdr>, pls: seq<Phdr>, page: nat, hs: seq<Shdr>, hsOut: seq<Shdr>,
                       i: nat)
    requires Alignable(was, page) && |hs| == |hsOut| && PassedUpTo(cur, was, pls, page, hs, hsOut, i)
    ensures forall k :: 0 <= k < |was| ==>
              cur[k].ptype == was[k].ptype && (was[k].ptype == PT_LOAD ==> cur[k] == was[k])
  {
  }

  /** Nothing behind the stop changes. */
  lemma BehindStop(ps: seq<Phdr>, pls: seq<Phdr>, page: nat, hs: seq<Shdr>, hsOut: seq<Shdr>)
    requires Alignable(ps, page) && |hs| == |hsOut|
    ensures forall k :: StopIndex(ps) < k < |ps| ==> RelocatedPhdr(ps, pls, page, hs, hsOut, k) == ps[k]
  {
  }

  /** Where the pass should send a movable segment inside a PT_LOAD segment that
      the snapshot continues. */
  function WantedOffset(ps: seq<Phdr>, pls: seq<Phdr>, page: nat, i: nat): nat
    requires i < |ps| && Alignable(ps, page) && Container(ps, ps[i].offset) < |ps|
    requires FindLoad(ps[Container(ps, ps[i].offset)], pls, page) >= 0
  {
    var pe := ps[Container(ps, ps[i].offset)];
    Translate(pe, pls[FindLoad(pe, pls, page)], ps[i].offset, page)
  }

  /** Exactly when a segment inside a PT_LOAD segment is moved along with it:
      no other such segment comes before it, unless it is in place already.
      The outer `break` leaves every later one at its old offset. */
  lemma SegmentMovedIff(ps: seq<Phdr>, pls: seq<Phdr>, page: nat, hs: seq<Shdr>, hsOut: seq<Shdr>, i: nat)
    requires i < |ps| && Alignable(ps, page) && |hs| == |hsOut|
    requires Movable(ps[i]) && Container(ps, ps[i].offset) < |ps|
    requires FindLoad(ps[Container(ps, ps[i].offset)], pls, page) >= 0
    ensures RelocatedPhdr(ps, pls, page, hs, hsOut, i).offset == WantedOffset(ps, pls, page, i)
            <==> (forall k :: 0 <= k < i ==> !(Movable(ps[k]) && Container(ps, ps[k].offset) < |ps|))
                 || ps[i].offset == WantedOffset(ps, pls, page, i)
    ensures i > StopIndex(ps) ==> RelocatedPhdr(ps, pls, page, hs, hsOut, i) == ps[i]
  {
    if forall k :: 0 <= k < i ==> !(Movable(ps[k]) && Container(ps, ps[k].offset) < |ps|) {
      assert StopIndex(ps) == i;
    } else {
      assert StopIndex(ps) < i;
    }
  }

  /** The one segment that is moved keeps its virtual address. */
  lemma MovedSegmentKeepsAddress(ps: seq<Phdr>, pls: seq<Phdr>, page: nat, hs: seq<Shdr>, hsOut: seq<Shdr>)
    requires Alignable(ps, page) && |hs| == |hsOut| && PowerOfTwo(page) && StopIndex(ps) < |ps|
    requires var pe := ps[Container(ps, ps[StopIndex(ps)].offset)]; PowerOfTwo(pe.align) && pe.vaddr < TWO64
    ensures var i := StopIndex(ps);
      var pe := ps[Container(ps, ps[i].offset)];
      var t := FindLoad(pe, pls, page);
      var r := RelocatedPhdr(ps, pls, page, hs, hsOut, i);
      if t == -1 then r == ps[i] else r.offset - pls[t].offset + pls[t].vaddr == AddressOf(pe, ps[i].offset)
  {
    var i := StopIndex(ps);
    TranslateKeepsAddress(ps[Container(ps, ps[i].offset)], pls, ps[i].offset, page);
  }

  /** Two note segments in one PT_LOAD segment: the second one is left behind,
      at an offset the output file uses for something else. */
  lemma SecondSegmentLeftBehind()
    ensures var text := Phdr(PT_LOAD, PF_R, 0, 0x40_0000, 0x40_0000, 0x1000, 0x1000, 0x1000);
      var note := Phdr(4, PF_R, 0x200, 0x40_0200, 0x40_0200, 0x20, 0x20, 4);
      var more := Phdr(4, PF_R, 0x220, 0x40_0220, 0x40_0220, 0x20, 0x20, 4);
      var dump := Phdr(PT_LOAD, PF_R, 0x3000, 0x40_0000, 0x40_0000, 0x1000, 0x1000, 1);
      var ps := [text, note, more];
      && Alignable(ps, 0x1000)
      && RelocatePhdrs(ps, [dump], 0x1000, [], [])[1].offset == 0x3200
      && RelocatePhdrs(ps, [dump], 0x1000, [], [])[2].offset == 0x220
  {
    var text := Phdr(PT_LOAD, PF_R, 0, 0x40_0000, 0x40_0000, 0x1000, 0x1000, 0x1000);
    var note := Phdr(4, PF_R, 0x200, 0x40_0200, 0x40_0200, 0x20, 0x20, 4);
    var more := Phdr(4, PF_R, 0x220, 0x40_0220, 0x40_0220, 0x20, 0x20, 4);
    var dump := Phdr(PT_LOAD, PF_R, 0x3000, 0x40_0000, 0x40_0000, 0x1000, 0x1000, 1);
    var ps := [text, note, more];
    assert ps[0] == text && ps[1] == note && ps[2] == more;
    assert text.HoldsOffset(0x200);
    assert Container(ps, 0x200) == 0;
    assert Movable(ps[1]) && !Movable(ps[0]);
    assert StopIndex(ps) == 1;
    assert PowerOfTwo(0x1000) by { assert Pow2(4) == 16; Pow2Add(4, 4); Pow2Add(8, 4); assert Pow2(12) == 0x1000; }
    MaskIsRoundDown(0x40_0000, 0x1000);
    assert FindLoad(text, [dump], 0x1000) == 0;
  }

  // ------------------------- The relocation, in terms of types and numbers

  /** The segment map: the first snapshot segment that starts at the address of `pe`,
      rounded down to its alignment or to a page. */
  lemma FindLoadIs(pe: Phdr, pls: seq<Phdr>, page: nat, a: nat, t: nat)
    requires PowerOfTwo(pe.align) && PowerOfTwo(page) && pe.vaddr < TWO64
    requires a == (if pe.align < page then pe.align else page) && a > 0
    requires t <= |pls| && forall k :: 0 <= k < t ==> pls[k].vaddr != pe.vaddr - pe.vaddr % a
    requires t < |pls| ==> pls[t].vaddr == pe.vaddr - pe.vaddr % a
    ensures MinAlign(pe, page) < TWO64
    ensures FindLoad(pe, pls, page) == if t < |pls| then t else -1
  {
    MaskIsRoundDown(pe.vaddr, a);
  }

  /** With a p_align of 0 it is the first one at address 0. */
  lemma FindLoadUnaligned(pe: Phdr, pls: seq<Phdr>, page: nat)
    requires pe.align == 0 && forall k :: 0 <= k < |pls| ==> pls[k].vaddr != 0
    ensures FindLoad(pe, pls, page) == -1
  {
    assert Complement((0 - 1) % TWO64) == 0;
    assert MaskLow(pe.vaddr, 0) == 0;
  }

  /** No remainder by 0 is taken if every PT_LOAD segment has an alignment, nor if no
      snapshot segment starts at address 0. */
  lemma {:induction false} SectionGetsThrough(off: nat, ps: seq<Phdr>, pls: seq<Phdr>, page: nat, j: nat)
    requires j <= |ps| && Alignable(ps, page)
    requires (forall k :: 0 <= k < |ps| && ps[k].ptype == 1 ==> ps[k].align > 0)
             || (forall k :: 0 <= k < |pls| ==> pls[k].vaddr != 0)
    ensures SectionDivides(off, ps, pls, page, j)
    decreases |ps| - j
  {
    if j < |ps| {
      if ps[j].align == 0 && ps[j].ptype == 1 { FindLoadUnaligned(ps[j], pls, page); }
      SectionGetsThrough(off, ps, pls, page, j + 1);
    }
  }

  lemma RelocationGetsThrough(hs: seq<Shdr>, ps: seq<Phdr>, pls: seq<Phdr>, page: nat)
    requires Alignable(ps, page)
    requires (forall k :: 0 <= k < |ps| && ps[k].ptype == 1 ==> ps[k].align > 0)
             || (forall k :: 0 <= k < |pls| ==> pls[k].vaddr != 0)
    ensures SectionsDivide(hs, ps, pls, page) && SegmentDivides(ps, pls, page)
  {
    forall i | 0 <= i < |hs| && hs[i].Allocated() ensures SectionDivides(hs[i].offset, ps, pls, page, 0) {
      SectionGetsThrough(hs[i].offset, ps, pls, page, 0);
    }
    var i := StopIndex(ps);
    if i < |ps| {
      var pe := ps[Container(ps, ps[i].offset)];
      if pe.align == 0 { FindLoadUnaligned(pe, pls, page); }
    }
  }

  /** A section in PT_LOAD segment `j` and in no other, which segment `t` of the
      snapshot continues, is as far behind that one's offset as its address is behind
      that one's address. */
  lemma SectionOffsetIs(off: nat, cur: nat, ps: seq<Phdr>, pls: seq<Phdr>, page: nat, j: nat, a: nat, t: nat)
    requires Alignable(ps, page) && PowerOfTwo(page) && j < |ps| && t <= |pls|
    requires ps[j].ptype == 1 && ps[j].offset <= off < ps[j].offset + ps[j].filesz
    requires forall k :: 0 <= k < |ps| && k != j && ps[k].ptype == 1 ==>
               !(ps[k].offset <= off < ps[k].offset + ps[k].filesz)
    requires PowerOfTwo(ps[j].align) && ps[j].vaddr < TWO64
    requires a == (if ps[j].align < page then ps[j].align else page) && a > 0
    requires forall k :: 0 <= k < t ==> pls[k].vaddr != ps[j].vaddr - ps[j].vaddr % a
    requires t < |pls| ==> pls[t].vaddr == ps[j].vaddr - ps[j].vaddr % a
    ensures SectionOffset(off, cur, ps, pls, page, 0) ==
            if t == |pls| then cur
            else pls[t].offset + (ps[j].vaddr + (off - ps[j].offset) - pls[t].vaddr)
  {
    FindLoadIs(ps[j], pls, page, a, t);
    OffsetByOwner(off, cur, ps, pls, page, 0, j);
  }

  /** A header outside every PT_LOAD segment, in front of the one that is moved with
      its segment, follows the first section that starts where it does. */
  lemma RelocatedOutside(ps: seq<Phdr>, pls: seq<Phdr>, page: nat, hs: seq<Shdr>, hsOut: seq<Shdr>, i: nat, x: nat)
    requires i < |ps| && Alignable(ps, page) && |hs| == |hsOut| && x <= |hs|
    requires forall k :: 0 <= k < x ==> hs[k].offset != ps[i].offset
    requires x < |hs| ==> hs[x].offset == ps[i].offset
    requires forall j :: 0 <= j < |ps| && ps[j].ptype == 1 ==>
               !(ps[j].offset <= ps[i].offset < ps[j].offset + ps[j].filesz)
    ensures x == |hs| ==> RelocatedPhdr(ps, pls, page, hs, hsOut, i) == ps[i]
    ensures ps[i].ptype != 1 && ps[i].ptype != 3 && ps[i].ptype != 6 && ps[i].filesz > 0 && x < |hs|
            && (forall k, j :: 0 <= k < i && 0 <= j < |ps| && ps[k].ptype != 1 && ps[k].ptype != 3 && ps[k].ptype != 6
                               && ps[k].filesz > 0 && ps[j].ptype == 1 ==>
                  !(ps[j].offset <= ps[k].offset < ps[j].offset + ps[j].filesz)) ==>
              RelocatedPhdr(ps, pls, page, hs, hsOut, i) == ps[i].(offset := hsOut[x].offset)
  {
    assert SectionAt(hs, ps[i].offset) == x;
    assert Container(ps, ps[i].offset) == |ps|;
  }

  /** The first header that is of another type, not empty and inside a PT_LOAD segment
      `j` is moved with that segment; behind it nothing changes. */
  lemma RelocatedInside(ps: seq<Phdr>, pls: seq<Phdr>, page: nat, hs: seq<Shdr>, hsOut: seq<Shdr>, i: nat, j: nat,
                        a: nat, t: nat)
    requires i < |ps| && j < |ps| && Alignable(ps, page) && |hs| == |hsOut| && PowerOfTwo(page)
    requires ps[i].ptype != 1 && ps[i].ptype != 3 && ps[i].ptype != 6 && ps[i].filesz > 0
    requires ps[j].ptype == 1 && ps[j].offset <= ps[i].offset < ps[j].offset + ps[j].filesz
    requires forall k :: 0 <= k < j && ps[k].ptype == 1 ==>
               !(ps[k].offset <= ps[i].offset < ps[k].offset + ps[k].filesz)
    requires forall k, l :: 0 <= k < i && 0 <= l < |ps| && ps[k].ptype != 1 && ps[k].ptype != 3 && ps[k].ptype != 6
                            && ps[k].filesz > 0 && ps[l].ptype == 1 ==>
               !(ps[l].offset <= ps[k].offset < ps[l].offset + ps[l].filesz)
    requires PowerOfTwo(ps[j].align) && ps[j].vaddr < TWO64
    requires a == (if ps[j].align < page then ps[j].align else page) && a > 0
    requires t <= |pls| && forall k :: 0 <= k < t ==> pls[k].vaddr != ps[j].vaddr - ps[j].vaddr % a
    requires t < |pls| ==> pls[t].vaddr == ps[j].vaddr - ps[j].vaddr % a
    ensures RelocatedPhdr(ps, pls, page, hs, hsOut, i) ==
            if t == |pls| then ps[i]
            else ps[i].(offset := pls[t].offset + (ps[j].vaddr + (ps[i].offset - ps[j].offset) - pls[t].vaddr))
    ensures forall k :: i < k < |ps| ==> RelocatedPhdr(ps, pls, page, hs, hsOut, k) == ps[k]
  {
    FirstInsideStops(ps, i, j);
    FindLoadIs(ps[j], pls, page, a, t);
  }

  lemma FirstInsideStops(ps: seq<Phdr>, i: nat, j: nat)
    requires i < |ps| && j < |ps|
    requires ps[i].ptype != 1 && ps[i].ptype != 3 && ps[i].ptype != 6 && ps[i].filesz > 0
    requires ps[j].ptype == 1 && ps[j].offset <= ps[i].offset < ps[j].offset + ps[j].filesz
    requires forall k :: 0 <= k < j && ps[k].ptype == 1 ==>
               !(ps[k].offset <= ps[i].offset < ps[k].offset + ps[k].filesz)
    requires forall k, l :: 0 <= k < i && 0 <= l < |ps| && ps[k].ptype != 1 && ps[k].ptype != 3 && ps[k].ptype != 6
                            && ps[k].filesz > 0 && ps[l].ptype == 1 ==>
               !(ps[l].offset <= ps[k].offset < ps[l].offset + ps[l].filesz)
    ensures StopIndex(ps) == i && Container(ps, ps[i].offset) == j
  {
    assert Container(ps, ps[i].offset) == j;
    forall k | 0 <= k < i ensures !(Movable(ps[k]) && Container(ps, ps[k].offset) < |ps|) {
    }
  }
}
