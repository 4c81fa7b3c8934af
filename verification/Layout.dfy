/** Where the pieces of the output file go (src/non_pt_load.c): the copied
    non-allocated sections, the filler, and the file ranges of the segments. */
module Layout {
  import opened Arith
  import opened Bytes
  import opened Elf
  import opened Outcomes

  // ---------------------------------------------------- Placing the sections

  /** The placement loop gives these sections a new offset. */
  predicate Placed(h: Shdr) {
    !h.Allocated() && h.stype != SHT_NULL
  }

  /** The copy loop writes these sections: its test is a different one. */
  predicate Copied(h: Shdr) {
    !h.Allocated() && h.size != 0
  }

  function PlacedSize(hs: seq<Shdr>): nat {
    if hs == [] then 0
    else
      var last := hs[|hs| - 1];
      PlacedSize(hs[..|hs| - 1]) + if Placed(last) then last.size else 0
  }

  /** Bytes the copy loop writes although nothing was reserved for them. */
  function NullSize(hs: seq<Shdr>): nat {
    if hs == [] then 0
    else
      var last := hs[|hs| - 1];
      NullSize(hs[..|hs| - 1]) + if Copied(last) && !Placed(last) then last.size else 0
  }

  /** The section headers after the placement loop. */
  function Place(hs: seq<Shdr>, start: nat): (r: seq<Shdr>)
    ensures |r| == |hs|
  {
    seq(|hs|, i requires 0 <= i < |hs| =>
      if Placed(hs[i]) then hs[i].(offset := start + PlacedSize(hs[..i])) else hs[i])
  }

  method PlaceNonAlloc(so: array<Shdr>, start: nat) returns (end: nat)
    modifies so
    ensures so[..] == Place(old(so[..]), start)
    ensures end == start + PlacedSize(old(so[..]))
  {
    end := start;
    ghost var was := so[..];
    for i := 0 to so.Length
      invariant end == start + PlacedSize(was[..i])
      invariant forall k :: 0 <= k < i ==> so[k] == Place(was, start)[k]
      invariant forall k :: i <= k < so.Length ==> so[k] == was[k]
    {
      assert was[..i + 1][..i] == was[..i];
      if so[i].Allocated() || so[i].stype == SHT_NULL {
        continue;
      }
      so[i] := so[i].(offset := end);
      end := end + so[i].size;
    }
    assert was[..so.Length] == was;
  }

  lemma {:induction false} PlacedSizeMonotone(hs: seq<Shdr>, i: nat, j: nat)
    requires i <= j <= |hs|
    ensures PlacedSize(hs[..i]) <= PlacedSize(hs[..j])
    decreases j
  {
    if i < j {
      PlacedSizeMonotone(hs, i, j - 1);
      assert hs[..j][..j - 1] == hs[..j - 1];
    }
  }

  lemma PlacedSizeStep(hs: seq<Shdr>, i: nat)
    requires i < |hs|
    ensures PlacedSize(hs[..i + 1]) == PlacedSize(hs[..i]) + if Placed(hs[i]) then hs[i].size else 0
  {
    assert hs[..i + 1][..i] == hs[..i];
  }

  /** Sections placed one after another do not overlap. */
  lemma PlacedInOrder(hs: seq<Shdr>, start: nat, i: nat, j: nat)
    requires i < j < |hs| && Placed(hs[i]) && Placed(hs[j])
    ensures Place(hs, start)[i].offset + hs[i].size <= Place(hs, start)[j].offset
  {
    PlacedSizeStep(hs, i);
    PlacedSizeMonotone(hs, i + 1, j);
  }

  /** No byte between start and end is left over: each belongs to exactly one
      placed section. */
  lemma {:induction false} PlacedTile(hs: seq<Shdr>, start: nat, pos: nat) returns (i: nat)
    requires start <= pos < start + PlacedSize(hs)
    ensures i < |hs| && Placed(hs[i])
    ensures Place(hs, start)[i].offset <= pos < Place(hs, start)[i].offset + hs[i].size
    ensures forall j :: 0 <= j < |hs| && Placed(hs[j]) && j != i ==>
              !(Place(hs, start)[j].offset <= pos < Place(hs, start)[j].offset + hs[j].size)
  {
    i := |hs| - 1;
    assert hs[..i + 1] == hs;
    while pos < start + PlacedSize(hs[..i])
      invariant i < |hs|
      invariant pos < start + PlacedSize(hs[..i + 1])
      decreases i
    {
      i := i - 1;
    }
    PlacedSizeStep(hs, i);
    forall j | 0 <= j < |hs| && Placed(hs[j]) && j != i
      ensures !(Place(hs, start)[j].offset <= pos < Place(hs, start)[j].offset + hs[j].size)
    {
      if j < i { PlacedInOrder(hs, start, j, i); } else { PlacedInOrder(hs, start, i, j); }
    }
  }

  // ------------------------------------------------------ Copying the sections

  /** What the copy loop writes for one section of the original file. */
  function Copy(h: Shdr, file: seq<byte>): seq<byte> {
    if Copied(h) && h.offset + h.size <= |file| then file[h.offset..h.offset + h.size] else []
  }

  function Copies(hs: seq<Shdr>, file: seq<byte>): (r: seq<seq<byte>>)
    ensures |r| == |hs|
  {
    seq(|hs|, i requires 0 <= i < |hs| => Copy(hs[i], file))
  }

  predicate CopiesReadable(hs: seq<Shdr>, file: seq<byte>) {
    forall i :: 0 <= i < |hs| ==> Copied(hs[i]) ==> hs[i].offset + hs[i].size <= |file|
  }

  /** The section phase of the output; nothing is copied when nothing was
      placed. */
  function SectionBytes(hs: seq<Shdr>, file: seq<byte>): Outcome<seq<byte>> {
    if PlacedSize(hs) == 0 then Done([])
    else if CopiesReadable(hs, file) then Done(Flatten(Copies(hs, file)))
    else Exit(ShortRead)
  }

  method CopySections(so: array<Shdr>, se: array<Shdr>, size: nat, file: seq<byte>)
    returns (r: Outcome<seq<byte>>)
    requires so.Length == se.Length && size == PlacedSize(se[..])
    requires forall k :: 0 <= k < so.Length ==> so[k] == se[k].(offset := so[k].offset)
    ensures r == SectionBytes(se[..], file)
  {
    var out: seq<byte> := [];
    if size > 0 {
      ghost var parts := Copies(se[..], file);
      for i := 0 to so.Length
        invariant out == Flatten(parts[..i])
        invariant forall k :: 0 <= k < i && Copied(se[k]) ==> se[k].offset + se[k].size <= |file|
      {
        FlattenStep(parts, i);
        if so[i].Allocated() || so[i].size == 0 {
          continue;
        }
        if |file| < se[i].offset + so[i].size {
          assert Copied(se[..][i]);
          return Exit(ShortRead);
        }
        out := out + file[se[i].offset..se[i].offset + so[i].size];
      }
      assert parts[..so.Length] == parts;
    }
    return Done(out);
  }

  lemma {:induction false} CopiedLength(hs: seq<Shdr>, file: seq<byte>, n: nat)
    requires n <= |hs| && CopiesReadable(hs, file)
    ensures |Flatten(Copies(hs, file)[..n])| == PlacedSize(hs[..n]) + NullSize(hs[..n])
  {
    if n > 0 {
      CopiedLength(hs, file, n - 1);
      FlattenStep(Copies(hs, file), n - 1);
      assert hs[..n][..n - 1] == hs[..n - 1];
    }
  }

  /** The placement loop and the copy loop agree on the number of bytes exactly
      when no non-allocated SHT_NULL header has a size, or nothing is placed. */
  lemma PlacementAgreesWithCopy(hs: seq<Shdr>, file: seq<byte>)
    requires SectionBytes(hs, file).Done?
    ensures |SectionBytes(hs, file).value| == PlacedSize(hs) <==> PlacedSize(hs) == 0 || NullSize(hs) == 0
  {
    if PlacedSize(hs) > 0 {
      CopiedLength(hs, file, |hs|);
      assert Copies(hs, file)[..|hs|] == Copies(hs, file) && hs[..|hs|] == hs;
    }
  }

  /** An inactive header with a size in front of a string table of four bytes: four
      bytes are reserved, eight are written, and the table's own come second. */
  lemma NullHeaderDisplaces()
    ensures var inactive := Shdr(0, SHT_NULL, 0, 0, 0, 4, 0, 0, 0, 0);
      var strings := Shdr(0, 3, 0, 0, 4, 4, 0, 0, 1, 0);
      var hs, file: seq<byte> := [inactive, strings], [1, 2, 3, 4, 5, 6, 7, 8];
      && PlacedSize(hs) == 4 && Place(hs, 100)[1].offset == 100
      && SectionBytes(hs, file) == Done(file) && file[4..8] == [5, 6, 7, 8]
  {
    var inactive := Shdr(0, SHT_NULL, 0, 0, 0, 4, 0, 0, 0, 0);
    var strings := Shdr(0, 3, 0, 0, 4, 4, 0, 0, 1, 0);
    var hs, file: seq<byte> := [inactive, strings], [1, 2, 3, 4, 5, 6, 7, 8];
    assert hs[0] == inactive && hs[1] == strings && hs[..0] == [] && hs[..2] == hs;
    assert Placed(strings) && !Placed(inactive) && Copied(inactive) && Copied(strings);
    PlacedSizeStep(hs, 0);
    PlacedSizeStep(hs, 1);
    var parts := Copies(hs, file);
    FlattenStep(parts, 0);
    FlattenStep(parts, 1);
    assert parts[..0] == [] && parts[..2] == parts && parts[0] == file[0..4] && parts[1] == file[4..8];
    assert Flatten(parts) == file[0..4] + file[4..8] == file;
    assert CopiesReadable(hs, file) && SectionBytes(hs, file) == Done(Flatten(parts));
    assert file[4..8] == [5, 6, 7, 8];
  }

  lemma {:induction false} NullSizeMonotone(hs: seq<Shdr>, i: nat, j: nat)
    requires i <= j <= |hs|
    ensures NullSize(hs[..i]) <= NullSize(hs[..j])
    decreases j
  {
    if i < j {
      NullSizeMonotone(hs, i, j - 1);
      assert hs[..j][..j - 1] == hs[..j - 1];
    }
  }

  /** In terms of types and flags: inactive headers without SHF_ALLOC and with a size
      are what makes the loops disagree, if anything is placed at all. */
  lemma {:induction false} NullSizeIff(hs: seq<Shdr>)
    ensures NullSize(hs) == 0 <==>
            forall i :: 0 <= i < |hs| && hs[i].stype == 0 && hs[i].flags / 2 % 2 == 0 ==> hs[i].size == 0
  {
    if hs != [] {
      var n := |hs| - 1;
      NullSizeIff(hs[..n]);
      AllocatedBit(hs[n]);
    }
  }

  lemma {:induction false} PlacedSizeIff(hs: seq<Shdr>)
    ensures PlacedSize(hs) == 0 <==>
            forall i :: 0 <= i < |hs| && hs[i].stype != 0 && hs[i].flags / 2 % 2 == 0 ==> hs[i].size == 0
  {
    if hs != [] {
      var n := |hs| - 1;
      PlacedSizeIff(hs[..n]);
      AllocatedBit(hs[n]);
    }
  }

  /** Sizes of the sections without SHF_ALLOC, inactive headers apart, among the first
      `i`. */
  function SizesBefore(hs: seq<Shdr>, i: nat): nat
    requires i <= |hs|
  {
    if i == 0 then 0
    else SizesBefore(hs, i - 1) + if hs[i - 1].stype != 0 && hs[i - 1].flags / 2 % 2 == 0 then hs[i - 1].size else 0
  }

  lemma {:induction false} PlacedSizeIs(hs: seq<Shdr>, i: nat)
    requires i <= |hs|
    ensures PlacedSize(hs[..i]) == SizesBefore(hs, i)
  {
    if i > 0 {
      PlacedSizeIs(hs, i - 1);
      PlacedSizeStep(hs, i - 1);
      AllocatedBit(hs[i - 1]);
    }
  }

  /** Such a section is placed behind the earlier ones; every other header stays as
      it is. */
  lemma PlacedOffset(hs: seq<Shdr>, start: nat, i: nat)
    requires i < |hs|
    ensures Place(hs, start)[i] ==
            if hs[i].stype != 0 && hs[i].flags / 2 % 2 == 0 then hs[i].(offset := start + SizesBefore(hs, i)) else hs[i]
  {
    PlacedSizeIs(hs, i);
    AllocatedBit(hs[i]);
  }

  /** And the copies can be made exactly when every section without SHF_ALLOC and
      with a size lies in the file, or nothing is placed. */
  lemma SectionBytesIff(hs: seq<Shdr>, file: seq<byte>)
    ensures SectionBytes(hs, file).Done? <==>
            || (forall i :: 0 <= i < |hs| && hs[i].stype != 0 && hs[i].flags / 2 % 2 == 0 ==> hs[i].size == 0)
            || (forall i :: 0 <= i < |hs| && hs[i].flags / 2 % 2 == 0 && hs[i].size > 0 ==>
                  hs[i].offset + hs[i].size <= |file|)
  {
    PlacedSizeIff(hs);
    forall i | 0 <= i < |hs| ensures Copied(hs[i]) <==> hs[i].flags / 2 % 2 == 0 && hs[i].size > 0 {
      AllocatedBit(hs[i]);
    }
  }

  /** A placed section is found, byte for byte, at its new offset displaced by
      the sizes of the SHT_NULL headers before it. */
  lemma CopiedContent(hs: seq<Shdr>, file: seq<byte>, i: nat)
    requires i < |hs| && Placed(hs[i]) && hs[i].size > 0
    requires SectionBytes(hs, file).Done?
    ensures hs[i].offset + hs[i].size <= |file|
    ensures var at := PlacedSize(hs[..i]) + NullSize(hs[..i]);
      && at + hs[i].size <= |SectionBytes(hs, file).value|
      && SectionBytes(hs, file).value[at..at + hs[i].size] == file[hs[i].offset..hs[i].offset + hs[i].size]
  {
    PlacedSizeStep(hs, i);
    PlacedSizeMonotone(hs, i + 1, |hs|);
    assert hs[..|hs|] == hs;
    assert Copied(hs[i]);
    CopiedLength(hs, file, i);
    FlattenSlice(Copies(hs, file), i);
  }

  // ------------------------------------------------ File ranges of the segments

  function FileSizes(ps: seq<Phdr>): nat {
    if ps == [] then 0 else FileSizes(ps[..|ps| - 1]) + ps[|ps| - 1].filesz
  }

  /** The snapshot segments with the offsets they get in the output file. */
  function AssignOffsets(ps: seq<Phdr>, base: nat): (r: seq<Phdr>)
    ensures |r| == |ps|
  {
    seq(|ps|, i requires 0 <= i < |ps| => ps[i].(offset := base + FileSizes(ps[..i])))
  }

  lemma AssignFirst(ps: seq<Phdr>, base: nat)
    requires ps != []
    ensures AssignOffsets(ps, base)[0] == ps[0].(offset := base)
  {
    assert ps[..0] == [];
  }

  lemma AssignNext(ps: seq<Phdr>, base: nat, i: nat)
    requires 0 < i < |ps|
    ensures var r := AssignOffsets(ps, base);
      r[i] == ps[i].(offset := r[i - 1].offset + r[i - 1].filesz)
  {
    FileSizesStep(ps, i - 1);
  }

  method UpdateLoadOffsets(pls: array<Phdr>, base: nat)
    requires pls.Length > 0
    modifies pls
    ensures pls[..] == AssignOffsets(old(pls[..]), base)
  {
    ghost var was := pls[..];
    ghost var goal := AssignOffsets(was, base);
    AssignFirst(was, base);
    pls[0] := pls[0].(offset := base);
    for i := 1 to pls.Length
      invariant forall k :: 0 <= k < i ==> pls[k] == goal[k]
      invariant forall k :: i <= k < pls.Length ==> pls[k] == was[k]
    {
      AssignNext(was, base, i);
      pls[i] := pls[i].(offset := pls[i - 1].offset + pls[i - 1].filesz);
    }
  }

  lemma FileSizesStep(ps: seq<Phdr>, i: nat)
    requires i < |ps|
    ensures FileSizes(ps[..i + 1]) == FileSizes(ps[..i]) + ps[i].filesz
  {
    assert ps[..i + 1][..i] == ps[..i];
  }

  lemma {:induction false} FileSizesMonotone(ps: seq<Phdr>, i: nat, j: nat)
    requires i <= j <= |ps|
    ensures FileSizes(ps[..i]) <= FileSizes(ps[..j])
    decreases j
  {
    if i < j {
      FileSizesMonotone(ps, i, j - 1);
      FileSizesStep(ps, j - 1);
    }
  }

  /** File ranges are consecutive, in order and disjoint, and all lie at or
      behind the base. */
  lemma SegmentsConsecutive(ps: seq<Phdr>, base: nat, i: nat, j: nat)
    requires i < j < |ps|
    ensures var r := AssignOffsets(ps, base);
      && base <= r[i].offset
      && r[i].offset + r[i].filesz <= r[j].offset
      && (j == i + 1 ==> r[i].offset + r[i].filesz == r[j].offset)
  {
    FileSizesStep(ps, i);
    FileSizesMonotone(ps, i + 1, j);
  }

  predicate AlignedMappings(ps: seq<Phdr>, a: nat)
    requires a > 0
  {
    forall i :: 0 <= i < |ps| ==> ps[i].vaddr % a == 0 && ps[i].filesz % a == 0
  }

  lemma {:induction false} FileSizesAligned(ps: seq<Phdr>, a: nat)
    requires a > 0 && AlignedMappings(ps, a)
    ensures FileSizes(ps) % a == 0
  {
    if ps != [] {
      FileSizesAligned(ps[..|ps| - 1], a);
      ModPlusMultiple(FileSizes(ps[..|ps| - 1]), ps[|ps| - 1].filesz, a);
    }
  }

  /** The gABI congruence of p_offset and p_vaddr, for every segment at once and
      for any modulus the mappings are aligned to: it holds exactly when the
      first segment starts on that boundary in the file. */
  lemma CongruentIffBaseAligned(ps: seq<Phdr>, base: nat, a: nat)
    requires a > 0 && ps != [] && AlignedMappings(ps, a)
    ensures (forall i :: 0 <= i < |ps| ==> AssignOffsets(ps, base)[i].offset % a == ps[i].vaddr % a)
            <==> base % a == 0
  {
    var r := AssignOffsets(ps, base);
    forall i | 0 <= i < |ps| ensures r[i].offset % a == base % a {
      FileSizesAligned(ps[..i], a);
      ModPlusMultiple(base, FileSizes(ps[..i]), a);
    }
    assert r[0].offset % a == base % a;
  }

  /** `i..j` is a run of segments that touch in memory. */
  predicate AdjacentRun(ps: seq<Phdr>, i: nat, j: nat) {
    i <= j < |ps| && forall k :: i <= k < j ==> ps[k].vaddr + ps[k].filesz == ps[k + 1].vaddr
  }

  /** Along such a run one distance leads from address to file offset, since the
      offsets are assigned without gaps. */
  lemma {:induction false} RunShift(ps: seq<Phdr>, base: nat, i: nat, j: nat)
    requires AdjacentRun(ps, i, j)
    ensures var r := AssignOffsets(ps, base); r[j].offset - ps[j].vaddr == r[i].offset - ps[i].vaddr
    decreases j
  {
    if i < j {
      RunShift(ps, base, i, j - 1);
      FileSizesStep(ps, j - 1);
    }
  }

  // ----------------------------------------------------------------- Filler

  method Filler(end: nat, align: nat) returns (base: nat, fill: seq<byte>)
    requires align > 0
    ensures base == RoundUp(end, align) && |fill| == base - end
    ensures forall i :: 0 <= i < |fill| ==> fill[i] == 0
  {
    var rest := end % align;
    base := end;
    if rest != 0 {
      base := base + (align - rest);
    }
    fill := seq(base - end, _ => 0);
  }
}
