/** Where the bytes of an overwrite at the entry point come to lie in memory. */
module StarterPlace {
  import opened Elf
  import opened Layout
  import opened Loader

  /** The starter lies inside segment `j`, or runs on into segments that touch
      one another up to `u`. */
  predicate Confined(ps: seq<Phdr>, entry: nat, n: nat, j: nat, u: nat) {
    && AdjacentRun(ps, j, u)
    && ps[j].HoldsAddress(entry)
    && entry + n <= ps[u].vaddr + ps[u].filesz
  }

  /** File position of an address of segment `i`. */
  function Position(ps: seq<Phdr>, base: nat, i: nat, a: nat): nat
    requires i < |ps| && ps[i].HoldsAddress(a)
  {
    AssignOffsets(ps, base)[i].offset + (a - ps[i].vaddr)
  }

  lemma {:induction false} RunHolds(ps: seq<Phdr>, j: nat, u: nat, a: nat) returns (k: nat)
    requires AdjacentRun(ps, j, u)
    requires ps[j].vaddr <= a < ps[u].vaddr + ps[u].filesz
    ensures j <= k <= u && ps[k].HoldsAddress(a)
    decreases u
  {
    if ps[u].vaddr <= a {
      k := u;
    } else {
      k := RunHolds(ps, j, u - 1, a);
    }
  }

  /** The positions overwritten are those of the addresses of the starter, byte
      for byte, and of no other loaded address. */
  lemma OverwrittenIffStarter(ps: seq<Phdr>, base: nat, entry: nat, n: nat, j: nat, u: nat, i: nat, a: nat)
    requires DisjointInMemory(ps) && Confined(ps, entry, n, j, u)
    requires i < |ps| && ps[i].HoldsAddress(a)
    ensures var at := Position(ps, base, j, entry);
      && (at <= Position(ps, base, i, a) < at + n <==> entry <= a < entry + n)
      && (entry <= a < entry + n ==> Position(ps, base, i, a) - at == a - entry)
  {
    RunShift(ps, base, j, u);
    if j <= i <= u {
      RunShift(ps, base, j, i);
    } else {
      if entry <= a < entry + n {
        var k := RunHolds(ps, j, u, a);
      }
      if i < j {
        SegmentsConsecutive(ps, base, i, j);
      } else {
        SegmentsConsecutive(ps, base, u, i);
      }
    }
  }

  /** Every overwritten byte reaches its address. */
  ghost predicate StarterLands(ps: seq<Phdr>, base: nat, entry: nat, n: nat, j: nat)
    requires j < |ps| && ps[j].HoldsAddress(entry)
  {
    var at := Position(ps, base, j, entry);
    forall i: nat, a: nat :: i < |ps| && ps[i].HoldsAddress(a) ==>
      at <= Position(ps, base, i, a) < at + n ==> Position(ps, base, i, a) - at == a - entry
  }

  /** Exactly when that is so: the starter ends inside its segment, or inside a
      run of segments that touch it in memory. */
  lemma StarterLandsIff(ps: seq<Phdr>, base: nat, entry: nat, n: nat, j: nat)
    requires DisjointInMemory(ps) && forall i :: 0 <= i < |ps| ==> ps[i].filesz > 0
    requires j < |ps| && ps[j].HoldsAddress(entry)
    requires Position(ps, base, j, entry) + n <= base + FileSizes(ps)
    ensures StarterLands(ps, base, entry, n, j) <==> exists u :: Confined(ps, entry, n, j, u)
  {
    if u :| Confined(ps, entry, n, j, u) {
      forall i: nat, a: nat | i < |ps| && ps[i].HoldsAddress(a)
        ensures var at := Position(ps, base, j, entry);
          at <= Position(ps, base, i, a) < at + n ==> Position(ps, base, i, a) - at == a - entry
      {
        OverwrittenIffStarter(ps, base, entry, n, j, u, i, a);
      }
    }
    if StarterLands(ps, base, entry, n, j) {
      var u := LastTouched(ps, base, entry, n, j);
    }
  }

  /** A starter of two bytes in the last byte of a segment, and the next segment a
      page further up: its second byte appears there, where it does not belong. */
  lemma StarterRunsOver()
    ensures var low := Phdr(1, 5, 0, 0x1000, 0x1000, 0x1000, 0x1000, 1);
      var high := Phdr(1, 5, 0, 0x3000, 0x3000, 0x1000, 0x1000, 1);
      var ps := [low, high];
      && DisjointInMemory(ps) && ps[0].HoldsAddress(0x1fff)
      && Position(ps, 0, 0, 0x1fff) + 2 <= 0 + FileSizes(ps)
      && !StarterLands(ps, 0, 0x1fff, 2, 0)
  {
    var low := Phdr(1, 5, 0, 0x1000, 0x1000, 0x1000, 0x1000, 1);
    var high := Phdr(1, 5, 0, 0x3000, 0x3000, 0x1000, 0x1000, 1);
    var ps := [low, high];
    assert ps[0] == low && ps[1] == high;
    assert ps[..0] == [] && ps[..1] == [low];
    FileSizesStep(ps, 0);
    FileSizesStep(ps, 1);
    assert ps[..2] == ps;
    assert ps[1].HoldsAddress(0x3000);
    assert Position(ps, 0, 1, 0x3000) == 0x1000 && Position(ps, 0, 0, 0x1fff) == 0xfff;
  }

  lemma LastTouched(ps: seq<Phdr>, base: nat, entry: nat, n: nat, j: nat) returns (u: nat)
    requires forall i :: 0 <= i < |ps| ==> ps[i].filesz > 0
    requires j < |ps| && ps[j].HoldsAddress(entry)
    requires Position(ps, base, j, entry) + n <= base + FileSizes(ps)
    requires StarterLands(ps, base, entry, n, j)
    ensures Confined(ps, entry, n, j, u)
  {
    var r := AssignOffsets(ps, base);
    var at := Position(ps, base, j, entry);
    u := j;
    while r[u].offset + ps[u].filesz < at + n
      invariant j <= u < |ps| && AdjacentRun(ps, j, u)
      invariant r[u].offset - ps[u].vaddr == at - entry
      invariant at <= r[u].offset + ps[u].filesz
      decreases |ps| - u
    {
      NextTouched(ps, base, entry, n, j, u);
      u := u + 1;
    }
  }

  lemma NextTouched(ps: seq<Phdr>, base: nat, entry: nat, n: nat, j: nat, u: nat)
    requires forall i :: 0 <= i < |ps| ==> ps[i].filesz > 0
    requires j < |ps| && ps[j].HoldsAddress(entry) && u < |ps|
    requires Position(ps, base, j, entry) + n <= base + FileSizes(ps)
    requires StarterLands(ps, base, entry, n, j)
    requires var r, at := AssignOffsets(ps, base), Position(ps, base, j, entry);
      && at <= r[u].offset + ps[u].filesz < at + n
      && r[u].offset - ps[u].vaddr == at - entry
    ensures u + 1 < |ps| && ps[u + 1].vaddr == ps[u].vaddr + ps[u].filesz
    ensures AssignOffsets(ps, base)[u + 1].offset == AssignOffsets(ps, base)[u].offset + ps[u].filesz
  {
    FileSizesStep(ps, u);
    assert ps[..|ps|] == ps;
    if u + 1 < |ps| {
      var a := ps[u + 1].vaddr;
      assert ps[u + 1].HoldsAddress(a);
      assert Position(ps, base, u + 1, a) == AssignOffsets(ps, base)[u + 1].offset;
    }
  }
}
