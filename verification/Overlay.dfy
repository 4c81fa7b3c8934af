/** Loading a file whose segments hold known bytes and into which some bytes have
    been written at one place. */
module Overlay {
  import opened Bytes
  import opened Elf
  import opened InjectStarter
  import opened Loader

  /** Part `i` of the contents is memory `m` over the addresses of segment `i`. */
  ghost predicate PartDescribes(p: Phdr, part: seq<byte>, m: map<nat, byte>) {
    |part| == p.filesz && forall a: nat :: p.HoldsAddress(a) ==> a in m && m[a] == part[a - p.vaddr]
  }

  ghost predicate Describes(ps: seq<Phdr>, parts: seq<seq<byte>>, m: map<nat, byte>) {
    && |parts| == |ps|
    && (forall i :: 0 <= i < |ps| ==> PartDescribes(ps[i], parts[i], m))
    && (forall a :: a in m ==> exists i :: 0 <= i < |ps| && ps[i].HoldsAddress(a))
  }

  predicate PartInPlace(p: Phdr, part: seq<byte>, file: seq<byte>) {
    p.ptype == PT_LOAD && p.offset + p.filesz <= |file| && file[p.offset..p.offset + p.filesz] == part
  }

  predicate InPlace(ps: seq<Phdr>, parts: seq<seq<byte>>, file: seq<byte>) {
    |parts| == |ps| && forall i :: 0 <= i < |ps| ==> PartInPlace(ps[i], parts[i], file)
  }

  /** In segment `p`, writing `n` bytes at `at` hits the addresses from `entry`
      on, each with its own byte, and no others. */
  ghost predicate WriteHits(p: Phdr, at: nat, entry: nat, n: nat) {
    forall a: nat :: p.HoldsAddress(a) ==>
      && (at <= PositionOf(p, a) < at + n <==> entry <= a < entry + n)
      && (entry <= a < entry + n ==> PositionOf(p, a) - at == a - entry)
  }

  /** Memory with other bytes in one place. */
  function WithStarter(m: map<nat, byte>, entry: nat, starter: seq<byte>): map<nat, byte> {
    map a | a in m :: if entry <= a < entry + |starter| then starter[a - entry] else m[a]
  }

  lemma OverwriteByte(file: seq<byte>, at: nat, data: seq<byte>, q: nat)
    requires at + |data| <= |file| && q < |file|
    ensures |Overwrite(file, at, data)| == |file|
    ensures Overwrite(file, at, data)[q] == if at <= q < at + |data| then data[q - at] else file[q]
  {
  }

  lemma PartByte(p: Phdr, part: seq<byte>, file: seq<byte>, m: map<nat, byte>, a: nat)
    requires p.HoldsAddress(a) && PartInPlace(p, part, file) && PartDescribes(p, part, m)
    ensures a in m && PositionOf(p, a) < |file| && file[PositionOf(p, a)] == m[a]
  {
    assert file[p.offset..p.offset + p.filesz][a - p.vaddr] == file[p.offset + (a - p.vaddr)];
  }

  /** One byte of one segment of the overwritten file. */
  lemma OverwrittenByte(p: Phdr, part: seq<byte>, file: seq<byte>, m: map<nat, byte>,
                        at: nat, entry: nat, starter: seq<byte>, a: nat)
    requires p.HoldsAddress(a) && PartInPlace(p, part, file) && PartDescribes(p, part, m)
    requires at + |starter| <= |file| && WriteHits(p, at, entry, |starter|)
    ensures a in m && PositionOf(p, a) < |Overwrite(file, at, starter)|
    ensures Overwrite(file, at, starter)[PositionOf(p, a)] == WithStarter(m, entry, starter)[a]
  {
    PartByte(p, part, file, m, a);
    OverwriteByte(file, at, starter, PositionOf(p, a));
  }

  lemma InPlaceInFile(ps: seq<Phdr>, parts: seq<seq<byte>>, file: seq<byte>)
    requires InPlace(ps, parts, file)
    ensures InFile(ps, |file|)
  {
    forall i | 0 <= i < |ps| ensures ps[i].ptype == PT_LOAD && ps[i].offset + ps[i].filesz <= |file| {
      assert PartInPlace(ps[i], parts[i], file);
    }
  }

  /** Loading the overwritten file gives exactly the memory its parts describe,
      with the overwriting bytes in their place: all of it and nothing else. */
  lemma LoadedIsOverlay(ps: seq<Phdr>, parts: seq<seq<byte>>, file: seq<byte>, m: map<nat, byte>,
                        at: nat, entry: nat, starter: seq<byte>)
    requires DisjointInMemory(ps) && InPlace(ps, parts, file) && Describes(ps, parts, m)
    requires at + |starter| <= |file|
    requires forall i :: 0 <= i < |ps| ==> WriteHits(ps[i], at, entry, |starter|)
    ensures LoadSegments(Overwrite(file, at, starter), ps) == WithStarter(m, entry, starter)
  {
    var final := Overwrite(file, at, starter);
    forall a | a in m
      ensures a in LoadSegments(final, ps) && LoadSegments(final, ps)[a] == WithStarter(m, entry, starter)[a]
    {
      var i :| 0 <= i < |ps| && ps[i].HoldsAddress(a);
      LoadedOverlayAt(ps, parts, file, m, at, entry, starter, i, a);
    }
    forall a | a in LoadSegments(final, ps) ensures a in m {
      LoadedDescribed(ps, parts, final, m, a);
    }
    SameMemory(LoadSegments(final, ps), m, entry, starter);
  }

  lemma SameMemory(loaded: map<nat, byte>, m: map<nat, byte>, entry: nat, starter: seq<byte>)
    requires forall a :: a in m ==> a in loaded && loaded[a] == WithStarter(m, entry, starter)[a]
    requires forall a :: a in loaded ==> a in m
    ensures loaded == WithStarter(m, entry, starter)
  {
  }

  lemma LoadedDescribed(ps: seq<Phdr>, parts: seq<seq<byte>>, file: seq<byte>, m: map<nat, byte>, a: nat)
    requires Describes(ps, parts, m) && a in LoadSegments(file, ps)
    ensures a in m
  {
    LoadedOnly(file, ps, a);
    var i :| 0 <= i < |ps| && ps[i].HoldsAddress(a);
    assert PartDescribes(ps[i], parts[i], m);
  }

  lemma LoadedOverlayAt(ps: seq<Phdr>, parts: seq<seq<byte>>, file: seq<byte>, m: map<nat, byte>,
                        at: nat, entry: nat, starter: seq<byte>, i: nat, a: nat)
    requires DisjointInMemory(ps) && InPlace(ps, parts, file) && Describes(ps, parts, m)
    requires at + |starter| <= |file|
    requires i < |ps| && ps[i].HoldsAddress(a) && WriteHits(ps[i], at, entry, |starter|)
    ensures var loaded := LoadSegments(Overwrite(file, at, starter), ps);
      a in loaded && a in m && loaded[a] == WithStarter(m, entry, starter)[a]
  {
    assert PartInPlace(ps[i], parts[i], file) && PartDescribes(ps[i], parts[i], m);
    OverwrittenByte(ps[i], parts[i], file, m, at, entry, starter, a);
    InPlaceInFile(ps, parts, file);
    LoadedAt(Overwrite(file, at, starter), ps, i, a);
  }
}
