/** The program header table of the output (src/non_pt_load.c:118-173, 442-480):
    finding the alignment, counting, and combining the headers of the executable
    with those of the snapshot. */
module HeaderMerge {
  import opened Arith
  import opened Elf
  import opened Relocation

  /** Index of the first PT_LOAD header, or the length. */
  function FirstLoad(ps: seq<Phdr>): (f: nat)
    ensures f <= |ps|
    ensures f < |ps| ==> ps[f].ptype == PT_LOAD
    ensures forall k :: 0 <= k < f ==> ps[k].ptype != PT_LOAD
  {
    FirstIndex(ps, (p: Phdr) => p.ptype == PT_LOAD)
  }

  /** Alignment of the first PT_LOAD segment, at most a page; 0 without one. */
  function LoadAlign(ps: seq<Phdr>, page: nat): nat {
    var f := FirstLoad(ps);
    if f == |ps| then 0 else Min(ps[f].align, page)
  }

  method FindAlign(phdrs: array<Phdr>, page: nat) returns (align: nat)
    ensures align == LoadAlign(phdrs[..], page)
    ensures forall f :: 0 <= f < phdrs.Length && phdrs[f].ptype == 1
                        && (forall k :: 0 <= k < f ==> phdrs[k].ptype != 1) ==>
              align == if phdrs[f].align < page then phdrs[f].align else page
    ensures (forall k :: 0 <= k < phdrs.Length ==> phdrs[k].ptype != 1) ==> align == 0
  {
    align := 0;
    for i := 0 to phdrs.Length
      invariant align == 0 && forall k :: 0 <= k < i ==> phdrs[k].ptype != PT_LOAD
    {
      if phdrs[i].ptype == PT_LOAD {
        assert FirstLoad(phdrs[..]) == i;
        align := phdrs[i].align;
        if align > page { align := page; }
        break;
      }
    }
  }

  /** Headers that are carried over from the executable. */
  predicate CarriedOver(p: Phdr) {
    p.ptype != PT_LOAD && p.ptype != PT_INTERP && p.ptype != PT_PHDR
  }

  function Filter(ps: seq<Phdr>, keep: Phdr -> bool): (r: seq<Phdr>)
    ensures |r| <= |ps|
  {
    if ps == [] then []
    else
      var last := ps[|ps| - 1];
      Filter(ps[..|ps| - 1], keep) + if keep(last) then [last] else []
  }

  function Others(ps: seq<Phdr>): seq<Phdr> {
    Filter(ps, CarriedOver)
  }

  function IsLoad(p: Phdr): bool {
    p.ptype == PT_LOAD
  }

  function Loads(ps: seq<Phdr>): seq<Phdr> {
    Filter(ps, IsLoad)
  }

  lemma FilterStep(ps: seq<Phdr>, keep: Phdr -> bool, i: nat)
    requires i < |ps|
    ensures Filter(ps[..i + 1], keep) == Filter(ps[..i], keep) + if keep(ps[i]) then [ps[i]] else []
  {
    assert ps[..i + 1][..i] == ps[..i];
  }

  lemma {:induction false} FilterConcat(a: seq<Phdr>, b: seq<Phdr>, keep: Phdr -> bool)
    ensures Filter(a + b, keep) == Filter(a, keep) + Filter(b, keep)
  {
    if b == [] {
      assert a + b == a;
    } else {
      FilterConcat(a, b[..|b| - 1], keep);
      assert (a + b)[..|a + b| - 1] == a + b[..|b| - 1];
    }
  }

  lemma LoadsSnoc(init: seq<Phdr>, last: Phdr)
    ensures Loads(init + [last]) == if last.ptype == PT_LOAD then Loads(init) + [last] else Loads(init)
  {
    assert (init + [last])[..|init|] == init;
  }

  lemma {:induction false} FilterAll(a: seq<Phdr>, keep: Phdr -> bool)
    requires forall k :: 0 <= k < |a| ==> keep(a[k])
    ensures Filter(a, keep) == a
  {
    if a != [] { FilterAll(a[..|a| - 1], keep); }
  }

  lemma {:induction false} FilterNone(a: seq<Phdr>, keep: Phdr -> bool)
    requires forall k :: 0 <= k < |a| ==> !keep(a[k])
    ensures Filter(a, keep) == []
  {
    if a != [] { FilterNone(a[..|a| - 1], keep); }
  }

  lemma {:induction false} FilterMembers(a: seq<Phdr>, keep: Phdr -> bool)
    ensures forall k :: 0 <= k < |Filter(a, keep)| ==> keep(Filter(a, keep)[k]) && Filter(a, keep)[k] in a
  {
    if a != [] {
      var n := |a| - 1;
      FilterMembers(a[..n], keep);
      assert forall p :: p in a[..n] ==> p in a;
    }
  }

  /** Header `i` of a table is found among those that are kept, behind the kept
      ones in front of it. */
  lemma {:induction false} FilterThere(a: seq<Phdr>, b: seq<Phdr>, keep: Phdr -> bool, i: nat)
    requires |a| == |b| && i < |a| && keep(a[i])
    requires forall k :: 0 <= k < |a| ==> (keep(a[k]) <==> keep(b[k]))
    ensures |Filter(a, keep)| == |Filter(b, keep)|
    ensures |Filter(a[..i], keep)| < |Filter(b, keep)| && Filter(b, keep)[|Filter(a[..i], keep)|] == b[i]
  {
    var n := |a| - 1;
    if i < n {
      FilterThere(a[..n], b[..n], keep, i);
      assert a[..n][..i] == a[..i];
    } else {
      FilterSizes(a[..n], b[..n], keep);
    }
  }

  lemma {:induction false} FilterSizes(a: seq<Phdr>, b: seq<Phdr>, keep: Phdr -> bool)
    requires |a| == |b| && forall k :: 0 <= k < |a| ==> (keep(a[k]) <==> keep(b[k]))
    ensures |Filter(a, keep)| == |Filter(b, keep)|
  {
    if a != [] { FilterSizes(a[..|a| - 1], b[..|b| - 1], keep); }
  }

  /** A header as it is read back after it was written. */
  function Stored(p: Phdr): Phdr {
    DecodePhdr(EncodePhdr(p))
  }

  /** Writing a table and reading it back keeps the order of the kept headers. */
  lemma {:induction false} FilterStored(a: seq<Phdr>, b: seq<Phdr>, keep: Phdr -> bool, t: nat)
    requires |a| == |b| && forall k :: 0 <= k < |a| ==> b[k] == Stored(a[k]) && (keep(a[k]) <==> keep(b[k]))
    requires t < |Filter(a, keep)|
    ensures t < |Filter(b, keep)| && Filter(b, keep)[t] == Stored(Filter(a, keep)[t])
  {
    var n := |a| - 1;
    FilterSizes(a[..n], b[..n], keep);
    if t < |Filter(a[..n], keep)| {
      FilterStored(a[..n], b[..n], keep, t);
    }
  }

  method CountOthers(phdrs: array<Phdr>) returns (n: nat)
    ensures n == |Others(phdrs[..])|
  {
    n := 0;
    for i := 0 to phdrs.Length
      invariant n == |Others(phdrs[..i])|
    {
      FilterStep(phdrs[..], CarriedOver, i);
      assert phdrs[..][..i] == phdrs[..i] && phdrs[..][..i + 1] == phdrs[..i + 1];
      match phdrs[i].ptype
      case 1 =>
      case 3 =>
      case 6 =>
      case _ => n := n + 1;
    }
    assert phdrs[..phdrs.Length] == phdrs[..];
  }

  /** The snapshot block takes the place of the first PT_LOAD header. */
  function Merge(ps: seq<Phdr>, pls: seq<Phdr>): seq<Phdr> {
    var f := FirstLoad(ps);
    if f == |ps| then Others(ps) else Others(ps[..f]) + pls + Others(ps[f..])
  }

  /** The table after the first `i` headers of the executable. */
  function MergeUpTo(ps: seq<Phdr>, pls: seq<Phdr>, i: nat): seq<Phdr>
    requires i <= |ps|
  {
    var f := FirstLoad(ps);
    if i <= f then Others(ps[..i]) else Others(ps[..f]) + pls + Others(ps[f..i])
  }

  lemma MergeStep(ps: seq<Phdr>, pls: seq<Phdr>, i: nat)
    requires i < |ps|
    ensures MergeUpTo(ps, pls, i + 1) == MergeUpTo(ps, pls, i) +
            if i == FirstLoad(ps) then pls else if CarriedOver(ps[i]) then [ps[i]] else []
  {
    var f := FirstLoad(ps);
    if i < f {
      FilterStep(ps, CarriedOver, i);
    } else {
      FilterStep(ps[f..], CarriedOver, i - f);
      assert ps[f..][..i - f] == ps[f..i] && ps[f..][..i - f + 1] == ps[f..i + 1];
      if i == f { assert ps[f..f] == []; }
    }
  }

  lemma MergeStepGrows(ps: seq<Phdr>, pls: seq<Phdr>, i: nat)
    requires i < |ps|
    ensures MergeUpTo(ps, pls, i) <= MergeUpTo(ps, pls, i + 1)
  {
    MergeStep(ps, pls, i);
  }

  /** Each table begins with every earlier one, so the writes stay in bounds. */
  lemma {:induction false} MergeGrows(ps: seq<Phdr>, pls: seq<Phdr>, i: nat, j: nat)
    requires i <= j <= |ps|
    ensures MergeUpTo(ps, pls, i) <= MergeUpTo(ps, pls, j)
    decreases j - i
  {
    if i < j {
      MergeStepGrows(ps, pls, i);
      MergeGrows(ps, pls, i + 1, j);
      PrefixOfPrefix(MergeUpTo(ps, pls, i), MergeUpTo(ps, pls, i + 1), MergeUpTo(ps, pls, j));
    }
  }

  lemma PrefixOfPrefix(a: seq<Phdr>, b: seq<Phdr>, c: seq<Phdr>)
    requires a <= b && b <= c
    ensures a <= c
  {
  }

  /** The count loop and the merge loop agree: the table has exactly the counted
      number of entries. */
  lemma MergeCount(ps: seq<Phdr>, pls: seq<Phdr>)
    requires FirstLoad(ps) < |ps|
    ensures |Merge(ps, pls)| == |pls| + |Others(ps)|
  {
    var f := FirstLoad(ps);
    FilterConcat(ps[..f], ps[f..], CarriedOver);
    assert ps[..f] + ps[f..] == ps;
  }

  /** The merge loop fills a table of the counted size, in order and completely. */
  method MergeHeaders(phdrs: array<Phdr>, pls: array<Phdr>, table: array<Phdr>)
    requires FirstLoad(phdrs[..]) < phdrs.Length
    requires table.Length == pls.Length + |Others(phdrs[..])|
    requires table != phdrs && table != pls
    modifies table
    ensures table[..] == Merge(phdrs[..], pls[..])
  {
    ghost var ps, ls := phdrs[..], pls[..];
    MergeCount(ps, ls);
    assert MergeUpTo(ps, ls, |ps|) == Merge(ps, ls) by { assert ps[FirstLoad(ps)..|ps|] == ps[FirstLoad(ps)..]; }
    var used := 0;
    var firstLoad := true;
    for i := 0 to phdrs.Length
      invariant 0 <= used <= table.Length
      invariant table[..used] == MergeUpTo(ps, ls, i)
      invariant firstLoad <==> i <= FirstLoad(ps)
    {
      MergeStep(ps, ls, i);
      MergeGrows(ps, ls, i + 1, |ps|);
      var t := phdrs[i].ptype;
      assert t == ps[i].ptype;
      ghost var before := table[..used];
      if t == PT_LOAD {
        if firstLoad {
          firstLoad := false;
          forall k | 0 <= k < pls.Length {
            table[used + k] := pls[k];
          }
          assert table[..used + pls.Length] == before + ls;
          used := used + pls.Length;
        }
      } else if t != PT_INTERP && t != PT_PHDR {
        table[used] := phdrs[i];
        assert table[..used + 1] == before + [ps[i]];
        used := used + 1;
      }
    }
    assert table[..used] == table[..];
  }

  /** A block of snapshot segments between carried-over headers, read by kind. */
  lemma ReadByKind(a: seq<Phdr>, pls: seq<Phdr>, b: seq<Phdr>)
    requires forall k :: 0 <= k < |a| ==> CarriedOver(a[k])
    requires forall k :: 0 <= k < |b| ==> CarriedOver(b[k])
    requires forall k :: 0 <= k < |pls| ==> pls[k].ptype == PT_LOAD
    ensures Loads(a + pls + b) == pls && Others(a + pls + b) == a + b
  {
    FilterConcat(a + pls, b, IsLoad);
    FilterConcat(a, pls, IsLoad);
    FilterNone(a, IsLoad);
    FilterNone(b, IsLoad);
    FilterAll(pls, IsLoad);
    FilterConcat(a + pls, b, CarriedOver);
    FilterConcat(a, pls, CarriedOver);
    FilterAll(a, CarriedOver);
    FilterAll(b, CarriedOver);
    FilterNone(pls, CarriedOver);
  }

  /** Nothing is lost, duplicated or reordered: read off by kind, the table holds
      exactly the snapshot's segments and exactly the carried-over headers. */
  lemma MergeConserves(ps: seq<Phdr>, pls: seq<Phdr>)
    requires FirstLoad(ps) < |ps|
    requires forall k :: 0 <= k < |pls| ==> pls[k].ptype == PT_LOAD
    ensures Loads(Merge(ps, pls)) == pls
    ensures Others(Merge(ps, pls)) == Others(ps)
    ensures |Merge(ps, pls)| == |pls| + |Others(ps)|
  {
    var f := FirstLoad(ps);
    FilterMembers(ps[..f], CarriedOver);
    FilterMembers(ps[f..], CarriedOver);
    ReadByKind(Others(ps[..f]), pls, Others(ps[f..]));
    FilterConcat(ps[..f], ps[f..], CarriedOver);
    assert ps[..f] + ps[f..] == ps;
  }

  /** The snapshot's segments form one block, behind exactly the carried-over
      headers that preceded the first PT_LOAD header. */
  lemma MergeBlock(ps: seq<Phdr>, pls: seq<Phdr>)
    requires FirstLoad(ps) < |ps|
    ensures var n := |Others(ps[..FirstLoad(ps)])|;
      && n + |pls| <= |Merge(ps, pls)|
      && Merge(ps, pls)[n..n + |pls|] == pls
      && Merge(ps, pls)[..n] + Merge(ps, pls)[n + |pls|..] == Others(ps)
  {
    var f := FirstLoad(ps);
    FilterConcat(ps[..f], ps[f..], CarriedOver);
    assert ps[..f] + ps[f..] == ps;
  }

  // --------------------------------------------------- The table, by types

  /** How many of the first `i` headers are of types other than PT_LOAD, PT_INTERP
      and PT_PHDR. */
  function OthersBefore(ps: seq<Phdr>, i: nat): nat
    requires i <= |ps|
  {
    if i == 0 then 0
    else
      var t := ps[i - 1].ptype;
      OthersBefore(ps, i - 1) + if t == 1 || t == 3 || t == 6 then 0 else 1
  }

  lemma {:induction false} CountedBefore(ps: seq<Phdr>, i: nat)
    requires i <= |ps|
    ensures |Others(ps[..i])| == OthersBefore(ps, i)
  {
    if i > 0 {
      CountedBefore(ps, i - 1);
      FilterStep(ps, CarriedOver, i - 1);
    } else {
      assert ps[..0] == [];
    }
  }

  lemma {:induction false} OtherAt(ps: seq<Phdr>, i: nat)
    requires i < |ps| && ps[i].ptype != 1 && ps[i].ptype != 3 && ps[i].ptype != 6
    ensures OthersBefore(ps, i) < |Others(ps)| && Others(ps)[OthersBefore(ps, i)] == ps[i]
  {
    FilterThere(ps, ps, CarriedOver, i);
    CountedBefore(ps, i);
  }

  /** Number `t` of these headers, found in the table. */
  lemma {:induction false} OtherNumbered(ps: seq<Phdr>, t: nat) returns (n: nat)
    requires t < |Others(ps)|
    ensures n < |ps| && ps[n] == Others(ps)[t] && OthersBefore(ps, n) == t
    ensures ps[n].ptype != 1 && ps[n].ptype != 3 && ps[n].ptype != 6
  {
    var last := |ps| - 1;
    if t < |Others(ps[..last])| {
      n := OtherNumbered(ps[..last], t);
      OthersBeforePrefix(ps, last, n);
    } else {
      n := last;
      CountedBefore(ps, last);
    }
  }

  lemma OthersTypes(ps: seq<Phdr>)
    ensures forall k :: 0 <= k < |Others(ps)| ==>
              var t := Others(ps)[k].ptype; t != 1 && t != 3 && t != 6
  {
    FilterMembers(ps, CarriedOver);
  }

  lemma {:induction false} OthersBeforeSplit(ps: seq<Phdr>, f: nat, i: nat)
    requires f <= i <= |ps|
    ensures OthersBefore(ps, i) == OthersBefore(ps, f) + OthersBefore(ps[f..], i - f)
    decreases i
  {
    if f < i { OthersBeforeSplit(ps, f, i - 1); }
  }

  lemma {:induction false} OthersBeforePrefix(ps: seq<Phdr>, f: nat, i: nat)
    requires i <= f <= |ps|
    ensures OthersBefore(ps[..f], i) == OthersBefore(ps, i)
    decreases i
  {
    if i > 0 { OthersBeforePrefix(ps, f, i - 1); }
  }

  /** The table in terms of types: no PT_INTERP, no PT_PHDR ... */
  lemma MergedTypes(ps: seq<Phdr>, pls: seq<Phdr>, l: nat)
    requires l < |ps| && ps[l].ptype == 1 && forall k :: 0 <= k < |pls| ==> pls[k].ptype == 1
    ensures |Merge(ps, pls)| == |pls| + OthersBefore(ps, |ps|)
    ensures forall k :: 0 <= k < |Merge(ps, pls)| ==> Merge(ps, pls)[k].ptype != 3 && Merge(ps, pls)[k].ptype != 6
  {
    var f := FirstLoad(ps);
    MergeCount(ps, pls);
    CountedBefore(ps, |ps|);
    assert ps[..|ps|] == ps;
    OthersTypes(ps[..f]);
    OthersTypes(ps[f..]);
  }

  /** ... the dumps in one block ... */
  lemma MergedDump(ps: seq<Phdr>, pls: seq<Phdr>, f: nat, k: nat, n: nat)
    requires f < |ps| && ps[f].ptype == 1 && forall l :: 0 <= l < f ==> ps[l].ptype != 1
    requires k < |pls| && n == OthersBefore(ps, f) + k
    ensures n < |Merge(ps, pls)| && Merge(ps, pls)[n] == pls[k]
  {
    assert FirstLoad(ps) == f;
    CountedBefore(ps, f);
  }

  /** ... and every header of another type once, in its order. */
  lemma MergedOther(ps: seq<Phdr>, pls: seq<Phdr>, f: nat, i: nat, n: nat)
    requires f < |ps| && ps[f].ptype == 1 && forall l :: 0 <= l < f ==> ps[l].ptype != 1
    requires i < |ps| && ps[i].ptype != 1 && ps[i].ptype != 3 && ps[i].ptype != 6
    requires n == OthersBefore(ps, i) + if i < f then 0 else |pls|
    ensures n < |Merge(ps, pls)| && Merge(ps, pls)[n] == ps[i]
  {
    assert FirstLoad(ps) == f;
    if i < f { MergedInFront(ps, pls, i); } else { MergedBehind(ps, pls, i); }
  }

  lemma MergedInFront(ps: seq<Phdr>, pls: seq<Phdr>, i: nat)
    requires i < FirstLoad(ps) < |ps| && ps[i].ptype != 1 && ps[i].ptype != 3 && ps[i].ptype != 6
    ensures OthersBefore(ps, i) < |Merge(ps, pls)| && Merge(ps, pls)[OthersBefore(ps, i)] == ps[i]
  {
    var f := FirstLoad(ps);
    OtherAt(ps[..f], i);
    OthersBeforePrefix(ps, f, i);
  }

  lemma MergedBehind(ps: seq<Phdr>, pls: seq<Phdr>, i: nat)
    requires FirstLoad(ps) <= i < |ps| && ps[i].ptype != 1 && ps[i].ptype != 3 && ps[i].ptype != 6
    ensures OthersBefore(ps, i) + |pls| < |Merge(ps, pls)| && Merge(ps, pls)[OthersBefore(ps, i) + |pls|] == ps[i]
  {
    var f := FirstLoad(ps);
    OtherAt(ps[f..], i - f);
    OthersBeforeSplit(ps, f, i);
    CountedBefore(ps, f);
    ThirdPart(Others(ps[..f]), pls, Others(ps[f..]), OthersBefore(ps[f..], i - f));
  }

  lemma ThirdPart(a: seq<Phdr>, b: seq<Phdr>, c: seq<Phdr>, k: nat)
    requires k < |c|
    ensures (a + b + c)[|a| + k + |b|] == c[k]
  {
  }
}
