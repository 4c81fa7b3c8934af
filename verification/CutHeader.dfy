/** A program header of which only the first bytes are known: what it may turn out
    to be, decided from those bytes. */
module CutHeader {
  import opened Arith
  import opened Bytes
  import opened Elf
  import opened InjectStarter

  /** The header covers the entry point and leads to a place where `n` bytes fit
      into a file of this size. */
  predicate Leads(p: Phdr, entry: nat, n: nat, size: nat) {
    && Covers(p, entry)
    && 0 < entry - p.vaddr + p.offset
    && n + (entry - p.vaddr + p.offset) <= size
  }

  /** Some continuation of the bytes is a header that leads into the file. */
  ghost predicate CanLead(b: seq<byte>, entry: nat, n: nat, size: nat)
    requires |b| <= PHDR_SIZE
  {
    exists rest: seq<byte> :: |b + rest| == PHDR_SIZE && Leads(DecodePhdr(b + rest), entry, n, size)
  }

  /** Some continuation is a header that does not cover the entry point. */
  ghost predicate CanMiss(b: seq<byte>, entry: nat)
    requires |b| <= PHDR_SIZE
  {
    exists rest: seq<byte> :: |b + rest| == PHDR_SIZE && !Covers(DecodePhdr(b + rest), entry)
  }

  function Fill(c: byte, n: nat): (s: seq<byte>)
    ensures |s| == n
  {
    seq<byte>(n, _ => c)
  }

  // ------------------------------------------------------ Numbers by their bytes

  lemma {:induction false} DecodeSplit(a: seq<byte>, b: seq<byte>)
    ensures DecodeLE(a + b) == DecodeLE(a) + Pow256(|a|) * DecodeLE(b)
  {
    if a == [] {
      assert a + b == b;
    } else {
      DecodeSplit(a[1..], b);
      assert (a + b)[1..] == a[1..] + b;
      Associate(256, Pow256(|a| - 1), DecodeLE(b));
    }
  }

  lemma {:induction false} DecodeMonotone(a: seq<byte>, b: seq<byte>)
    requires |a| == |b| && forall i :: 0 <= i < |a| ==> a[i] <= b[i]
    ensures DecodeLE(a) <= DecodeLE(b)
  {
    if a != [] { DecodeMonotone(a[1..], b[1..]); }
  }

  lemma {:induction false} DecodeZero(a: seq<byte>)
    ensures DecodeLE(a) == 0 <==> forall i :: 0 <= i < |a| ==> a[i] == 0
  {
    if a != [] {
      DecodeZero(a[1..]);
      assert forall i :: 0 < i < |a| ==> a[i] == a[1..][i - 1];
    }
  }

  lemma DecodeOne(a: seq<byte>)
    requires a != []
    ensures DecodeLE(a) == 1 <==> a[0] == 1 && forall i :: 0 < i < |a| ==> a[i] == 0
  {
    DecodeZero(a[1..]);
    assert forall i :: 0 < i < |a| ==> a[i] == a[1..][i - 1];
  }

  // --------------------------------------------------------- Passing it over

  /** Exactly when it may be passed over: if zeros complete it to a header that
      does not cover the entry point. */
  lemma CanMissIff(b: seq<byte>, entry: nat)
    requires |b| <= PHDR_SIZE
    ensures CanMiss(b, entry) <==> !Covers(DecodePhdr(b + Fill(0, PHDR_SIZE - |b|)), entry)
  {
    var zeros := Fill(0, PHDR_SIZE - |b|);
    if rest: seq<byte> :| |b + rest| == PHDR_SIZE && !Covers(DecodePhdr(b + rest), entry) {
      if Covers(DecodePhdr(b + zeros), entry) {
        CoversStill(b, rest, entry);
      }
    }
    assert |b + zeros| == PHDR_SIZE;
  }

  /** If zeros complete it to a header that covers the entry point, everything
      does: type and address are known, and the size is least. */
  lemma CoversStill(b: seq<byte>, rest: seq<byte>, entry: nat)
    requires |b + rest| == PHDR_SIZE && Covers(DecodePhdr(b + Fill(0, PHDR_SIZE - |b|)), entry)
    ensures Covers(DecodePhdr(b + rest), entry)
  {
    var s, t := b + Fill(0, PHDR_SIZE - |b|), b + rest;
    PhdrFormat(s);
    PhdrFormat(t);
    if |b| <= 40 { NoSize(b); }
    assert s[0..4] == t[0..4] && s[16..24] == t[16..24];
    DecodeMonotone(s[40..48], t[40..48]);
  }

  /** Up to 40 known bytes, zeros leave no size. */
  lemma NoSize(b: seq<byte>)
    requires |b| <= 40
    ensures DecodePhdr(b + Fill(0, PHDR_SIZE - |b|)).memsz == 0
  {
    var s := b + Fill(0, PHDR_SIZE - |b|);
    PhdrFormat(s);
    DecodeZero(s[40..48]);
    assert forall i :: 0 <= i < 8 ==> s[40..48][i] == s[40 + i] == 0;
  }

  // ---------------------------------------------------------- Following it

  /** The known bytes of p_type allow PT_LOAD. */
  predicate TypeFits(b: seq<byte>) {
    forall i :: 0 <= i < |b| && i < 4 ==> b[i] == if i == 0 then 1 else 0
  }

  /** What decides whether it may lead into a file with `room` bytes in front of
      the last place. Up to 16 bytes p_vaddr is free; up to 24 its high bytes are,
      so the distance from it to the entry point is known modulo a power of 256;
      then everything but the size is known. */
  predicate MayLead(b: seq<byte>, entry: nat, n: nat, size: nat)
    requires |b| <= PHDR_SIZE
  {
    var room := size - n;
    if |b| >= 24 then Leads(DecodePhdr(b + Fill(255, PHDR_SIZE - |b|)), entry, n, size)
    else if |b| > 16 then
      var offset, low, unit := DecodeLE(b[8..16]), DecodeLE(b[16..]), Pow256(|b| - 16);
      TypeFits(b) && low <= entry &&
      var d := (entry - low) % unit;
      if d + offset > 0 then d + offset <= room else unit <= entry - low && unit <= room
    else
      var known := if |b| <= 8 then [] else b[8..];
      var low := DecodeLE(known);
      TypeFits(b) && low <= room && 
      (low > 0 || (entry > 0 && room > 0) || (|b| < 16 && Pow256(|known|) <= room))
  }

  lemma TypeKnown(b: seq<byte>, rest: seq<byte>)
    requires |b + rest| == PHDR_SIZE && DecodePhdr(b + rest).ptype == 1
    ensures TypeFits(b)
  {
    var s := b + rest;
    PhdrFormat(s);
    DecodeOne(s[0..4]);
    forall i | 0 <= i < |b| && i < 4 ensures b[i] == if i == 0 then 1 else 0 {
      assert b[i] == s[i] == s[0..4][i];
    }
  }

  /** With 24 bytes the greatest size decides. */
  lemma LongNecessary(b: seq<byte>, rest: seq<byte>, entry: nat, n: nat, size: nat)
    requires |b| >= 24 && |b + rest| == PHDR_SIZE && Leads(DecodePhdr(b + rest), entry, n, size)
    ensures Leads(DecodePhdr(b + Fill(255, PHDR_SIZE - |b|)), entry, n, size)
  {
    var s, t := b + rest, b + Fill(255, PHDR_SIZE - |b|);
    PhdrFormat(s);
    PhdrFormat(t);
    assert s[0..4] == t[0..4] && s[8..16] == t[8..16] && s[16..24] == t[16..24];
    DecodeMonotone(s[40..48], t[40..48]);
  }

  lemma MiddleNecessary(b: seq<byte>, rest: seq<byte>, entry: nat, n: nat, size: nat)
    requires 16 < |b| < 24 && |b + rest| == PHDR_SIZE && Leads(DecodePhdr(b + rest), entry, n, size)
    ensures MayLead(b, entry, n, size)
  {
    var s := b + rest;
    PhdrFormat(s);
    TypeKnown(b, rest);
    var x, unit := rest[..24 - |b|], Pow256(|b| - 16);
    assert s[16..24] == b[16..] + x && s[8..16] == b[8..16];
    DecodeSplit(b[16..], x);
    DistanceKnown(entry, DecodeLE(b[16..]), unit, DecodeLE(x));
  }

  /** A distance below `entry - low` in steps of `unit`. */
  lemma DistanceKnown(entry: nat, low: nat, unit: nat, x: nat)
    requires unit > 0 && low + unit * x <= entry
    ensures low <= entry
    ensures var d := entry - (low + unit * x);
      && (entry - low) % unit <= d && (d % unit == (entry - low) % unit)
      && (0 < d && (entry - low) % unit == 0 ==> unit <= d <= entry - low)
  {
    MulGrows(unit, x);
    var d := entry - (low + unit * x);
    DivModUnique(unit * x, unit, x, 0);
    ModPlusMultiple(d, unit * x, unit);
    if 0 < d < unit { DivModUnique(d, unit, 0, d); }
  }

  lemma ShortNecessary(b: seq<byte>, rest: seq<byte>, entry: nat, n: nat, size: nat)
    requires |b| <= 16 && |b + rest| == PHDR_SIZE && Leads(DecodePhdr(b + rest), entry, n, size)
    ensures MayLead(b, entry, n, size)
  {
    var s := b + rest;
    PhdrFormat(s);
    TypeKnown(b, rest);
    var known := if |b| <= 8 then [] else b[8..];
    var x := s[8 + |known|..16];
    assert s[8..16] == known + x;
    DecodeSplit(known, x);
    if DecodeLE(x) > 0 {
      Distribute(Pow256(|known|), DecodeLE(x) - 1, 1);
      MulGrows(Pow256(|known|), DecodeLE(x) - 1);
    }
  }

  /** The bytes with 16 known ones: address and greatest size at will. */
  function WithAddress(b: seq<byte>, vaddr: nat): (s: seq<byte>)
    requires |b| == 16
    ensures |s| == PHDR_SIZE && b <= s
  {
    b + EncodeLE(vaddr, 8) + Fill(0, 16) + Fill(255, 8) + Fill(0, 8)
  }

  lemma GreatestSize()
    ensures DecodeLE(Fill(255, 8)) == TWO64 - 1
  {
    var f := Fill(255, 8);
    AllOnes(f);
    WidthLimits();
  }

  lemma {:induction false} AllOnes(f: seq<byte>)
    requires forall i :: 0 <= i < |f| ==> f[i] == 255
    ensures DecodeLE(f) == Pow256(|f|) - 1
  {
    if f != [] { AllOnes(f[1..]); }
  }

  lemma WithAddressLeads(b: seq<byte>, vaddr: nat, entry: nat, n: nat, size: nat)
    requires |b| == 16 && TypeFits(b) && vaddr <= entry < TWO64 && entry - vaddr < TWO64 - 1
    requires 0 < entry - vaddr + DecodeLE(b[8..]) <= size - n
    ensures Leads(DecodePhdr(WithAddress(b, vaddr)), entry, n, size)
  {
    var s := WithAddress(b, vaddr);
    PhdrFormat(s);
    assert s[8..16] == b[8..];
    assert s[16..24] == EncodeLE(vaddr, 8);
    assert s[40..48] == Fill(255, 8);
    GreatestSize();
    DecodeEncode(vaddr, 8);
    WidthLimits();
    DivModUnique(vaddr, TWO64, 0, vaddr);
    DecodeOne(s[0..4]);
    assert forall i :: 0 <= i < 4 ==> s[0..4][i] == b[i];
  }

  /** Up to 16 bytes: complete them to 16, with the least offset that will do. */
  lemma ShortSufficient(b: seq<byte>, entry: nat, n: nat, size: nat)
    requires |b| <= 16 && entry < TWO64 && MayLead(b, entry, n, size)
    ensures CanLead(b, entry, n, size)
  {
    var type8: seq<byte> := [1, 0, 0, 0, 0, 0, 0, 0];
    var front := if |b| <= 8 then b + type8[|b|..] else b;
    assert TypeFits(front) by {
      assert forall i :: 0 <= i < 4 && i < |front| ==> front[i] == if i < |b| then b[i] else type8[i];
    }
    assert front[8..] == if |b| <= 8 then [] else b[8..];
    var low := DecodeLE(front[8..]);
    var t := if low == 0 && entry == 0 then 1 else 0;
    var vaddr := if low == 0 && entry > 0 then entry - 1 else entry;
    WithOffset(front, t);
    FollowsFromSixteen(b, front + EncodeLE(t, 16 - |front|), vaddr, entry, n, size);
  }

  /** Completed with the number `t` behind what is known of the offset. */
  lemma WithOffset(front: seq<byte>, t: nat)
    requires 8 <= |front| <= 16 && TypeFits(front) && t <= 1 && (|front| == 16 ==> t == 0)
    ensures var b16 := front + EncodeLE(t, 16 - |front|);
      TypeFits(b16) && DecodeLE(b16[8..]) == DecodeLE(front[8..]) + Pow256(|front| - 8) * t
  {
    var more := EncodeLE(t, 16 - |front|);
    assert (front + more)[8..] == front[8..] + more;
    DecodeSplit(front[8..], more);
    DecodeEncode(t, 16 - |front|);
    SmallKept(t, 16 - |front|);
  }

  lemma SmallKept(t: nat, w: nat)
    requires t <= 1 && (w == 0 ==> t == 0)
    ensures t % Pow256(w) == t
  {
    if w > 0 {
      assert Pow256(w) == 256 * Pow256(w - 1);
      DivModUnique(t, Pow256(w), 0, t);
    }
  }

  lemma FollowsFromSixteen(b: seq<byte>, b16: seq<byte>, vaddr: nat, entry: nat, n: nat, size: nat)
    requires |b16| == 16 && b <= b16 && TypeFits(b16) && vaddr <= entry < TWO64 && entry - vaddr < TWO64 - 1
    requires 0 < entry - vaddr + DecodeLE(b16[8..]) <= size - n
    ensures CanLead(b, entry, n, size)
  {
    WithAddressLeads(b16, vaddr, entry, n, size);
    var s := WithAddress(b16, vaddr);
    assert b + s[|b|..] == s;
  }

  /** Between 16 and 24 bytes: the greatest address that is possible, or one step
      below it. */
  lemma MiddleSufficient(b: seq<byte>, entry: nat, n: nat, size: nat)
    requires 16 < |b| < 24 && entry < TWO64 && MayLead(b, entry, n, size)
    ensures CanLead(b, entry, n, size)
  {
    var low, unit := DecodeLE(b[16..]), Pow256(|b| - 16);
    var d0 := (entry - low) % unit;
    var d := if d0 + DecodeLE(b[8..16]) > 0 then d0 else unit;
    UnitBound(|b| - 16);
    var q := StepsBelow(entry - low, unit, d);
    AddressLeads(b, entry - d, q, entry, n, size);
  }

  /** How many steps of `unit` lead to the distance `d`. */
  lemma StepsBelow(x: nat, unit: nat, d: nat) returns (q: nat)
    requires unit > 0 && (d == x % unit || (d == unit <= x && x % unit == 0))
    ensures d <= x && x - d == unit * q
  {
    if d == x % unit {
      q := x / unit;
    } else {
      Distribute(unit, x / unit, -1);
      q := x / unit - 1;
    }
  }

  lemma AddressLeads(b: seq<byte>, vaddr: nat, q: nat, entry: nat, n: nat, size: nat)
    requires 16 < |b| < 24 && TypeFits(b) && vaddr <= entry < TWO64 && entry - vaddr < TWO64 - 1
    requires vaddr == DecodeLE(b[16..]) + Pow256(|b| - 16) * q
    requires 0 < entry - vaddr + DecodeLE(b[8..16]) <= size - n
    ensures CanLead(b, entry, n, size)
  {
    HighBytes(b, vaddr, q);
    var b16 := b[..16];
    assert b16[8..] == b[8..16];
    WithAddressLeads(b16, vaddr, entry, n, size);
    var s := WithAddress(b16, vaddr);
    StartsWith(b, vaddr);
    assert b + s[|b|..] == s;
  }

  lemma StartsWith(b: seq<byte>, vaddr: nat)
    requires 16 < |b| < 24 && EncodeLE(vaddr, 8)[..|b| - 16] == b[16..]
    ensures b <= WithAddress(b[..16], vaddr)
  {
    var front := b[..16] + EncodeLE(vaddr, 8);
    assert front <= WithAddress(b[..16], vaddr);
    assert front[..|b|] == b[..16] + EncodeLE(vaddr, 8)[..|b| - 16] == b;
  }

  lemma UnitBound(m: nat)
    requires m < 8
    ensures Pow256(m) < TWO64 - 1
  {
    Pow256Add(m, 8 - m);
    WidthLimits();
    assert Pow256(8 - m) == 256 * Pow256(7 - m);
    MulGrows(Pow256(m), Pow256(8 - m) - 2);
    Distribute(Pow256(m), Pow256(8 - m) - 2, 2);
  }

  /** An address whose low bytes are the known ones is encoded with them. */
  lemma HighBytes(b: seq<byte>, vaddr: nat, q: nat)
    requires 16 < |b| < 24 && vaddr == DecodeLE(b[16..]) + Pow256(|b| - 16) * q
    ensures EncodeLE(vaddr, 8)[..|b| - 16] == b[16..]
  {
    EncodePrefix(b[16..], q, 8);
  }

  lemma {:induction false} EncodePrefix(known: seq<byte>, q: nat, w: nat)
    requires |known| <= w
    ensures EncodeLE(DecodeLE(known) + Pow256(|known|) * q, w)[..|known|] == known
  {
    if known != [] {
      var v := DecodeLE(known) + Pow256(|known|) * q;
      var rest := DecodeLE(known[1..]) + Pow256(|known| - 1) * q;
      Associate(256, Pow256(|known| - 1), q);
      DivModUnique(v, 256, rest, known[0]);
      EncodePrefix(known[1..], q, w - 1);
      assert EncodeLE(v, w) == [known[0]] + EncodeLE(rest, w - 1);
      assert ([known[0]] + EncodeLE(rest, w - 1))[..|known|] == [known[0]] + EncodeLE(rest, w - 1)[..|known| - 1];
    }
  }

  /** The bytes decide exactly. */
  lemma CanLeadIff(b: seq<byte>, entry: nat, n: nat, size: nat)
    requires |b| <= PHDR_SIZE && entry < TWO64
    ensures CanLead(b, entry, n, size) <==> MayLead(b, entry, n, size)
  {
    if rest: seq<byte> :| |b + rest| == PHDR_SIZE && Leads(DecodePhdr(b + rest), entry, n, size) {
      if |b| >= 24 {
        LongNecessary(b, rest, entry, n, size);
      } else if |b| > 16 {
        MiddleNecessary(b, rest, entry, n, size);
      } else {
        ShortNecessary(b, rest, entry, n, size);
      }
    }
    if MayLead(b, entry, n, size) {
      if |b| >= 24 {
        assert |b + Fill(255, PHDR_SIZE - |b|)| == PHDR_SIZE;
      } else if |b| > 16 {
        MiddleSufficient(b, entry, n, size);
      } else {
        ShortSufficient(b, entry, n, size);
      }
    }
  }

  lemma LeadingBytes(b: seq<byte>, entry: nat, n: nat, size: nat) returns (bytes: seq<byte>)
    requires |b| <= PHDR_SIZE && entry < TWO64 && MayLead(b, entry, n, size)
    ensures b <= bytes && |bytes| == PHDR_SIZE && Leads(DecodePhdr(bytes), entry, n, size)
  {
    CanLeadIff(b, entry, n, size);
    var rest: seq<byte> :| |b + rest| == PHDR_SIZE && Leads(DecodePhdr(b + rest), entry, n, size);
    bytes := b + rest;
  }
}
