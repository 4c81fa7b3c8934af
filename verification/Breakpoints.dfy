/** The breakpoint table over the debuggee's memory
    (src/my_gdb/breakpoints.c). */
module Breakpoints {
  import opened Arith
  import opened Bytes
  import opened Outcomes
  import opened Ptrace

  const MAX_BREAKPOINTS: nat := 1000
  const TRAP: byte := 0xCC

  datatype Breakpoint = Breakpoint(addr: nat, alignedAddr: nat, oldValue: Word, newValue: Word, active: bool)

  /** A slot of the static table before it is used. */
  const UNUSED: Breakpoint :=
    Breakpoint(0, 0, [0, 0, 0, 0, 0, 0, 0, 0], [0, 0, 0, 0, 0, 0, 0, 0], false)

  function Aligned(addr: nat): nat {
    addr - addr % 8
  }

  /** A used slot: both words of it as `original` memory has them. */
  ghost predicate Records(b: Breakpoint, original: map<nat, byte>) {
    && b.alignedAddr == Aligned(b.addr)
    && Mapped(original, b.alignedAddr)
    && b.oldValue == ReadWord(original, b.alignedAddr)
    && b.newValue == b.oldValue[b.addr - b.alignedAddr := TRAP]
  }

  ghost predicate Active(bps: seq<Breakpoint>, a: nat) {
    exists i :: 0 <= i < |bps| && bps[i].active && bps[i].addr == a
  }

  /** Memory is the original with the trap byte at exactly the active addresses. */
  ghost predicate Patched(mem: map<nat, byte>, original: map<nat, byte>, bps: seq<Breakpoint>) {
    && mem.Keys == original.Keys
    && forall a :: a in mem ==> mem[a] == if Active(bps, a) then TRAP else original[a]
  }

  ghost predicate DistinctWords(bps: seq<Breakpoint>) {
    forall i, j :: 0 <= i < j < |bps| ==> bps[i].alignedAddr != bps[j].alignedAddr
  }

  ghost predicate Consistent(mem: map<nat, byte>, original: map<nat, byte>, bps: seq<Breakpoint>) {
    && (forall i :: 0 <= i < |bps| ==> Records(bps[i], original))
    && DistinctWords(bps)
    && Patched(mem, original, bps)
  }

  lemma SameAligned(a: nat, b: nat)
    requires b % 8 == 0 && b <= a < b + 8
    ensures Aligned(a) == b
  {
  }

  lemma AlignedBelow(a: nat)
    ensures Aligned(a) % 8 == 0 && Aligned(a) <= a < Aligned(a) + 8
  {
  }

  /** No other breakpoint lies in the word of slot `i`. */
  lemma OnlyOne(original: map<nat, byte>, bps: seq<Breakpoint>, i: nat, j: nat, a: nat)
    requires (forall k :: 0 <= k < |bps| ==> Records(bps[k], original)) && DistinctWords(bps)
    requires i < |bps| && j < |bps| && bps[j].addr == a
    requires bps[i].alignedAddr <= a < bps[i].alignedAddr + 8
    ensures i == j
  {
    assert Records(bps[i], original) && Records(bps[j], original);
    AlignedBelow(bps[i].addr);
    SameAligned(a, bps[i].alignedAddr);
  }

  /** Only the byte of its own breakpoint differs between the words of a slot. */
  lemma OwnWord(b: Breakpoint, original: map<nat, byte>, a: nat)
    requires Records(b, original) && b.alignedAddr <= a < b.alignedAddr + 8
    ensures a in original
    ensures b.oldValue[a - b.alignedAddr] == original[a]
    ensures b.newValue[a - b.alignedAddr] == if a == b.addr then TRAP else original[a]
  {
    ReadWordAt(original, b.alignedAddr, a - b.alignedAddr);
  }

  /** The byte at `a` once slot `i` is switched. */
  lemma SwitchedByte(mem: map<nat, byte>, original: map<nat, byte>, bps: seq<Breakpoint>, i: nat, on: bool, a: nat)
    requires Consistent(mem, original, bps) && i < |bps| && a in mem
    ensures var b := bps[i];
      WriteWord(mem, b.alignedAddr, if on then b.newValue else b.oldValue)[a] ==
      if Active(bps[i := b.(active := on)], a) then TRAP else original[a]
  {
    var b := bps[i];
    var bps' := bps[i := b.(active := on)];
    assert Records(b, original);
    if b.alignedAddr <= a < b.alignedAddr + 8 {
      OwnWord(b, original, a);
      OwnByte(original, bps, bps', i, on, a);
    } else {
      AlignedBelow(b.addr);
      OtherByte(bps, bps', i, on, a);
    }
  }

  lemma SwitchKeepsSlots(original: map<nat, byte>, bps: seq<Breakpoint>, i: nat, on: bool)
    requires (forall k :: 0 <= k < |bps| ==> Records(bps[k], original)) && DistinctWords(bps) && i < |bps|
    ensures var bps' := bps[i := bps[i].(active := on)];
      (forall k :: 0 <= k < |bps'| ==> Records(bps'[k], original)) && DistinctWords(bps')
  {
    var bps' := bps[i := bps[i].(active := on)];
    forall k | 0 <= k < |bps'| ensures Records(bps'[k], original) {
      assert Records(bps[k], original);
    }
  }

  lemma SwitchPatches(mem: map<nat, byte>, original: map<nat, byte>, bps: seq<Breakpoint>, i: nat, on: bool)
    requires Consistent(mem, original, bps) && i < |bps|
    ensures var b := bps[i];
      Patched(WriteWord(mem, b.alignedAddr, if on then b.newValue else b.oldValue),
              original, bps[i := b.(active := on)])
  {
    forall a | a in mem
      ensures WriteWord(mem, bps[i].alignedAddr, if on then bps[i].newValue else bps[i].oldValue)[a] ==
              if Active(bps[i := bps[i].(active := on)], a) then TRAP else original[a]
    {
      SwitchedByte(mem, original, bps, i, on, a);
    }
  }

  /** Writing a slot's word switches that breakpoint and nothing else. */
  lemma SwitchKeepsConsistent(mem: map<nat, byte>, original: map<nat, byte>, bps: seq<Breakpoint>, i: nat, on: bool)
    requires Consistent(mem, original, bps) && i < |bps|
    ensures Mapped(mem, bps[i].alignedAddr)
    ensures Consistent(WriteWord(mem, bps[i].alignedAddr, if on then bps[i].newValue else bps[i].oldValue), original,
                       bps[i := bps[i].(active := on)])
  {
    assert Records(bps[i], original);
    SwitchKeepsSlots(original, bps, i, on);
    SwitchPatches(mem, original, bps, i, on);
  }

  lemma OwnByte(original: map<nat, byte>, bps: seq<Breakpoint>, bps': seq<Breakpoint>, i: nat, on: bool, a: nat)
    requires (forall k :: 0 <= k < |bps| ==> Records(bps[k], original)) && DistinctWords(bps)
    requires i < |bps| && bps' == bps[i := bps[i].(active := on)]
    requires bps[i].alignedAddr <= a < bps[i].alignedAddr + 8
    ensures Active(bps', a) <==> on && a == bps[i].addr
  {
    if Active(bps', a) {
      var j :| 0 <= j < |bps'| && bps'[j].active && bps'[j].addr == a;
      OnlyOne(original, bps, i, j, a);
    }
    if on && a == bps[i].addr { assert bps'[i].active && bps'[i].addr == a; }
  }

  lemma OtherByte(bps: seq<Breakpoint>, bps': seq<Breakpoint>, i: nat, on: bool, a: nat)
    requires i < |bps| && bps' == bps[i := bps[i].(active := on)] && bps[i].addr != a
    ensures Active(bps', a) <==> Active(bps, a)
  {
    if Active(bps, a) {
      var j :| 0 <= j < |bps| && bps[j].active && bps[j].addr == a;
      assert bps'[j].active && bps'[j].addr == a;
    }
    if Active(bps', a) {
      var j :| 0 <= j < |bps'| && bps'[j].active && bps'[j].addr == a;
      assert bps[j].active && bps[j].addr == a;
    }
  }

  /** The debuggee ran and left the words with breakpoints alone. */
  ghost predicate WordsKept(before: map<nat, byte>, after: map<nat, byte>, bps: seq<Breakpoint>) {
    forall i, a :: 0 <= i < |bps| && bps[i].alignedAddr <= a < bps[i].alignedAddr + 8 ==>
      a in before && a in after && after[a] == before[a]
  }

  /** Memory without the trap bytes. */
  ghost function Unpatched(mem: map<nat, byte>, original: map<nat, byte>, bps: seq<Breakpoint>): map<nat, byte> {
    map a | a in mem :: if Active(bps, a) && a in original then original[a] else mem[a]
  }

  lemma WordSurvives(before: map<nat, byte>, after: map<nat, byte>, original: map<nat, byte>,
                     bps: seq<Breakpoint>, i: nat, a: nat)
    requires Consistent(before, original, bps) && WordsKept(before, after, bps) && i < |bps|
    requires bps[i].alignedAddr <= a < bps[i].alignedAddr + 8
    ensures a in after && a in original && Unpatched(after, original, bps)[a] == original[a]
  {
    assert a in before && a in after && after[a] == before[a];
  }

  lemma RecordsSurvive(b: Breakpoint, original: map<nat, byte>, fresh_: map<nat, byte>)
    requires Records(b, original)
    requires forall a :: b.alignedAddr <= a < b.alignedAddr + 8 ==>
               a in fresh_ && a in original && fresh_[a] == original[a]
    ensures Records(b, fresh_)
  {
    assert ReadWord(fresh_, b.alignedAddr) == ReadWord(original, b.alignedAddr);
  }

  lemma RunKeepsRecords(before: map<nat, byte>, after: map<nat, byte>, original: map<nat, byte>, bps: seq<Breakpoint>,
                        i: nat)
    requires Consistent(before, original, bps) && WordsKept(before, after, bps) && i < |bps|
    ensures Records(bps[i], Unpatched(after, original, bps))
  {
    assert Records(bps[i], original);
    forall a | bps[i].alignedAddr <= a < bps[i].alignedAddr + 8
      ensures a in Unpatched(after, original, bps) && a in original && Unpatched(after, original, bps)[a] == original[a]
    {
      WordSurvives(before, after, original, bps, i, a);
    }
    RecordsSurvive(bps[i], original, Unpatched(after, original, bps));
  }

  lemma RunKeepsByte(before: map<nat, byte>, after: map<nat, byte>, original: map<nat, byte>, bps: seq<Breakpoint>,
                     a: nat)
    requires Consistent(before, original, bps) && WordsKept(before, after, bps) && a in after
    ensures after[a] == if Active(bps, a) then TRAP else Unpatched(after, original, bps)[a]
  {
    if Active(bps, a) {
      var i :| 0 <= i < |bps| && bps[i].active && bps[i].addr == a;
      assert Records(bps[i], original);
      AlignedBelow(a);
      WordSurvives(before, after, original, bps, i, a);
    }
  }

  /** While the debuggee runs it changes memory, but the table stays right for
      the memory it leaves. */
  lemma RunKeepsConsistent(before: map<nat, byte>, after: map<nat, byte>, original: map<nat, byte>,
                           bps: seq<Breakpoint>)
    requires Consistent(before, original, bps) && WordsKept(before, after, bps)
    ensures Consistent(after, Unpatched(after, original, bps), bps)
  {
    forall i | 0 <= i < |bps| ensures Records(bps[i], Unpatched(after, original, bps)) {
      RunKeepsRecords(before, after, original, bps, i);
    }
    forall a | a in after
      ensures after[a] == if Active(bps, a) then TRAP else Unpatched(after, original, bps)[a]
    {
      RunKeepsByte(before, after, original, bps, a);
    }
  }

  /** No slot lies in the word at `aligned`. */
  ghost predicate NewWord(bps: seq<Breakpoint>, aligned: nat) {
    forall i :: 0 <= i < |bps| ==> bps[i].alignedAddr != aligned
  }

  /** A fresh slot, not yet active, in a word of its own. */
  lemma AppendKeepsConsistent(mem: map<nat, byte>, original: map<nat, byte>, bps: seq<Breakpoint>, b: Breakpoint)
    requires Consistent(mem, original, bps) && Records(b, original) && !b.active
    requires NewWord(bps, b.alignedAddr)
    ensures Consistent(mem, original, bps + [b])
  {
    forall a | a in mem ensures Active(bps + [b], a) <==> Active(bps, a) {
      if Active(bps, a) {
        var j :| 0 <= j < |bps| && bps[j].active && bps[j].addr == a;
        assert (bps + [b])[j].active && (bps + [b])[j].addr == a;
      }
    }
  }

  /** With every breakpoint deactivated memory is the original, byte for byte. */
  lemma AllInactiveRestores(mem: map<nat, byte>, original: map<nat, byte>, bps: seq<Breakpoint>)
    requires Consistent(mem, original, bps)
    requires forall i :: 0 <= i < |bps| ==> !bps[i].active
    ensures mem == original
  {
  }

  /** The unpatched word behind an address, read while no breakpoint is in it. */
  lemma WordUntouched(mem: map<nat, byte>, original: map<nat, byte>, bps: seq<Breakpoint>, aligned: nat)
    requires Consistent(mem, original, bps) && Mapped(mem, aligned) && aligned % 8 == 0
    requires NewWord(bps, aligned)
    ensures Mapped(original, aligned) && ReadWord(original, aligned) == ReadWord(mem, aligned)
  {
    forall a | aligned <= a < aligned + 8 ensures a in original && original[a] == mem[a] {
      if Active(bps, a) {
        var j :| 0 <= j < |bps| && bps[j].active && bps[j].addr == a;
        assert Records(bps[j], original);
        SameAligned(a, aligned);
      }
    }
  }

  lemma WordsKeptAnywhere(bps: seq<Breakpoint>, bps': seq<Breakpoint>, before: map<nat, byte>, after: map<nat, byte>)
    requires |bps| == |bps'| && forall i :: 0 <= i < |bps| ==> bps[i].alignedAddr == bps'[i].alignedAddr
    requires WordsKept(before, after, bps)
    ensures WordsKept(before, after, bps')
  {
  }

  // ------------------------------------- Two breakpoints in one word

  /** The slot `breakpoint_add` fills in for `addr`. */
  function SlotFor(mem: map<nat, byte>, addr: nat): Breakpoint
    requires Mapped(mem, Aligned(addr))
  {
    var w := ReadWord(mem, Aligned(addr));
    Breakpoint(addr, Aligned(addr), w, w[addr % 8 := TRAP], true)
  }

  /** Byte by byte: a breakpoint puts 0xCC at its address and nothing else ... */
  lemma TrapAlone(mem: map<nat, byte>, addr: nat, word: nat, a: nat)
    requires word == addr - addr % 8 && (forall b :: word <= b < word + 8 ==> b in mem) && a in mem
    ensures Mapped(mem, Aligned(addr))
    ensures var trapped := WriteWord(mem, SlotFor(mem, addr).alignedAddr, SlotFor(mem, addr).newValue);
      trapped.Keys == mem.Keys && trapped[a] == if a == addr then 0xCC else mem[a]
  {
    if word <= a < word + 8 { ReadWordAt(mem, word, a - word); }
  }

  /** ... and taking it away again leaves memory as it was. */
  lemma TrapTakenAway(mem: map<nat, byte>, addr: nat, word: nat)
    requires word == addr - addr % 8 && forall b :: word <= b < word + 8 ==> b in mem
    ensures Mapped(mem, Aligned(addr))
    ensures var b := SlotFor(mem, addr);
      WriteWord(WriteWord(mem, b.alignedAddr, b.newValue), b.alignedAddr, b.oldValue) == mem
  {
    var b := SlotFor(mem, addr);
    assert b.alignedAddr == word && b.oldValue == ReadWord(mem, word);
    WriteTwice(mem, word, b.newValue, b.oldValue);
    WriteBack(mem, word);
  }

  /** Two breakpoints in one word, added one after the other: deactivated in the
      opposite order they restore memory; in the order they were added they do so
      exactly when the first address held the trap byte all along. */
  lemma SharedWordRestoredIff(mem: map<nat, byte>, a: nat, b: nat)
    requires a != b && Aligned(a) == Aligned(b) && Mapped(mem, Aligned(a))
    ensures var first := SlotFor(mem, a);
      var mem1 := WriteWord(mem, Aligned(a), first.newValue);
      && Mapped(mem1, Aligned(b))
      && var second := SlotFor(mem1, b);
         var mem2 := WriteWord(mem1, Aligned(b), second.newValue);
         && WriteWord(WriteWord(mem2, Aligned(b), second.oldValue), Aligned(a), first.oldValue) == mem
         && (WriteWord(WriteWord(mem2, Aligned(a), first.oldValue), Aligned(b), second.oldValue) == mem
             <==> mem[a] == TRAP)
  {
    AlignedBelow(a);
    AlignedBelow(b);
    var word := Aligned(a);
    var first := SlotFor(mem, a);
    var mem1 := WriteWord(mem, word, first.newValue);
    var second := SlotFor(mem1, b);
    var mem2 := WriteWord(mem1, word, second.newValue);
    WriteTwice(mem1, word, second.newValue, second.oldValue);
    WriteTwice(mem, word, first.newValue, second.oldValue);
    WriteTwice(mem, word, second.oldValue, first.oldValue);
    WriteTwice(mem1, word, second.newValue, first.oldValue);
    WriteTwice(mem, word, first.newValue, first.oldValue);
    WriteTwice(mem, word, first.oldValue, second.oldValue);
    WriteBack(mem, word);
    ReadBack(mem, word, first.newValue);
    assert second.oldValue == first.newValue;
    var last := WriteWord(mem, word, first.newValue);
    assert last[a] == TRAP;
    if mem[a] == TRAP {
      assert first.newValue == first.oldValue;
    }
  }

  lemma WriteTwice(mem: map<nat, byte>, a: nat, v: Word, w: Word)
    ensures WriteWord(WriteWord(mem, a, v), a, w) == WriteWord(mem, a, w)
  {
  }

  lemma WriteBack(mem: map<nat, byte>, a: nat)
    requires Mapped(mem, a)
    ensures WriteWord(mem, a, ReadWord(mem, a)) == mem
  {
    forall b | b in mem ensures WriteWord(mem, a, ReadWord(mem, a))[b] == mem[b] {
      if a <= b < a + 8 { ReadWordAt(mem, a, b - a); }
    }
  }

  lemma ReadBack(mem: map<nat, byte>, a: nat, w: Word)
    requires Mapped(mem, a)
    ensures ReadWord(WriteWord(mem, a, w), a) == w
  {
  }

  /** A new breakpoint in a word of its own, written and active at once. */
  lemma FillKeepsConsistent(mem: map<nat, byte>, original: map<nat, byte>, bps: seq<Breakpoint>, b: Breakpoint)
    requires Consistent(mem, original, bps) && Mapped(mem, Aligned(b.addr))
    requires b == SlotFor(mem, b.addr).(active := false)
    requires NewWord(bps, b.alignedAddr)
    ensures Consistent(WriteWord(mem, b.alignedAddr, b.newValue), original, bps + [b.(active := true)])
  {
    AlignedBelow(b.addr);
    WordUntouched(mem, original, bps, b.alignedAddr);
    AppendKeepsConsistent(mem, original, bps, b);
    SwitchKeepsConsistent(mem, original, bps + [b], |bps|, true);
    assert (bps + [b])[|bps| := b.(active := true)] == bps + [b.(active := true)];
  }

  /** Memory after a ptrace write: unchanged where the word is not mapped. */
  function Poked(mem: map<nat, byte>, a: nat, w: Word): map<nat, byte> {
    if Mapped(mem, a) then WriteWord(mem, a, w) else mem
  }

  /** The single step over breakpoint `i` leaves the words with breakpoints alone. */
  ghost predicate StepKeeps(mem: map<nat, byte>, bps: seq<Breakpoint>, i: nat,
                            step: (map<nat, byte>, nat) -> (map<nat, byte>, nat), pc: nat)
    requires i < |bps|
  {
    bps[i].active ==>
      var clean := WriteWord(mem, bps[i].alignedAddr, bps[i].oldValue);
      WordsKept(clean, step(clean, Pred(pc)).0, bps)
  }

  class Table {
    /** Memory of the stopped debuggee. */
    var mem: map<nat, byte>
    /** Its program counter. */
    var pc: nat
    var breakpoints: array<Breakpoint>
    var num: nat
    /** What memory would hold without any breakpoint. */
    ghost var original: map<nat, byte>

    ghost predicate Valid()
      reads this, breakpoints
    {
      && breakpoints.Length == MAX_BREAKPOINTS && num < MAX_BREAKPOINTS
      && (forall i :: num <= i < MAX_BREAKPOINTS ==> !breakpoints[i].active)
    }

    function Slots(): seq<Breakpoint>
      requires num <= breakpoints.Length
      reads this, breakpoints
    {
      breakpoints[..num]
    }

    /** Memory is the original with the trap byte at exactly the active addresses,
        and every slot knows its original word. */
    ghost predicate Right()
      requires Valid()
      reads this, breakpoints
    {
      Consistent(mem, original, Slots())
    }

    constructor (mem: map<nat, byte>, pc: nat)
      ensures Valid() && Right() && fresh(breakpoints)
      ensures this.mem == mem && original == mem && num == 0 && this.pc == pc
    {
      this.mem := mem;
      this.pc := pc;
      this.original := mem;
      num := 0;
      breakpoints := new Breakpoint[MAX_BREAKPOINTS](_ => UNUSED);
    }

    /** A ptrace write, which exits where memory is not mapped. */
    method PokeText(a: nat, w: Word) returns (r: Outcome<()>)
      modifies this`mem
      ensures r == if Mapped(old(mem), a) then Done(()) else Exit(NotMapped)
      ensures mem == Poked(old(mem), a, w)
    {
      if !Mapped(mem, a) {
        return Exit(NotMapped);
      }
      mem := WriteWord(mem, a, w);
      return Done(());
    }

    /** `breakpoint_activate` of a used slot. */
    method Activate(idx: nat) returns (r: Outcome<()>)
      requires Valid() && idx < num
      modifies this`mem, breakpoints
      ensures Valid()
      ensures var b := old(breakpoints[idx]);
        if b.active then r == Done(()) && mem == old(mem) && Slots() == old(Slots())
        else if !Mapped(old(mem), b.alignedAddr) then r == Exit(NotMapped) && mem == old(mem) && Slots() == old(Slots())
        else
          && r == Done(()) && mem == WriteWord(old(mem), b.alignedAddr, b.newValue)
          && Slots() == old(Slots())[idx := b.(active := true)]
      ensures old(Right()) ==> r.Done? && Right()
    {
      if breakpoints[idx].active {
        return Done(());
      }
      r := Switch(idx, true);
    }

    method Deactivate(idx: nat) returns (r: Outcome<()>)
      requires Valid() && idx < num
      modifies this`mem, breakpoints
      ensures Valid()
      ensures var b := old(breakpoints[idx]);
        if !b.active then r == Done(()) && mem == old(mem) && Slots() == old(Slots())
        else if !Mapped(old(mem), b.alignedAddr) then r == Exit(NotMapped) && mem == old(mem) && Slots() == old(Slots())
        else
          && r == Done(()) && mem == WriteWord(old(mem), b.alignedAddr, b.oldValue)
          && Slots() == old(Slots())[idx := b.(active := false)]
      ensures old(Right()) ==> r.Done? && Right()
    {
      if !breakpoints[idx].active {
        return Done(());
      }
      r := Switch(idx, false);
    }

    /** The common part: one word and one flag. */
    method Switch(idx: nat, on: bool) returns (r: Outcome<()>)
      requires Valid() && idx < num
      modifies this`mem, breakpoints
      ensures Valid()
      ensures var b := old(breakpoints[idx]);
        if !Mapped(old(mem), b.alignedAddr) then r == Exit(NotMapped) && mem == old(mem) && Slots() == old(Slots())
        else
          && r == Done(())
          && mem == WriteWord(old(mem), b.alignedAddr, if on then b.newValue else b.oldValue)
          && Slots() == old(Slots())[idx := b.(active := on)]
      ensures old(Right()) ==> r.Done? && Right()
    {
      ghost var bps := Slots();
      var b := breakpoints[idx];
      if Right() {
        SwitchKeepsConsistent(mem, original, bps, idx, on);
      }
      r := PokeText(b.alignedAddr, if on then b.newValue else b.oldValue);
      if r.Exit? {
        return;
      }
      breakpoints[idx] := b.(active := on);
      assert Slots() == bps[idx := b.(active := on)];
    }

    /** The debuggee runs until its next stop. If it leaves the words with
        breakpoints alone, the table stays right for the memory it leaves. */
    method Resume(after: map<nat, byte>, pcAfter: nat)
      requires Valid()
      modifies this`mem, this`pc, this`original
      ensures Valid() && mem == after && pc == pcAfter && Slots() == old(Slots())
      ensures original == Unpatched(after, old(original), Slots())
      ensures old(Right()) && WordsKept(old(mem), after, Slots()) ==> Right()
    {
      if Right() && WordsKept(mem, after, Slots()) {
        RunKeepsConsistent(mem, after, original, Slots());
      }
      original := Unpatched(after, original, Slots());
      mem := after;
      pc := pcAfter;
    }

    /** `breakpoint_do`: execute the instruction under an active breakpoint. The
        single step starts one byte back, on memory without that breakpoint, and
        leaves what `step` says; afterwards the breakpoint is active again. */
    method Do(idx: nat, step: (map<nat, byte>, nat) -> (map<nat, byte>, nat)) returns (r: Outcome<()>)
      requires Valid() && idx < num
      modifies this`mem, this`pc, this`original, breakpoints
      ensures Valid()
      ensures !old(breakpoints[idx].active) ==>
                r == Done(()) && mem == old(mem) && pc == old(pc) && Slots() == old(Slots())
      ensures old(breakpoints[idx].active) && r.Done? ==>
                var b := old(breakpoints[idx]);
                var after := step(WriteWord(old(mem), b.alignedAddr, b.oldValue), Pred(old(pc)));
                pc == after.1 && mem == WriteWord(after.0, b.alignedAddr, b.newValue) && Slots() == old(Slots())
      ensures old(Right()) && StepKeeps(old(mem), old(Slots()), idx, step, old(pc)) ==> r.Done? && Right()
    {
      if !breakpoints[idx].active {
        return Done(());
      }
      ghost var bps := Slots();
      r := Deactivate(idx);
      if r.Exit? { return; }
      if WordsKept(mem, step(mem, Pred(pc)).0, bps) {
        WordsKeptAnywhere(bps, Slots(), mem, step(mem, Pred(pc)).0);
      }
      SingleStep(step);
      r := Reactivate(idx, bps);
    }

    /** `breakpoint_activate` of a slot that was just deactivated. */
    method Reactivate(idx: nat, ghost bps: seq<Breakpoint>) returns (r: Outcome<()>)
      requires Valid() && idx < num == |bps| && bps[idx].active
      requires Slots() == bps[idx := bps[idx].(active := false)]
      modifies this`mem, breakpoints
      ensures Valid()
      ensures r.Done? ==> Slots() == bps && mem == WriteWord(old(mem), bps[idx].alignedAddr, bps[idx].newValue)
      ensures old(Right()) ==> r.Done? && Right()
    {
      assert breakpoints[idx] == Slots()[idx];
      r := Switch(idx, true);
      assert bps[idx := bps[idx].(active := false)][idx := bps[idx]] == bps;
    }

    method SingleStep(step: (map<nat, byte>, nat) -> (map<nat, byte>, nat))
      requires Valid()
      modifies this`mem, this`pc, this`original
      ensures Valid() && Slots() == old(Slots())
      ensures mem == step(old(mem), Pred(old(pc))).0 && pc == step(old(mem), Pred(old(pc))).1
      ensures old(Right()) && WordsKept(old(mem), mem, Slots()) ==> Right()
    {
      pc := Pred(pc);
      var after := step(mem, pc);
      Resume(after.0, after.1);
    }

    /** `breakpoint_add`. It fails with a full table or an unmapped word, changing
        nothing; otherwise the next slot holds the word as it was and with the trap
        byte, and is active. In a word without another breakpoint the table stays
        right. */
    method Add(addr: nat) returns (r: Outcome<()>)
      requires Valid()
      modifies this`mem, this`num, breakpoints
      ensures Valid()
      ensures r == if old(num) + 1 == 1000 then Exit(TooManyBreakpoints)
                   else if !Mapped(old(mem), Aligned(addr)) then Exit(NotMapped) else Done(())
      ensures r.Exit? ==> num == old(num) && mem == old(mem) && breakpoints[..] == old(breakpoints[..])
      ensures r.Done? ==>
                var b := SlotFor(old(mem), addr);
                && num == old(num) + 1 && Slots() == old(Slots()) + [b]
                && mem == WriteWord(old(mem), b.alignedAddr, b.newValue)
      ensures old(Right()) && NewWord(old(Slots()), Aligned(addr)) ==> Right()
    {
      if num + 1 == MAX_BREAKPOINTS {
        return Exit(TooManyBreakpoints);
      }
      var offset := addr % 8;
      var alignedAddr := addr - offset;
      var result := PeekText(mem, alignedAddr);
      if result.Exit? {
        return Exit(result.error);
      }
      AddNew(Breakpoint(addr, alignedAddr, result.value, result.value[offset := TRAP], false));
      return Done(());
    }

    /** Where there is a slot and a word for it. */
    method AddNew(b: Breakpoint)
      requires Valid() && num + 1 < MAX_BREAKPOINTS
      requires Mapped(mem, Aligned(b.addr)) && b == SlotFor(mem, b.addr).(active := false)
      modifies this`mem, this`num, breakpoints
      ensures Valid() && num == old(num) + 1
      ensures Slots() == old(Slots()) + [SlotFor(old(mem), b.addr)]
      ensures mem == WriteWord(old(mem), b.alignedAddr, b.newValue)
      ensures old(Right()) && NewWord(old(Slots()), b.alignedAddr) ==> Right()
    {
      if Right() && NewWord(Slots(), b.alignedAddr) {
        FillKeepsConsistent(mem, original, Slots(), b);
      }
      Fill(b);
    }

    /** The next slot is filled in, its word written, and the slot activated. */
    method Fill(b: Breakpoint)
      requires Valid() && num + 1 < MAX_BREAKPOINTS
      requires Mapped(mem, Aligned(b.addr)) && b == SlotFor(mem, b.addr).(active := false)
      modifies this`mem, this`num, breakpoints
      ensures Valid() && num == old(num) + 1
      ensures Slots() == old(Slots()) + [b.(active := true)]
      ensures mem == WriteWord(old(mem), b.alignedAddr, b.newValue)
    {
      ghost var bps, was := Slots(), mem;
      breakpoints[num] := b;
      assert breakpoints[..num + 1] == bps + [b];
      var poked := PokeText(b.alignedAddr, b.newValue);
      num := num + 1;
      var activated := Activate(num - 1);
      WriteTwice(was, b.alignedAddr, b.newValue, b.newValue);
      assert Slots() == bps + [b.(active := true)];
    }
  }
}
