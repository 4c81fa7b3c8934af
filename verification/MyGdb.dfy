/** The debugger's main loop (src/my_gdb/my_gdb.c): from the first stop of the
    debuggee to the snapshot. */
module MyGdb {
  import opened Arith
  import opened Bytes
  import opened Outcomes
  import opened MapFilter
  import opened Ptrace
  import opened Breakpoints
  import opened Registers

  /** `arch_prctl` on x86-64. */
  const TLS_SYSCALL: nat := 158

  /** What `wait` reports: the debuggee is gone, or stopped with these registers
      and this memory. */
  datatype Stop = Ended | Stopped(regs: seq<nat>, mem: map<nat, byte>)

  predicate ProperStop(s: Stop) {
    s.Stopped? ==> |s.regs| == NUM_REGS && Words(s.regs)
  }

  /** How the debugger ends, or that it still waits for a stop. */
  datatype Result =
    | Failed(error: Error)
    | Died
    | Waiting(tls: Option<nat>)
    | Snapped(stop: nat, tls: Option<nat>, lines: seq<Line>, dumps: seq<seq<byte>>)

  /** Distance from the interpreter's file to memory; unsigned subtraction. */
  function ValOffset(pc: nat, interpreterEntry: nat): nat {
    (pc - interpreterEntry) % TWO64
  }

  function BreakpointAddress(fileAddress: nat, valOffset: nat): nat {
    (fileAddress + valOffset) % TWO64
  }

  predicate TlsStop(s: Stop)
    requires ProperStop(s)
  {
    s.Stopped? && s.regs[SYSCALL_REG] == TLS_SYSCALL
  }

  predicate HitStop(s: Stop, bp: nat)
    requires ProperStop(s)
  {
    s.Stopped? && !TlsStop(s) && s.regs[PC_REG] == Succ(bp)
  }

  predicate Final(s: Stop, bp: nat)
    requires ProperStop(s)
  {
    s.Ended? || HitStop(s, bp)
  }

  predicate ProperStops(stops: seq<Stop>) {
    forall i :: 0 <= i < |stops| ==> ProperStop(stops[i])
  }

  /** The stop that ends the loop: the first hit that is no TLS system call, or
      the debuggee's end; the length while neither has come. */
  function FinalStop(stops: seq<Stop>, bp: nat): (k: nat)
    requires ProperStops(stops)
    ensures k <= |stops|
    ensures k < |stops| ==> Final(stops[k], bp)
    ensures forall i :: 0 <= i < k ==> !Final(stops[i], bp)
  {
    if stops == [] || Final(stops[0], bp) then 0
    else
      var r := FinalStop(stops[1..], bp);
      assert forall i :: 0 < i < r + 1 ==> stops[i] == stops[1..][i - 1];
      1 + r
  }

  /** The first TLS stop among the first `k`. */
  function FirstTls(stops: seq<Stop>, k: nat): (t: Option<nat>)
    requires ProperStops(stops) && k <= |stops|
    ensures match t
            case None => forall i :: 0 <= i < k ==> !TlsStop(stops[i])
            case Some(n) => n < k && TlsStop(stops[n]) && forall i :: 0 <= i < n ==> !TlsStop(stops[i])
  {
    if k == 0 then None
    else
      match FirstTls(stops, k - 1)
      case Some(n) => Some(n)
      case None => if TlsStop(stops[k - 1]) then Some(k - 1) else None
  }

  /** Memory at a stop once the breakpoint is deactivated: its word is the one
      that was saved. */
  function Clean(mem: map<nat, byte>, first: map<nat, byte>, bp: nat): map<nat, byte>
    requires Mapped(first, Aligned(bp))
  {
    WriteWord(mem, Aligned(bp), ReadWord(first, Aligned(bp)))
  }

  /** The table while the loop runs: one breakpoint, active, with the word saved
      from the first stop. */
  ghost predicate Watching(t: Table, first: map<nat, byte>, bp: nat)
    reads t, t.breakpoints
  {
    t.Valid() && Mapped(first, Aligned(bp)) && t.Slots() == [SlotFor(first, bp)]
  }

  /** `breakpoint_add` on the debuggee as the kernel started it. */
  method Plant(mem: map<nat, byte>, pc: nat, bp: nat) returns (t: Table, r: Outcome<()>)
    ensures fresh(t) && fresh(t.breakpoints)
    ensures r == if Mapped(mem, Aligned(bp)) then Done(()) else Exit(NotMapped)
    ensures r.Done? ==> Watching(t, mem, bp) && t.Right() && t.original == mem
  {
    t := new Table(mem, pc);
    assert t.Slots() == [];
    r := t.Add(bp);
  }

  /** `PTRACE_SYSCALL` and `wait`. */
  method Continue(t: Table, s: Stop, first: map<nat, byte>, bp: nat)
    requires Watching(t, first, bp) && ProperStop(s) && s.Stopped?
    modifies t`mem, t`pc, t`original
    ensures Watching(t, first, bp) && t.mem == s.mem && t.pc == s.regs[PC_REG]
  {
    t.Resume(s.mem, s.regs[PC_REG]);
  }

  /** The last stop: deactivate the breakpoint and dump. */
  method TakeDumps(t: Table, first: map<nat, byte>, bp: nat, maps: seq<Mapping>) returns (r: Outcome<seq<seq<byte>>>)
    requires Watching(t, first, bp)
    modifies t`mem, t.breakpoints
    ensures var clean := Clean(old(t.mem), first, bp);
      && (r.Done? <==> Mapped(old(t.mem), Aligned(bp)) && forall i :: 0 <= i < |maps| ==> Dumpable(clean, maps[i]))
      && (r.Done? ==>
            && |r.value| == |maps|
            && forall i :: 0 <= i < |maps| ==> maps[i].start <= maps[i].stop && DumpOf(clean, maps[i], r.value[i]))
  {
    assert t.breakpoints[0] == t.Slots()[0];
    var off := t.Deactivate(0);
    if off.Exit? { return Exit(off.error); }
    r := Dumps(t.mem, maps);
  }

  /** What stop `k` yields once the loop ends there: the snapshot of exactly that
      moment, or a failure when some mapping cannot be dumped. */
  ghost predicate SnapshotAt(r: Result, s: Stop, k: nat, tls: Option<nat>, first: map<nat, byte>, bp: nat,
                             names: seq<string>, maps: seq<Mapping>)
    requires s.Stopped? && ProperStop(s) && |names| == NUM_REGS && Mapped(first, Aligned(bp))
  {
    var clean := Clean(s.mem, first, bp);
    && (r.Snapped? || r.Failed?)
    && (r.Snapped? <==> Mapped(s.mem, Aligned(bp)) && forall i :: 0 <= i < |maps| ==> Dumpable(clean, maps[i]))
    && (r.Snapped? ==>
          && r.stop == k && r.tls == tls
          && r.lines == RegLines(names, s.regs, true)
          && |r.dumps| == |maps|
          && forall i :: 0 <= i < |maps| ==> maps[i].start <= maps[i].stop && DumpOf(clean, maps[i], r.dumps[i]))
  }

  /** How a run over these stops ends. */
  ghost predicate RunEnds(r: Result, stops: seq<Stop>, first: map<nat, byte>, bp: nat, names: seq<string>,
                          maps: seq<Mapping>)
    requires ProperStops(stops) && |names| == NUM_REGS && Mapped(first, Aligned(bp))
  {
    var k := FinalStop(stops, bp);
    if k == |stops| then r == Waiting(FirstTls(stops, k))
    else if stops[k].Ended? then r == Died
    else SnapshotAt(r, stops[k], k, FirstTls(stops, k), first, bp, names, maps)
  }

  /** How the program ends, given what each `wait` reports. */
  ghost predicate Answers(r: Result, first: Stop, stops: seq<Stop>, names: seq<string>, interpreterEntry: nat,
                          breakpointStart: nat, page: nat, maps: seq<Mapping>)
    requires ProperStop(first) && ProperStops(stops) && |names| == NUM_REGS && page > 0
  {
    if first.Ended? then r == Died
    else
      var offset := ValOffset(first.regs[PC_REG], interpreterEntry);
      var bp := BreakpointAddress(breakpointStart, offset);
      if offset % page != 0 then r == Failed(MisalignedLoad)
      else if !Mapped(first.mem, Aligned(bp)) then r == Failed(NotMapped)
      else RunEnds(r, stops, first.mem, bp, names, maps)
  }

  /** The whole program. With the breakpoint at `bp`, which is moved with the
      interpreter: a snapshot is taken at the first stop of the debuggee that is no
      arch_prctl call and one byte behind `bp`; `bp` is what it records. */
  method Parent(first: Stop, stops: seq<Stop>, names: seq<string>, interpreterEntry: nat, breakpointStart: nat,
                page: nat, maps: seq<Mapping>) returns (r: Result)
    requires ProperStop(first) && ProperStops(stops) && |names| == NUM_REGS && page > 0
    ensures Answers(r, first, stops, names, interpreterEntry, breakpointStart, page, maps)
    ensures r.Snapped? ==>
              && first.Stopped? && r.stop < |stops| && stops[r.stop].Stopped?
              && var bp := (breakpointStart + (first.regs[16] - interpreterEntry) % TWO64) % TWO64;
                 && stops[r.stop].regs[15] != 158 && stops[r.stop].regs[16] == (bp + 1) % TWO64
                 && |r.lines| == 27 && r.lines[16] == Line(names[16], bp)
                 && (forall i :: 0 <= i < 27 && i != 16 ==> r.lines[i] == Line(names[i], stops[r.stop].regs[i]))
                 && forall i :: 0 <= i < r.stop ==>
                      stops[i].Stopped? && (stops[i].regs[15] == 158 || stops[i].regs[16] != (bp + 1) % TWO64)
  {
    r := Session(first, stops, names, interpreterEntry, breakpointStart, page, maps);
    if r.Snapped? {
      SnapshotIsHit(r, first, stops, names, interpreterEntry, breakpointStart, page, maps);
    }
  }

  method Session(first: Stop, stops: seq<Stop>, names: seq<string>, interpreterEntry: nat, breakpointStart: nat,
                 page: nat, maps: seq<Mapping>) returns (r: Result)
    requires ProperStop(first) && ProperStops(stops) && |names| == NUM_REGS && page > 0
    ensures Answers(r, first, stops, names, interpreterEntry, breakpointStart, page, maps)
  {
    if first.Ended? { return Died; }
    var valOffset := ValOffset(first.regs[PC_REG], interpreterEntry);
    if valOffset % page != 0 { return Failed(MisalignedLoad); }
    var bp := BreakpointAddress(breakpointStart, valOffset);
    var t, added := Plant(first.mem, first.regs[PC_REG], bp);
    if added.Exit? { return Failed(added.error); }
    r := Loop(t, first.mem, bp, stops, names, maps);
  }

  lemma SuccIs(x: nat)
    requires x < TWO64
    ensures Succ(x) == (x + 1) % TWO64
  {
    if x == TWO64 - 1 { DivModUnique(x + 1, TWO64, 1, 0); } else { SmallRemainder(x + 1, TWO64); }
  }

  /** In numbers: stop `k` is the first one that is no arch_prctl call and one byte
      behind the breakpoint. */
  lemma HitIsFinal(stops: seq<Stop>, bp: nat, after: nat, k: nat)
    requires ProperStops(stops) && bp < TWO64 && after == (bp + 1) % TWO64
    ensures k < |stops| && stops[k].Stopped? && stops[k].regs[15] != 158 && stops[k].regs[16] == after
            && (forall i :: 0 <= i < k ==>
                  stops[i].Stopped? && (stops[i].regs[15] == 158 || stops[i].regs[16] != after))
            <==> k == FinalStop(stops, bp) < |stops| && stops[k].Stopped?
  {
    SuccIs(bp);
  }

  lemma SnapshotIsHit(r: Result, first: Stop, stops: seq<Stop>, names: seq<string>, interpreterEntry: nat,
                      breakpointStart: nat, page: nat, maps: seq<Mapping>)
    requires ProperStop(first) && ProperStops(stops) && |names| == NUM_REGS && page > 0
    requires Answers(r, first, stops, names, interpreterEntry, breakpointStart, page, maps) && r.Snapped?
    ensures first.Stopped? && r.stop < |stops| && stops[r.stop].Stopped?
    ensures var bp := (breakpointStart + (first.regs[16] - interpreterEntry) % TWO64) % TWO64;
      && stops[r.stop].regs[15] != 158 && stops[r.stop].regs[16] == (bp + 1) % TWO64
      && |r.lines| == 27 && r.lines[16] == Line(names[16], bp)
      && (forall i :: 0 <= i < 27 && i != 16 ==> r.lines[i] == Line(names[i], stops[r.stop].regs[i]))
      && forall i :: 0 <= i < r.stop ==>
           stops[i].Stopped? && (stops[i].regs[15] == 158 || stops[i].regs[16] != (bp + 1) % TWO64)
  {
    var bp := BreakpointAddress(breakpointStart, ValOffset(first.regs[16], interpreterEntry));
    HitIsFinal(stops, bp, (bp + 1) % TWO64, FinalStop(stops, bp));
    RecordedPc(names, stops[r.stop].regs, bp);
  }

  /** Exactly when the snapshot is of stop `k`: the interpreter is moved by whole pages,
      the breakpoint's word can be read at the start and at that stop, it is the first
      hit, and every mapping is aligned to words and can be read there. */
  lemma SnapsIff(r: Result, first: Stop, stops: seq<Stop>, names: seq<string>, interpreterEntry: nat,
                 breakpointStart: nat, page: nat, maps: seq<Mapping>, k: nat, bp: nat, word: nat)
    requires ProperStop(first) && ProperStops(stops) && |names| == NUM_REGS && page > 0
    requires Answers(r, first, stops, names, interpreterEntry, breakpointStart, page, maps)
    requires first.Stopped? && k < |stops| && stops[k].Stopped?
    requires bp == (breakpointStart + (first.regs[16] - interpreterEntry) % TWO64) % TWO64 && word == bp - bp % 8
    ensures r.Snapped? && r.stop == k <==>
            && (first.regs[16] - interpreterEntry) % TWO64 % page == 0
            && stops[k].regs[15] != 158 && stops[k].regs[16] == (bp + 1) % TWO64
            && (forall i :: 0 <= i < k ==>
                  stops[i].Stopped? && (stops[i].regs[15] == 158 || stops[i].regs[16] != (bp + 1) % TWO64))
            && (forall a :: word <= a < word + 8 ==> a in first.mem && a in stops[k].mem)
            && (forall i :: 0 <= i < |maps| ==>
                  && maps[i].start < maps[i].stop && maps[i].start % 8 == 0 && maps[i].stop % 8 == 0
                  && forall a :: maps[i].start <= a < maps[i].stop ==> a in stops[k].mem)
  {
    HitIsFinal(stops, bp, (bp + 1) % TWO64, k);
    if Mapped(first.mem, word) {
      assert Clean(stops[k].mem, first.mem, bp).Keys == stops[k].mem.Keys;
      forall i | 0 <= i < |maps|
        ensures Dumpable(Clean(stops[k].mem, first.mem, bp), maps[i]) <==>
                && maps[i].start < maps[i].stop && maps[i].start % 8 == 0 && maps[i].stop % 8 == 0
                && forall a :: maps[i].start <= a < maps[i].stop ==> a in stops[k].mem
      {
        SameKeysDumpable(Clean(stops[k].mem, first.mem, bp), stops[k].mem, maps[i]);
      }
    }
  }

  lemma SameKeysDumpable(a: map<nat, byte>, b: map<nat, byte>, m: Mapping)
    requires a.Keys == b.Keys
    ensures Dumpable(a, m) <==>
            && m.start < m.stop && m.start % 8 == 0 && m.stop % 8 == 0
            && forall x :: m.start <= x < m.stop ==> x in b
  {
    assert forall x: nat :: x in a <==> x in b;
  }

  /** Without such a stop: the debuggee's end ends the program, and while neither has come
      it waits. */
  lemma EndsOtherwise(r: Result, first: Stop, stops: seq<Stop>, names: seq<string>, interpreterEntry: nat,
                      breakpointStart: nat, page: nat, maps: seq<Mapping>, k: nat, bp: nat, word: nat)
    requires ProperStop(first) && ProperStops(stops) && |names| == NUM_REGS && page > 0
    requires Answers(r, first, stops, names, interpreterEntry, breakpointStart, page, maps) && first.Stopped?
    requires bp == (breakpointStart + (first.regs[16] - interpreterEntry) % TWO64) % TWO64 && word == bp - bp % 8
    requires (first.regs[16] - interpreterEntry) % TWO64 % page == 0
    requires forall a :: word <= a < word + 8 ==> a in first.mem
    requires k <= |stops| && forall i :: 0 <= i < k ==>
               stops[i].Stopped? && (stops[i].regs[15] == 158 || stops[i].regs[16] != (bp + 1) % TWO64)
    ensures k < |stops| && stops[k].Ended? ==> r == Died
    ensures k == |stops| ==> r.Waiting?
  {
    SuccIs(bp);
  }

  /** What it holds: one dump for each mapping, with the bytes of memory at that stop,
      but in the breakpoint's word those of the start. */
  lemma SnapshotHolds(r: Result, first: Stop, stops: seq<Stop>, names: seq<string>, interpreterEntry: nat,
                      breakpointStart: nat, page: nat, maps: seq<Mapping>, bp: nat, word: nat, i: nat, a: nat)
    requires ProperStop(first) && ProperStops(stops) && |names| == NUM_REGS && page > 0
    requires Answers(r, first, stops, names, interpreterEntry, breakpointStart, page, maps) && r.Snapped?
    requires first.Stopped?
    requires bp == (breakpointStart + (first.regs[16] - interpreterEntry) % TWO64) % TWO64 && word == bp - bp % 8
    requires i < |maps| && maps[i].start <= a < maps[i].stop
    ensures |r.dumps| == |maps| && |r.dumps[i]| == maps[i].stop - maps[i].start
    ensures r.stop < |stops| && stops[r.stop].Stopped? && a in stops[r.stop].mem
    ensures word <= a < word + 8 ==> a in first.mem
    ensures r.dumps[i][a - maps[i].start] == if word <= a < word + 8 then first.mem[a] else stops[r.stop].mem[a]
  {
    DumpedByte(first.mem, stops[r.stop].mem, bp, maps[i], r.dumps[i], a);
  }

  /** And the TLS data it names is that of the first arch_prctl call before it. */
  lemma SnapshotTls(r: Result, first: Stop, stops: seq<Stop>, names: seq<string>, interpreterEntry: nat,
                    breakpointStart: nat, page: nat, maps: seq<Mapping>)
    requires ProperStop(first) && ProperStops(stops) && |names| == NUM_REGS && page > 0
    requires Answers(r, first, stops, names, interpreterEntry, breakpointStart, page, maps) && r.Snapped?
    ensures r.stop < |stops|
    ensures match r.tls
            case None => forall i :: 0 <= i < r.stop && stops[i].Stopped? ==> stops[i].regs[15] != 158
            case Some(n) =>
              && n < r.stop && stops[n].Stopped? && stops[n].regs[15] == 158
              && forall i :: 0 <= i < n && stops[i].Stopped? ==> stops[i].regs[15] != 158
  {
  }

  method Loop(t: Table, first: map<nat, byte>, bp: nat, stops: seq<Stop>, names: seq<string>, maps: seq<Mapping>)
    returns (r: Result)
    requires Watching(t, first, bp) && ProperStops(stops) && |names| == NUM_REGS
    modifies t, t.breakpoints
    ensures RunEnds(r, stops, first, bp, names, maps)
  {
    var tls: Option<nat> := None;
    for i := 0 to |stops|
      invariant Watching(t, first, bp) && t.breakpoints == old(t.breakpoints)
      invariant i <= FinalStop(stops, bp)
      invariant tls == FirstTls(stops, i)
    {
      AtStop(stops, bp, i);
      var done, result, newTls := HandleStop(t, stops[i], i, tls, first, bp, names, maps);
      if done {
        return result;
      }
      tls := newTls;
    }
    return Waiting(tls);
  }

  /** The two facts the loop decides at stop `i`. */
  lemma AtStop(stops: seq<Stop>, bp: nat, i: nat)
    requires ProperStops(stops) && i < |stops| && i <= FinalStop(stops, bp)
    ensures Final(stops[i], bp) <==> FinalStop(stops, bp) == i
    ensures FirstTls(stops, i + 1) ==
            if FirstTls(stops, i) == None && TlsStop(stops[i]) then Some(i) else FirstTls(stops, i)
  {
  }

  /** The body of the loop for one stop. */
  method HandleStop(t: Table, s: Stop, i: nat, tls: Option<nat>, first: map<nat, byte>, bp: nat, names: seq<string>,
                    maps: seq<Mapping>) returns (done: bool, r: Result, newTls: Option<nat>)
    requires Watching(t, first, bp) && ProperStop(s) && |names| == NUM_REGS
    modifies t, t.breakpoints
    ensures done <==> Final(s, bp)
    ensures done && s.Ended? ==> r == Died
    ensures done && s.Stopped? ==> SnapshotAt(r, s, i, tls, first, bp, names, maps)
    ensures !done ==> Watching(t, first, bp) && t.breakpoints == old(t.breakpoints)
    ensures !done ==> newTls == if tls == None && TlsStop(s) then Some(i) else tls
  {
    done, r, newTls := true, Died, tls;
    if s.Ended? {
      return;
    }
    Continue(t, s, first, bp);
    if s.regs[SYSCALL_REG] == TLS_SYSCALL {
      if tls == None {
        newTls := Some(i);
      }
      done := false;
      return;
    }
    if t.pc == Succ(bp) {
      r := Finish(t, s, i, tls, first, bp, names, maps);
      return;
    }
    done := false;
  }

  method Finish(t: Table, s: Stop, k: nat, tls: Option<nat>, first: map<nat, byte>, bp: nat, names: seq<string>,
                maps: seq<Mapping>) returns (r: Result)
    requires Watching(t, first, bp) && s.Stopped? && ProperStop(s) && t.mem == s.mem && |names| == NUM_REGS
    modifies t`mem, t.breakpoints
    ensures SnapshotAt(r, s, k, tls, first, bp, names, maps)
  {
    var lines := DumpRegs(names, s.regs, true);
    var dumps := TakeDumps(t, first, bp, maps);
    match dumps
    case Exit(e) => return Failed(e);
    case Done(files) => return Snapped(k, tls, lines, files);
  }

  /** The recorded program counter is the breakpoint, and no other register is
      touched. */
  lemma RecordedPc(names: seq<string>, regs: seq<nat>, bp: nat)
    requires |names| == |regs| == NUM_REGS && Words(regs) && bp < TWO64
    requires regs[PC_REG] == Succ(bp)
    ensures RegLines(names, regs, true)[PC_REG] == Line(names[PC_REG], bp)
    ensures forall i :: 0 <= i < NUM_REGS && i != PC_REG ==> RegLines(names, regs, true)[i] == Line(names[i], regs[i])
  {
  }

  /** The breakpoint moves with the interpreter: in memory it is as far from the
      interpreter's entry point as in the file. */
  lemma BreakpointMoves(pc: nat, interpreterEntry: nat, fileAddress: nat)
    requires pc < TWO64
    ensures var bp := BreakpointAddress(fileAddress, ValOffset(pc, interpreterEntry));
      (bp - pc) % TWO64 == (fileAddress - interpreterEntry) % TWO64
  {
    var offset := ValOffset(pc, interpreterEntry);
    var bp := BreakpointAddress(fileAddress, offset);
    var m, n := (pc - interpreterEntry) / TWO64, (fileAddress + offset) / TWO64;
    assert bp - pc == fileAddress - interpreterEntry + TWO64 * (-m - n);
    ShiftByMultiple(fileAddress - interpreterEntry, -m - n);
  }

  lemma ShiftByMultiple(x: int, k: int)
    ensures (x + TWO64 * k) % TWO64 == x % TWO64
  {
    DivModUnique(x + TWO64 * k, TWO64, x / TWO64 + k, x % TWO64);
  }

  /** The debuggee did not write the word the breakpoint is in. */
  predicate WordIntact(mem: map<nat, byte>, first: map<nat, byte>, bp: nat) {
    forall a :: Aligned(bp) <= a < Aligned(bp) + 8 ==>
      a in mem && a in first && mem[a] == if a == bp then TRAP else first[a]
  }

  /** The dumped bytes: outside the breakpoint's word the debuggee's own, inside it
      those it had at the start. */
  lemma DumpedByte(first: map<nat, byte>, mem: map<nat, byte>, bp: nat, m: Mapping, d: seq<byte>, a: nat)
    requires Mapped(first, Aligned(bp)) && m.start <= a < m.stop && DumpOf(Clean(mem, first, bp), m, d)
    ensures a in mem
    ensures d[a - m.start] == if Aligned(bp) <= a < Aligned(bp) + 8 then first[a] else mem[a]
  {
    assert a in Clean(mem, first, bp);
    if Aligned(bp) <= a < Aligned(bp) + 8 { ReadWordAt(first, Aligned(bp), a - Aligned(bp)); }
  }

  /** So, for a debuggee that leaves that word alone, the dumps have the original
      instruction byte at the breakpoint and no other byte differs. */
  lemma NoTrapDumped(first: map<nat, byte>, mem: map<nat, byte>, bp: nat, m: Mapping, d: seq<byte>, a: nat)
    requires Mapped(first, Aligned(bp)) && m.start <= a < m.stop && DumpOf(Clean(mem, first, bp), m, d)
    requires WordIntact(mem, first, bp)
    ensures a in mem && bp in first && d[a - m.start] == if a == bp then first[bp] else mem[a]
  {
    AlignedBelow(bp);
    DumpedByte(first, mem, bp, m, d, a);
  }
}
