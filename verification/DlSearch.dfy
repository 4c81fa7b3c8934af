/** The search for a loader variable over re-executions of one program
    (src/find_dl_main.inc.c and the pattern files that include it). */
module DlSearch {
  import opened Bytes
  import opened Outcomes

  /** What one invocation finds: the loader's read/write segment, and the value
      looked for, if there is one. */
  datatype Invocation = Invocation(memory: seq<byte>, pattern: Option<seq<byte>>)

  /** The outcome of an invocation: print nothing, print an offset, or run again
      with the offset that was found. */
  datatype Verdict = Nothing | Accept(offset: nat) | Again(offset: nat)

  // ------------------------------------------------------------- One scan

  predicate MatchAt(memory: seq<byte>, pattern: seq<byte>, at: nat) {
    at + |pattern| <= |memory| && memory[at..at + |pattern|] == pattern
  }

  /** Where the scan stops: at a match, or short of the last place a match could
      be. */
  function ScanFrom(memory: seq<byte>, pattern: seq<byte>, from: nat): nat
    decreases |memory| - from
  {
    if from + |pattern| < |memory| && !MatchAt(memory, pattern, from)
    then ScanFrom(memory, pattern, from + 1)
    else from
  }

  /** What the stopping place means. */
  lemma {:induction false} ScanStops(memory: seq<byte>, pattern: seq<byte>, from: nat)
    ensures var r := ScanFrom(memory, pattern, from);
      && from <= r
      && (forall q :: from <= q < r ==> !MatchAt(memory, pattern, q))
      && (r + |pattern| < |memory| ==> MatchAt(memory, pattern, r))
      && (r + |pattern| >= |memory| ==> r == from || r + |pattern| == |memory|)
    decreases |memory| - from
  {
    if from + |pattern| < |memory| && !MatchAt(memory, pattern, from) {
      ScanStops(memory, pattern, from + 1);
    }
  }

  function Start(found: Option<nat>): nat {
    if found.None? then 0 else found.value
  }

  function Invoke(w: Invocation, found: Option<nat>): Verdict {
    if w.pattern.None? then Nothing
    else
      var r := ScanFrom(w.memory, w.pattern.value, Start(found));
      if r == |w.memory| then Nothing
      else if found == Some(r) then Accept(r)
      else Again(r)
  }

  method RunOnce(w: Invocation, found: Option<nat>) returns (v: Verdict)
    ensures v == Invoke(w, found)
  {
    var ptr := match found case None => 0 case Some(f) => f;
    var end := |w.memory|;
    if w.pattern.None? {
      return Nothing;
    }
    var pattern := w.pattern.value;
    while ptr + |pattern| < end
      invariant ScanFrom(w.memory, pattern, ptr) == ScanFrom(w.memory, pattern, Start(found))
      decreases end - ptr
    {
      if w.memory[ptr..ptr + |pattern|] == pattern {
        break;
      }
      ptr := ptr + 1;
    }
    if ptr == end {
      return Nothing;
    }
    if found == Some(ptr) {
      return Accept(ptr);
    }
    return Again(ptr);
  }

  // ------------------------------------------------ The next command line

  datatype Arg = Text(text: string) | Offset(offset: nat) | Null

  const DIGITS: seq<Arg> :=
    [Text("0"), Text("1"), Text("2"), Text("3"), Text("4"), Text("5"), Text("6"), Text("7"), Text("8"), Text("9"), Null]

  /** A command line as a process receives it: `argc` arguments and a NULL. */
  predicate CommandLine(argv: seq<Arg>, argc: nat) {
    argc >= 5 && |argv| == argc + 1 && argv[argc] == Null && forall k :: 0 <= k < argc ==> argv[k] != Null
  }

  /** The first argument: anything but an offset stands for -1. */
  function FoundArg(a: Arg): Option<nat> {
    if a.Offset? then Some(a.offset) else None
  }

  /** Ten arguments more, and the offset in the place of the old one. */
  method NewArgv(argv: array<Arg>, argc: nat, found: nat) returns (next: array<Arg>)
    requires CommandLine(argv[..], argc)
    ensures fresh(next)
    ensures next[..] == argv[..argc][1 := Offset(found)] + DIGITS
    ensures CommandLine(next[..], argc + 10) && FoundArg(next[1]) == Some(found)
  {
    next := new Arg[argc + |DIGITS|];
    for i := 0 to argc
      invariant forall k :: 0 <= k < i ==> next[k] == argv[k]
    {
      next[i] := argv[i];
    }
    for i := 0 to |DIGITS|
      invariant forall k :: 0 <= k < argc ==> next[k] == argv[k]
      invariant forall k :: 0 <= k < i ==> next[argc + k] == DIGITS[k]
    {
      next[argc + i] := DIGITS[i];
    }
    next[1] := Offset(found);
    assert next[..] == argv[..argc][1 := Offset(found)] + DIGITS;
    assert forall k :: 0 <= k < |DIGITS| - 1 ==> DIGITS[k] != Null;
  }

  // ---------------------------------------------------------- Whole runs

  /** All invocations see a segment of one size and patterns of one size. */
  ghost predicate Proper(world: nat -> Invocation, size: nat, width: nat) {
    && width > 0
    && forall k :: |world(k).memory| == size && (world(k).pattern.Some? ==> |world(k).pattern.value| == width)
  }

  /** The argument an invocation gets from those before it. */
  function Passed(trace: seq<nat>): Option<nat> {
    if trace == [] then None else Some(trace[|trace| - 1])
  }

  /** Offset `trace[k]` made invocation `k` run the program again. */
  ghost predicate RanAgain(world: nat -> Invocation, trace: seq<nat>, k: nat)
    requires k < |trace|
  {
    Invoke(world(k), Passed(trace[..k])) == Again(trace[k])
  }

  ghost predicate Run(world: nat -> Invocation, trace: seq<nat>) {
    forall k :: 0 <= k < |trace| ==> RanAgain(world, trace, k)
  }

  lemma RunStep(world: nat -> Invocation, trace: seq<nat>, k: nat, size: nat, width: nat)
    requires Proper(world, size, width) && Run(world, trace) && k < |trace|
    ensures world(k).pattern.Some?
    ensures k > 0 ==> trace[k - 1] < trace[k] && Passed(trace[..k]) == Some(trace[k - 1])
    ensures trace[k] + width <= size || (k == 0 && trace[k] == 0) || (k > 0 && trace[k] == trace[k - 1])
    ensures trace[k] + width < size ==> MatchAt(world(k).memory, world(k).pattern.value, trace[k])
  {
    var passed := Passed(trace[..k]);
    assert RanAgain(world, trace, k);
    ScanStops(world(k).memory, world(k).pattern.value, Start(passed));
  }

  /** Until an offset is accepted the offsets strictly increase, and they stay
      inside the segment. */
  lemma {:induction false} OffsetsIncrease(world: nat -> Invocation, trace: seq<nat>, size: nat, width: nat, j: nat,
                                           k: nat)
    requires Proper(world, size, width) && Run(world, trace) && j <= k < |trace|
    ensures trace[j] + (k - j) <= trace[k]
    ensures trace[k] + width <= size || (k == 0 && trace[k] == 0)
    decreases k
  {
    RunStep(world, trace, k, size, width);
    if j < k { OffsetsIncrease(world, trace, size, width, j, k - 1); }
  }

  /** How many times at most a program runs itself again. */
  function Limit(size: nat, width: nat): nat {
    if size >= width then size - width + 1 else 1
  }

  /** So the number of invocations is bounded, whatever the memories hold. */
  lemma RunsAreShort(world: nat -> Invocation, trace: seq<nat>, size: nat, width: nat)
    requires Proper(world, size, width) && Run(world, trace)
    ensures |trace| <= Limit(size, width)
  {
    if trace != [] {
      OffsetsIncrease(world, trace, size, width, 0, |trace| - 1);
    }
  }

  /** An accepted offset is the one found the time before; unless it is the place
      where the scan gives up, it held the pattern of both invocations. */
  lemma AcceptedTwice(world: nat -> Invocation, trace: seq<nat>, size: nat, width: nat, offset: nat)
    requires Proper(world, size, width) && Run(world, trace)
    requires Invoke(world(|trace|), Passed(trace)) == Accept(offset)
    ensures var n := |trace|;
      && n > 0 && offset == trace[n - 1]
      && world(n - 1).pattern.Some? && world(n).pattern.Some?
      && (offset + width < size ==>
            && MatchAt(world(n - 1).memory, world(n - 1).pattern.value, offset)
            && MatchAt(world(n).memory, world(n).pattern.value, offset))
  {
    var n := |trace|;
    RunStep(world, trace, n - 1, size, width);
    ScanStops(world(n).memory, world(n).pattern.value, offset);
  }

  /** The search of src/find_dl_argc.c: every invocation looks for its own argument
      count, as an `int` in memory. */
  ghost predicate LooksForArgc(world: nat -> Invocation, argc: nat) {
    forall k: nat :: world(k).pattern == Some(EncodeLE(argc + 10 * k, 4))
  }

  /** The word at an accepted offset counted the arguments of two consecutive
      invocations: it grew by ten with them. */
  lemma ArgcAccepted(world: nat -> Invocation, trace: seq<nat>, size: nat, argc: nat, offset: nat)
    requires Proper(world, size, 4) && Run(world, trace) && LooksForArgc(world, argc)
    requires Invoke(world(|trace|), Passed(trace)) == Accept(offset) && offset + 4 < size
    ensures var n := |trace|;
      && n > 0 && offset + 4 <= |world(n - 1).memory| && offset + 4 <= |world(n).memory|
      && DecodeLE(world(n - 1).memory[offset..offset + 4]) == (argc + 10 * (n - 1)) % 0x1_0000_0000
      && DecodeLE(world(n).memory[offset..offset + 4]) == (argc + 10 * n) % 0x1_0000_0000
  {
    var n := |trace|;
    AcceptedTwice(world, trace, size, 4, offset);
    DecodeEncode(argc + 10 * (n - 1), 4);
    DecodeEncode(argc + 10 * n, 4);
    WidthLimits();
  }

  /** The variable sits at offset `t` in every invocation. */
  ghost predicate Stationary(world: nat -> Invocation, t: nat) {
    forall k :: world(k).pattern.Some? && MatchAt(world(k).memory, world(k).pattern.value, t)
  }

  lemma ScanNotBeyond(memory: seq<byte>, pattern: seq<byte>, from: nat, t: nat)
    requires MatchAt(memory, pattern, t) && from <= t
    ensures ScanFrom(memory, pattern, from) <= t
  {
    ScanStops(memory, pattern, from);
  }

  lemma {:induction false} TraceNotBeyond(world: nat -> Invocation, trace: seq<nat>, size: nat, width: nat, t: nat,
                                          k: nat)
    requires Proper(world, size, width) && Run(world, trace) && Stationary(world, t) && k < |trace|
    ensures trace[k] <= t
  {
    RunStep(world, trace, k, size, width);
    assert RanAgain(world, trace, k);
    if k > 0 { TraceNotBeyond(world, trace, size, width, t, k - 1); }
    ScanNotBeyond(world(k).memory, world(k).pattern.value, Start(Passed(trace[..k])), t);
  }

  /** If it sits at `t` every time, whatever is accepted lies at or before `t` and
      really held the pattern in two consecutive invocations. */
  lemma StationaryIsFound(world: nat -> Invocation, trace: seq<nat>, size: nat, width: nat, t: nat, offset: nat)
    requires Proper(world, size, width) && Run(world, trace) && Stationary(world, t)
    requires Invoke(world(|trace|), Passed(trace)) == Accept(offset)
    ensures |trace| > 0 && offset <= t
    ensures MatchAt(world(|trace| - 1).memory, world(|trace| - 1).pattern.value, offset)
    ensures MatchAt(world(|trace|).memory, world(|trace|).pattern.value, offset)
  {
    var n := |trace|;
    AcceptedTwice(world, trace, size, width, offset);
    TraceNotBeyond(world, trace, size, width, t, n - 1);
    assert MatchAt(world(n).memory, world(n).pattern.value, t);
  }

  /** A run ends without printing exactly when there is no pattern to look for or
      the segment is empty: "not found" is never reported. */
  lemma NothingIff(world: nat -> Invocation, trace: seq<nat>, size: nat, width: nat)
    requires Proper(world, size, width) && Run(world, trace)
    ensures Invoke(world(|trace|), Passed(trace)) == Nothing <==> world(|trace|).pattern.None? || size == 0
  {
    var n := |trace|;
    if trace != [] { OffsetsIncrease(world, trace, size, width, n - 1, n - 1); }
    if world(n).pattern.Some? { ScanStops(world(n).memory, world(n).pattern.value, Start(Passed(trace))); }
  }

  /** What happens instead: the first invocation stops short of the end exactly
      when no scanned place matches, and then the second one accepts that offset,
      whatever its memory holds. */
  lemma NotFoundIsAccepted(world: nat -> Invocation, size: nat, width: nat)
    requires Proper(world, size, width) && size >= width
    requires world(0).pattern.Some? && world(1).pattern.Some?
    ensures Invoke(world(0), None) == Again(size - width)
            <==> forall q :: 0 <= q < size - width ==> !MatchAt(world(0).memory, world(0).pattern.value, q)
    ensures Invoke(world(1), Some(size - width)) == Accept(size - width)
  {
    ScanStops(world(0).memory, world(0).pattern.value, 0);
  }

  /** One more re-execution makes a longer run, and still a short one. */
  lemma RunGrows(world: nat -> Invocation, trace: seq<nat>, size: nat, width: nat, offset: nat)
    requires Proper(world, size, width) && Run(world, trace)
    requires Invoke(world(|trace|), Passed(trace)) == Again(offset)
    ensures Run(world, trace + [offset]) && Passed(trace + [offset]) == Some(offset)
    ensures |trace| < Limit(size, width)
  {
    var longer := trace + [offset];
    forall k | 0 <= k < |longer|
      ensures RanAgain(world, longer, k)
    {
      assert longer[..k] == trace[..k] && trace[..|trace|] == trace;
      assert k < |trace| ==> RanAgain(world, trace, k);
    }
    RunsAreShort(world, longer, size, width);
  }

  /** What a program prints, from the last invocation's verdict. */
  function Printed(v: Verdict, base: nat): Option<nat> {
    if v.Accept? then Some(v.offset + base) else None
  }

  /** A run that ends prints something exactly when there is a segment to scan,
      provided the patterns are there. */
  lemma PrintsIff(world: nat -> Invocation, trace: seq<nat>, size: nat, width: nat, base: nat)
    requires Proper(world, size, width) && Run(world, trace)
    requires !Invoke(world(|trace|), Passed(trace)).Again?
    requires forall k :: world(k).pattern.Some?
    ensures Printed(Invoke(world(|trace|), Passed(trace)), base).Some? <==> size > 0
  {
    NothingIff(world, trace, size, width);
  }

  /** What it prints for a variable that stays at `t` is at most that variable's
      address. */
  lemma PrintsNotBeyond(world: nat -> Invocation, trace: seq<nat>, size: nat, width: nat, base: nat, t: nat)
    requires Proper(world, size, width) && Run(world, trace) && Stationary(world, t)
    ensures var printed := Printed(Invoke(world(|trace|), Passed(trace)), base);
      printed.Some? ==> base <= printed.value <= base + t
  {
    var v := Invoke(world(|trace|), Passed(trace));
    if v.Accept? { StationaryIsFound(world, trace, size, width, t, v.offset); }
  }

  /** One invocation, told from its memory: the first place from where it starts on that
      holds the pattern, or short of which the scan gives up. */
  lemma InvokeIs(w: Invocation, found: Option<nat>, from: nat, pattern: seq<byte>, r: nat)
    requires w.pattern == Some(pattern) && from <= r
    requires from == match found case None => 0 case Some(f) => f
    requires from < r ==> r + |pattern| <= |w.memory|
    requires forall q :: from <= q < r && q <= |w.memory| ==> !(pattern <= w.memory[q..])
    requires r + |pattern| < |w.memory| ==> pattern <= w.memory[r..]
    ensures Invoke(w, found) ==
            if r == |w.memory| then Nothing else if found == Some(r) then Accept(r) else Again(r)
  {
    ScanIs(w.memory, pattern, from, r);
  }

  lemma MatchIsPrefix(memory: seq<byte>, pattern: seq<byte>, at: nat)
    requires at <= |memory|
    ensures MatchAt(memory, pattern, at) <==> pattern <= memory[at..]
  {
    if at + |pattern| <= |memory| {
      assert memory[at..][..|pattern|] == memory[at..at + |pattern|];
    }
  }

  lemma {:induction false} ScanIs(memory: seq<byte>, pattern: seq<byte>, from: nat, r: nat)
    requires from <= r
    requires from < r ==> r + |pattern| <= |memory|
    requires forall q :: from <= q < r && q <= |memory| ==> !(pattern <= memory[q..])
    requires r + |pattern| < |memory| ==> pattern <= memory[r..]
    ensures ScanFrom(memory, pattern, from) == r
    decreases r - from
  {
    if from <= |memory| { MatchIsPrefix(memory, pattern, from); }
    if from < r { ScanIs(memory, pattern, from + 1, r); }
  }

  /** The two invocations that suffice for a variable that stays in its place, if its
      first value occurs nowhere before it: the run they make is the only one. */
  lemma TwoInvocations(world: nat -> Invocation, trace: seq<nat>, first: seq<byte>, second: seq<byte>, t: nat)
    requires Run(world, trace) && !Invoke(world(|trace|), Passed(trace)).Again?
    requires world(0).pattern == Some(first) && world(1).pattern == Some(second)
    requires t + |first| < |world(0).memory| && first <= world(0).memory[t..]
    requires forall q :: 0 <= q < t ==> !(first <= world(0).memory[q..])
    requires t + |second| < |world(1).memory| && second <= world(1).memory[t..]
    ensures trace == [t] && Invoke(world(1), Some(t)) == Accept(t)
  {
    InvokeIs(world(0), None, 0, first, t);
    InvokeIs(world(1), Some(t), t, second, t);
    if trace != [] {
      RanAgainFrom(world, trace, 0);
      if |trace| > 1 {
        RanAgainFrom(world, trace, 1);
        assert false;
      }
    }
  }

  lemma RanAgainFrom(world: nat -> Invocation, trace: seq<nat>, k: nat)
    requires Run(world, trace) && k < |trace|
    ensures Invoke(world(k), if k == 0 then None else Some(trace[k - 1])) == Again(trace[k])
  {
    assert RanAgain(world, trace, k);
  }

  /** The re-executions themselves. */
  method Rerun(world: nat -> Invocation, first: array<Arg>, argc: nat, ghost size: nat, ghost width: nat, base: nat)
    returns (printed: Option<nat>, lastArgc: nat, ghost trace: seq<nat>)
    requires Proper(world, size, width)
    requires CommandLine(first[..], argc) && FoundArg(first[1]) == None
    ensures Run(world, trace) && lastArgc == argc + 10 * |trace| && |trace| <= Limit(size, width)
    ensures var v := Invoke(world(|trace|), Passed(trace)); !v.Again? && printed == Printed(v, base)
  {
    var argv := first;
    lastArgc := argc;
    trace := [];
    var k := 0;
    var v := RunOnce(world(k), FoundArg(argv[1]));
    while v.Again?
      invariant Run(world, trace) && k == |trace| <= Limit(size, width)
      invariant CommandLine(argv[..], lastArgc)
      invariant lastArgc == argc + 10 * |trace|
      invariant v == Invoke(world(|trace|), Passed(trace))
      decreases Limit(size, width) - |trace|
    {
      RunGrows(world, trace, size, width, v.offset);
      argv := NewArgv(argv, lastArgc, v.offset);
      lastArgc, trace, k := lastArgc + 10, trace + [v.offset], k + 1;
      v := RunOnce(world(k), FoundArg(argv[1]));
    }
    printed := if v.Accept? then Some(v.offset + base) else None;
  }

  /** The program with its re-executions; `base` is the segment's address in the
      loader's file. It terminates for all memories, and each invocation counts
      ten arguments more than the one before. */
  method Search(world: nat -> Invocation, first: array<Arg>, argc: nat, ghost size: nat, ghost width: nat, base: nat)
    returns (printed: Option<nat>, lastArgc: nat, ghost trace: seq<nat>)
    requires Proper(world, size, width)
    requires CommandLine(first[..], argc) && FoundArg(first[1]) == None
    ensures Run(world, trace) && lastArgc == argc + 10 * |trace|
    ensures |trace| + 1 <= if size >= width then size - width + 2 else 2
    ensures match Invoke(world(|trace|), Passed(trace))
            case Nothing => printed == None
            case Accept(offset) => printed == Some(offset + base)
            case Again(_) => false
    ensures lastArgc <= argc + 10 * if size >= width then size - width + 1 else 1
    ensures (forall k :: world(k).pattern.Some?) ==> (printed.Some? <==> size > 0)
    ensures forall t :: Stationary(world, t) && printed.Some? ==> base <= printed.value <= base + t
    ensures printed.Some? && printed.value - base + width < size ==>
              var n, at := |trace|, printed.value - base;
              && n > 0 && 0 <= at && world(n - 1).pattern.Some? && world(n).pattern.Some?
              && world(n - 1).memory[at..at + width] == world(n - 1).pattern.value
              && world(n).memory[at..at + width] == world(n).pattern.value
    ensures forall t: nat ::
              t + width < size && world(0).pattern.Some? && world(1).pattern.Some?
              && world(0).pattern.value <= world(0).memory[t..] && world(1).pattern.value <= world(1).memory[t..]
              && (forall q :: 0 <= q < t ==> !(world(0).pattern.value <= world(0).memory[q..])) ==>
                printed == Some(base + t) && lastArgc == argc + 10
  {
    printed, lastArgc, trace := Rerun(world, first, argc, size, width, base);
    if printed.Some? {
      AcceptedTwice(world, trace, size, width, printed.value - base);
    }
    forall t: nat |
      t + width < size && world(0).pattern.Some? && world(1).pattern.Some?
      && world(0).pattern.value <= world(0).memory[t..] && world(1).pattern.value <= world(1).memory[t..]
      && (forall q :: 0 <= q < t ==> !(world(0).pattern.value <= world(0).memory[q..]))
      ensures printed == Some(base + t) && lastArgc == argc + 10
    {
      TwoInvocations(world, trace, world(0).pattern.value, world(1).pattern.value, t);
    }
    if forall k :: world(k).pattern.Some? {
      PrintsIff(world, trace, size, width, base);
    }
    forall t | Stationary(world, t) && printed.Some?
      ensures base <= printed.value <= base + t
    {
      PrintsNotBeyond(world, trace, size, width, base, t);
    }
  }
}
