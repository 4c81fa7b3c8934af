/** From memory mappings to PT_LOAD headers (src/pt_load_1.c) and the choice of
    the mappings and dump files that go into the new executable
    (src/statifier_create_exe.sh:12-266). */
module MapFilter {
  import opened Bytes
  import opened Elf
  import opened Outcomes

  /** One line of the maps file. */
  datatype Mapping = Mapping(start: nat, stop: nat, perm: string, name: string)

  /** One dump file; `soname` is what elf_soname prints for it, if it succeeds. */
  datatype DumpFile = DumpFile(data: seq<byte>, soname: Outcome<string>)

  // ---------------------------------------------------------- pt_load_1.c

  function Permission(perm: string): nat
    requires |perm| >= 3
  {
    (if perm[0] == 'r' then PF_R else 0) + (if perm[1] == 'w' then PF_W else 0) + (if perm[2] == 'x' then PF_X else 0)
  }

  /** Each flag is or-ed in at most once, so `|=` adds. */
  method ConvertPermission(perm: string) returns (r: Outcome<nat>)
    ensures r == if |perm| < 3 then Exit(ShortPermission) else Done(Permission(perm))
  {
    if |perm| < 3 {
      return Exit(ShortPermission);
    }
    var flags := 0;
    if perm[0] == 'r' { flags := flags + PF_R; }
    if perm[1] == 'w' { flags := flags + PF_W; }
    if perm[2] == 'x' { flags := flags + PF_X; }
    return Done(flags);
  }

  /** The PT_LOAD header of a mapping; its file offset is assigned later. */
  function SegmentHeader(start: nat, stop: nat, perm: string): Outcome<Phdr> {
    if stop < start then Exit(BadMapping)
    else if |perm| < 3 then Exit(ShortPermission)
    else Done(Phdr(PT_LOAD, Permission(perm), 0, start, start, stop - start, stop - start, 1))
  }

  method PtLoad1(start: nat, stop: nat, perm: string) returns (r: Outcome<Phdr>)
    ensures r == SegmentHeader(start, stop, perm)
  {
    if stop < start {
      return Exit(BadMapping);
    }
    var flags := ConvertPermission(perm);
    if flags.Exit? {
      return Exit(flags.error);
    }
    var phdr := Phdr(PT_LOAD, 0, 0, 0, 0, 0, 0, 0);
    phdr := phdr.(offset := 0);
    phdr := phdr.(vaddr := start);
    phdr := phdr.(paddr := phdr.vaddr);
    phdr := phdr.(filesz := stop - start);
    phdr := phdr.(memsz := phdr.filesz);
    phdr := phdr.(flags := flags.value);
    phdr := phdr.(align := 1);
    return Done(phdr);
  }

  // -------------------------------------------------------- Stack mappings

  predicate Inside(v: nat, low: nat, high: nat) {
    low <= v < high
  }

  /** `IsInside` of the script. */
  method IsInside(v: nat, low: nat, high: nat) returns (inside: bool)
    ensures inside == Inside(v, low, high)
  {
    inside := false;
    if v < low { return; }
    if v >= high { return; }
    inside := true;
  }

  function KernelStackIndex(maps: seq<Mapping>, sp: nat): (i: nat)
    ensures i <= |maps|
    ensures i < |maps| ==> Inside(sp, maps[i].start, maps[i].stop)
    ensures forall k :: 0 <= k < i ==> !Inside(sp, maps[k].start, maps[k].stop)
  {
    if maps == [] then 0
    else if Inside(sp, maps[0].start, maps[0].stop) then 0
    else
      var r := KernelStackIndex(maps[1..], sp);
      assert forall k :: 0 < k < r + 1 ==> maps[k] == maps[1..][k - 1];
      1 + r
  }

  /** The initial mapping that held the stack pointer the kernel handed over. */
  method GetKernelStackStartStop(initMaps: seq<Mapping>, sp: nat) returns (r: Outcome<(nat, nat)>)
    ensures var i := KernelStackIndex(initMaps, sp);
      r == if i == |initMaps| then Exit(NoKernelStack) else Done((initMaps[i].start, initMaps[i].stop))
  {
    for i := 0 to |initMaps|
      invariant forall k :: 0 <= k < i ==> !Inside(sp, initMaps[k].start, initMaps[k].stop)
    {
      var inside := IsInside(sp, initMaps[i].start, initMaps[i].stop);
      if inside {
        return Done((initMaps[i].start, initMaps[i].stop));
      }
    }
    return Exit(NoKernelStack);
  }

  /** What the script knows about the process besides its mappings. */
  datatype Process = Process(sp: nat, stackStart: nat, stackStop: nat, dlArgc: nat)

  predicate StackMapping(m: Mapping, p: Process) {
    || Inside(p.sp, m.start, m.stop)
    || Inside(m.start, p.stackStart, p.stackStop)
    || Inside(m.stop, p.stackStart, p.stackStop)
  }

  method IsStack(m: Mapping, p: Process) returns (stack: bool)
    ensures stack == StackMapping(m, p)
  {
    stack := true;
    var inside := IsInside(p.sp, m.start, m.stop);
    if inside { return; }
    inside := IsInside(m.start, p.stackStart, p.stackStop);
    if inside { return; }
    inside := IsInside(m.stop, p.stackStart, p.stackStop);
    if inside { return; }
    stack := false;
  }

  predicate OverlapsStack(m: Mapping, p: Process) {
    m.start < p.stackStop && p.stackStart < m.stop
  }

  /** However the loader split or resized the stack: with the stack pointer in
      the kernel's stack, the three tests find exactly the mappings that overlap
      it, and besides them only a mapping that ends where it starts. */
  lemma StackIffOverlapOrTouch(m: Mapping, p: Process)
    requires m.start < m.stop && Inside(p.sp, p.stackStart, p.stackStop)
    ensures StackMapping(m, p) <==> OverlapsStack(m, p) || m.stop == p.stackStart
  {
  }

  // ------------------------------------------------------ Ignored mappings

  predicate LinuxGate(soname: string) {
    "linux-gate.so." <= soname
  }

  function Ignored(m: Mapping, d: DumpFile, p: Process): Outcome<bool> {
    if m.name == "[vdso]" || m.name == "[stack]" then Done(true)
    else if StackMapping(m, p) then Done(true)
    else
      match d.soname
      case Exit(_) => Exit(SonameFailed)
      case Done(soname) => Done(LinuxGate(soname))
  }

  method IsIgnoredSegment(m: Mapping, d: DumpFile, p: Process) returns (r: Outcome<bool>)
    ensures r == Ignored(m, d, p)
    ensures m.name == "[vdso]" || m.name == "[stack]" ==> r == Done(true)
    ensures m.start <= p.sp < m.stop || p.stackStart <= m.start < p.stackStop || p.stackStart <= m.stop < p.stackStop
            ==> r == Done(true)
    ensures m.name != "[vdso]" && m.name != "[stack]"
            && !(m.start <= p.sp < m.stop || p.stackStart <= m.start < p.stackStop
                 || p.stackStart <= m.stop < p.stackStop)
            ==> r == if d.soname.Done? then Done("linux-gate.so." <= d.soname.value) else Exit(SonameFailed)
  {
    if m.name == "[vdso]" { return Done(true); }
    if m.name == "[stack]" { return Done(true); }
    var stack := IsStack(m, p);
    if stack { return Done(true); }
    match d.soname
    case Exit(_) => return Exit(SonameFailed);
    case Done(soname) => return Done(LinuxGate(soname));
  }

  // ----------------------------------------------------------- Permissions

  function FirstDash(perm: string): (i: nat)
    ensures i <= |perm|
    ensures i < |perm| ==> perm[i] == '-'
    ensures forall k :: 0 <= k < i ==> perm[k] != '-'
  {
    if perm == "" || perm[0] == '-' then 0 else 1 + FirstDash(perm[1..])
  }

  /** `"${Perm%%-*}w${Perm#*-}"` turns the first dash into a `w`: the first one,
      not the second character. */
  function MakeWritable(perm: string): string {
    if |perm| >= 2 && perm[1] == '-'
    then perm[..FirstDash(perm)] + "w" + perm[FirstDash(perm) + 1..]
    else perm
  }

  function LoaderDataPermission(m: Mapping, p: Process): string {
    if Inside(p.dlArgc, m.start, m.stop) then MakeWritable(m.perm) else m.perm
  }

  function DropExec(perm: string): string {
    if "-wx" <= perm then "-w-" else if "rwx" <= perm then "rw-" else perm
  }

  function FinalPermission(m: Mapping, p: Process): string {
    DropExec(LoaderDataPermission(m, p))
  }

  /** A permission field of /proc/PID/maps: `r` or `-`, `w` or `-`, `x` or `-`. */
  predicate MapsPermission(perm: string) {
    && |perm| >= 3
    && (perm[0] == 'r' || perm[0] == '-')
    && (perm[1] == 'w' || perm[1] == '-')
    && (perm[2] == 'x' || perm[2] == '-')
  }

  /** No segment is both writable and executable, and the loader's data becomes
      writable exactly when it was readable or writable: for a mapping without
      either, the dash that is replaced is the wrong one. */
  lemma FinalPermissionFlags(m: Mapping, p: Process)
    requires MapsPermission(m.perm)
    ensures var perm := FinalPermission(m, p);
      && |perm| >= 3
      && !(perm[1] == 'w' && perm[2] == 'x')
      && (Inside(p.dlArgc, m.start, m.stop) ==>
            (perm[1] == 'w' <==> m.perm[0] == 'r' || m.perm[1] == 'w'))
  {
    var perm := LoaderDataPermission(m, p);
    assert "-wx" <= perm <==> perm[..3] == "-wx";
    assert "rwx" <= perm <==> perm[..3] == "rwx";
    if m.perm[0] == '-' {
      assert FirstDash(m.perm) == 0;
    } else if m.perm[1] == '-' {
      assert FirstDash(m.perm) == 1;
    }
  }

  /** A mapping of loader data that may only be executed becomes writable and
      executable in the first step; the second step does not know that spelling. */
  lemma ExecuteOnlyMisspelt(m: Mapping, p: Process)
    requires m.perm == "--x" && Inside(p.dlArgc, m.start, m.stop)
    ensures FinalPermission(m, p) == "w-x"
  {
    assert "--x"[0] == '-' && "--x"[1] == '-' && FirstDash("--x") == 0;
    assert "--x"[..0] + "w" + "--x"[1..] == "w-x";
    assert LoaderDataPermission(m, p) == "w-x";
    assert "w-x"[0] == 'w' && "-wx"[0] == '-' && "rwx"[0] == 'r';
  }

  // -------------------------------------------------------------- Selection

  /** The headers written to stdout and the dump files named for `cat`. */
  datatype Selection = Selection(headers: seq<Phdr>, files: seq<seq<byte>>)

  function Select(maps: seq<Mapping>, dumps: seq<DumpFile>, p: Process): Outcome<Selection>
    requires |maps| <= |dumps|
  {
    if maps == [] then Done(Selection([], []))
    else
      var n := |maps| - 1;
      match Select(maps[..n], dumps, p)
      case Exit(e) => Exit(e)
      case Done(s) => SelectNext(s, maps[n], dumps[n], p)
  }

  function SelectNext(s: Selection, m: Mapping, d: DumpFile, p: Process): Outcome<Selection> {
    match Ignored(m, d, p)
    case Exit(e) => Exit(e)
    case Done(true) => Done(s)
    case Done(false) =>
      match SegmentHeader(m.start, m.stop, FinalPermission(m, p))
      case Exit(e) => Exit(e)
      case Done(h) => Done(Selection(s.headers + [h], s.files + [d.data]))
  }

  lemma {:induction false} SelectPrefixFails(maps: seq<Mapping>, dumps: seq<DumpFile>, p: Process, i: nat)
    requires i <= |maps| <= |dumps|
    requires Select(maps[..i], dumps, p).Exit?
    ensures Select(maps, dumps, p) == Select(maps[..i], dumps, p)
  {
    if i < |maps| {
      var n := |maps| - 1;
      assert maps[..n][..i] == maps[..i];
      SelectPrefixFails(maps[..n], dumps, p, i);
    } else {
      assert maps[..i] == maps;
    }
  }

  function PtLoadResult(initMaps: seq<Mapping>, maps: seq<Mapping>, dumps: seq<DumpFile>, sp: nat, dlArgc: nat)
    : Outcome<Selection>
  {
    var k := KernelStackIndex(initMaps, sp);
    if k == |initMaps| then Exit(NoKernelStack)
    else
      var p := Process(sp, initMaps[k].start, initMaps[k].stop, dlArgc);
      if |maps| > |dumps| then
        match Select(maps[..|dumps|], dumps, p)
        case Exit(e) => Exit(e)
        case Done(_) => Exit(DumpCountMismatch)
      else
        match Select(maps, dumps, p)
        case Exit(e) => Exit(e)
        case Done(s) => if |maps| < |dumps| then Exit(DumpCountMismatch) else Done(s)
  }

  /** `pt_load`: lines are read and dump files shifted off in step. */
  method PtLoad(initMaps: seq<Mapping>, maps: seq<Mapping>, dumps: seq<DumpFile>, sp: nat, dlArgc: nat)
    returns (r: Outcome<Selection>)
    ensures r == PtLoadResult(initMaps, maps, dumps, sp, dlArgc)
  {
    var stack := GetKernelStackStartStop(initMaps, sp);
    if stack.Exit? { return Exit(stack.error); }
    var p := Process(sp, stack.value.0, stack.value.1, dlArgc);
    var rest := dumps;
    var s := Selection([], []);
    var i := 0;
    while i < |maps|
      invariant 0 <= i <= |maps| && i <= |dumps| && rest == dumps[i..]
      invariant Select(maps[..i], dumps, p) == Done(s)
    {
      if rest == [] {
        return Exit(DumpCountMismatch);
      }
      var m, d := maps[i], rest[0];
      rest := rest[1..];
      assert maps[..i + 1][..i] == maps[..i];
      ghost var next := SelectNext(s, m, d, p);
      assert Select(maps[..i + 1], dumps, p) == next;
      ghost var seen := if |maps| > |dumps| then maps[..|dumps|] else maps;
      assert seen[..i + 1] == maps[..i + 1];
      if next.Exit? { SelectPrefixFails(seen, dumps, p, i + 1); }
      i := i + 1;
      var ignored := IsIgnoredSegment(m, d, p);
      if ignored.Exit? { return Exit(ignored.error); }
      if ignored.value { continue; }
      var perm := LoaderDataPermission(m, p);
      perm := DropExec(perm);
      var h := PtLoad1(m.start, m.stop, perm);
      if h.Exit? { return Exit(h.error); }
      s := Selection(s.headers + [h.value], s.files + [d.data]);
    }
    assert maps[..i] == maps;
    if rest != [] {
      return Exit(DumpCountMismatch);
    }
    return Done(s);
  }

  predicate Kept(m: Mapping, d: DumpFile, p: Process) {
    Ignored(m, d, p) == Done(false)
  }

  function KeptIndices(maps: seq<Mapping>, dumps: seq<DumpFile>, p: Process): seq<nat>
    requires |maps| <= |dumps|
  {
    if maps == [] then []
    else
      var n := |maps| - 1;
      KeptIndices(maps[..n], dumps, p) + if Kept(maps[n], dumps[n], p) then [n] else []
  }

  /** Headers and dump files stay in lockstep: the k-th header and the k-th file
      come from the k-th kept mapping. */
  lemma {:induction false} SelectionLockstep(maps: seq<Mapping>, dumps: seq<DumpFile>, p: Process)
    requires |maps| <= |dumps| && Select(maps, dumps, p).Done?
    ensures var s := Select(maps, dumps, p).value;
      var kept := KeptIndices(maps, dumps, p);
      && |s.headers| == |s.files| == |kept|
      && (forall k :: 0 <= k < |kept| ==> kept[k] < |maps|)
      && (forall k :: 0 <= k < |kept| ==>
            var m := maps[kept[k]];
            && SegmentHeader(m.start, m.stop, FinalPermission(m, p)) == Done(s.headers[k])
            && s.files[k] == dumps[kept[k]].data)
  {
    if maps != [] {
      var n := |maps| - 1;
      SelectionLockstep(maps[..n], dumps, p);
    }
  }

  /** The kept indices are exactly those of the mappings not ignored, in order. */
  lemma {:induction false} KeptIndicesExact(maps: seq<Mapping>, dumps: seq<DumpFile>, p: Process)
    requires |maps| <= |dumps|
    ensures var kept := KeptIndices(maps, dumps, p);
      && (forall k :: 0 <= k < |kept| ==> kept[k] < |maps|)
      && (forall j, k :: 0 <= j < k < |kept| ==> kept[j] < kept[k])
      && (forall i: nat :: i in kept <==> i < |maps| && Kept(maps[i], dumps[i], p))
  {
    if maps != [] {
      var n := |maps| - 1;
      KeptIndicesExact(maps[..n], dumps, p);
      assert forall i: nat :: i < n ==> maps[..n][i] == maps[i];
    }
  }

  /** No part of the original stack is ever kept. */
  lemma NoStackKept(m: Mapping, d: DumpFile, p: Process)
    requires m.start < m.stop && Inside(p.sp, p.stackStart, p.stackStop)
    requires Kept(m, d, p)
    ensures m.stop < p.stackStart || p.stackStop <= m.start
  {
    StackIffOverlapOrTouch(m, p);
  }

  /** No header asks for memory that is both writable and executable. */
  lemma NoWriteExec(maps: seq<Mapping>, dumps: seq<DumpFile>, p: Process, k: nat)
    requires |maps| <= |dumps| && Select(maps, dumps, p).Done?
    requires forall i :: 0 <= i < |maps| ==> MapsPermission(maps[i].perm)
    requires k < |Select(maps, dumps, p).value.headers|
    ensures Select(maps, dumps, p).value.headers[k].flags % 4 != PF_W + PF_X
  {
    SelectionLockstep(maps, dumps, p);
    var m := maps[KeptIndices(maps, dumps, p)[k]];
    FinalPermissionFlags(m, p);
    assert SegmentHeader(m.start, m.stop, FinalPermission(m, p)) == Done(Select(maps, dumps, p).value.headers[k]);
  }

  // --------------------------------------- The choice, without its own terms

  /** A mapping is kept if and only if it is neither the vdso nor the stack, lies clear
      of the kernel's stack, and has a soname that could be read and is not that of
      the gate page. */
  lemma KeptIff(m: Mapping, d: DumpFile, p: Process)
    requires m.start < m.stop && p.stackStart <= p.sp < p.stackStop
    ensures Kept(m, d, p) <==>
            && m.name != "[vdso]" && m.name != "[stack]"
            && (m.stop < p.stackStart || p.stackStop <= m.start)
            && d.soname.Done? && !("linux-gate.so." <= d.soname.value)
  {
    StackIffOverlapOrTouch(m, p);
  }

  /** The flags of its header. */
  lemma HeaderFlags(m: Mapping, p: Process)
    requires |m.perm| >= 3 && (m.perm[0] == 'r' || m.perm[0] == '-')
    requires (m.perm[1] == 'w' || m.perm[1] == '-') && (m.perm[2] == 'x' || m.perm[2] == '-')
    ensures |FinalPermission(m, p)| >= 3
    ensures var w := m.perm[1] == 'w' || (m.perm[0] == 'r' && m.start <= p.dlArgc < m.stop);
      Permission(FinalPermission(m, p)) ==
      (if m.perm[0] == 'r' then 4 else 0) + (if w then 2 else 0) + (if m.perm[2] == 'x' && !w then 1 else 0)
  {
    var perm := LoaderDataPermission(m, p);
    assert "-wx" <= perm <==> perm[..3] == "-wx";
    assert "rwx" <= perm <==> perm[..3] == "rwx";
    if m.perm[0] == '-' {
      assert FirstDash(m.perm) == 0;
    } else if m.perm[1] == '-' {
      assert FirstDash(m.perm) == 1;
    }
  }

  lemma PermissionLength(m: Mapping, p: Process)
    ensures |FinalPermission(m, p)| >= 3 <==> |m.perm| >= 3
  {
    if |m.perm| >= 2 && m.perm[1] == '-' {
      FirstDashBefore(m.perm, 1);
    }
  }

  lemma FirstDashBefore(perm: string, k: nat)
    requires k < |perm| && perm[k] == '-'
    ensures FirstDash(perm) <= k
  {
  }

  /** How many of the first `i` mappings are kept. */
  function CountKept(kept: seq<bool>, i: nat): nat
    requires i <= |kept|
  {
    if i == 0 then 0 else CountKept(kept, i - 1) + if kept[i - 1] then 1 else 0
  }

  lemma {:induction false} CountKeptPrefix(kept: seq<bool>, n: nat, i: nat)
    requires i <= n <= |kept|
    ensures CountKept(kept[..n], i) == CountKept(kept, i)
    decreases i
  {
    if i > 0 { CountKeptPrefix(kept, n, i - 1); }
  }

  /** Every kept mapping, and no other, has its header and its dump, each behind
      those of the kept mappings in front of it. */
  lemma {:induction false} SelectedParts(maps: seq<Mapping>, dumps: seq<DumpFile>, p: Process, kept: seq<bool>)
    requires |kept| == |maps| <= |dumps| && Select(maps, dumps, p).Done?
    requires forall i :: 0 <= i < |maps| ==> (kept[i] <==> Kept(maps[i], dumps[i], p))
    ensures var s := Select(maps, dumps, p).value;
      && |s.headers| == |s.files| == CountKept(kept, |maps|)
      && forall i :: 0 <= i < |maps| && kept[i] ==>
           && CountKept(kept, i) < |s.headers|
           && SegmentHeader(maps[i].start, maps[i].stop, FinalPermission(maps[i], p))
              == Done(s.headers[CountKept(kept, i)])
           && s.files[CountKept(kept, i)] == dumps[i].data
  {
    if maps != [] {
      var n := |maps| - 1;
      SelectedParts(maps[..n], dumps, p, kept[..n]);
      CountKeptPrefix(kept, n, n);
      forall i | 0 <= i < n ensures CountKept(kept[..n], i) == CountKept(kept, i) {
        CountKeptPrefix(kept, n, i);
      }
    }
  }

  /** The same in numbers, for the permissions /proc/PID/maps shows. */
  lemma SelectedHeader(maps: seq<Mapping>, dumps: seq<DumpFile>, p: Process, kept: seq<bool>, i: nat)
    requires |kept| == |maps| <= |dumps| && Select(maps, dumps, p).Done? && i < |maps| && kept[i]
    requires p.stackStart <= p.sp < p.stackStop
    requires forall k :: 0 <= k < |maps| ==>
               && maps[k].start < maps[k].stop
               && (kept[k] <==>
                     && maps[k].name != "[vdso]" && maps[k].name != "[stack]"
                     && (maps[k].stop < p.stackStart || p.stackStop <= maps[k].start)
                     && dumps[k].soname.Done? && !("linux-gate.so." <= dumps[k].soname.value))
    requires |maps[i].perm| >= 3 && (maps[i].perm[0] == 'r' || maps[i].perm[0] == '-')
    requires (maps[i].perm[1] == 'w' || maps[i].perm[1] == '-') && (maps[i].perm[2] == 'x' || maps[i].perm[2] == '-')
    ensures var s, m, n := Select(maps, dumps, p).value, maps[i], CountKept(kept, i);
      var w := m.perm[1] == 'w' || (m.perm[0] == 'r' && m.start <= p.dlArgc < m.stop);
      var flags :=
        (if m.perm[0] == 'r' then 4 else 0) + (if w then 2 else 0) + (if m.perm[2] == 'x' && !w then 1 else 0);
      && |s.headers| == |s.files| == CountKept(kept, |maps|) && n < |s.headers|
      && s.headers[n] == Phdr(1, flags, 0, m.start, m.start, m.stop - m.start, m.stop - m.start, 1)
      && s.files[n] == dumps[i].data
  {
    forall k | 0 <= k < |maps| ensures kept[k] <==> Kept(maps[k], dumps[k], p) {
      KeptIff(maps[k], dumps[k], p);
    }
    SelectedParts(maps, dumps, p, kept);
    HeaderFlags(maps[i], p);
  }

  /** The choice succeeds exactly when every mapping that is not ignored for its name
      or its place has a soname, and, but for the gate page, a header. */
  lemma {:induction false} SelectIff(maps: seq<Mapping>, dumps: seq<DumpFile>, p: Process)
    requires |maps| <= |dumps|
    ensures Select(maps, dumps, p).Done? <==>
            forall i :: 0 <= i < |maps| ==>
              || maps[i].name == "[vdso]" || maps[i].name == "[stack]"
              || maps[i].start <= p.sp < maps[i].stop
              || p.stackStart <= maps[i].start < p.stackStop || p.stackStart <= maps[i].stop < p.stackStop
              || (dumps[i].soname.Done?
                  && ("linux-gate.so." <= dumps[i].soname.value
                      || (maps[i].start <= maps[i].stop && |maps[i].perm| >= 3)))
  {
    if maps != [] {
      var n := |maps| - 1;
      SelectIff(maps[..n], dumps, p);
      PermissionLength(maps[n], p);
    }
  }

  /** The whole stage: the process's stack is the first initial mapping around the
      stack pointer, and there is one dump for each mapping. */
  lemma PtLoadIff(initMaps: seq<Mapping>, maps: seq<Mapping>, dumps: seq<DumpFile>, sp: nat, dlArgc: nat, k: nat)
    requires k <= |initMaps| && forall l :: 0 <= l < k ==> !(initMaps[l].start <= sp < initMaps[l].stop)
    requires k < |initMaps| ==> initMaps[k].start <= sp < initMaps[k].stop
    ensures var r := PtLoadResult(initMaps, maps, dumps, sp, dlArgc);
      if k == |initMaps| || |maps| != |dumps| then r.Exit?
      else r == Select(maps, dumps, Process(sp, initMaps[k].start, initMaps[k].stop, dlArgc))
  {
    assert KernelStackIndex(initMaps, sp) == k;
  }
}
