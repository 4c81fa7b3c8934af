/** The starter's fixer of loader variables (src/dl-var.c): a walk over the
    initial process stack, described in sections 3.4.1 and 3.4.3 of the AMD64
    psABI, that writes through pointers as it goes. */
module DlVar {
  import opened Bytes
  import opened Outcomes

  const AT_NULL: nat := 0
  const AT_BASE: nat := 7
  const AT_PLATFORM: nat := 15

  datatype Aux = Aux(kind: nat, value: nat)

  /** The starter's data block; a 0 stands for a variable the loader lacks. */
  datatype DlVarData = DlVarData(
    base: nat, dlArgc: nat, dlArgv: nat, environ: nat, dlAuxv: nat,
    dlPlatform: nat, dlPlatformLen: nat, libcStackEnd: nat)

  /** What the kernel put on the stack. */
  datatype Process = Process(sp: nat, args: seq<nat>, env: seq<nat>, aux: seq<Aux>)
  {
    function Argv(): nat { sp + 8 }
    function Envp(): nat { Argv() + 8 * (|args| + 1) }
    function Auxv(): nat { Envp() + 8 * (|env| + 1) }
    function Kind(k: nat): nat { Auxv() + 16 * k }
    function Value(k: nat): nat { Kind(k) + 8 }
    function End(): nat { Kind(|aux|) + 8 }
  }

  ghost predicate WordAt(words: map<nat, nat>, a: nat, v: nat) {
    a in words && words[a] == v
  }

  ghost predicate ArgsAt(words: map<nat, nat>, p: Process) {
    && WordAt(words, p.sp, |p.args|)
    && (forall i :: 0 <= i < |p.args| ==> WordAt(words, p.Argv() + 8 * i, p.args[i]))
    && WordAt(words, p.Argv() + 8 * |p.args|, 0)
  }

  ghost predicate EnvAt(words: map<nat, nat>, p: Process) {
    && (forall i :: 0 <= i < |p.env| ==> WordAt(words, p.Envp() + 8 * i, p.env[i]) && p.env[i] != 0)
    && WordAt(words, p.Envp() + 8 * |p.env|, 0)
  }

  ghost predicate EntryAt(words: map<nat, nat>, p: Process, k: nat)
    requires k < |p.aux|
  {
    && WordAt(words, p.Kind(k), p.aux[k].kind) && p.aux[k].kind != AT_NULL
    && WordAt(words, p.Value(k), p.aux[k].value)
  }

  ghost predicate AuxAt(words: map<nat, nat>, p: Process) {
    && (forall k :: 0 <= k < |p.aux| ==> EntryAt(words, p, k))
    && WordAt(words, p.Kind(|p.aux|), AT_NULL)
  }

  /** The words in memory lay out the process: count, arguments, 0, environment,
      0, auxiliary vector, AT_NULL. */
  ghost predicate LaidOut(words: map<nat, nat>, p: Process) {
    ArgsAt(words, p) && EnvAt(words, p) && AuxAt(words, p)
  }

  /** The variables to set: those every loader has, and those it may lack. */
  predicate Target(d: DlVarData, a: nat) {
    a == d.dlArgc || a == d.dlArgv || a == d.environ || a == d.dlAuxv ||
    (a != 0 && (a == d.dlPlatform || a == d.dlPlatformLen || a == d.libcStackEnd))
  }

  /** Variables are words of memory, apart from the stack and from each other. */
  ghost predicate Apart(words: map<nat, nat>, d: DlVarData, p: Process) {
    && (forall a: nat :: Target(d, a) ==> a in words && !(p.sp <= a < p.End()))
    && d.dlArgc != d.dlArgv && d.dlArgc != d.environ && d.dlArgc != d.dlAuxv
    && d.dlArgv != d.environ && d.dlArgv != d.dlAuxv && d.environ != d.dlAuxv
    && d.dlPlatform !in {d.dlArgc, d.dlArgv, d.environ, d.dlAuxv}
    && d.dlPlatformLen !in {d.dlArgc, d.dlArgv, d.environ, d.dlAuxv}
    && d.libcStackEnd !in {d.dlArgc, d.dlArgv, d.environ, d.dlAuxv}
    && (d.dlPlatform != 0 ==> d.dlPlatform != d.dlPlatformLen && d.dlPlatform != d.libcStackEnd)
    && (d.dlPlatformLen != 0 ==> d.dlPlatformLen != d.libcStackEnd)
  }

  // --------------------------------------------------------------- Strings

  ghost predicate IsString(chars: map<nat, byte>, at: nat, n: nat) {
    && (forall b :: at <= b < at + n ==> b in chars && chars[b] != 0)
    && at + n in chars && chars[at + n] == 0
  }

  ghost predicate Terminated(chars: map<nat, byte>, at: nat) {
    exists n: nat :: IsString(chars, at, n)
  }

  /** Length of the string at an address; 0 where there is none. */
  ghost function StringLength(chars: map<nat, byte>, at: nat): (n: nat)
    ensures Terminated(chars, at) ==> IsString(chars, at, n)
  {
    if Terminated(chars, at) then
      var n: nat :| IsString(chars, at, n);
      n
    else 0
  }

  /** Platform names that are measured are terminated strings. */
  ghost predicate Platforms(chars: map<nat, byte>, p: Process) {
    forall k :: 0 <= k < |p.aux| && p.aux[k].kind == AT_PLATFORM ==> Terminated(chars, p.aux[k].value)
  }

  // ----------------------------------------------------------- The outcome

  /** The last platform name among the first `n` entries. */
  function LastPlatform(aux: seq<Aux>, n: nat): Option<nat>
    requires n <= |aux|
  {
    if n == 0 then None
    else if aux[n - 1].kind == AT_PLATFORM then Some(aux[n - 1].value)
    else LastPlatform(aux, n - 1)
  }

  /** The counter is not reset between entries: lengths add up. */
  ghost function LengthSum(chars: map<nat, byte>, p: Process, n: nat): nat
    requires n <= |p.aux|
  {
    if n == 0 then 0
    else LengthSum(chars, p, n - 1) +
         if p.aux[n - 1].kind == AT_PLATFORM then StringLength(chars, p.aux[n - 1].value) else 0
  }

  /** Memory after the stores in front of the loop. */
  function Stored(words: map<nat, nat>, d: DlVarData, p: Process): map<nat, nat> {
    (if d.libcStackEnd != 0 then words[d.libcStackEnd := p.sp] else words)
    [d.dlArgc := |p.args|][d.dlArgv := p.Argv()][d.environ := p.Envp()][d.dlAuxv := p.Auxv()]
  }

  /** What address `a` holds once the first `n` entries are processed, entry by
      entry. */
  ghost function After(words: map<nat, nat>, chars: map<nat, byte>, d: DlVarData, p: Process, n: nat, a: nat): nat
    requires n <= |p.aux|
  {
    if n == 0 then
      if a in Stored(words, d, p) then Stored(words, d, p)[a] else 0
    else
      var e := p.aux[n - 1];
      if e.kind == AT_BASE && a == p.Value(n - 1) then d.base
      else if e.kind == AT_PLATFORM && a != 0 && a == d.dlPlatform then e.value
      else if e.kind == AT_PLATFORM && a != 0 && a == d.dlPlatformLen then LengthSum(chars, p, n)
      else After(words, chars, d, p, n - 1, a)
  }

  lemma StoredElsewhere(words: map<nat, nat>, d: DlVarData, p: Process, a: nat)
    requires a in words && !Target(d, a)
    ensures a in Stored(words, d, p) && Stored(words, d, p)[a] == words[a]
  {
  }

  lemma StoredKeys(words: map<nat, nat>, d: DlVarData, p: Process)
    requires Apart(words, d, p)
    ensures Stored(words, d, p).Keys == words.Keys
  {
    assert Target(d, d.dlArgc) && Target(d, d.dlArgv) && Target(d, d.environ) && Target(d, d.dlAuxv);
    assert d.libcStackEnd != 0 ==> Target(d, d.libcStackEnd);
  }

  /** The stack itself keeps its words, but for the values of AT_BASE entries. */
  lemma {:induction false} KindKept(words: map<nat, nat>, chars: map<nat, byte>, d: DlVarData, p: Process, n: nat,
                                    k: nat)
    requires LaidOut(words, p) && Apart(words, d, p) && n <= |p.aux| && k <= |p.aux|
    ensures p.Kind(k) in words && After(words, chars, d, p, n, p.Kind(k)) == words[p.Kind(k)]
  {
    assert k < |p.aux| ==> EntryAt(words, p, k);
    assert !Target(d, p.Kind(k));
    if n == 0 {
      StoredElsewhere(words, d, p, p.Kind(k));
    } else {
      KindKept(words, chars, d, p, n - 1, k);
    }
  }

  /** The type field read at entry `n` says whether the vector ends there. */
  lemma KindSays(words: map<nat, nat>, chars: map<nat, byte>, d: DlVarData, p: Process, n: nat)
    requires LaidOut(words, p) && Apart(words, d, p) && n <= |p.aux|
    ensures p.Kind(n) in words
    ensures After(words, chars, d, p, n, p.Kind(n)) == if n == |p.aux| then AT_NULL else p.aux[n].kind
    ensures n < |p.aux| ==> p.aux[n].kind != AT_NULL
  {
    KindKept(words, chars, d, p, n, n);
    assert n < |p.aux| ==> EntryAt(words, p, n);
  }

  lemma {:induction false} ValueKept(words: map<nat, nat>, chars: map<nat, byte>, d: DlVarData, p: Process, n: nat,
                                     k: nat)
    requires LaidOut(words, p) && Apart(words, d, p) && n <= |p.aux| && k < |p.aux|
    requires n <= k || p.aux[k].kind != AT_BASE
    ensures p.Value(k) in words && After(words, chars, d, p, n, p.Value(k)) == words[p.Value(k)]
  {
    assert EntryAt(words, p, k);
    assert !Target(d, p.Value(k));
    if n == 0 {
      StoredElsewhere(words, d, p, p.Value(k));
    } else {
      ValueKept(words, chars, d, p, n - 1, k);
    }
  }

  /** Words show the outcome of the first `n` entries. */
  ghost predicate Showing(words: map<nat, nat>, was: map<nat, nat>, chars: map<nat, byte>, d: DlVarData, p: Process,
                          n: nat)
    requires n <= |p.aux|
  {
    words.Keys == was.Keys && forall a :: a in words ==> words[a] == After(was, chars, d, p, n, a)
  }

  lemma BaseStep(words: map<nat, nat>, was: map<nat, nat>, chars: map<nat, byte>, d: DlVarData, p: Process, n: nat)
    requires Apart(was, d, p) && n < |p.aux| && p.aux[n].kind == AT_BASE && p.Value(n) in words
    requires Showing(words, was, chars, d, p, n)
    ensures Showing(words[p.Value(n) := d.base], was, chars, d, p, n + 1)
  {
  }

  /** What the stores of one AT_PLATFORM entry leave. */
  ghost function PlatformStored(words: map<nat, nat>, chars: map<nat, byte>, d: DlVarData, p: Process,
                                n: nat): map<nat, nat>
    requires n < |p.aux|
  {
    var named := if d.dlPlatform != 0 then words[d.dlPlatform := p.aux[n].value] else words;
    if d.dlPlatformLen != 0 then named[d.dlPlatformLen := LengthSum(chars, p, n + 1)] else named
  }

  lemma PlatformStep(words: map<nat, nat>, was: map<nat, nat>, chars: map<nat, byte>, d: DlVarData, p: Process, n: nat)
    requires Apart(was, d, p) && n < |p.aux| && p.aux[n].kind == AT_PLATFORM
    requires Showing(words, was, chars, d, p, n)
    ensures Showing(PlatformStored(words, chars, d, p, n), was, chars, d, p, n + 1)
  {
    NotAuxValue(was, d, p);
    var next := PlatformStored(words, chars, d, p, n);
    assert next.Keys == was.Keys;
    forall a | a in next ensures next[a] == After(was, chars, d, p, n + 1, a) {
    }
  }

  class Memory {
    /** Words by address; no two of them overlap. */
    var words: map<nat, nat>
    /** Bytes of the platform names, which nothing writes. */
    const chars: map<nat, byte>

    constructor (words: map<nat, nat>, chars: map<nat, byte>)
      ensures this.words == words && this.chars == chars
    {
      this.words := words;
      this.chars := chars;
    }

    method Store(a: nat, v: nat)
      requires a in words
      modifies this
      ensures words == old(words)[a := v]
    {
      words := words[a := v];
    }

    /** Memory shows the outcome of the first `n` entries. */
    ghost predicate Shows(was: map<nat, nat>, d: DlVarData, p: Process, n: nat)
      requires n <= |p.aux|
      reads this
    {
      Showing(words, was, chars, d, p, n)
    }

    method FindAuxv(envp: nat, ghost p: Process) returns (auxv: nat)
      requires LaidOut(words, p) && envp == p.Envp()
      ensures auxv == p.Auxv()
    {
      var temp: nat := envp;
      ghost var i := 0;
      assert p.env != [] ==> WordAt(words, p.Envp(), p.env[0]);
      while words[temp] != 0
        invariant 0 <= i <= |p.env| && temp == p.Envp() + 8 * i
        invariant temp in words && (words[temp] == 0 <==> i == |p.env|)
        decreases |p.env| - i
      {
        temp := temp + 8;
        i := i + 1;
        assert i < |p.env| ==> WordAt(words, p.Envp() + 8 * i, p.env[i]);
      }
      auxv := temp + 8;
    }

    method StoreVariables(data: DlVarData, stack: nat, argv: nat, envp: nat, auxv: nat, ghost p: Process)
      requires stack == p.sp && argv == p.Argv() && envp == p.Envp() && auxv == p.Auxv()
      requires LaidOut(words, p) && Apart(words, data, p)
      modifies this
      ensures Shows(old(words), data, p, 0)
    {
      StoredKeys(words, data, p);
      var argc := words[stack];
      if data.libcStackEnd != 0 {
        Store(data.libcStackEnd, stack);
      }
      Store(data.dlArgc, argc);
      Store(data.dlArgv, argv);
      Store(data.environ, envp);
      Store(data.dlAuxv, auxv);
    }

    method MeasurePlatform(platform: nat, len: nat) returns (newLen: nat)
      requires Terminated(chars, platform)
      ensures newLen == len + StringLength(chars, platform)
    {
      var at: nat := platform;
      newLen := len;
      ghost var n := StringLength(chars, platform);
      while chars[at] != 0
        invariant platform <= at <= platform + n && newLen == len + (at - platform)
        decreases platform + n - at
      {
        newLen := newLen + 1;
        at := at + 1;
      }
    }

    /** `case AT_BASE`. */
    method DoBase(data: DlVarData, auxv: nat, ghost was: map<nat, nat>, ghost p: Process, ghost n: nat)
      requires LaidOut(was, p) && Apart(was, data, p) && n < |p.aux| && auxv == p.Kind(n)
      requires p.aux[n].kind == AT_BASE && Shows(was, data, p, n)
      modifies this
      ensures Shows(was, data, p, n + 1)
    {
      assert EntryAt(was, p, n);
      BaseStep(words, was, chars, data, p, n);
      Store(auxv + 8, data.base);
    }

    /** The stores of `case AT_PLATFORM`. */
    method StorePlatform(data: DlVarData, platform: nat, len: nat, ghost p: Process, ghost n: nat)
      returns (newLen: nat)
      requires n < |p.aux| && p.aux[n] == Aux(AT_PLATFORM, platform)
      requires data.dlPlatform != 0 ==> data.dlPlatform in words
      requires data.dlPlatformLen != 0 ==> data.dlPlatformLen in words
      requires data.dlPlatformLen != 0 ==> Terminated(chars, platform) && len == LengthSum(chars, p, n)
      modifies this
      ensures words == PlatformStored(old(words), chars, data, p, n)
      ensures data.dlPlatformLen != 0 ==> newLen == LengthSum(chars, p, n + 1)
    {
      newLen := len;
      if data.dlPlatform != 0 {
        Store(data.dlPlatform, platform);
      }
      if data.dlPlatformLen != 0 {
        newLen := MeasurePlatform(platform, len);
        Store(data.dlPlatformLen, newLen);
      }
    }

    /** `case AT_PLATFORM`. */
    method DoPlatform(data: DlVarData, platform: nat, len: nat, ghost was: map<nat, nat>, ghost p: Process,
                      ghost n: nat)
      returns (newLen: nat)
      requires LaidOut(was, p) && Apart(was, data, p) && n < |p.aux|
      requires p.aux[n] == Aux(AT_PLATFORM, platform) && Shows(was, data, p, n)
      requires data.dlPlatformLen != 0 ==> Platforms(chars, p) && len == LengthSum(chars, p, n)
      modifies this
      ensures Shows(was, data, p, n + 1)
      ensures data.dlPlatformLen != 0 ==> newLen == LengthSum(chars, p, n + 1)
    {
      NotAuxValue(was, data, p);
      PlatformStep(words, was, chars, data, p, n);
      newLen := StorePlatform(data, platform, len, p, n);
    }

    /** One entry of the auxiliary vector. */
    method DoEntry(data: DlVarData, auxv: nat, len: nat, ghost was: map<nat, nat>, ghost p: Process, ghost n: nat)
      returns (newLen: nat)
      requires LaidOut(was, p) && Apart(was, data, p) && n < |p.aux| && auxv == p.Kind(n)
      requires data.dlPlatformLen != 0 ==> Platforms(chars, p) && len == LengthSum(chars, p, n)
      requires Shows(was, data, p, n)
      modifies this
      ensures Shows(was, data, p, n + 1)
      ensures data.dlPlatformLen != 0 ==> newLen == LengthSum(chars, p, n + 1)
    {
      KindSays(was, chars, data, p, n);
      assert EntryAt(was, p, n);
      ValueKept(was, chars, data, p, n, n);
      newLen := len;
      if words[auxv] == AT_BASE {
        DoBase(data, auxv, was, p, n);
      } else if words[auxv] == AT_PLATFORM {
        newLen := DoPlatform(data, words[auxv + 8], len, was, p, n);
      }
    }

    method ProcessAuxv(data: DlVarData, start: nat, ghost was: map<nat, nat>, ghost p: Process)
      requires LaidOut(was, p) && Apart(was, data, p) && start == p.Auxv()
      requires data.dlPlatformLen != 0 ==> Platforms(chars, p)
      requires Shows(was, data, p, 0)
      modifies this
      ensures Shows(was, data, p, |p.aux|)
    {
      var auxv := start;
      var len := 0;
      ghost var n := 0;
      KindSays(was, chars, data, p, n);
      while words[auxv] != AT_NULL
        invariant 0 <= n <= |p.aux| && auxv == p.Kind(n)
        invariant Shows(was, data, p, n)
        invariant auxv in words && (words[auxv] == AT_NULL <==> n == |p.aux|)
        invariant data.dlPlatformLen != 0 ==> len == LengthSum(chars, p, n)
        decreases |p.aux| - n
      {
        len := DoEntry(data, auxv, len, was, p, n);
        auxv := auxv + 16;
        n := n + 1;
        KindSays(was, chars, data, p, n);
      }
    }

    /** Every word of memory after the walk, for whatever the kernel put on the
        stack. */
    method DoWork(data: DlVarData, stack: nat, ghost p: Process)
      requires stack == p.sp && LaidOut(words, p) && Apart(words, data, p)
      requires data.dlPlatformLen != 0 ==> Platforms(chars, p)
      modifies this
      ensures Shows(old(words), data, p, |p.aux|)
    {
      ghost var was := words;
      var argv := stack + 8;
      var envp := argv + 8 * words[stack] + 8;
      var auxv := FindAuxv(envp, p);
      StoreVariables(data, stack, argv, envp, auxv, p);
      ProcessAuxv(data, auxv, was, p);
    }
  }

  // ---------------------------------------------------- What that means

  lemma {:induction false} LastPlatformFound(aux: seq<Aux>, n: nat)
    requires n <= |aux|
    ensures match LastPlatform(aux, n)
            case None => forall k :: 0 <= k < n ==> aux[k].kind != AT_PLATFORM
            case Some(v) => (exists k :: 0 <= k < n && aux[k] == Aux(AT_PLATFORM, v)
                                         && forall l :: k < l < n ==> aux[l].kind != AT_PLATFORM)
  {
    if n > 0 && aux[n - 1].kind != AT_PLATFORM {
      LastPlatformFound(aux, n - 1);
    }
    if n > 0 && aux[n - 1].kind == AT_PLATFORM {
      assert aux[n - 1] == Aux(AT_PLATFORM, aux[n - 1].value);
    }
  }

  /** The variables hold what they are named for: count, arguments, environment,
      auxiliary vector and stack pointer. */
  lemma {:induction false} VariablesSet(words: map<nat, nat>, chars: map<nat, byte>, d: DlVarData, p: Process, n: nat)
    requires LaidOut(words, p) && Apart(words, d, p) && n <= |p.aux|
    ensures After(words, chars, d, p, n, d.dlArgc) == |p.args|
    ensures After(words, chars, d, p, n, d.dlArgv) == p.Argv()
    ensures After(words, chars, d, p, n, d.environ) == p.Envp()
    ensures After(words, chars, d, p, n, d.dlAuxv) == p.Auxv()
    ensures d.libcStackEnd != 0 ==> After(words, chars, d, p, n, d.libcStackEnd) == p.sp
  {
    NotAuxValue(words, d, p);
    if n > 0 { VariablesSet(words, chars, d, p, n - 1); }
  }

  /** The platform variables hold the last name and the lengths of all names. */
  lemma {:induction false} PlatformSet(words: map<nat, nat>, chars: map<nat, byte>, d: DlVarData, p: Process, n: nat)
    requires LaidOut(words, p) && Apart(words, d, p) && n <= |p.aux|
    ensures d.dlPlatform != 0 && LastPlatform(p.aux, n).Some? ==>
              After(words, chars, d, p, n, d.dlPlatform) == LastPlatform(p.aux, n).value
    ensures d.dlPlatformLen != 0 && LastPlatform(p.aux, n).Some? ==>
              After(words, chars, d, p, n, d.dlPlatformLen) == LengthSum(chars, p, n)
  {
    NotAuxValue(words, d, p);
    if n > 0 { PlatformSet(words, chars, d, p, n - 1); }
  }

  lemma NotAuxValue(words: map<nat, nat>, d: DlVarData, p: Process)
    requires Apart(words, d, p)
    ensures forall k, a: nat :: 0 <= k < |p.aux| && Target(d, a) ==> a != p.Value(k)
    ensures Target(d, d.dlArgc) && Target(d, d.dlArgv) && Target(d, d.environ) && Target(d, d.dlAuxv)
    ensures d.libcStackEnd != 0 ==> Target(d, d.libcStackEnd)
    ensures d.dlPlatform != 0 ==> Target(d, d.dlPlatform)
    ensures d.dlPlatformLen != 0 ==> Target(d, d.dlPlatformLen)
  {
  }

  /** Every AT_BASE entry shows the loader's base. */
  lemma {:induction false} BaseSet(words: map<nat, nat>, chars: map<nat, byte>, d: DlVarData, p: Process, n: nat,
                                   k: nat)
    requires LaidOut(words, p) && Apart(words, d, p) && k < n <= |p.aux| && p.aux[k].kind == AT_BASE
    ensures After(words, chars, d, p, n, p.Value(k)) == d.base
  {
    assert !Target(d, p.Value(k));
    if k < n - 1 { BaseSet(words, chars, d, p, n - 1, k); }
  }

  /** No other word of memory changes. */
  lemma {:induction false} NothingElse(words: map<nat, nat>, chars: map<nat, byte>, d: DlVarData, p: Process, n: nat,
                                       a: nat)
    requires n <= |p.aux| && a in words && !Target(d, a)
    requires forall k :: 0 <= k < n && p.aux[k].kind == AT_BASE ==> a != p.Value(k)
    ensures After(words, chars, d, p, n, a) == words[a]
  {
    if n == 0 {
      StoredElsewhere(words, d, p, a);
    } else {
      NothingElse(words, chars, d, p, n - 1, a);
    }
  }

  /** The platform variables stay as they were in a process without a name. */
  lemma {:induction false} NoPlatform(words: map<nat, nat>, chars: map<nat, byte>, d: DlVarData, p: Process, n: nat)
    requires LaidOut(words, p) && Apart(words, d, p) && n <= |p.aux| && LastPlatform(p.aux, n) == None
    ensures d.dlPlatform != 0 ==> After(words, chars, d, p, n, d.dlPlatform) == words[d.dlPlatform]
    ensures d.dlPlatformLen != 0 ==> After(words, chars, d, p, n, d.dlPlatformLen) == words[d.dlPlatformLen]
  {
    NotAuxValue(words, d, p);
    if n > 0 { NoPlatform(words, chars, d, p, n - 1); }
  }

  /** The stored length is the length of the stored name exactly when the names
      before the last one are empty; with one name it always is. */
  lemma PlatformLengthIff(chars: map<nat, byte>, p: Process, n: nat) returns (k: nat)
    requires n <= |p.aux| && LastPlatform(p.aux, n).Some?
    ensures k < n && p.aux[k] == Aux(AT_PLATFORM, LastPlatform(p.aux, n).value)
    ensures forall l :: k < l < n ==> p.aux[l].kind != AT_PLATFORM
    ensures LengthSum(chars, p, n) == StringLength(chars, LastPlatform(p.aux, n).value)
            <==> forall l :: 0 <= l < k && p.aux[l].kind == AT_PLATFORM ==> StringLength(chars, p.aux[l].value) == 0
  {
    LastPlatformFound(p.aux, n);
    k :| 0 <= k < n && p.aux[k] == Aux(AT_PLATFORM, LastPlatform(p.aux, n).value)
         && forall l :: k < l < n ==> p.aux[l].kind != AT_PLATFORM;
    SumBehind(chars, p, k + 1, n);
    SumZeroIff(chars, p, k);
  }

  lemma StringLengthIs(chars: map<nat, byte>, at: nat, n: nat)
    requires IsString(chars, at, n)
    ensures StringLength(chars, at) == n
  {
    var m := StringLength(chars, at);
    assert Terminated(chars, at);
    assert at + m in chars && chars[at + m] == 0 && at + n in chars && chars[at + n] == 0;
  }

  /** Two entries with the same one-letter name: the length stored is 2. */
  lemma TwoNamesAddUp()
    ensures var chars: map<nat, byte> := map[100 := 65, 101 := 0];
      var p := Process(0, [], [], [Aux(AT_PLATFORM, 100), Aux(AT_PLATFORM, 100)]);
      && Platforms(chars, p) && LastPlatform(p.aux, 2) == Some(100)
      && StringLength(chars, 100) == 1 && LengthSum(chars, p, 2) == 2
  {
    var chars: map<nat, byte> := map[100 := 65, 101 := 0];
    var p := Process(0, [], [], [Aux(AT_PLATFORM, 100), Aux(AT_PLATFORM, 100)]);
    assert p.aux[0] == p.aux[1] == Aux(AT_PLATFORM, 100);
    assert IsString(chars, 100, 1);
    StringLengthIs(chars, 100, 1);
    assert LengthSum(chars, p, 1) == 1;
  }

  lemma {:induction false} SumBehind(chars: map<nat, byte>, p: Process, k: nat, n: nat)
    requires k <= n <= |p.aux| && forall l :: k <= l < n ==> p.aux[l].kind != AT_PLATFORM
    ensures LengthSum(chars, p, n) == LengthSum(chars, p, k)
    decreases n
  {
    if k < n { SumBehind(chars, p, k, n - 1); }
  }

  lemma {:induction false} SumZeroIff(chars: map<nat, byte>, p: Process, n: nat)
    requires n <= |p.aux|
    ensures LengthSum(chars, p, n) == 0 <==>
            forall l :: 0 <= l < n && p.aux[l].kind == AT_PLATFORM ==> StringLength(chars, p.aux[l].value) == 0
  {
    if n > 0 { SumZeroIff(chars, p, n - 1); }
  }

  /** The auxiliary vector with the loader's base filled in. */
  function WithBase(p: Process, base: nat): Process {
    p.(aux := seq(|p.aux|, k requires 0 <= k < |p.aux| =>
      if p.aux[k].kind == AT_BASE then Aux(AT_BASE, base) else p.aux[k]))
  }

  /** Memory that shows the outcome of the whole walk. */
  ghost predicate Outcome(words: map<nat, nat>, final: map<nat, nat>, chars: map<nat, byte>, d: DlVarData, p: Process) {
    Showing(final, words, chars, d, p, |p.aux|)
  }

  lemma BelowAuxv(words: map<nat, nat>, final: map<nat, nat>, chars: map<nat, byte>, d: DlVarData, p: Process, a: nat,
                  v: nat)
    requires Apart(words, d, p) && Outcome(words, final, chars, d, p)
    requires p.sp <= a < p.Auxv() && WordAt(words, a, v)
    ensures WordAt(final, a, v)
  {
    assert !Target(d, a);
    NothingElse(words, chars, d, p, |p.aux|, a);
  }

  lemma ArgsReadBack(words: map<nat, nat>, final: map<nat, nat>, chars: map<nat, byte>, d: DlVarData, p: Process)
    requires Apart(words, d, p) && Outcome(words, final, chars, d, p) && ArgsAt(words, p)
    ensures ArgsAt(final, p)
  {
    BelowAuxv(words, final, chars, d, p, p.sp, |p.args|);
    forall i | 0 <= i < |p.args| ensures WordAt(final, p.Argv() + 8 * i, p.args[i]) {
      BelowAuxv(words, final, chars, d, p, p.Argv() + 8 * i, p.args[i]);
    }
    BelowAuxv(words, final, chars, d, p, p.Argv() + 8 * |p.args|, 0);
  }

  lemma EnvReadsBack(words: map<nat, nat>, final: map<nat, nat>, chars: map<nat, byte>, d: DlVarData, p: Process)
    requires Apart(words, d, p) && Outcome(words, final, chars, d, p) && EnvAt(words, p)
    ensures EnvAt(final, p)
  {
    forall i | 0 <= i < |p.env| ensures WordAt(final, p.Envp() + 8 * i, p.env[i]) && p.env[i] != 0 {
      assert WordAt(words, p.Envp() + 8 * i, p.env[i]);
      BelowAuxv(words, final, chars, d, p, p.Envp() + 8 * i, p.env[i]);
    }
    BelowAuxv(words, final, chars, d, p, p.Envp() + 8 * |p.env|, 0);
  }

  lemma EntryReadsBack(words: map<nat, nat>, final: map<nat, nat>, chars: map<nat, byte>, d: DlVarData, p: Process,
                       k: nat)
    requires LaidOut(words, p) && Apart(words, d, p) && Outcome(words, final, chars, d, p) && k < |p.aux|
    ensures EntryAt(final, WithBase(p, d.base), k)
  {
    assert EntryAt(words, p, k);
    KindKept(words, chars, d, p, |p.aux|, k);
    if p.aux[k].kind == AT_BASE {
      BaseSet(words, chars, d, p, |p.aux|, k);
    } else {
      ValueKept(words, chars, d, p, |p.aux|, k);
    }
  }

  lemma AuxReadsBack(words: map<nat, nat>, final: map<nat, nat>, chars: map<nat, byte>, d: DlVarData, p: Process)
    requires LaidOut(words, p) && Apart(words, d, p) && Outcome(words, final, chars, d, p)
    ensures AuxAt(final, WithBase(p, d.base))
  {
    var q := WithBase(p, d.base);
    forall k | 0 <= k < |q.aux| ensures EntryAt(final, q, k) {
      EntryReadsBack(words, final, chars, d, p, k);
    }
    KindKept(words, chars, d, p, |p.aux|, |p.aux|);
  }

  lemma SameFrame(words: map<nat, nat>, p: Process, q: Process)
    requires ArgsAt(words, p) && EnvAt(words, p)
    requires q.sp == p.sp && q.args == p.args && q.env == p.env
    ensures ArgsAt(words, q) && EnvAt(words, q)
  {
  }

  /** Read back, the stack is the one the kernel built, but for that base: the
      walk inverts the layout and keeps it. */
  lemma StackReadsBack(words: map<nat, nat>, final: map<nat, nat>, chars: map<nat, byte>, d: DlVarData, p: Process)
    requires LaidOut(words, p) && Apart(words, d, p) && Outcome(words, final, chars, d, p)
    ensures LaidOut(final, WithBase(p, d.base))
  {
    ArgsReadBack(words, final, chars, d, p);
    EnvReadsBack(words, final, chars, d, p);
    SameFrame(final, p, WithBase(p, d.base));
    AuxReadsBack(words, final, chars, d, p);
  }

  // ------------------------------------------------ The walk, in addresses

  /** The initial process stack of the psABI, section 3.4.1: from the stack pointer up
      the argument count, the arguments, 0, the environment, 0, and pairs of words up
      to a type of 0. */
  lemma LaidOutIff(words: map<nat, nat>, p: Process, envp: nat, auxv: nat)
    requires envp == p.sp + 8 + 8 * |p.args| + 8 && auxv == envp + 8 * |p.env| + 8
    ensures LaidOut(words, p) <==>
            && p.sp in words && words[p.sp] == |p.args|
            && (forall i :: 0 <= i < |p.args| ==>
                  p.sp + 8 + 8 * i in words && words[p.sp + 8 + 8 * i] == p.args[i])
            && envp - 8 in words && words[envp - 8] == 0
            && (forall i :: 0 <= i < |p.env| ==>
                  envp + 8 * i in words && words[envp + 8 * i] == p.env[i] && p.env[i] != 0)
            && auxv - 8 in words && words[auxv - 8] == 0
            && (forall k :: 0 <= k < |p.aux| ==>
                  && auxv + 16 * k in words && words[auxv + 16 * k] == p.aux[k].kind && p.aux[k].kind != 0
                  && auxv + 16 * k + 8 in words && words[auxv + 16 * k + 8] == p.aux[k].value)
            && auxv + 16 * |p.aux| in words && words[auxv + 16 * |p.aux|] == 0
  {
    ArgsAtIff(words, p);
    EnvAtIff(words, p, envp);
    AuxAtIff(words, p, auxv);
  }

  lemma ArgsAtIff(words: map<nat, nat>, p: Process)
    ensures ArgsAt(words, p) <==>
            && p.sp in words && words[p.sp] == |p.args|
            && (forall i :: 0 <= i < |p.args| ==>
                  p.sp + 8 + 8 * i in words && words[p.sp + 8 + 8 * i] == p.args[i])
            && p.sp + 8 + 8 * |p.args| in words && words[p.sp + 8 + 8 * |p.args|] == 0
  {
    assert p.Argv() == p.sp + 8;
    if ArgsAt(words, p) {
      forall i | 0 <= i < |p.args|
        ensures p.sp + 8 + 8 * i in words && words[p.sp + 8 + 8 * i] == p.args[i]
      {
        assert WordAt(words, p.Argv() + 8 * i, p.args[i]);
      }
    }
  }

  lemma EnvAtIff(words: map<nat, nat>, p: Process, envp: nat)
    requires envp == p.sp + 8 + 8 * |p.args| + 8
    ensures EnvAt(words, p) <==>
            && (forall i :: 0 <= i < |p.env| ==>
                  envp + 8 * i in words && words[envp + 8 * i] == p.env[i] && p.env[i] != 0)
            && envp + 8 * |p.env| in words && words[envp + 8 * |p.env|] == 0
  {
    assert p.Envp() == envp;
    if EnvAt(words, p) {
      forall i | 0 <= i < |p.env|
        ensures envp + 8 * i in words && words[envp + 8 * i] == p.env[i] && p.env[i] != 0
      {
        assert WordAt(words, p.Envp() + 8 * i, p.env[i]);
      }
    }
  }

  lemma AuxAtIff(words: map<nat, nat>, p: Process, auxv: nat)
    requires auxv == p.sp + 8 + 8 * |p.args| + 8 + 8 * |p.env| + 8
    ensures AuxAt(words, p) <==>
            && (forall k :: 0 <= k < |p.aux| ==>
                  && auxv + 16 * k in words && words[auxv + 16 * k] == p.aux[k].kind && p.aux[k].kind != 0
                  && auxv + 16 * k + 8 in words && words[auxv + 16 * k + 8] == p.aux[k].value)
            && auxv + 16 * |p.aux| in words && words[auxv + 16 * |p.aux|] == 0
  {
    assert p.Auxv() == auxv;
    if AuxAt(words, p) {
      forall k | 0 <= k < |p.aux|
        ensures auxv + 16 * k in words && words[auxv + 16 * k] == p.aux[k].kind && p.aux[k].kind != 0
        ensures auxv + 16 * k + 8 in words && words[auxv + 16 * k + 8] == p.aux[k].value
      {
        assert EntryAt(words, p, k);
      }
    }
  }

  /** Seven different variables, each a word of memory and none on the stack. */
  lemma ApartIf(words: map<nat, nat>, d: DlVarData, p: Process, vs: seq<nat>, end: nat)
    requires vs == [d.dlArgc, d.dlArgv, d.environ, d.dlAuxv, d.dlPlatform, d.dlPlatformLen, d.libcStackEnd]
    requires end == p.sp + 8 * |p.args| + 8 * |p.env| + 16 * |p.aux| + 32
    requires forall i :: 0 <= i < 7 ==> vs[i] in words && !(p.sp <= vs[i] < end)
    requires forall i, j :: 0 <= i < j < 7 ==> vs[i] != vs[j]
    ensures Apart(words, d, p)
  {
    assert p.End() == end;
    forall a: nat | Target(d, a) ensures a in words && !(p.sp <= a < p.End()) {
      assert a in vs;
    }
    assert vs[0] != vs[4] && vs[1] != vs[4] && vs[2] != vs[4] && vs[3] != vs[4];
    assert vs[0] != vs[5] && vs[1] != vs[5] && vs[2] != vs[5] && vs[3] != vs[5];
    assert vs[0] != vs[6] && vs[1] != vs[6] && vs[2] != vs[6] && vs[3] != vs[6];
  }

  /** What the variables hold after the walk. */
  lemma VariablesAfter(words: map<nat, nat>, final: map<nat, nat>, chars: map<nat, byte>, d: DlVarData, p: Process)
    requires LaidOut(words, p) && Apart(words, d, p) && Outcome(words, final, chars, d, p)
    ensures d.dlArgc in final && final[d.dlArgc] == |p.args|
    ensures d.dlArgv in final && final[d.dlArgv] == p.sp + 8
    ensures d.environ in final && final[d.environ] == p.sp + 8 * |p.args| + 16
    ensures d.dlAuxv in final && final[d.dlAuxv] == p.sp + 8 * |p.args| + 8 * |p.env| + 24
    ensures d.libcStackEnd != 0 ==> d.libcStackEnd in final && final[d.libcStackEnd] == p.sp
  {
    NotAuxValue(words, d, p);
    VariablesSet(words, chars, d, p, |p.aux|);
  }

  /** With one platform name, a string of `n` characters: type 15 in the vector. */
  lemma PlatformAfter(words: map<nat, nat>, final: map<nat, nat>, chars: map<nat, byte>, d: DlVarData, p: Process,
                      k: nat, at: nat, n: nat)
    requires LaidOut(words, p) && Apart(words, d, p) && Outcome(words, final, chars, d, p)
    requires k < |p.aux| && p.aux[k].value == at && forall l :: 0 <= l < |p.aux| ==> (p.aux[l].kind == 15 <==> l == k)
    requires forall b :: at <= b < at + n ==> b in chars && chars[b] != 0
    requires at + n in chars && chars[at + n] == 0
    ensures d.dlPlatform != 0 ==> d.dlPlatform in final && final[d.dlPlatform] == at
    ensures d.dlPlatformLen != 0 ==> d.dlPlatformLen in final && final[d.dlPlatformLen] == n
  {
    NotAuxValue(words, d, p);
    LastPlatformFound(p.aux, |p.aux|);
    PlatformSet(words, chars, d, p, |p.aux|);
    StringLengthIs(chars, at, n);
    SumBehind(chars, p, k + 1, |p.aux|);
    SumZeroIff(chars, p, k);
  }

  /** Type 7 in the vector gets the loader's base, and no other word changes but those
      of the variables: platform variables only for a type 15. */
  lemma OthersAfter(words: map<nat, nat>, final: map<nat, nat>, chars: map<nat, byte>, d: DlVarData, p: Process,
                    auxv: nat, a: nat)
    requires LaidOut(words, p) && Apart(words, d, p) && Outcome(words, final, chars, d, p) && a in words
    requires auxv == p.sp + 8 * |p.args| + 8 * |p.env| + 24
    requires a != d.dlArgc && a != d.dlArgv && a != d.environ && a != d.dlAuxv
    requires a == 0 || a != d.libcStackEnd
    requires (a == 0 || (a != d.dlPlatform && a != d.dlPlatformLen))
             || forall k :: 0 <= k < |p.aux| ==> p.aux[k].kind != 15
    ensures a in final
    ensures final[a] == words[a] || exists k :: 0 <= k < |p.aux| && p.aux[k].kind == 7 && a == auxv + 16 * k + 8
    ensures forall k :: 0 <= k < |p.aux| && p.aux[k].kind == 7 && a == auxv + 16 * k + 8 ==> final[a] == d.base
  {
    assert p.Auxv() == auxv;
    LastPlatformFound(p.aux, |p.aux|);
    if a != 0 && (a == d.dlPlatform || a == d.dlPlatformLen) {
      NoPlatform(words, chars, d, p, |p.aux|);
      NotAuxValue(words, d, p);
    } else if forall k :: 0 <= k < |p.aux| && p.aux[k].kind == 7 ==> a != p.Value(k) {
      NothingElse(words, chars, d, p, |p.aux|, a);
    }
    forall k | 0 <= k < |p.aux| && p.aux[k].kind == 7 && a == auxv + 16 * k + 8 ensures final[a] == d.base {
      BaseSet(words, chars, d, p, |p.aux|, k);
    }
  }
}
