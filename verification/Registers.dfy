/** The register file on its way from the debuggee to the starter: the list the
    debugger prints (src/my_gdb/registers.c) and the block src/regs.awk makes
    of it. */
module Registers {
  import opened Arith

  /** Positions in the x86-64 `user_regs_struct`. */
  const SYSCALL_REG: nat := 15
  const PC_REG: nat := 16
  const SP_REG: nat := 19
  const NUM_REGS: nat := 27

  /** One line of the register list: name and value. */
  datatype Line = Line(name: string, value: nat)

  /** A trap stops one byte behind the breakpoint. */
  function Recorded(value: nat, i: nat, hit: bool): nat
    requires value < TWO64
  {
    if hit && i == PC_REG then Pred(value) else value
  }

  predicate Words(regs: seq<nat>) {
    forall i :: 0 <= i < |regs| ==> regs[i] < TWO64
  }

  function RegLines(names: seq<string>, regs: seq<nat>, hit: bool): (r: seq<Line>)
    requires |names| <= |regs| && Words(regs)
    ensures |r| == |names|
  {
    seq(|names|, i requires 0 <= i < |names| => Line(names[i], Recorded(regs[i], i, hit)))
  }

  method DumpRegs(names: seq<string>, regs: seq<nat>, hit: bool) returns (r: seq<Line>)
    requires |names| <= |regs| && Words(regs)
    ensures r == RegLines(names, regs, hit)
  {
    r := [];
    for i := 0 to |names|
      invariant r == RegLines(names, regs, hit)[..i]
    {
      var value := regs[i];
      if hit && i == PC_REG {
        value := Pred(value);
      }
      r := r + [Line(names[i], value)];
    }
  }

  // ------------------------------------------------------------- regs.awk

  /** The value of the last line with that name; "0x0" without one. */
  function Lookup(lines: seq<Line>, name: string): nat {
    if lines == [] then 0
    else
      var last := lines[|lines| - 1];
      if last.name == name then last.value else Lookup(lines[..|lines| - 1], name)
  }

  /** The whole script: one record after the other, then the names in order. */
  method RegsBlock(lines: seq<Line>, names: seq<string>) returns (block: seq<nat>)
    ensures |block| == |names|
    ensures forall k :: 0 <= k < |names| ==> block[k] == Lookup(lines, names[k])
  {
    var r: map<string, nat> := map[];
    for i := 0 to |lines|
      invariant forall n :: Lookup(lines[..i], n) == if n in r then r[n] else 0
    {
      assert lines[..i + 1][..i] == lines[..i];
      r := r[lines[i].name := lines[i].value];
    }
    assert lines[..|lines|] == lines;
    block := [];
    for ind := 0 to |names|
      invariant |block| == ind
      invariant forall k :: 0 <= k < ind ==> block[k] == Lookup(lines, names[k])
    {
      var value := if names[ind] in r then r[names[ind]] else 0;
      block := block + [value];
    }
  }

  /** A later line of the same name overrides an earlier one. */
  lemma {:induction false} LookupLast(lines: seq<Line>, name: string, l: nat)
    requires l < |lines| && lines[l].name == name
    requires forall k :: l < k < |lines| ==> lines[k].name != name
    ensures Lookup(lines, name) == lines[l].value
  {
    var n := |lines| - 1;
    if l < n { LookupLast(lines[..n], name, l); }
  }

  function LowerChar(c: char): char {
    if 'A' <= c <= 'Z' then c - 'A' + 'a' else c
  }

  function Lower(s: string): string {
    seq(|s|, i requires 0 <= i < |s| => LowerChar(s[i]))
  }

  /** The table of names the script is generated with. */
  function LowerNames(names: seq<string>): seq<string> {
    seq(|names|, i requires 0 <= i < |names| => Lower(names[i]))
  }

  predicate Distinct(names: seq<string>) {
    forall i, j :: 0 <= i < j < |names| ==> names[i] != names[j]
  }

  /** Lines with a name decide what is looked up, wherever they stand. */
  lemma {:induction false} LookupOnly(lines: seq<Line>, line: Line)
    requires line in lines
    requires forall l :: l in lines && l.name == line.name ==> l == line
    ensures Lookup(lines, line.name) == line.value
  {
    var n := |lines| - 1;
    if lines[n].name == line.name {
      assert lines[n] in lines;
    } else {
      assert line in lines[..n];
      LookupOnly(lines[..n], line);
    }
  }

  lemma {:induction false} LookupMissing(lines: seq<Line>, name: string)
    requires forall l :: l in lines ==> l.name != name
    ensures Lookup(lines, name) == 0
  {
    if lines != [] {
      assert lines[|lines| - 1] in lines;
      LookupMissing(lines[..|lines| - 1], name);
    }
  }

  /** For distinct lower-case names the block holds, word by word, what was dumped
      for each register, in whatever order the lines arrive. */
  lemma BlockAgrees(names: seq<string>, regs: seq<nat>, hit: bool, lines: seq<Line>, k: nat)
    requires |names| <= |regs| && Words(regs) && Distinct(names) && k < |names|
    requires Lower(names[k]) == names[k]
    requires multiset(lines) == multiset(RegLines(names, regs, hit))
    ensures Lookup(lines, LowerNames(names)[k]) == Recorded(regs[k], k, hit)
  {
    var dumped := RegLines(names, regs, hit);
    var line := dumped[k];
    assert line in multiset(dumped);
    forall l | l in lines && l.name == line.name ensures l == line {
      assert l in multiset(lines);
      assert l in dumped;
      var j :| 0 <= j < |dumped| && dumped[j] == l;
      assert names[j] == names[k];
    }
    assert line in multiset(lines);
    LookupOnly(lines, line);
  }

  /** A name that is not dumped gives 0. */
  lemma MissingNameIsZero(names: seq<string>, regs: seq<nat>, hit: bool, lines: seq<Line>, name: string)
    requires |names| <= |regs| && Words(regs) && name !in names
    requires multiset(lines) == multiset(RegLines(names, regs, hit))
    ensures Lookup(lines, name) == 0
  {
    forall l | l in lines ensures l.name != name {
      assert l in multiset(lines);
      assert l in RegLines(names, regs, hit);
    }
    LookupMissing(lines, name);
  }

  /** The list the debugger and the script are both generated from, for x86-64. */
  const X86_64_NAMES: seq<string> :=
    ["r15", "r14", "r13", "r12", "rbp", "rbx", "r11", "r10", "r9", "r8", "rax", "rcx", "rdx", "rsi", "rdi",
     "orig_rax", "rip", "cs", "eflags", "rsp", "ss", "fs_base", "gs_base", "ds", "es", "fs", "gs"]

  /** Length and three characters tell these names apart. */
  function Mark(s: string): (int, char, char, char)
    requires |s| >= 2
  {
    (|s|, s[0], s[1], s[|s| - 1])
  }

  predicate IsLower(s: string) {
    forall i :: 0 <= i < |s| ==> !('A' <= s[i] <= 'Z')
  }

  lemma X86_64Lower()
    ensures |X86_64_NAMES| == NUM_REGS
    ensures forall k :: 0 <= k < NUM_REGS ==> Lower(X86_64_NAMES[k]) == X86_64_NAMES[k]
  {
    forall k | 0 <= k < NUM_REGS
      ensures Lower(X86_64_NAMES[k]) == X86_64_NAMES[k]
    {
      assert IsLower(X86_64_NAMES[k]);
    }
  }

  lemma X86_64Distinct()
    ensures |X86_64_NAMES| == NUM_REGS && Distinct(X86_64_NAMES)
  {
    forall i, j | 0 <= i < j < NUM_REGS ensures X86_64_NAMES[i] != X86_64_NAMES[j] {
      assert Mark(X86_64_NAMES[i]) != Mark(X86_64_NAMES[j]);
    }
  }

  /** Its names are distinct and lower-case, and the three registers the debugger
      uses are where it looks for them. */
  lemma X86_64Names()
    ensures |X86_64_NAMES| == NUM_REGS && Distinct(X86_64_NAMES)
    ensures X86_64_NAMES[SYSCALL_REG] == "orig_rax" && X86_64_NAMES[PC_REG] == "rip" && X86_64_NAMES[SP_REG] == "rsp"
    ensures forall k :: 0 <= k < NUM_REGS ==> Lower(X86_64_NAMES[k]) == X86_64_NAMES[k]
  {
    X86_64Lower();
    X86_64Distinct();
  }

  /** So every register of the real list reaches its own word. */
  lemma X86_64BlockAgrees(regs: seq<nat>, hit: bool, lines: seq<Line>, k: nat)
    requires |regs| == |X86_64_NAMES| == NUM_REGS && Words(regs) && k < NUM_REGS
    requires multiset(lines) == multiset(RegLines(X86_64_NAMES, regs, hit))
    ensures Lookup(lines, LowerNames(X86_64_NAMES)[k]) == Recorded(regs[k], k, hit)
  {
    X86_64Names();
    BlockAgrees(X86_64_NAMES, regs, hit, lines, k);
  }

  /** The script lowers the names and the debugger does not. For any list, block
      and registers agree for every register file exactly at the lower-case names. */
  lemma BlockAgreesIff(names: seq<string>, k: nat)
    requires Distinct(names) && k < |names|
    ensures (forall regs :: |regs| == |names| && Words(regs) ==>
               Lookup(RegLines(names, regs, false), LowerNames(names)[k]) == regs[k])
            <==> Lower(names[k]) == names[k]
  {
    if Lower(names[k]) == names[k] {
      forall regs | |regs| == |names| && Words(regs)
        ensures Lookup(RegLines(names, regs, false), LowerNames(names)[k]) == regs[k]
      {
        BlockAgrees(names, regs, false, RegLines(names, regs, false), k);
      }
    } else {
      var regs := seq(|names|, i => if i == k then 1 else 0);
      OtherName(RegLines(names, regs, false), LowerNames(names)[k]);
      assert Lookup(RegLines(names, regs, false), LowerNames(names)[k]) != regs[k];
    }
  }

  lemma {:induction false} OtherName(lines: seq<Line>, name: string)
    requires forall l :: l in lines && l.name == name ==> l.value == 0
    ensures Lookup(lines, name) == 0
  {
    if lines != [] {
      assert lines[|lines| - 1] in lines;
      OtherName(lines[..|lines| - 1], name);
    }
  }
}
