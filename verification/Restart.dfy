/** The finished executable started again: the kernel loads the segments and lays
    out a stack, and the starter's fixer of loader variables runs over both. */
module Restart {
  import opened Bytes
  import opened Elf
  import opened Outcomes
  import opened MapFilter
  import opened Loader
  import opened StarterPlace
  import opened Overlay
  import opened Snapshot
  import DlVar

  /** Words that do not overlap. */
  ghost predicate Separate(words: map<nat, nat>) {
    forall a, b :: a in words && b in words && a != b ==> a + 8 <= b || b + 8 <= a
  }

  /** Byte `b` belongs to the word at `a`. */
  predicate InWord(a: nat, b: nat) {
    a <= b < a + 8
  }

  ghost predicate WordIs(bytes: map<nat, byte>, a: nat, v: nat) {
    forall b: nat :: InWord(a, b) ==> b in bytes && bytes[b] == EncodeLE(v, 8)[b - a]
  }

  /** The words are what the bytes show, read in units of eight. */
  ghost predicate Views(words: map<nat, nat>, bytes: map<nat, byte>) {
    forall a :: a in words ==> WordIs(bytes, a, words[a])
  }

  ghost predicate HasWord(words: map<nat, nat>, b: nat) {
    exists a :: a in words && InWord(a, b)
  }

  ghost function ByteOf(words: map<nat, nat>, b: nat): byte
    requires HasWord(words, b)
  {
    var a :| a in words && InWord(a, b);
    EncodeLE(words[a], 8)[b - a]
  }

  /** Memory after these words have been written into it. */
  ghost function Poked(bytes: map<nat, byte>, words: map<nat, nat>): map<nat, byte> {
    map b | b in bytes :: if HasWord(words, b) then ByteOf(words, b) else bytes[b]
  }

  /** What is written is what is seen afterwards. */
  lemma PokedViews(bytes: map<nat, byte>, was: map<nat, nat>, words: map<nat, nat>)
    requires Views(was, bytes) && Separate(was) && words.Keys == was.Keys
    ensures Views(words, Poked(bytes, words))
  {
    forall a | a in words ensures WordIs(Poked(bytes, words), a, words[a]) {
      assert a in was && WordIs(bytes, a, was[a]);
      forall b: nat | InWord(a, b)
        ensures b in Poked(bytes, words) && Poked(bytes, words)[b] == EncodeLE(words[a], 8)[b - a]
      {
        assert b in bytes && HasWord(words, b);
        OwnWord(words, was, a, b);
      }
    }
  }

  lemma OwnWord(words: map<nat, nat>, was: map<nat, nat>, a: nat, b: nat)
    requires Separate(was) && words.Keys == was.Keys && a in words && InWord(a, b)
    ensures HasWord(words, b) && ByteOf(words, b) == EncodeLE(words[a], 8)[b - a]
  {
    var c :| c in words && InWord(c, b) && ByteOf(words, b) == EncodeLE(words[c], 8)[b - c];
    assert c in was && a in was;
  }

  /** A byte changes only if the word it belongs to does. */
  lemma PokedByte(bytes: map<nat, byte>, was: map<nat, nat>, words: map<nat, nat>, b: nat)
    requires Views(was, bytes) && Separate(was) && words.Keys == was.Keys && b in bytes
    ensures b in Poked(bytes, words)
    ensures Poked(bytes, words)[b] == bytes[b] || exists a :: a in was && InWord(a, b) && words[a] != was[a]
  {
    if HasWord(words, b) {
      var a :| a in words && InWord(a, b);
      OwnWord(words, was, a, b);
      assert a in was && WordIs(bytes, a, was[a]);
    }
  }

  /** The byte belongs to a variable of the loader. */
  ghost predicate InVariable(d: DlVar.DlVarData, b: nat) {
    exists a: nat :: DlVar.Target(d, a) && InWord(a, b)
  }

  /** The byte belongs to the value of an AT_BASE entry. */
  ghost predicate InBase(p: DlVar.Process, b: nat) {
    exists k :: 0 <= k < |p.aux| && p.aux[k].kind == DlVar.AT_BASE && InWord(p.Value(k), b)
  }

  /** The fixer changes nothing but those. */
  lemma FixerTouches(bytes: map<nat, byte>, words: map<nat, nat>, final: map<nat, nat>, chars: map<nat, byte>,
                     d: DlVar.DlVarData, p: DlVar.Process, b: nat)
    requires Views(words, bytes) && Separate(words) && DlVar.Outcome(words, final, chars, d, p) && b in bytes
    ensures b in Poked(bytes, final)
    ensures Poked(bytes, final)[b] == bytes[b] || InVariable(d, b) || InBase(p, b)
  {
    PokedByte(bytes, words, final, b);
    if a :| a in words && InWord(a, b) && final[a] != words[a] {
      if !DlVar.Target(d, a) && forall k :: 0 <= k < |p.aux| && p.aux[k].kind == DlVar.AT_BASE ==> a != p.Value(k) {
        DlVar.NothingElse(words, chars, d, p, |p.aux|, a);
      }
    }
  }

  /** The kernel's stack is in memory of its own, all of it. */
  ghost predicate OwnStack(p: DlVar.Process, stack: map<nat, byte>, image: map<nat, byte>) {
    && (forall b :: b in stack ==> b !in image)
    && forall b: nat :: p.sp <= b < p.End() + 8 ==> b in stack
  }

  /** What the fixer works on, and what it leaves. */
  ghost predicate Fixed(image: map<nat, byte>, stack: map<nat, byte>, words: map<nat, nat>, final: map<nat, nat>,
                        chars: map<nat, byte>, d: DlVar.DlVarData, p: DlVar.Process)
  {
    && OwnStack(p, stack, image) && Views(words, image + stack) && Separate(words)
    && DlVar.LaidOut(words, p) && DlVar.Apart(words, d, p)
    && DlVar.Outcome(words, final, chars, d, p)
  }

  /** `do_work` on such memory. */
  method Start(words: map<nat, nat>, chars: map<nat, byte>, data: DlVar.DlVarData, stack: nat, ghost p: DlVar.Process)
    returns (final: map<nat, nat>)
    requires stack == p.sp && DlVar.LaidOut(words, p) && DlVar.Apart(words, data, p)
    requires data.dlPlatformLen != 0 ==> DlVar.Platforms(chars, p)
    ensures DlVar.Outcome(words, final, chars, data, p)
  {
    var memory := new DlVar.Memory(words, chars);
    memory.DoWork(data, stack, p);
    final := memory.words;
  }

  lemma BaseInStack(p: DlVar.Process, stack: map<nat, byte>, image: map<nat, byte>, b: nat)
    requires OwnStack(p, stack, image) && InBase(p, b)
    ensures b in stack && b !in image
  {
    var k :| 0 <= k < |p.aux| && p.aux[k].kind == DlVar.AT_BASE && InWord(p.Value(k), b);
    assert p.sp <= p.Value(k) && p.Value(k) + 8 <= p.End() + 8;
  }

  /** THE RESTART. Of a memory image the fixer changes the loader's variables and
      nothing else; of the stack, besides, the values of AT_BASE entries; and read
      back the stack is the kernel's with the base filled in. */
  lemma ImageKept(image: map<nat, byte>, stack: map<nat, byte>, words: map<nat, nat>, final: map<nat, nat>,
                  chars: map<nat, byte>, d: DlVar.DlVarData, p: DlVar.Process)
    requires Fixed(image, stack, words, final, chars, d, p)
    ensures var after := Poked(image + stack, final);
      && Views(final, after) && after.Keys == image.Keys + stack.Keys
      && (forall b :: b in image ==> after[b] == image[b] || InVariable(d, b))
      && (forall b :: b in stack ==> after[b] == stack[b] || InVariable(d, b) || InBase(p, b))
    ensures DlVar.LaidOut(final, DlVar.WithBase(p, d.base))
  {
    var bytes := image + stack;
    PokedViews(bytes, words, final);
    DlVar.StackReadsBack(words, final, chars, d, p);
    forall b | b in image ensures Poked(bytes, final)[b] == image[b] || InVariable(d, b) {
      FixerTouches(bytes, words, final, chars, d, p, b);
      if InBase(p, b) { BaseInStack(p, stack, image, b); }
    }
    forall b | b in stack ensures Poked(bytes, final)[b] == stack[b] || InVariable(d, b) || InBase(p, b) {
      FixerTouches(bytes, words, final, chars, d, p, b);
    }
  }

  /** From the snapshot to the restarted process: an accepted executable is built
      and loaded, and the fixer runs. Memory of the kept mappings is then what it
      was at the breakpoint, but for the starter and the loader's variables. */
  lemma SnapshotRestored(mem: map<nat, byte>, maps: seq<Mapping>, dumps: seq<DumpFile>, process: MapFilter.Process,
                         s: Selection, elf: ElfFile, exe: seq<byte>, entry: nat, page: nat, starter: seq<byte>,
                         j: nat, u: nat, image: map<nat, byte>, stack: map<nat, byte>, words: map<nat, nat>,
                         final: map<nat, nat>, chars: map<nat, byte>, d: DlVar.DlVarData, p: DlVar.Process)
    requires Faithful(mem, maps, dumps) && Select(maps, dumps, process) == Done(s) && page > 0
    requires Prepared(s, maps, elf, exe, entry, page) && Confined(s.headers, entry, |starter|, j, u)
    requires Acceptable(elf, |s.headers|, page)
    requires image == WithStarter(KeptMemory(mem, maps, dumps, process), entry, starter)
    requires Fixed(image, stack, words, final, chars, d, p)
    ensures var r := NewExe(Done(entry), Done(s), exe, page, starter);
      r.Done? && Exec(r.value, page) == Loaded(image)
    ensures var after := Poked(image + stack, final);
      forall b :: b in KeptMemory(mem, maps, dumps, process) ==>
        b in after && (after[b] == mem[b] || entry <= b < entry + |starter| || InVariable(d, b))
  {
    SnapshotPreserved(mem, maps, dumps, process, s, elf, exe, entry, page, starter, j, u);
    ImageKept(image, stack, words, final, chars, d, p);
    RestoredBytes(KeptMemory(mem, maps, dumps, process), mem, entry, starter, image, Poked(image + stack, final), d);
  }

  lemma RestoredBytes(kept: map<nat, byte>, mem: map<nat, byte>, entry: nat, starter: seq<byte>,
                      image: map<nat, byte>, after: map<nat, byte>, d: DlVar.DlVarData)
    requires image == WithStarter(kept, entry, starter)
    requires forall b :: b in kept ==> b in mem && kept[b] == mem[b]
    requires forall b :: b in image ==> b in after && (after[b] == image[b] || InVariable(d, b))
    ensures forall b :: b in kept ==>
              b in after && (after[b] == mem[b] || entry <= b < entry + |starter| || InVariable(d, b))
  {
    forall b | b in kept
      ensures b in after && (after[b] == mem[b] || entry <= b < entry + |starter| || InVariable(d, b))
    {
      assert b in image;
    }
  }
}
