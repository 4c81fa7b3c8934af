/** The debuggee as the mini debugger sees it (src/my_gdb/my_ptrace.c,
    src/my_gdb/dump.c): byte memory that ptrace reads and writes in words of
    eight bytes, and failing where memory is not mapped. */
module Ptrace {
  import opened Bytes
  import opened Outcomes
  import opened MapFilter

  type Word = w: seq<byte> | |w| == 8 witness [0, 0, 0, 0, 0, 0, 0, 0]

  predicate Mapped(mem: map<nat, byte>, a: nat) {
    forall b :: a <= b < a + 8 ==> b in mem
  }

  /** The word at `a`, in memory order: `(unsigned char *)&result`. */
  function ReadWord(mem: map<nat, byte>, a: nat): Word
    requires Mapped(mem, a)
  {
    [mem[a], mem[a + 1], mem[a + 2], mem[a + 3], mem[a + 4], mem[a + 5], mem[a + 6], mem[a + 7]]
  }

  function WriteWord(mem: map<nat, byte>, a: nat, w: Word): (r: map<nat, byte>)
    ensures r.Keys == mem.Keys
  {
    map b | b in mem :: if a <= b < a + 8 then w[b - a] else mem[b]
  }

  lemma ReadWordAt(mem: map<nat, byte>, a: nat, i: nat)
    requires Mapped(mem, a) && i < 8
    ensures ReadWord(mem, a)[i] == mem[a + i]
  {
  }

  function PeekText(mem: map<nat, byte>, a: nat): Outcome<Word> {
    if Mapped(mem, a) then Done(ReadWord(mem, a)) else Exit(NotMapped)
  }

  /** The bytes of memory from `start` on. */
  predicate Holds(mem: map<nat, byte>, start: nat, s: seq<byte>) {
    forall a :: start <= a < start + |s| ==> a in mem && mem[a] == s[a - start]
  }

  /** A range that can be read word by word. */
  predicate RangeMapped(mem: map<nat, byte>, start: nat, stop: nat) {
    forall a :: start <= a < stop ==> a in mem
  }

  /** `get_memory`: aligned at both ends, it fails or returns the bytes of memory,
      every one of them. */
  method GetMemory(mem: map<nat, byte>, start: nat, stop: nat) returns (r: Outcome<seq<byte>>)
    requires start <= stop
    ensures r.Done? <==> start % 8 == 0 && stop % 8 == 0 && RangeMapped(mem, start, stop)
    ensures r.Done? ==> |r.value| == stop - start && Holds(mem, start, r.value)
  {
    if start % 8 != 0 {
      return Exit(UnalignedRange);
    }
    if stop % 8 != 0 {
      return Exit(UnalignedRange);
    }
    var buffer := new byte[stop - start];
    var numLongs := (stop - start) / 8;
    for i := 0 to numLongs
      invariant forall a :: start <= a < start + 8 * i ==> a in mem && mem[a] == buffer[a - start]
    {
      var word := PeekText(mem, start + 8 * i);
      if word.Exit? {
        return Exit(word.error);
      }
      StoreWord(buffer, 8 * i, word.value);
      forall a | start <= a < start + 8 * (i + 1) ensures a in mem && mem[a] == buffer[a - start] {
        if a >= start + 8 * i { ReadWordAt(mem, start + 8 * i, a - start - 8 * i); }
      }
    }
    assert 8 * numLongs == stop - start;
    return Done(buffer[..]);
  }

  method StoreWord(buffer: array<byte>, at: nat, w: Word)
    requires at + 8 <= buffer.Length
    modifies buffer
    ensures forall k :: 0 <= k < buffer.Length ==>
              buffer[k] == if at <= k < at + 8 then w[k - at] else old(buffer[k])
  {
    forall k | 0 <= k < 8 {
      buffer[at + k] := w[k];
    }
  }

  /** Dump `d` holds what memory `mem` holds in mapping `m`. */
  predicate DumpOf(mem: map<nat, byte>, m: Mapping, d: seq<byte>)
    requires m.start <= m.stop
  {
    && |d| == m.stop - m.start
    && forall a :: m.start <= a < m.stop ==> a in mem && mem[a] == d[a - m.start]
  }

  predicate Dumpable(mem: map<nat, byte>, m: Mapping) {
    m.start < m.stop && m.start % 8 == 0 && m.stop % 8 == 0 && RangeMapped(mem, m.start, m.stop)
  }

  /** `dumps`: one dump per line of the maps file, in order; all of them or an
      exit at the first mapping that cannot be dumped. */
  method Dumps(mem: map<nat, byte>, maps: seq<Mapping>) returns (r: Outcome<seq<seq<byte>>>)
    ensures r.Done? <==> forall i :: 0 <= i < |maps| ==> Dumpable(mem, maps[i])
    ensures r.Done? ==>
              && |r.value| == |maps|
              && forall i :: 0 <= i < |maps| ==> maps[i].start <= maps[i].stop && DumpOf(mem, maps[i], r.value[i])
  {
    var files: seq<seq<byte>> := [];
    for i := 0 to |maps|
      invariant |files| == i
      invariant forall k :: 0 <= k < i ==> Dumpable(mem, maps[k]) && DumpOf(mem, maps[k], files[k])
    {
      var m := maps[i];
      if m.start >= m.stop {
        return Exit(BadMapping);
      }
      var buffer := GetMemory(mem, m.start, m.stop);
      if buffer.Exit? {
        return Exit(buffer.error);
      }
      files := files + [buffer.value];
    }
    return Done(files);
  }

  // ------------------------------------------- Names of the dump files

  function Digit(n: nat): char
    requires n < 10
  {
    ['0', '1', '2', '3', '4', '5', '6', '7', '8', '9'][n]
  }

  /** Decimal digits of `n`, at least `width` of them: `%06d` for width 6. */
  function Padded(n: nat, width: nat): string
    decreases n, width
  {
    if n == 0 && width == 0 then ""
    else Padded(n / 10, if width == 0 then 0 else width - 1) + [Digit(n % 10)]
  }

  /** The order in which the shell expands `*`. */
  predicate Precedes(a: string, b: string) {
    if b == "" then false
    else if a == "" then true
    else a[0] < b[0] || (a[0] == b[0] && Precedes(a[1..], b[1..]))
  }

  lemma DigitOrder(m: nat, n: nat)
    requires m < 10 && n < 10
    ensures (m < n <==> Digit(m) < Digit(n)) && (m == n <==> Digit(m) == Digit(n))
  {
  }

  lemma {:induction false} PrecedesConcat(a: string, b: string, c: string, d: string)
    requires |a| == |b|
    ensures Precedes(a + c, b + d) <==> Precedes(a, b) || (a == b && Precedes(c, d))
  {
    if a == "" {
      assert a + c == c && b + d == d;
    } else {
      assert (a + c)[1..] == a[1..] + c && (b + d)[1..] == b[1..] + d;
      PrecedesConcat(a[1..], b[1..], c, d);
    }
  }

  function Pow10(k: nat): nat {
    if k == 0 then 1 else 10 * Pow10(k - 1)
  }

  /** Numbers that fit the width have names of that length, in their own order. */
  lemma {:induction false} PaddedOrder(m: nat, n: nat, width: nat)
    requires m < Pow10(width) && n < Pow10(width)
    ensures |Padded(m, width)| == |Padded(n, width)| == width
    ensures Precedes(Padded(m, width), Padded(n, width)) <==> m < n
    ensures Padded(m, width) == Padded(n, width) <==> m == n
    decreases width
  {
    if width > 0 {
      PaddedOrder(m / 10, n / 10, width - 1);
      DigitOrder(m % 10, n % 10);
      var a, b := Padded(m / 10, width - 1), Padded(n / 10, width - 1);
      PrecedesConcat(a, b, [Digit(m % 10)], [Digit(n % 10)]);
      assert Padded(m, width)[..width - 1] == a && Padded(n, width)[..width - 1] == b;
      assert Padded(m, width)[width - 1] == Digit(m % 10) && Padded(n, width)[width - 1] == Digit(n % 10);
    }
  }

  /** The dumps come back from the shell in the order they were numbered, so that
      lines and dump files match, exactly as long as six digits are enough. */
  lemma DumpNamesOrderedIff(count: nat)
    ensures (forall i: nat, j: nat :: 1 <= i < j <= count ==> Precedes(Padded(i, 6), Padded(j, 6)))
            <==> count < 1_000_000
  {
    assert Pow10(3) == 1000;
    assert Pow10(6) == 1_000_000;
    if count < 1_000_000 {
      forall i: nat, j: nat | 1 <= i < j <= count ensures Precedes(Padded(i, 6), Padded(j, 6)) {
        PaddedOrder(i, j, 6);
      }
    } else {
      LongName();
    }
  }

  lemma FirstDigit(n: nat, width: nat)
    requires width > 0 && Padded(n / 10, width - 1) != ""
    ensures Padded(n, width)[0] == Padded(n / 10, width - 1)[0] && Padded(n, width) != ""
  {
  }

  lemma LongName()
    ensures !Precedes(Padded(999_999, 6), Padded(1_000_000, 6))
  {
    assert Padded(9, 1) == ['9'] && Padded(1, 0) == ['1'];
    assert Padded(10, 1)[0] == '1';
    FirstDigit(99, 2);
    FirstDigit(999, 3);
    FirstDigit(9_999, 4);
    FirstDigit(99_999, 5);
    FirstDigit(999_999, 6);
    FirstDigit(100, 2);
    FirstDigit(1_000, 3);
    FirstDigit(10_000, 4);
    FirstDigit(100_000, 5);
    FirstDigit(1_000_000, 6);
  }
}
