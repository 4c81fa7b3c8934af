/** Integer facts behind the layout arithmetic: rounding up to a boundary and
    clearing low bits with a mask, on 64-bit unsigned words. */
module Arith {

  /** `unsigned long` and `ElfW(Off)` are 64 bits wide. */
  const TWO64: nat := 0x1_0000_0000_0000_0000

  /** `x + 1` and `x - 1` on unsigned words. */
  function Succ(x: nat): nat {
    if x == TWO64 - 1 then 0 else x + 1
  }

  function Pred(x: nat): nat {
    if x == 0 then TWO64 - 1 else x - 1
  }

  function Min(a: nat, b: nat): nat {
    if a < b then a else b
  }

  /** The least multiple of `a` that is not below `x`. */
  function RoundUp(x: nat, a: nat): (r: nat)
    requires a > 0
    ensures x <= r < x + a && r % a == 0
  {
    if x % a == 0 then x
    else
      DivModUnique(x + (a - x % a), a, x / a + 1, 0);
      x + (a - x % a)
  }

  lemma SameQuotient(a: int, q: int, r: int, q0: int, r0: int)
    requires 0 <= r < a && 0 <= r0 < a
    requires a * q + r == a * q0 + r0
    ensures q == q0 && r == r0
  {
    if q > q0 {
      MulGrows(a, q - q0 - 1);
    } else if q < q0 {
      MulGrows(a, q0 - q - 1);
    }
  }

  lemma MulGrows(a: int, d: int)
    requires a > 0 && d >= 0
    ensures a * d >= 0
  {
  }

  lemma DivModUnique(n: int, a: int, q: int, r: int)
    requires a > 0 && 0 <= r < a
    requires n == a * q + r
    ensures n / a == q && n % a == r
  {
    SameQuotient(a, q, r, n / a, n % a);
  }

  lemma SmallRemainder(x: nat, a: nat)
    requires x < a
    ensures x % a == x
  {
  }

  /** Remainders nest: split off `c` first, then `p`. */
  lemma NestedMod(n: nat, c: nat, p: nat)
    requires c > 0 && p > 0
    ensures c * p > 0 && n % (c * p) == c * (n / c % p) + n % c
  {
    var m := n / c;
    var a, b := m / p, m % p;
    MulGrows(c, p - 1);
    assert c * m == c * p * a + c * b by {
      assert m == p * a + b;
      Distribute(c, p * a, b);
      Associate(c, p, a);
    }
    MulGrows(c, p - 1 - b);
    Distribute(c, p - 1 - b, b);
    Distribute(c, p - 1, 1);
    MulGrows(c, b);
    DivModUnique(n, c * p, a, c * b + n % c);
  }

  lemma Distribute(x: int, y: int, z: int)
    ensures x * (y + z) == x * y + x * z
  {
  }

  lemma Associate(x: int, y: int, z: int)
    ensures x * (y * z) == x * y * z
  {
  }

  /** Adding a multiple of `a` does not change the remainder. */
  lemma ModPlusMultiple(x: int, y: int, a: int)
    requires a > 0 && y % a == 0
    ensures (x + y) % a == x % a
  {
    assert x + y == a * (x / a + y / a) + x % a;
    DivModUnique(x + y, a, x / a + y / a, x % a);
  }

  /** Rounding up commutes with a shift by a multiple of the boundary. */
  lemma RoundUpShift(x: nat, y: nat, a: nat)
    requires a > 0 && y % a == 0
    ensures RoundUp(x + y, a) == RoundUp(x, a) + y
  {
    ModPlusMultiple(x, y, a);
  }

  /** No multiple of `a` lies strictly between `x` and `RoundUp(x, a)`. */
  lemma RoundUpIsLeast(x: nat, m: nat, a: nat)
    requires a > 0 && x <= m && m % a == 0
    ensures RoundUp(x, a) <= m
  {
    var r := RoundUp(x, a);
    if m < r {
      ModPlusMultiple(m - r, r, a);
      DivModUnique(m - r, a, -1, a - (r - m));
    }
  }

  function Pow2(k: nat): (p: nat)
    ensures p > 0
  {
    if k == 0 then 1 else 2 * Pow2(k - 1)
  }

  /** The powers of two a 64-bit word can hold. */
  ghost predicate PowerOfTwo(a: nat) {
    exists k: nat :: k < 64 && a == Pow2(k)
  }

  lemma Pow2Divides(j: nat, k: nat)
    requires j <= k
    ensures Pow2(k) % Pow2(j) == 0
    decreases k - j
  {
    if j == k {
      DivModUnique(Pow2(k), Pow2(j), 1, 0);
    } else {
      Pow2Divides(j, k - 1);
      var q := Pow2(k - 1) / Pow2(j);
      assert Pow2(k) == Pow2(j) * (2 * q);
      DivModUnique(Pow2(k), Pow2(j), 2 * q, 0);
    }
  }

  /** Of two powers of two the smaller divides the larger. */
  lemma PowerOfTwoDivides(a: nat, b: nat)
    requires PowerOfTwo(a) && PowerOfTwo(b) && a <= b
    ensures a > 0 && b % a == 0
  {
    var j: nat :| j < 64 && a == Pow2(j);
    var k: nat :| k < 64 && b == Pow2(k);
    if j <= k {
      Pow2Divides(j, k);
    } else {
      Pow2Monotone(k, j);
      DivModUnique(b, a, 1, 0);
    }
  }

  /** Bitwise `&` on unsigned values. */
  function BitAnd(x: nat, y: nat): nat {
    if x == 0 || y == 0 then 0
    else 2 * BitAnd(x / 2, y / 2) + (if x % 2 == 1 && y % 2 == 1 then 1 else 0)
  }

  /** A test for one of the two lowest bits. */
  lemma LowBits(x: nat)
    ensures BitAnd(x, 1) != 0 <==> x % 2 == 1
    ensures BitAnd(x, 2) != 0 <==> x / 2 % 2 == 1
  {
    assert BitAnd(x / 2, 0) == 0 && BitAnd(x / 2 / 2, 0) == 0;
    assert BitAnd(x / 2, 1) == if x / 2 % 2 == 1 then 1 else 0;
  }

  /** Bitwise `~` on a 64-bit word. */
  function Complement(y: nat): nat
    requires y < TWO64
  {
    TWO64 - 1 - y
  }

  /** `v & ~(a - 1)`; the subtraction wraps round for `a == 0`. */
  function MaskLow(v: nat, a: nat): nat
    requires a < TWO64
  {
    BitAnd(v, Complement((a - 1) % TWO64))
  }

  lemma {:induction false} AndAllOnes(x: nat, w: nat)
    requires x < Pow2(w)
    ensures BitAnd(x, Pow2(w) - 1) == x
  {
    if w > 0 && x > 0 {
      AndAllOnes(x / 2, w - 1);
      AndOdd(x, Pow2(w - 1) - 1);
    }
  }

  lemma {:induction false} AndHighBits(x: nat, w: nat, k: nat)
    requires k <= w && x < Pow2(w) && Pow2(k) <= Pow2(w)
    ensures BitAnd(x, Pow2(w) - Pow2(k)) == x - x % Pow2(k)
  {
    if k == 0 {
      AndAllOnes(x, w);
    } else {
      Pow2Monotone(k - 1, w - 1);
      AndHighBits(x / 2, w - 1, k - 1);
      HighBitsStep(x, Pow2(k - 1), Pow2(w - 1) - Pow2(k - 1));
    }
  }

  /** From the half to the whole. */
  lemma HighBitsStep(x: nat, p: nat, y: nat)
    requires p > 0 && BitAnd(x / 2, y) == x / 2 - x / 2 % p
    ensures BitAnd(x, 2 * y) == x - x % (2 * p)
  {
    AndEven(x, y);
    HalfRemainder(x, p);
  }

  lemma HalfRemainder(x: nat, p: nat)
    requires p > 0
    ensures 2 * (x / 2 - x / 2 % p) == x - x % (2 * p)
  {
    NestedMod(x, 2, p);
  }

  lemma AndOdd(x: nat, y: nat)
    ensures BitAnd(x, 2 * y + 1) == 2 * BitAnd(x / 2, y) + x % 2
  {
    assert (2 * y + 1) / 2 == y && (2 * y + 1) % 2 == 1;
  }

  lemma AndEven(x: nat, y: nat)
    ensures BitAnd(x, 2 * y) == 2 * BitAnd(x / 2, y)
  {
    assert 2 * y / 2 == y && 2 * y % 2 == 0;
  }

  lemma Pow2Monotone(j: nat, k: nat)
    requires j <= k
    ensures Pow2(j) <= Pow2(k)
    decreases k
  {
    if j < k { Pow2Monotone(j, k - 1); }
  }

  lemma Pow2Of64()
    ensures Pow2(64) == TWO64
  {
    assert Pow2(8) == 256;
    assert Pow2(16) == 65536 by { Pow2Add(8, 8); }
    assert Pow2(32) == 65536 * 65536 by { Pow2Add(16, 16); }
    Pow2Add(32, 32);
  }

  lemma Pow2Add(a: nat, b: nat)
    ensures Pow2(a + b) == Pow2(a) * Pow2(b)
  {
    if b > 0 {
      Pow2Add(a, b - 1);
      assert Pow2(a) * Pow2(b) == 2 * (Pow2(a) * Pow2(b - 1));
    }
  }

  /** Clearing the low bits with a mask is rounding down, for every 64-bit
      value and every power of two. */
  lemma MaskIsRoundDown(v: nat, a: nat)
    requires v < TWO64 && PowerOfTwo(a)
    ensures 0 < a < TWO64 && MaskLow(v, a) == v - v % a
  {
    var k: nat :| k < 64 && a == Pow2(k);
    Pow2Of64();
    Pow2Monotone(k, 63);
    Pow2Monotone(k, 64);
    assert (a - 1) % TWO64 == a - 1;
    AndHighBits(v, 64, k);
  }
}
