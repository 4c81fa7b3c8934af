/** Files as byte sequences, and little-endian fixed-width integers in them. */
module Bytes {
  import opened Arith

  type byte = x: int | 0 <= x < 256

  /** What `cat`, or a run of appends, produces from its parts. */
  function Flatten<T>(parts: seq<seq<T>>): seq<T> {
    if parts == [] then [] else Flatten(parts[..|parts| - 1]) + parts[|parts| - 1]
  }

  lemma FlattenStep<T>(parts: seq<seq<T>>, i: nat)
    requires i < |parts|
    ensures Flatten(parts[..i + 1]) == Flatten(parts[..i]) + parts[i]
  {
    assert parts[..i + 1][..i] == parts[..i];
  }

  lemma {:induction false} FlattenPrefix<T>(parts: seq<seq<T>>, i: nat, j: nat)
    requires i <= j <= |parts|
    ensures Flatten(parts[..i]) <= Flatten(parts[..j])
    decreases j
  {
    if i < j {
      FlattenPrefix(parts, i, j - 1);
      FlattenStep(parts, j - 1);
    }
  }

  /** Part `i` is found again behind all the parts before it. */
  lemma FlattenSlice<T>(parts: seq<seq<T>>, i: nat)
    requires i < |parts|
    ensures |Flatten(parts[..i])| + |parts[i]| <= |Flatten(parts)|
    ensures Flatten(parts)[|Flatten(parts[..i])|..|Flatten(parts[..i])| + |parts[i]|] == parts[i]
  {
    FlattenStep(parts, i);
    FlattenPrefix(parts, i + 1, |parts|);
    assert parts[..|parts|] == parts;
    var whole, upTo := Flatten(parts), Flatten(parts[..i + 1]);
    assert whole[..|upTo|] == upTo;
    assert parts[i] == upTo[|Flatten(parts[..i])|..];
  }

  /** Records of one size sit at multiples of that size. */
  lemma {:induction false} FlattenRecords<T>(parts: seq<seq<T>>, size: nat)
    requires forall k :: 0 <= k < |parts| ==> |parts[k]| == size
    ensures |Flatten(parts)| == size * |parts|
    ensures forall k :: 0 <= k < |parts| ==> |Flatten(parts[..k])| == size * k
  {
    if parts != [] {
      var n := |parts| - 1;
      var init := parts[..n];
      FlattenRecords(init, size);
      forall k | 0 <= k < |parts| ensures |Flatten(parts[..k])| == size * k {
        if k < n { assert init[..k] == parts[..k]; }
      }
      Distribute(size, n, 1);
    }
  }

  lemma SliceOfSlice<T>(s: seq<T>, a: nat, b: nat, c: nat, d: nat)
    requires a <= b <= |s| && c <= d <= b - a
    ensures s[a..b][c..d] == s[a + c..a + d]
  {
    forall i | 0 <= i < d - c ensures s[a..b][c..d][i] == s[a + c..a + d][i] {
      assert s[a..b][c + i] == s[a + (c + i)];
    }
  }

  function Pow256(w: nat): (p: nat)
    ensures p > 0
  {
    if w == 0 then 1 else 256 * Pow256(w - 1)
  }

  /** Storing `n` into an unsigned little-endian field of `w` bytes. */
  function EncodeLE(n: nat, w: nat): (s: seq<byte>)
    ensures |s| == w
  {
    if w == 0 then [] else [n % 256] + EncodeLE(n / 256, w - 1)
  }

  function DecodeLE(s: seq<byte>): nat {
    if s == [] then 0 else s[0] + 256 * DecodeLE(s[1..])
  }

  /** A field keeps the value modulo its width: C's unsigned conversion. */
  lemma {:induction false} DecodeEncode(n: nat, w: nat)
    ensures DecodeLE(EncodeLE(n, w)) == n % Pow256(w)
  {
    if w > 0 {
      var p := Pow256(w - 1);
      DecodeEncode(n / 256, w - 1);
      assert EncodeLE(n, w)[1..] == EncodeLE(n / 256, w - 1);
      NestedMod(n, 256, p);
    }
  }

  function Sum(ws: seq<nat>): nat {
    if ws == [] then 0 else ws[0] + Sum(ws[1..])
  }

  /** A C struct without padding: fields of widths `ws`, one after another. */
  function Pack(ws: seq<nat>, vs: seq<nat>): seq<byte>
    requires |ws| == |vs|
  {
    if ws == [] then [] else EncodeLE(vs[0], ws[0]) + Pack(ws[1..], vs[1..])
  }

  lemma {:induction false} PackLength(ws: seq<nat>, vs: seq<nat>)
    requires |ws| == |vs|
    ensures |Pack(ws, vs)| == Sum(ws)
  {
    if ws != [] { PackLength(ws[1..], vs[1..]); }
  }

  function Unpack(ws: seq<nat>, s: seq<byte>): (vs: seq<nat>)
    requires |s| == Sum(ws)
    ensures |vs| == |ws|
  {
    if ws == [] then [] else [DecodeLE(s[..ws[0]])] + Unpack(ws[1..], s[ws[0]..])
  }

  lemma {:induction false} UnpackPack(ws: seq<nat>, vs: seq<nat>)
    requires |ws| == |vs|
    ensures |Pack(ws, vs)| == Sum(ws)
    ensures |Unpack(ws, Pack(ws, vs))| == |vs|
    ensures forall i :: 0 <= i < |vs| ==> Unpack(ws, Pack(ws, vs))[i] == vs[i] % Pow256(ws[i])
  {
    PackLength(ws, vs);
    if ws != [] {
      PackLength(ws[1..], vs[1..]);
      var s := Pack(ws, vs);
      DecodeEncode(vs[0], ws[0]);
      assert s[..ws[0]] == EncodeLE(vs[0], ws[0]);
      assert s[ws[0]..] == Pack(ws[1..], vs[1..]);
      UnpackPack(ws[1..], vs[1..]);
      forall i | 0 <= i < |vs| ensures Unpack(ws, s)[i] == vs[i] % Pow256(ws[i]) {
        if i > 0 {
          assert vs[1..][i - 1] == vs[i] && ws[1..][i - 1] == ws[i];
        }
      }
    }
  }

  lemma UnpackNext(ws: seq<nat>, s: seq<byte>, i: nat)
    requires |s| == Sum(ws) && 0 < i < |ws|
    ensures Unpack(ws, s)[i] == Unpack(ws[1..], s[ws[0]..])[i - 1]
  {
  }

  lemma SumNext(ws: seq<nat>, i: nat)
    requires 0 < i <= |ws|
    ensures Sum(ws[..i]) == ws[0] + Sum(ws[1..][..i - 1])
  {
    assert ws[..i][1..] == ws[1..][..i - 1];
  }

  lemma {:induction false} SumStep(ws: seq<nat>, i: nat)
    requires i < |ws|
    ensures Sum(ws[..0]) == 0 && Sum(ws[..i + 1]) == Sum(ws[..i]) + ws[i]
    decreases i
  {
    if i == 0 {
      assert ws[..1][1..] == [];
    } else {
      SumNext(ws, i);
      SumNext(ws, i + 1);
      SumStep(ws[1..], i - 1);
    }
  }

  /** A field is decoded from its own bytes. */
  lemma {:induction false} UnpackAt(ws: seq<nat>, s: seq<byte>, i: nat, at: nat)
    requires |s| == Sum(ws) && i < |ws| && at == Sum(ws[..i])
    ensures at + ws[i] <= |s| && Unpack(ws, s)[i] == DecodeLE(s[at..at + ws[i]])
    decreases i
  {
    if i == 0 {
      assert ws[..0] == [];
    } else {
      var w, rest := ws[0], s[ws[0]..];
      SumNext(ws, i);
      UnpackNext(ws, s, i);
      UnpackAt(ws[1..], rest, i - 1, at - w);
      SliceBehind(s, w, at, ws[i]);
    }
  }

  lemma SliceBehind(s: seq<byte>, w: nat, at: nat, n: nat)
    requires w <= at && at + n <= |s|
    ensures s[w..][at - w..at - w + n] == s[at..at + n]
  {
  }

  lemma WidthLimits()
    ensures Pow256(2) == 0x1_0000 && Pow256(4) == 0x1_0000_0000 && Pow256(8) == TWO64
    ensures Pow256(16) == TWO64 * TWO64
  {
    Pow256Double(2);
    Pow256Double(4);
    Pow256Double(8);
    assert Pow256(1) == 256;
  }

  lemma Pow256Double(w: nat)
    ensures Pow256(w + w) == Pow256(w) * Pow256(w)
  {
    Pow256Add(w, w);
  }

  lemma Pow256Add(a: nat, b: nat)
    ensures Pow256(a + b) == Pow256(a) * Pow256(b)
  {
    if b > 0 {
      Pow256Add(a, b - 1);
      assert Pow256(a) * Pow256(b) == 256 * (Pow256(a) * Pow256(b - 1));
    }
  }
}
