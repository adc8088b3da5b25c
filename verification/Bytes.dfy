/** Bytes, machine-word sizes and big-endian values, shared by the codec models. */
module Bytes {
  type byte = x: int | 0 <= x < 256
  type bit = x: int | 0 <= x <= 1

  const TWO24 := 0x100_0000
  const TWO31 := 0x8000_0000
  const TWO32 := 0x1_0000_0000

  /** The number whose big-endian base-256 digits are s. */
  function Value(s: seq<byte>): nat {
    if s == [] then 0 else 256 * Value(s[..|s| - 1]) + s[|s| - 1]
  }

  /** n copies of b. */
  function Fill(b: byte, n: nat): (s: seq<byte>)
    ensures |s| == n
  {
    if n == 0 then [] else Fill(b, n - 1) + [b]
  }

  lemma {:induction false} FillIs(b: byte, n: nat)
    ensures forall i :: 0 <= i < n ==> Fill(b, n)[i] == b
  {
    if n > 0 {
      FillIs(b, n - 1);
    }
  }

  lemma ValueAppend(s: seq<byte>, b: byte)
    ensures Value(s + [b]) == 256 * Value(s) + b
  {
    assert (s + [b])[..|s|] == s;
  }

  lemma ValuePrefix(s: seq<byte>, n: nat)
    requires n < |s|
    ensures Value(s[..n + 1]) == 256 * Value(s[..n]) + s[n]
  {
    assert s[..n + 1] == s[..n] + [s[n]];
    ValueAppend(s[..n], s[n]);
  }

  function Pow2(n: nat): (p: nat)
    ensures p > 0
  {
    if n == 0 then 1 else 2 * Pow2(n - 1)
  }

  lemma {:induction false} Pow2Add(a: nat, b: nat)
    ensures Pow2(a + b) == Pow2(a) * Pow2(b)
  {
    if b > 0 {
      Pow2Add(a, b - 1);
      assert Pow2(a + b) == 2 * (Pow2(a) * Pow2(b - 1)) == Pow2(a) * (2 * Pow2(b - 1));
    }
  }

  lemma {:induction false} Pow2Monotone(a: nat, b: nat)
    requires a <= b
    ensures Pow2(a) <= Pow2(b)
  {
    if a < b {
      Pow2Monotone(a, b - 1);
    }
  }

  lemma RemainderIs(x: nat, m: nat, q: int, r: nat)
    requires m > 0 && x == q * m + r && r < m
    ensures x % m == r && x / m == q
  {
    var k := x / m;
    if q < k {
      NextMultiple(q, k, m);
    } else if k < q {
      NextMultiple(k, q, m);
    }
  }

  lemma NextMultiple(a: int, b: int, m: nat)
    requires a < b
    ensures a * m + m <= b * m
  {
    var gap: nat := b - a - 1;
    assert b * m == a * m + m + gap * m;
  }
}
