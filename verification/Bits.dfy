/** Bits of numbers, by shifting. */
module Bits {
  import opened Bytes

  /** A right shift. */
  function Shr(x: nat, k: nat): nat {
    if k == 0 then x else Shr(x, k - 1) / 2
  }

  function BitAt(val: nat, k: nat): bit { Shr(val, k) % 2 }

  /** A left shift. */
  function Shl(x: nat, k: nat): nat { x * Pow2(k) }

  lemma SmallPowers()
    ensures Pow2(0) == 1 && Pow2(1) == 2 && Pow2(2) == 4 && Pow2(3) == 8 && Pow2(4) == 16 && Pow2(5) == 32
    ensures Pow2(6) == 64 && Pow2(7) == 128 && Pow2(8) == 256
  {
    assert Pow2(4) == 16;
    assert Pow2(8) == 16 * Pow2(4);
  }

  lemma {:induction false} ShrIsDiv(x: nat, k: nat)
    ensures Shr(x, k) == x / Pow2(k)
  {
    if k > 0 {
      ShrIsDiv(x, k - 1);
      HalfQuotient(x, Pow2(k - 1));
    }
  }

  lemma HalfQuotient(x: nat, c: nat)
    requires c > 0
    ensures x / (2 * c) == x / c / 2
  {
    var q, r := x / c, x % c;
    var h, b := q / 2, q % 2;
    assert q * c == h * (2 * c) + b * c by { assert (2 * h + b) * c == h * (2 * c) + b * c; }
    RemainderIs(x, 2 * c, h, b * c + r);
  }

  /** Splitting off the top bit of an n-bit number. */
  lemma TopBit(val: nat, n: nat)
    requires n > 0
    ensures val % Pow2(n) == BitAt(val, n - 1) * Pow2(n - 1) + val % Pow2(n - 1)
  {
    ShrIsDiv(val, n - 1);
    var p := Pow2(n - 1);
    var q, r := val / p, val % p;
    var h, b := q / 2, q % 2;
    assert val == q * p + r;
    assert q == 2 * h + b;
    assert q * p == h * (2 * p) + b * p by { assert (2 * h + b) * p == h * (2 * p) + b * p; }
    RemainderIs(val, 2 * p, h, b * p + r);
  }

  lemma Regroup(node: nat, b: nat, p: nat, low: nat)
    ensures (2 * node + b) * p + low == node * (2 * p) + (b * p + low)
  {
  }

  lemma {:induction false} ShrOfDoubled(v: nat, b: bit, k: nat)
    ensures Shr(2 * v + b, k + 1) == Shr(v, k)
  {
    if k > 0 {
      ShrOfDoubled(v, b, k - 1);
    }
  }

  lemma BitOfDoubled(v: nat, b: bit, k: nat)
    ensures BitAt(2 * v + b, 0) == b
    ensures BitAt(2 * v + b, k + 1) == BitAt(v, k)
  {
    ShrOfDoubled(v, b, k);
  }

  lemma ShrSplit(x: nat, k: nat)
    ensures Shr(x, k) == 2 * Shr(x, k + 1) + BitAt(x, k)
  {
  }

  /** The tree node n levels below, on the path that the bits of v take. */
  function NodeBelow(node: nat, v: nat, n: nat): nat
    decreases n
  {
    if n == 0 then node else NodeBelow(2 * node + BitAt(v, n - 1), v, n - 1)
  }

  lemma {:induction false} NodeBelowIs(node: nat, v: nat, n: nat)
    ensures NodeBelow(node, v, n) == node * Pow2(n) + v % Pow2(n)
    decreases n
  {
    if n > 0 {
      var c := BitAt(v, n - 1);
      NodeBelowIs(2 * node + c, v, n - 1);
      TopBit(v, n);
      Regroup(node, c, Pow2(n - 1), v % Pow2(n - 1));
    }
  }

  lemma NodeOfPrefix(v: nat, n: nat)
    requires v < Pow2(n)
    ensures NodeBelow(1, v, n) == Pow2(n) + v
  {
    NodeBelowIs(1, v, n);
    RemainderIs(v, Pow2(n), 0, v);
  }

  function CountBit(val: nat): nat {
    if val == 0 then 0 else 1 + CountBit(val / 2)
  }

  lemma {:induction false} CountBitBounds(val: nat)
    requires val > 0
    ensures CountBit(val) > 0 && Pow2(CountBit(val) - 1) <= val < Pow2(CountBit(val))
  {
    if val > 1 {
      CountBitBounds(val / 2);
    }
  }
}
