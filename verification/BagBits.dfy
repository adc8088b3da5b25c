/** The data bits of a cell as bytes: a last byte that is not full ends in a one bit and zeros. */
module BagBits {
  import opened Bytes
  import opened Results

  function BitsValue(b: seq<bit>): nat {
    if b == [] then 0 else 2 * BitsValue(b[..|b| - 1]) + b[|b| - 1]
  }

  function LowBitsOf(x: nat, n: nat): (b: seq<bit>)
    ensures |b| == n
    decreases n, x
  {
    if n == 0 then [] else LowBitsOf(x / 2, n - 1) + [x % 2]
  }

  lemma {:induction false} LowBitsOfValue(b: seq<bit>)
    ensures LowBitsOf(BitsValue(b), |b|) == b && BitsValue(b) < Pow2(|b|)
    decreases |b|
  {
    if b != [] {
      LowBitsOfValue(b[..|b| - 1]);
    }
  }

  function ZeroBits(n: nat): (b: seq<bit>)
    ensures |b| == n
  {
    if n == 0 then [] else ZeroBits(n - 1) + [0]
  }

  /** The bits filled up to whole bytes. */
  function Tagged(bits: seq<bit>): (t: seq<bit>)
    ensures |t| == (|bits| + 7) / 8 * 8 && bits <= t
  {
    if |bits| % 8 == 0 then bits else bits + [1] + ZeroBits(7 - |bits| % 8)
  }

  function Bytes8(b: seq<bit>): (s: seq<byte>)
    requires |b| % 8 == 0
    ensures |s| == |b| / 8
  {
    if b == [] then []
    else
      LowBitsOfValue(b[..8]);
      assert Pow2(8) == 256 by { assert Pow2(4) == 16 && Pow2(8) == 16 * Pow2(4); }
      [BitsValue(b[..8])] + Bytes8(b[8..])
  }

  function Bits8(s: seq<byte>): (b: seq<bit>)
    ensures |b| == 8 * |s|
  {
    if s == [] then [] else LowBitsOf(s[0], 8) + Bits8(s[1..])
  }

  lemma {:induction false} Bits8Inverse(b: seq<bit>)
    requires |b| % 8 == 0
    ensures Bits8(Bytes8(b)) == b
    decreases |b|
  {
    if b != [] {
      LowBitsOfValue(b[..8]);
      Bits8Inverse(b[8..]);
      assert Bytes8(b)[1..] == Bytes8(b[8..]);
      assert b == b[..8] + b[8..];
    }
  }

  lemma {:induction false} LastByte(b: seq<bit>)
    requires |b| % 8 == 0 && b != []
    ensures Bytes8(b)[|b| / 8 - 1] as int == BitsValue(b[|b| - 8..])
    decreases |b|
  {
    if |b| > 8 {
      var rest := b[8..];
      LastByte(rest);
      assert rest[|rest| - 8..] == b[|b| - 8..];
      assert Bytes8(b)[1..] == Bytes8(rest);
    } else {
      assert b[..8] == b && b[|b| - 8..] == b;
    }
  }

  function TrailingZeros(x: nat): nat
    requires x > 0
  {
    if x % 2 == 1 then 0 else 1 + TrailingZeros(x / 2)
  }

  lemma {:induction false} TagValue(b: seq<bit>, k: nat)
    ensures
      var v := BitsValue(b + [1] + ZeroBits(k));
      v > 0 && TrailingZeros(v) == k
    decreases k
  {
    var t := b + [1] + ZeroBits(k);
    if k == 0 {
      assert t == b + [1] && t[..|t| - 1] == b;
    } else {
      TagValue(b, k - 1);
      assert t[..|t| - 1] == b + [1] + ZeroBits(k - 1);
    }
  }

  function Packed(bits: seq<bit>): (s: seq<byte>)
    ensures |s| == (|bits| + 7) / 8
  {
    Bytes8(Tagged(bits))
  }

  datatype BitsError = Overlong

  /** How many of the bits of the bytes are data. */
  function BitCount(s: seq<byte>, withTag: bool): Result<nat, BitsError>
    requires withTag ==> s != []
  {
    if !withTag then Ok(8 * |s|)
    else
      var last := s[|s| - 1];
      if last % 128 == 0 then Err(Overlong) else Ok((|s| - 1) * 8 + 7 - Trailing7(last))
  }

  function Trailing7(last: byte): (k: nat)
    requires last % 128 != 0
    ensures k <= 6 && k == TrailingZeros(last)
  {
    AtMostSix(last);
    TrailingZeros(last)
  }

  lemma AtMostSix(last: byte)
    requires last % 128 != 0
    ensures TrailingZeros(last) <= 6
  {
    var n: nat := last;
    TrailingBelow(n, 7);
  }

  lemma {:induction false} TrailingBelow(x: nat, k: nat)
    requires x > 0 && x % Pow2(k) != 0
    ensures TrailingZeros(x) < k
    decreases k
  {
    if k > 0 && x % 2 == 0 {
      assert x % Pow2(k) == 2 * (x / 2 % Pow2(k - 1)) by {
        var p, q := Pow2(k - 1), x / 2 / Pow2(k - 1);
        assert x / 2 == q * p + x / 2 % p;
        assert x == q * (2 * p) + 2 * (x / 2 % p);
        RemainderIs(x, 2 * p, q, 2 * (x / 2 % p));
      }
      TrailingBelow(x / 2, k - 1);
    }
  }

  function Unpacked(s: seq<byte>, withTag: bool): (r: Result<seq<bit>, BitsError>)
    requires withTag ==> s != []
  {
    match BitCount(s, withTag)
    case Err(e) => Err(e)
    case Ok(n) => Ok(Bits8(s)[..n])
  }

  lemma {:induction false} DivisibleEndsInZeros(x: nat, k: nat)
    requires x > 0 && x % Pow2(k) == 0
    ensures TrailingZeros(x) >= k
    decreases k
  {
    if k > 0 {
      var p, q := Pow2(k - 1), x / Pow2(k);
      assert x == q * (2 * p);
      HalfOfMultiple(q, p);
      RemainderIs(x / 2, p, q, 0);
      DivisibleEndsInZeros(x / 2, k - 1);
    }
  }

  lemma HalfOfMultiple(q: nat, p: nat)
    ensures q * (2 * p) % 2 == 0 && q * (2 * p) / 2 == q * p
  {
    assert q * (2 * p) == 2 * (q * p);
  }

  /** The last byte of tagged bits tells where the tag is. */
  lemma TagFound(bits: seq<bit>)
    requires |bits| % 8 != 0
    ensures Packed(bits) != []
    ensures
      var last := Packed(bits)[|Packed(bits)| - 1];
      last % 128 != 0 && TrailingZeros(last) == 7 - |bits| % 8
  {
    var t, r := Tagged(bits), |bits| % 8;
    var pre := bits[|bits| - r..];
    LastByte(t);
    assert t[|t| - 8..] == pre + [1] + ZeroBits(7 - r);
    TagValue(pre, 7 - r);
    var v := BitsValue(t[|t| - 8..]);
    if v % 128 == 0 {
      assert Pow2(7) == 128;
      DivisibleEndsInZeros(v, 7);
    }
  }

  /** The bits come back, and no packed bits are taken for overlong. */
  lemma UnpackedPacked(bits: seq<bit>)
    ensures |bits| % 8 != 0 ==> Packed(bits) != []
    ensures Unpacked(Packed(bits), |bits| % 8 != 0) == Ok(bits)
  {
    var t := Tagged(bits);
    Bits8Inverse(t);
    assert t[..|bits|] == bits;
    if |bits| % 8 != 0 {
      TagFound(bits);
      CountBehind(bits);
    }
  }

  /** The tag is as far from the end as the bits leave over. */
  lemma CountBehind(bits: seq<bit>)
    requires |bits| % 8 != 0
    ensures (|Packed(bits)| - 1) * 8 + |bits| % 8 == |bits|
  {
  }
}
