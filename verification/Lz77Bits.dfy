/** The bit-packed coding of level 1, and the state machine that decodes it a byte at a time. */
module Lz77Bits {
  import opened Bytes
  import opened Bits
  import opened Copying
  import opened Lz77

  // ---------------------------------------------------------------- numbers as bits, lowest first

  function LowFirst(x: nat, k: nat): (b: seq<bit>)
    ensures |b| == k
    decreases k, x
  {
    if k == 0 then [] else [x % 2] + LowFirst(x / 2, k - 1)
  }

  function Number(b: seq<bit>): nat { if b == [] then 0 else b[0] + 2 * Number(b[1..]) }

  lemma {:induction false} NumberOfLowFirst(x: nat, k: nat)
    ensures Number(LowFirst(x, k)) == x % Pow2(k)
    decreases k
  {
    if k > 0 {
      assert LowFirst(x, k)[1..] == LowFirst(x / 2, k - 1);
      NumberOfLowFirst(x / 2, k - 1);
      LowHalf(x, Pow2(k - 1));
    }
  }

  lemma LowHalf(x: nat, p: nat)
    requires p > 0
    ensures x % (2 * p) == x % 2 + 2 * (x / 2 % p)
  {
    var q := x / 2 / p;
    assert x / 2 == q * p + x / 2 % p;
    assert x == q * (2 * p) + (x % 2 + 2 * (x / 2 % p)) by { assert 2 * (q * p) == q * (2 * p); }
    RemainderIs(x, 2 * p, q, x % 2 + 2 * (x / 2 % p));
  }

  /** The bits below the top k of x, each behind a 1, and a 0 at the end. */
  function Gamma(x: nat, k: nat): (b: seq<bit>)
    ensures |b| == 2 * k + 1
    decreases k, x
  {
    if k == 0 then [0] else [1, BitAt(x, k - 1)] + Gamma(x, k - 1)
  }

  function Lg(x: nat): nat { CountBit(x) }

  lemma TopOfGamma(x: nat)
    requires x > 0
    ensures Lg(x) >= 1 && Shr(x, Lg(x) - 1) == 1
  {
    CountBitTop(x);
  }

  lemma {:induction false} CountBitTop(x: nat)
    requires x > 0
    ensures CountBit(x) >= 1 && Shr(x, CountBit(x) - 1) == 1
    decreases x
  {
    if x > 1 {
      CountBitTop(x / 2);
      ShrHalf(x, CountBit(x) - 2);
    }
  }

  lemma {:induction false} ShrHalf(x: nat, k: nat)
    ensures Shr(x, k + 1) == Shr(x / 2, k)
  {
    if k > 0 {
      ShrHalf(x, k - 1);
    }
  }

  // ---------------------------------------------------------------- the code of a token

  /** The offset as it is coded: with rb low bits apart, the rest has at least its leading bit. */
  function Shifted(off: nat, rb: nat): nat { off + Pow2(rb) - 1 }

  /** The number of bits of the offset that are coded with their number. */
  function OffsetBits(off: nat, rb: nat): int { Lg(Shifted(off, rb)) - 1 - rb }

  predicate Fits1(rb: nat, t: Token) {
    if t.Literals? then t.bytes != []
    else t.len >= 4 && t.off >= 1 && 0 <= OffsetBits(t.off, rb) <= 23
  }

  function BytesAsBits(b: seq<byte>): (s: seq<bit>)
    ensures |s| == 8 * |b|
  {
    if b == [] then [] else LowFirst(b[0], 8) + BytesAsBits(b[1..])
  }

  function LitCode(b: seq<byte>): seq<bit>
    requires b != []
  {
    TopOfGamma(|b|);
    Gamma(|b|, Lg(|b|) - 1) + BytesAsBits(b)
  }

  /** The low bits of the offset, and the rest without its leading bit. */
  function OffsetCode(off: nat, rb: nat): seq<bit>
    requires OffsetBits(off, rb) >= 0
  {
    LowFirst(Shifted(off, rb), rb) + LowFirst(Shr(Shifted(off, rb), rb), OffsetBits(off, rb))
  }

  /** The two low bits of the length, and the offset. */
  function LenEnd(t: Token, rb: nat): seq<bit>
    requires t.Match? && Fits1(rb, t)
  {
    LowFirst(t.len % 4, 2) + OffsetCode(t.off, rb)
  }

  function MatchCode(t: Token, rb: nat): seq<bit>
    requires t.Match? && Fits1(rb, t)
  {
    TopOfGamma(t.len / 4);
    var lo: nat := OffsetBits(t.off, rb);
    LowFirst((lo + 8) / 8, 2) + LowFirst(lo % 8, 3) + (Gamma(t.len / 4, Lg(t.len / 4) - 1) + LenEnd(t, rb))
  }

  function Code1(rb: nat, t: Token): seq<bit>
    requires Fits1(rb, t)
  {
    if t.Literals? then [0, 0] + LitCode(t.bytes) else MatchCode(t, rb)
  }

  ghost predicate AllFit1(rb: nat, ts: seq<Token>) { forall t :: t in ts ==> Fits1(rb, t) }

  ghost function Codes1(rb: nat, ts: seq<Token>): seq<bit>
    requires AllFit1(rb, ts)
    decreases |ts|
  {
    if ts == [] then [] else Code1(rb, ts[0]) + Codes1(rb, ts[1..])
  }

  /** No code is shorter than a byte. */
  lemma CodeIsLong(rb: nat, t: Token)
    requires Fits1(rb, t)
    ensures |Code1(rb, t)| >= 8
  {
    if t.Match? {
      TopOfGamma(t.len / 4);
    } else {
      TopOfGamma(|t.bytes|);
    }
  }

  // ---------------------------------------------------------------- the decoder of level 1

  /**
   Expecting a code (0), the length of a match (1), low bits of its offset (5), the rest of it (2),
   the length of literals (3), literals (4); bits that have been read but not used.
   */
  datatype S1 = S1(state: nat, len: nat, m: nat, r: nat, bits: seq<bit>, out: seq<byte>)

  function NewCode(s: S1): S1 {
    if s.state != 0 || |s.bits| < 5 then s
    else
      var mm := Number(s.bits[..2]);
      if mm > 0 then s.(state := 1, len := 1, m := (mm - 1) * 8 + Number(s.bits[2..5]), bits := s.bits[5..])
      else s.(state := 3, len := 1, bits := s.bits[2..])
  }

  function MatchLength(s: S1, rb: nat): S1
    decreases |s.bits|
  {
    if s.state != 1 || |s.bits| < 3 then s
    else if s.bits[0] == 1 then MatchLength(s.(len := 2 * s.len + s.bits[1], bits := s.bits[2..]), rb)
    else s.(state := if rb > 0 then 5 else 2, len := 4 * s.len + Number(s.bits[1..3]), bits := s.bits[3..])
  }

  function LowOffset(s: S1, rb: nat): S1 {
    if s.state != 5 || |s.bits| < rb then s
    else s.(state := 2, r := Number(s.bits[..rb]), bits := s.bits[rb..])
  }

  /** None where the machine would copy from in front of the output. */
  function CopyMatch(s: S1, rb: nat): Option<S1> {
    if s.state != 2 || |s.bits| < s.m then Some(s)
    else
      var d := Number(s.bits[..s.m]) + Pow2(s.m);
      var off := if rb > 0 then d * Pow2(rb) + s.r - (Pow2(rb) - 1) else d;
      if off < 1 || off > |s.out| then None
      else Some(s.(state := 0, bits := s.bits[s.m..], out := CopyBack(s.out, off, s.len)))
  }

  function LiteralLength(s: S1): S1
    decreases |s.bits|
  {
    if s.state != 3 || |s.bits| < 2 then s
    else if s.bits[0] == 1 then LiteralLength(s.(len := 2 * s.len + s.bits[1], bits := s.bits[2..]))
    else s.(state := 4, bits := s.bits[1..])
  }

  function OneLiteral(s: S1): S1 {
    if s.state != 4 || |s.bits| < 8 then s
    else
      s.(state := if s.len == 1 then 0 else 4, len := if s.len == 0 then TWO32 - 1 else s.len - 1,
         bits := s.bits[8..], out := s.out + [Number(s.bits[..8]) % 256])
  }

  /** What the machine does when it is fed a byte. */
  function Next1(s: S1, c: byte, rb: nat): Option<S1> {
    var fed := s.(bits := s.bits + LowFirst(c, 8));
    match CopyMatch(LowOffset(MatchLength(NewCode(fed), rb), rb), rb)
    case None => None
    case Some(s1) => Some(OneLiteral(LiteralLength(s1)))
  }

  function Run1(s: S1, input: seq<byte>, rb: nat): Option<S1>
    decreases |input|
  {
    if input == [] then Some(s)
    else
      match Next1(s, input[0], rb)
      case None => None
      case Some(s1) => Run1(s1, input[1..], rb)
  }

  // ---------------------------------------------------------------- standing in a stream of codes

  /** The bits still expected: with the last code begun in state s, k of its length bits to come. */
  ghost function Expected(s: S1, k: nat, t: Token, rb: nat): seq<bit>
    requires Fits1(rb, t)
  {
    if s.state == 1 && t.Match? then Gamma(t.len / 4, k) + LenEnd(t, rb)
    else if s.state == 5 && t.Match? then OffsetCode(t.off, rb)
    else if s.state == 2 && t.Match? then LowFirst(Shr(Shifted(t.off, rb), rb), OffsetBits(t.off, rb))
    else if s.state == 3 && t.Literals? then Gamma(|t.bytes|, k) + BytesAsBits(t.bytes)
    else if s.state == 4 && t.Literals? && s.len <= |t.bytes| then BytesAsBits(t.bytes[|t.bytes| - s.len..])
    else []
  }

  /** What the registers hold in the middle of the code of t, and what is already in the output. */
  ghost predicate Registers(s: S1, k: nat, t: Token, rb: nat, done: seq<byte>)
    requires Fits1(rb, t)
  {
    if t.Match? then
      && s.out == done && s.m == OffsetBits(t.off, rb) && s.state in {1, 5, 2}
      && (s.state == 1 ==> s.len == Shr(t.len / 4, k))
      && (s.state != 1 ==> s.len == t.len)
      && (s.state == 5 ==> rb > 0)
      && (s.state == 2 && rb > 0 ==> s.r == Shifted(t.off, rb) % Pow2(rb))
    else
      && s.state in {3, 4}
      && (s.state == 3 ==> s.out == done && s.len == Shr(|t.bytes|, k))
      && (s.state == 4 ==> 1 <= s.len <= |t.bytes| && s.out == done + t.bytes[..|t.bytes| - s.len])
  }

  /** How far the machine is: done has been produced by whole tokens, ts are left, the first perhaps begun. */
  datatype Place = Place(done: seq<byte>, ts: seq<Token>, k: nat)

  /** The machine stands at p, with the bits tail, taken and still to come, leading to the end of the codes. */
  ghost predicate Stands(s: S1, p: Place, rb: nat, tail: seq<bit>, pad: seq<bit>) {
    && AllFit1(rb, p.ts)
    && if s.state == 0 then s.out == p.done && tail == Codes1(rb, p.ts) + pad
       else
         && p.ts != [] && Registers(s, p.k, p.ts[0], rb, p.done)
         && tail == Expected(s, p.k, p.ts[0], rb) + (Codes1(rb, p.ts[1..]) + pad)
  }

  /** Between bytes the machine waits for bits it does not have. */
  predicate Waiting(s: S1, rb: nat) {
    s.state <= 5
    &&
    if s.state == 0 then |s.bits| <= 7
    else if s.state == 1 then |s.bits| < 3
    else if s.state == 5 then |s.bits| < rb
    else if s.state == 2 then |s.bits| < s.m
    else if s.state == 3 then |s.bits| < 2
    else |s.bits| < 8
  }
}
