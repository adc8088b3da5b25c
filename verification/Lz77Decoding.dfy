/** The level 1 machine fed with the codes of a parse: it stays in step whatever way the bits fall into bytes. */
module Lz77Decoding {
  import opened Sequences
  import opened Bytes
  import opened Bits
  import opened Lz77
  import opened Lz77Bits

  /** What has been produced is a part of src, and the tokens left tell the rest. */
  ghost predicate Follows(src: seq<byte>, p: Place) {
    && |p.done| <= |src| && p.done == src[..|p.done|] && Parses(src, |p.done|, p.ts) && End(|p.done|, p.ts) == |src|
  }

  /** The machine stands at p when u is still to be fed. */
  ghost predicate At(s: S1, p: Place, rb: nat, u: seq<bit>, pad: seq<bit>) {
    Stands(s, p, rb, s.bits + u, pad)
  }

  /** What is at the front of the stream has been read already. */
  lemma Front(x: seq<bit>, u: seq<bit>, a: seq<bit>, b: seq<bit>)
    requires x + u == a + b && |a| <= |x|
    ensures x[..|a|] == a && x[|a|..] + u == b
  {
    assert (x + u)[..|a|] == x[..|a|] && (a + b)[..|a|] == a;
    assert (x + u)[|a|..] == x[|a|..] + u && (a + b)[|a|..] == b;
  }

  // ---------------------------------------------------------------- one phase after the other

  lemma NewCodeStands(s: S1, p: Place, rb: nat, u: seq<bit>, pad: seq<bit>) returns (p1: Place)
    requires At(s, p, rb, u, pad) && |pad| <= 7 && (s.state == 0 ==> 8 <= |s.bits|)
    ensures At(NewCode(s), p1, rb, u, pad) && NewCode(s).state != 0
    ensures p1.done == p.done && p1.ts == p.ts
    ensures s.state != 0 ==> NewCode(s) == s
    ensures s.state == 0 ==> var s1 := NewCode(s); s1.state in {1, 3} && |s1.bits| == |s.bits| - if s1.state == 1 then 5 else 2
  {
    p1 := p;
    if s.state == 0 {
      assert p.ts != [];
      var t, rest := p.ts[0], Codes1(rb, p.ts[1..]) + pad;
      assert t in p.ts;
      Grouped(Code1(rb, t), Codes1(rb, p.ts[1..]), pad);
      if t.Literals? {
        p1 := BeginLiterals(s, p, t, rb, u, rest);
      } else {
        p1 := BeginMatch(s, p, t, rb, u, rest);
      }
    }
  }

  lemma BeginLiterals(s: S1, p: Place, t: Token, rb: nat, u: seq<bit>, rest: seq<bit>) returns (p1: Place)
    requires s.state == 0 && 8 <= |s.bits| && t.Literals? && Fits1(rb, t) && s.out == p.done
    requires s.bits + u == Code1(rb, t) + rest
    ensures p1 == p.(k := p1.k)
    ensures
      var s1 := NewCode(s);
      && s1.state == 3 && |s1.bits| == |s.bits| - 2 && Registers(s1, p1.k, t, rb, p.done)
      && s1.bits + u == Expected(s1, p1.k, t, rb) + rest
  {
    TopOfGamma(|t.bytes|);
    p1 := p.(k := Lg(|t.bytes|) - 1);
    assert Code1(rb, t) + rest == [0, 0] + (LitCode(t.bytes) + rest);
    Front(s.bits, u, [0, 0], LitCode(t.bytes) + rest);
    assert Number([0, 0]) == 0 by { assert [0, 0][1..] == [0]; }
  }

  lemma BeginMatch(s: S1, p: Place, t: Token, rb: nat, u: seq<bit>, rest: seq<bit>) returns (p1: Place)
    requires s.state == 0 && 8 <= |s.bits| && t.Match? && Fits1(rb, t) && s.out == p.done
    requires s.bits + u == Code1(rb, t) + rest
    ensures p1 == p.(k := p1.k)
    ensures
      var s1 := NewCode(s);
      && s1.state == 1 && |s1.bits| == |s.bits| - 5 && Registers(s1, p1.k, t, rb, p.done)
      && s1.bits + u == Expected(s1, p1.k, t, rb) + rest
  {
    TopOfGamma(t.len / 4);
    p1 := p.(k := Lg(t.len / 4) - 1);
    var lo: nat := OffsetBits(t.off, rb);
    var a, b := LowFirst((lo + 8) / 8, 2), LowFirst(lo % 8, 3);
    var c := Gamma(t.len / 4, p1.k) + LenEnd(t, rb);
    Grouped(a + b, c, rest);
    FiveBits(s.bits, u, a, b, c + rest);
    HeaderNumbers(lo);
    assert Shr(t.len / 4, p1.k) == 1;
  }

  lemma FiveBits(x: seq<bit>, u: seq<bit>, a: seq<bit>, b: seq<bit>, c: seq<bit>)
    requires x + u == a + b + c && |a| == 2 && |b| == 3 && |x| >= 5
    ensures x[..2] == a && x[2..5] == b && x[5..] + u == c
  {
    Front(x, u, a + b, c);
    assert x[..2] == x[..5][..2] && x[2..5] == x[..5][2..];
  }

  lemma HeaderNumbers(lo: nat)
    requires lo <= 23
    ensures
      var mm, mmm := Number(LowFirst((lo + 8) / 8, 2)), Number(LowFirst(lo % 8, 3));
      mm > 0 && (mm - 1) * 8 + mmm == lo
  {
    SmallPowers();
    var q: nat, r: nat := lo / 8, lo % 8;
    assert (lo + 8) / 8 == q + 1 && q <= 2;
    NumberOfLowFirst(q + 1, 2);
    NumberOfLowFirst(r, 3);
  }

  /** One more bit of a length, or its end. */
  lemma GammaStep(x: nat, k: nat, bits: seq<bit>, u: seq<bit>, rest: seq<bit>)
    requires bits + u == Gamma(x, k) + rest && |bits| >= 2
    ensures k == 0 ==> bits[0] == 0 && bits[1..] + u == rest
    ensures k > 0 ==> bits[0] == 1 && 2 * Shr(x, k) + bits[1] == Shr(x, k - 1) && bits[2..] + u == Gamma(x, k - 1) + rest
  {
    if k == 0 {
      Front(bits, u, [0], rest);
      assert bits[0] == bits[..1][0];
    } else {
      var b := BitAt(x, k - 1);
      assert Gamma(x, k) + rest == [1, b] + (Gamma(x, k - 1) + rest);
      Front(bits, u, [1, b], Gamma(x, k - 1) + rest);
      assert bits[0] == bits[..2][0] && bits[1] == bits[..2][1];
      ShrSplit(x, k - 1);
    }
  }

  lemma MoreOfGamma(x: nat, k: nat, bits: seq<bit>, u: seq<bit>, end: seq<bit>, rest: seq<bit>)
    requires bits + u == Gamma(x, k) + end + rest && |bits| >= 2 && bits[0] == 1
    ensures k > 0 && Shr(x, k - 1) == 2 * Shr(x, k) + bits[1] && bits[2..] + u == Gamma(x, k - 1) + end + rest
  {
    Grouped(Gamma(x, k), end, rest);
    GammaStep(x, k, bits, u, end + rest);
    Grouped(Gamma(x, k - 1), end, rest);
  }

  /** One more bit of a match length. */
  lemma LengthBitStands(s: S1, p: Place, rb: nat, u: seq<bit>, pad: seq<bit>) returns (s1: S1, p1: Place)
    requires At(s, p, rb, u, pad) && s.state == 1 && |s.bits| >= 3 && s.bits[0] == 1
    ensures MatchLength(s, rb) == MatchLength(s1, rb) && s1.state == 1 && |s1.bits| < |s.bits|
    ensures p1.done == p.done && p1.ts == p.ts && At(s1, p1, rb, u, pad)
  {
    var t, rest := p.ts[0], Codes1(rb, p.ts[1..]) + pad;
    assert t in p.ts;
    MoreOfGamma(t.len / 4, p.k, s.bits, u, LenEnd(t, rb), rest);
    s1 := s.(len := 2 * s.len + s.bits[1], bits := s.bits[2..]);
    p1 := p.(k := p.k - 1);
  }

  /** The end of a match length. */
  lemma LengthEndStands(s: S1, p: Place, rb: nat, u: seq<bit>, pad: seq<bit>)
    requires At(s, p, rb, u, pad) && s.state == 1 && |s.bits| >= 3 && s.bits[0] == 0
    ensures At(MatchLength(s, rb), p, rb, u, pad)
    ensures MatchLength(s, rb).state in {5, 2} && |MatchLength(s, rb).bits| + 3 == |s.bits|
  {
    var t, rest := p.ts[0], Codes1(rb, p.ts[1..]) + pad;
    assert t in p.ts;
    Grouped(Gamma(t.len / 4, p.k), LenEnd(t, rb), rest);
    GammaStep(t.len / 4, p.k, s.bits, u, LenEnd(t, rb) + rest);
    EndOfLength(s, p, t, rb, u, rest);
  }

  lemma {:induction false} MatchLengthStands(s: S1, p: Place, rb: nat, u: seq<bit>, pad: seq<bit>) returns (p1: Place)
    requires At(s, p, rb, u, pad) && s.state != 0
    ensures At(MatchLength(s, rb), p1, rb, u, pad) && p1.done == p.done && p1.ts == p.ts
    ensures s.state != 1 ==> MatchLength(s, rb) == s
    ensures s.state == 1 ==>
              var s1 := MatchLength(s, rb);
              if s1.state == 1 then |s1.bits| < 3 else s1.state in {5, 2} && |s1.bits| + 3 <= |s.bits|
    decreases |s.bits|
  {
    p1 := p;
    if s.state == 1 && |s.bits| >= 3 {
      if s.bits[0] == 1 {
        var s1, p2 := LengthBitStands(s, p, rb, u, pad);
        p1 := MatchLengthStands(s1, p2, rb, u, pad);
      } else {
        LengthEndStands(s, p, rb, u, pad);
      }
    }
  }

  lemma EndOfLength(s: S1, p: Place, t: Token, rb: nat, u: seq<bit>, rest: seq<bit>)
    requires s.state == 1 && |s.bits| >= 3 && t.Match? && Fits1(rb, t) && Registers(s, 0, t, rb, p.done)
    requires s.bits[1..] + u == LenEnd(t, rb) + rest && s.bits[0] == 0
    ensures
      var s1 := MatchLength(s, rb);
      && s1.state in {5, 2} && |s1.bits| == |s.bits| - 3 && (s1.state == 5 <==> rb > 0)
      && Registers(s1, 0, t, rb, p.done) && s1.bits + u == Expected(s1, 0, t, rb) + rest
  {
    var two := LowFirst(t.len % 4, 2);
    Grouped(two, OffsetCode(t.off, rb), rest);
    Front(s.bits[1..], u, two, OffsetCode(t.off, rb) + rest);
    assert s.bits[1..][..2] == s.bits[1..3] && s.bits[1..][2..] == s.bits[3..];
    NumberOfLowFirst(t.len % 4, 2);
    SmallPowers();
    assert Shr(t.len / 4, 0) == t.len / 4;
    if rb == 0 {
      assert OffsetCode(t.off, rb) == LowFirst(Shr(Shifted(t.off, rb), rb), OffsetBits(t.off, rb));
    }
  }

  lemma LowOffsetStands(s: S1, p: Place, rb: nat, u: seq<bit>, pad: seq<bit>)
    requires At(s, p, rb, u, pad) && s.state != 0
    ensures At(LowOffset(s, rb), p, rb, u, pad)
  {
    if s.state == 5 && |s.bits| >= rb {
      var t, rest := p.ts[0], Codes1(rb, p.ts[1..]) + pad;
      assert t in p.ts;
      var a, b := LowFirst(Shifted(t.off, rb), rb), LowFirst(Shr(Shifted(t.off, rb), rb), OffsetBits(t.off, rb));
      Grouped(a, b, rest);
      Front(s.bits, u, a, b + rest);
      NumberOfLowFirst(Shifted(t.off, rb), rb);
    }
  }

  /** A number with n + 1 bits is its leading bit and the rest. */
  lemma LeadingBit(x: nat, n: nat)
    requires CountBit(x) == n + 1
    ensures x == Pow2(n) + x % Pow2(n)
  {
    CountBitBounds(x);
    RemainderIs(x, Pow2(n), 1, x - Pow2(n));
  }

  lemma {:induction false} CountOfShr(x: nat, k: nat)
    requires CountBit(x) > k
    ensures CountBit(Shr(x, k)) == CountBit(x) - k
  {
    if k > 0 {
      CountOfShr(x, k - 1);
    }
  }

  /** The parts of an offset put together. */
  lemma OffsetJoined(off: nat, rb: nat)
    requires off >= 1 && OffsetBits(off, rb) >= 0
    ensures
      var x, n: nat := Shifted(off, rb), OffsetBits(off, rb);
      Shr(x, rb) % Pow2(n) + Pow2(n) == Shr(x, rb) && Shr(x, rb) * Pow2(rb) + x % Pow2(rb) - (Pow2(rb) - 1) == off
  {
    var x, n: nat := Shifted(off, rb), OffsetBits(off, rb);
    CountOfShr(x, rb);
    LeadingBit(Shr(x, rb), n);
    ShrIsDiv(x, rb);
    QuotientAndRest(x, Pow2(rb), Shr(x, rb));
  }

  lemma QuotientAndRest(x: nat, p: nat, q: nat)
    requires p > 0 && q == x / p
    ensures q * p + x % p == x
  {
  }

  lemma CopyMatchStands(s: S1, p: Place, rb: nat, u: seq<bit>, pad: seq<bit>, src: seq<byte>) returns (p1: Place)
    requires At(s, p, rb, u, pad) && s.state != 0 && Follows(src, p)
    ensures CopyMatch(s, rb).Some? && At(CopyMatch(s, rb).value, p1, rb, u, pad) && Follows(src, p1)
  {
    p1 := p;
    if s.state == 2 && |s.bits| >= s.m {
      var t, rest := p.ts[0], Codes1(rb, p.ts[1..]) + pad;
      assert t in p.ts;
      var q := LowFirst(Shr(Shifted(t.off, rb), rb), OffsetBits(t.off, rb));
      Front(s.bits, u, q, rest);
      NumberOfLowFirst(Shr(Shifted(t.off, rb), rb), OffsetBits(t.off, rb));
      OffsetJoined(t.off, rb);
      OffsetAlone(t.off, rb);
      p1 := TokenDone(src, p);
    }
  }

  lemma OffsetAlone(off: nat, rb: nat)
    requires off >= 1 && OffsetBits(off, rb) >= 0
    ensures
      var n: nat := OffsetBits(off, rb);
      rb == 0 ==> Shr(Shifted(off, rb), rb) % Pow2(n) + Pow2(n) == off
  {
    if rb == 0 {
      OffsetJoined(off, rb);
      assert Pow2(0) == 1;
    }
  }

  /** A whole token has been carried out. */
  lemma TokenDone(src: seq<byte>, p: Place) returns (p1: Place)
    requires Follows(src, p) && p.ts != []
    ensures Applies(p.done, p.ts[0]) && p1 == Place(Apply(p.done, p.ts[0]), p.ts[1..], 0) && Follows(src, p1)
  {
    TellsApplies(src, |p.done|, p.ts[0]);
    p1 := Place(Apply(p.done, p.ts[0]), p.ts[1..], 0);
  }

  /** One more bit of the number of literals. */
  lemma CountBitStands(s: S1, p: Place, rb: nat, u: seq<bit>, pad: seq<bit>) returns (s1: S1, p1: Place)
    requires At(s, p, rb, u, pad) && s.state == 3 && |s.bits| >= 2 && s.bits[0] == 1
    ensures LiteralLength(s) == LiteralLength(s1) && s1.state == 3 && |s1.bits| < |s.bits|
    ensures p1.done == p.done && p1.ts == p.ts && At(s1, p1, rb, u, pad)
  {
    var t, rest := p.ts[0], Codes1(rb, p.ts[1..]) + pad;
    assert t in p.ts;
    MoreOfGamma(|t.bytes|, p.k, s.bits, u, BytesAsBits(t.bytes), rest);
    s1 := s.(len := 2 * s.len + s.bits[1], bits := s.bits[2..]);
    p1 := p.(k := p.k - 1);
  }

  /** The end of the number of literals. */
  lemma CountEndStands(s: S1, p: Place, rb: nat, u: seq<bit>, pad: seq<bit>)
    requires At(s, p, rb, u, pad) && s.state == 3 && |s.bits| >= 2 && s.bits[0] == 0
    ensures At(LiteralLength(s), p, rb, u, pad)
    ensures LiteralLength(s).state == 4 && |LiteralLength(s).bits| < |s.bits|
  {
    var t, rest := p.ts[0], Codes1(rb, p.ts[1..]) + pad;
    assert t in p.ts;
    Grouped(Gamma(|t.bytes|, p.k), BytesAsBits(t.bytes), rest);
    GammaStep(|t.bytes|, p.k, s.bits, u, BytesAsBits(t.bytes) + rest);
    assert Shr(|t.bytes|, 0) == |t.bytes|;
    assert t.bytes[0..] == t.bytes && p.done + t.bytes[..0] == p.done;
  }

  lemma {:induction false} LiteralLengthStands(s: S1, p: Place, rb: nat, u: seq<bit>, pad: seq<bit>) returns (p1: Place)
    requires At(s, p, rb, u, pad)
    ensures At(LiteralLength(s), p1, rb, u, pad) && p1.done == p.done && p1.ts == p.ts
    ensures s.state != 3 ==> LiteralLength(s) == s
    ensures s.state == 3 ==>
              var s1 := LiteralLength(s);
              if s1.state == 3 then |s1.bits| < 2 else s1.state == 4 && |s1.bits| < |s.bits|
    decreases |s.bits|
  {
    p1 := p;
    if s.state == 3 && |s.bits| >= 2 {
      if s.bits[0] == 1 {
        var s1, p2 := CountBitStands(s, p, rb, u, pad);
        p1 := LiteralLengthStands(s1, p2, rb, u, pad);
      } else {
        CountEndStands(s, p, rb, u, pad);
      }
    }
  }

  lemma LiteralsFrom(b: seq<byte>, i: nat)
    requires i < |b|
    ensures BytesAsBits(b[i..]) == LowFirst(b[i], 8) + BytesAsBits(b[i + 1..])
  {
    assert b[i..][0] == b[i] && b[i..][1..] == b[i + 1..];
  }

  lemma LiteralStep(s: S1, done: seq<byte>, b: seq<byte>, u: seq<bit>, rest: seq<bit>)
    requires s.state == 4 && |s.bits| >= 8 && 1 <= s.len <= |b|
    requires s.out == done + b[..|b| - s.len] && s.bits + u == BytesAsBits(b[|b| - s.len..]) + rest
    ensures
      var s1, i := OneLiteral(s), |b| - s.len + 1;
      s1.out == done + b[..i] && s1.bits + u == BytesAsBits(b[i..]) + rest
  {
    var i := |b| - s.len;
    NextLiteral(s.bits, b, i, u, rest);
    LiteralTaken(s, b[i]);
    assert done + b[..i] + [b[i]] == done + b[..i + 1];
  }

  lemma NextLiteral(bits: seq<bit>, b: seq<byte>, i: nat, u: seq<bit>, rest: seq<bit>)
    requires i < |b| && |bits| >= 8 && bits + u == BytesAsBits(b[i..]) + rest
    ensures Number(bits[..8]) == b[i] && bits[8..] + u == BytesAsBits(b[i + 1..]) + rest
  {
    LiteralsFrom(b, i);
    var first := LowFirst(b[i], 8);
    Grouped(first, BytesAsBits(b[i + 1..]), rest);
    Front(bits, u, first, BytesAsBits(b[i + 1..]) + rest);
    ByteOfBits(b[i], 8, first);
  }

  lemma ByteOfBits(c: byte, n: nat, bits: seq<bit>)
    requires n == 8 && bits == LowFirst(c, n)
    ensures Number(bits) == c
  {
    NumberOfLowFirst(c, n);
    SmallPowers();
    RemainderIs(c, Pow2(n), 0, c);
  }

  lemma LiteralTaken(s: S1, c: byte)
    requires s.state == 4 && |s.bits| >= 8 && Number(s.bits[..8]) == c
    ensures OneLiteral(s).out == s.out + [c] && OneLiteral(s).bits == s.bits[8..]
  {
  }

  lemma LastLiteralStands(s: S1, p: Place, rb: nat, u: seq<bit>, pad: seq<bit>, src: seq<byte>) returns (p1: Place)
    requires At(s, p, rb, u, pad) && Follows(src, p) && s.state == 4 && |s.bits| >= 8 && s.len == 1
    ensures At(OneLiteral(s), p1, rb, u, pad) && Follows(src, p1)
  {
    var b, rest := p.ts[0].bytes, Codes1(rb, p.ts[1..]) + pad;
    assert p.ts[0] in p.ts;
    LiteralStep(s, p.done, b, u, rest);
    assert b[..|b|] == b && b[|b|..] == [];
    assert [] + rest == rest;
    p1 := TokenDone(src, p);
  }

  lemma MoreLiteralsStand(s: S1, p: Place, rb: nat, u: seq<bit>, pad: seq<bit>)
    requires At(s, p, rb, u, pad) && s.state == 4 && |s.bits| >= 8 && s.len > 1
    ensures At(OneLiteral(s), p, rb, u, pad)
  {
    assert p.ts[0] in p.ts;
    LiteralStep(s, p.done, p.ts[0].bytes, u, Codes1(rb, p.ts[1..]) + pad);
  }

  lemma OneLiteralStands(s: S1, p: Place, rb: nat, u: seq<bit>, pad: seq<bit>, src: seq<byte>) returns (p1: Place)
    requires At(s, p, rb, u, pad) && Follows(src, p)
    ensures At(OneLiteral(s), p1, rb, u, pad) && Follows(src, p1)
  {
    p1 := p;
    if s.state == 4 && |s.bits| >= 8 {
      if s.len == 1 {
        p1 := LastLiteralStands(s, p, rb, u, pad, src);
      } else {
        MoreLiteralsStand(s, p, rb, u, pad);
      }
    }
  }

  // ---------------------------------------------------------------- how many bits are kept

  /** Feeding a byte to a waiting machine leaves it waiting. */
  lemma StillWaiting(s: S1, c: byte, rb: nat)
    requires Waiting(s, rb) && Next1(s, c, rb).Some?
    ensures Waiting(Next1(s, c, rb).value, rb)
  {
    var s0 := NewCode(s.(bits := s.bits + LowFirst(c, 8)));
    MatchLengthBits(s0, rb);
    var s1 := CopyMatch(LowOffset(MatchLength(s0, rb), rb), rb).value;
    LiteralLengthBits(s1);
  }

  lemma {:induction false} MatchLengthBits(s: S1, rb: nat)
    ensures
      var s1 := MatchLength(s, rb);
      if s.state != 1 then s1 == s
      else if s1.state == 1 then |s1.bits| < 3
      else s1.state == (if rb > 0 then 5 else 2) && |s1.bits| + 3 <= |s.bits|
    decreases |s.bits|
  {
    if s.state == 1 && |s.bits| >= 3 && s.bits[0] == 1 {
      MatchLengthBits(s.(len := 2 * s.len + s.bits[1], bits := s.bits[2..]), rb);
    }
  }

  lemma {:induction false} LiteralLengthBits(s: S1)
    ensures
      var s1 := LiteralLength(s);
      if s.state != 3 then s1 == s
      else if s1.state == 3 then |s1.bits| < 2
      else s1.state == 4 && |s1.bits| < |s.bits|
    decreases |s.bits|
  {
    if s.state == 3 && |s.bits| >= 2 && s.bits[0] == 1 {
      LiteralLengthBits(s.(len := 2 * s.len + s.bits[1], bits := s.bits[2..]));
    }
  }

  // ---------------------------------------------------------------- whole streams

  /** The phases in front of the copy of a match. */
  lemma MatchPhasesStand(s: S1, p: Place, c: byte, rb: nat, u: seq<bit>, pad: seq<bit>, src: seq<byte>)
    returns (s1: S1, p1: Place)
    requires At(s, p, rb, LowFirst(c, 8) + u, pad) && Follows(src, p) && Waiting(s, rb) && |pad| <= 7
    ensures s1 == LowOffset(MatchLength(NewCode(s.(bits := s.bits + LowFirst(c, 8))), rb), rb)
    ensures s1.state != 0 && At(s1, p1, rb, u, pad) && Follows(src, p1)
  {
    var fed := s.(bits := s.bits + LowFirst(c, 8));
    Grouped(s.bits, LowFirst(c, 8), u);
    var s0 := NewCode(fed);
    p1 := NewCodeStands(fed, p, rb, u, pad);
    p1 := MatchLengthStands(s0, p1, rb, u, pad);
    LowOffsetStands(MatchLength(s0, rb), p1, rb, u, pad);
    s1 := LowOffset(MatchLength(s0, rb), rb);
  }

  lemma NextStands(s: S1, p: Place, c: byte, rb: nat, u: seq<bit>, pad: seq<bit>, src: seq<byte>) returns (p1: Place)
    requires At(s, p, rb, LowFirst(c, 8) + u, pad) && Follows(src, p) && Waiting(s, rb) && |pad| <= 7
    ensures Next1(s, c, rb).Some? && At(Next1(s, c, rb).value, p1, rb, u, pad) && Follows(src, p1)
  {
    var s1;
    s1, p1 := MatchPhasesStand(s, p, c, rb, u, pad, src);
    p1 := CopyMatchStands(s1, p1, rb, u, pad, src);
    var s2 := CopyMatch(s1, rb).value;
    p1 := LiteralLengthStands(s2, p1, rb, u, pad);
    p1 := OneLiteralStands(LiteralLength(s2), p1, rb, u, pad, src);
  }

  lemma {:induction false} RunStands(s: S1, p: Place, input: seq<byte>, rb: nat, pad: seq<bit>, src: seq<byte>)
    returns (p1: Place)
    requires At(s, p, rb, BytesAsBits(input), pad) && Follows(src, p) && Waiting(s, rb) && |pad| <= 7
    ensures Run1(s, input, rb).Some?
    ensures var r := Run1(s, input, rb).value; At(r, p1, rb, [], pad) && Waiting(r, rb) && Follows(src, p1)
    decreases |input|
  {
    p1 := p;
    if input != [] {
      p1 := NextStands(s, p, input[0], rb, BytesAsBits(input[1..]), pad, src);
      StillWaiting(s, input[0], rb);
      p1 := RunStands(Next1(s, input[0], rb).value, p1, input[1..], rb, pad, src);
    }
  }

  /** When everything has been fed and the machine still waits, nothing is left to do. */
  lemma NothingLeft(s: S1, p: Place, rb: nat, pad: seq<bit>)
    requires At(s, p, rb, [], pad) && Waiting(s, rb) && |pad| <= 7
    ensures s.state == 0 && p.ts == [] && s.out == p.done
  {
    assert s.bits + [] == s.bits;
    if s.state == 0 {
      if p.ts != [] {
        assert p.ts[0] in p.ts;
        CodeIsLong(rb, p.ts[0]);
      }
    } else {
      assert p.ts[0] in p.ts;
      ExpectedIsLong(s, p.k, p.ts[0], rb, p.done);
    }
  }

  lemma ExpectedIsLong(s: S1, k: nat, t: Token, rb: nat, done: seq<byte>)
    requires Fits1(rb, t) && Registers(s, k, t, rb, done)
    ensures |Expected(s, k, t, rb)| >= (if s.state == 1 then 3 else if s.state == 5 then rb else if s.state == 2 then s.m
                                        else if s.state == 3 then 2 else 8)
  {
  }

  /** The machine turns the bits of a parse, filled up to whole bytes, back into what was parsed. */
  lemma Level1RoundTrip(src: seq<byte>, ts: seq<Token>, rb: nat, input: seq<byte>, pad: seq<bit>)
    requires AllFit1(rb, ts) && Parses(src, 0, ts) && End(0, ts) == |src|
    requires BytesAsBits(input) == Codes1(rb, ts) + pad && |pad| <= 7
    ensures
      var r := Run1(S1(0, 0, 0, 0, [], []), input, rb);
      r.Some? && r.value.state == 0 && r.value.out == src
  {
    var s, p := S1(0, 0, 0, 0, [], []), Place([], ts, 0);
    assert s.bits + BytesAsBits(input) == Codes1(rb, ts) + pad;
    var p1 := RunStands(s, p, input, rb, pad, src);
    NothingLeft(Run1(s, input, rb).value, p1, rb, pad);
    assert src[..|src|] == src;
  }
}
