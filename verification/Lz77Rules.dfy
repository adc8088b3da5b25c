/** The codes of LZ77 in numbers: which bytes and bits stand for literals and matches. */
module Lz77Rules {
  import opened Bytes
  import opened Bits
  import opened Lz77
  import opened Lz77Bits

  // ---------------------------------------------------------------- level 2

  /** A code c below 64 is followed by exactly c + 1 literals: 64 at a time, and all that are left at the end. */
  lemma LiteralBytesInNumbers(m: nat, b: seq<byte>)
    requires 1 <= m <= 64 && b != []
    ensures
      var s := Code2(m, Literals(b));
      && s != [] && s[0] < 64
      && var n := s[0] + 1;
         && n <= |b| && (n < 64 ==> n == |b|)
         && |s| > n && s[1..n + 1] == b[..n]
         && s[n + 1..] == if n == |b| then [] else Code2(m, Literals(b[n..]))
  {
    var n := if |b| > 64 then 64 else |b|;
    var rest := LitBytes(b[n..]);
    assert Code2(m, Literals(b)) == [n - 1] + b[..n] + rest;
    assert ([n - 1] + b[..n] + rest)[1..n + 1] == b[..n];
    assert ([n - 1] + b[..n] + rest)[n + 1..] == rest;
  }

  /** The decoder's side: below 64 it takes exactly c + 1 literals, whatever they are. */
  lemma LiteralsTakenInNumbers(c: byte, b: seq<byte>, r1: nat, r2: nat, out: seq<byte>, m: nat)
    requires c < 64 && |b| == c + 1
    ensures
      var r := Run2(S2(0, r1, r2, out), [c] + b, m);
      r.Some? && r.value.d == 0 && r.value.out == out + b
    ensures forall k :: 0 < k < |b| ==> TakesMore(c, b[..k], r1, r2, out, m)
  {
    RunFirst(S2(0, r1, r2, out), c, b, m);
    LiteralsRun(0, out, b, m);
    forall k | 0 < k < |b|
      ensures TakesMore(c, b[..k], r1, r2, out, m)
    {
      RunFirst(S2(0, r1, r2, out), c, b[..k], m);
      SomeLiteralsRun(0, out, b[..k], |b|, m);
    }
  }

  /** In the middle of literals the decoder waits for more. */
  predicate TakesMore(c: byte, b: seq<byte>, r1: nat, r2: nat, out: seq<byte>, m: nat) {
    var r := Run2(S2(0, r1, r2, out), [c] + b, m);
    r.Some? && r.value.d == 1
  }

  lemma {:induction false} SomeLiteralsRun(r2: nat, out: seq<byte>, b: seq<byte>, n: nat, m: nat)
    requires 0 < |b| < n
    ensures Run2(S2(1, n, r2, out), b, m) == Some(S2(1, n - |b|, r2, out + b))
    decreases |b|
  {
    if |b| > 1 {
      SomeLiteralsRun(r2, out + [b[0]], b[1..], n - 1, m);
      assert out + [b[0]] + b[1..] == out + b;
    } else {
      assert b[1..] == [] && out + [b[0]] == out + b;
    }
  }

  /**
   The first code of a match says in its top two bits how many bytes of the offset follow, less one, as few as hold
   it, and in the others how much longer than m the piece is; the offset less one has its high byte first. The piece
   is the longest that leaves nothing or enough for another.
   */
  lemma MatchBytesInNumbers(m: nat, len: nat, off: nat)
    requires 1 <= m <= 64 && len >= m && 1 <= off <= TWO32
    ensures
      var s := Code2(m, Match(len, off));
      && s != [] && 64 <= s[0]
      && var n, piece := s[0] / 64 + 1, s[0] % 64 + m;
         && |s| > n && Value(s[1..n + 1]) == off - 1
         && (n == 2 <==> off - 1 < 0x1_0000) && (n == 4 <==> off - 1 >= TWO24)
         && LongestPiece(m, len, piece)
         && s[n + 1..] == if piece == len then [] else Code2(m, Match(len - piece, off))
  {
    var piece := FirstPiece(m, len);
    var h, rest := Head(piece - m, off - 1), MatchBytes(m, len - piece, off);
    HeadInNumbers(piece - m, off - 1);
    Behind(h, rest, h + rest);
    FirstIsLongest(m, len, piece);
  }

  lemma Behind(h: seq<byte>, rest: seq<byte>, s: seq<byte>)
    requires h != [] && s == h + rest
    ensures s != [] && s[0] == h[0] && s[1..|h|] == h[1..] && s[|h|..] == rest
  {
  }

  lemma FirstIsLongest(m: nat, len: nat, piece: nat)
    requires 1 <= m <= 64 && len >= m && piece == FirstPiece(m, len)
    ensures LongestPiece(m, len, piece) && piece > 0 && Splits(m, len - piece)
  {
  }

  ghost predicate LongestPiece(m: nat, len: nat, piece: nat) {
    && IsPiece(m, len, piece)
    && forall l: nat :: IsPiece(m, len, l) ==> l <= piece
  }

  predicate IsPiece(m: nat, len: nat, l: nat) { m <= l <= m + 63 && (l == len || l + m <= len) }

  lemma HeadInNumbers(x: nat, o: nat)
    requires x < 64 && o < TWO32
    ensures
      var h := Head(x, o);
      && |h| == h[0] / 64 + 2 && 64 <= h[0] && h[0] % 64 == x && Value(h[1..]) == o
      && (|h| == 3 <==> o < 0x1_0000) && (|h| == 5 <==> o >= TWO24)
  {
    var h := Head(x, o);
    if o < 0x1_0000 {
      ValueOfTwo(o / 256, o % 256);
      assert h[1..] == [o / 256, o % 256];
    } else if o < TWO24 {
      ValueOfTwo(o / 256 / 256, o / 256 % 256);
      ValueOfMore([o / 256 / 256, o / 256 % 256], o % 256);
      assert h[1..] == [o / 256 / 256, o / 256 % 256] + [o % 256];
    } else {
      ValueOfTwo(o / 256 / 256 / 256, o / 256 / 256 % 256);
      ValueOfMore([o / 256 / 256 / 256, o / 256 / 256 % 256], o / 256 % 256);
      ValueOfMore([o / 256 / 256 / 256, o / 256 / 256 % 256, o / 256 % 256], o % 256);
      assert h[1..] == [o / 256 / 256 / 256, o / 256 / 256 % 256] + [o / 256 % 256] + [o % 256];
    }
  }

  lemma ValueOfMore(s: seq<byte>, b: byte)
    ensures Value(s + [b]) == 256 * Value(s) + b
  {
    assert (s + [b])[..|s|] == s;
  }

  lemma ValueOfTwo(a: byte, b: byte)
    ensures Value([a, b]) == 256 * a + b
  {
    ValueOfMore([a], b);
    ValueOfMore([], a);
    assert [a, b] == [a] + [b] && [] + [a] == [a];
  }

  // ---------------------------------------------------------------- level 1

  /** s has at place at the lowest n bits of x, the lowest first. */
  predicate HasLow(s: seq<bit>, at: nat, x: nat, n: nat) {
    at + n <= |s| && forall k :: 0 <= k < n ==> s[at + k] == BitOf(x, k)
  }

  /** The k-th bit of x. */
  function BitOf(x: nat, k: nat): bit { x / Pow2(k) % 2 }

  /** s has at place at a one and a bit of x for each but the top one, the highest first, and a zero. */
  predicate HasGamma(s: seq<bit>, at: nat, x: nat, n: nat) {
    && Pow2(n) <= x < Pow2(n + 1) && at + 2 * n + 1 <= |s| && s[at + 2 * n] == 0
    && forall k: nat :: k < n ==> GammaBit(s, at, x, n, k)
  }

  predicate GammaBit(s: seq<bit>, at: nat, x: nat, n: nat, k: nat) {
    k < n && at + 2 * k + 1 < |s| && s[at + 2 * k] == 1 && s[at + 2 * k + 1] == BitOf(x, n - 1 - k)
  }

  lemma {:induction false} LowFirstHas(x: nat, n: nat)
    ensures HasLow(LowFirst(x, n), 0, x, n)
    decreases n
  {
    if n > 0 {
      LowFirstHas(x / 2, n - 1);
      forall k | 0 <= k < n
        ensures LowFirst(x, n)[k] == BitOf(x, k)
      {
        if k > 0 {
          assert LowFirst(x, n)[k] == LowFirst(x / 2, n - 1)[k - 1] == BitOf(x / 2, k - 1);
          HalfHas(x, k);
        }
      }
    }
  }

  lemma HalfHas(x: nat, k: nat)
    requires k > 0
    ensures BitOf(x / 2, k - 1) == BitOf(x, k)
  {
    ShrHalf(x, k - 1);
    ShrIsDiv(x, k);
    ShrIsDiv(x / 2, k - 1);
  }

  lemma {:induction false} GammaHas(x: nat, n: nat)
    ensures Gamma(x, n)[2 * n] == 0 && forall k: nat :: k < n ==> GammaBit(Gamma(x, n), 0, x, n, k)
    decreases n
  {
    if n > 0 {
      GammaHas(x, n - 1);
      ShrIsDiv(x, n - 1);
      forall k: nat | k < n
        ensures GammaBit(Gamma(x, n), 0, x, n, k)
      {
        if k > 0 {
          assert GammaBit(Gamma(x, n - 1), 0, x, n - 1, k - 1);
        }
      }
    }
  }

  /** Bits stay what they are with others around them. */
  lemma HasAround(a: seq<bit>, s: seq<bit>, b: seq<bit>, x: nat, n: nat)
    requires HasLow(s, 0, x, n)
    ensures HasLow(a + s + b, |a|, x, n)
  {
  }

  lemma GammaAround(a: seq<bit>, s: seq<bit>, b: seq<bit>, x: nat, n: nat)
    requires HasGamma(s, 0, x, n)
    ensures HasGamma(a + s + b, |a|, x, n)
  {
    forall k: nat | k < n
      ensures GammaBit(a + s + b, |a|, x, n, k)
    {
      assert GammaBit(s, 0, x, n, k);
    }
  }

  lemma GammaOf(x: nat, n: nat)
    requires x > 0 && n == Lg(x) - 1
    ensures HasGamma(Gamma(x, n), 0, x, n)
  {
    CountBitBounds(x);
    GammaHas(x, n);
  }

  /** Literals: two zeros, their number, and the bits of every byte. */
  lemma LiteralBitsInNumbers(rb: nat, b: seq<byte>) returns (n: nat)
    requires b != []
    ensures
      var s := Code1(rb, Literals(b));
      && |s| == 2 + (2 * n + 1) + 8 * |b|
      && HasLow(s, 0, 0, 2) && HasGamma(s, 2, |b|, n)
      && HasBytes(s, 2 * n + 3, b)
  {
    TopOfGamma(|b|);
    n := Lg(|b|) - 1;
    var g, d := Gamma(|b|, n), BytesAsBits(b);
    var s := [0, 0] + (g + d);
    GammaOf(|b|, n);
    GammaAround([0, 0], g, d, |b|, n);
    assert [0, 0] + g + d == s;
    assert BitOf(0, 0) == 0 && BitOf(0, 1) == 0;
    BytesHave(b);
    assert |[0, 0] + g| == 2 * n + 3 && s == [0, 0] + g + d;
    BytesAround([0, 0] + g, d, b, s);
  }

  predicate HasBytes(s: seq<bit>, at: nat, b: seq<byte>) { forall j: nat :: j < |b| ==> HasByte(s, at, b, j) }

  lemma BytesAround(a: seq<bit>, d: seq<bit>, b: seq<byte>, s: seq<bit>)
    requires HasBytes(d, 0, b) && s == a + d
    ensures HasBytes(s, |a|, b)
  {
    forall j: nat | j < |b|
      ensures HasByte(s, |a|, b, j)
    {
      assert HasByte(d, 0, b, j);
    }
  }

  /** The bits of the j-th byte, from place at on. */
  predicate HasByte(s: seq<bit>, at: nat, b: seq<byte>, j: nat) {
    j < |b| && HasLow(s, at + 8 * j, b[j], 8)
  }

  lemma {:induction false} BytesHave(b: seq<byte>)
    ensures HasBytes(BytesAsBits(b), 0, b)
    decreases |b|
  {
    if b != [] {
      BytesHave(b[1..]);
      LowFirstHas(b[0], 8);
      forall j: nat | j < |b|
        ensures HasByte(BytesAsBits(b), 0, b, j)
      {
        if j > 0 {
          assert HasByte(BytesAsBits(b[1..]), 0, b[1..], j - 1);
          assert BytesAsBits(b)[8..] == BytesAsBits(b[1..]);
        }
      }
    }
  }

  /**
   A match: in two and three bits the number lo of offset bits above the lowest rb, eight more, of which the higher
   ones come first; a quarter of the length, its last two bits, and the offset with 2^rb - 1 more, without its top bit,
   which is the one of place lo + rb.
   */
  lemma MatchBitsInNumbers(rb: nat, len: nat, off: nat) returns (lo: nat, n: nat)
    requires Fits1(rb, Match(len, off))
    ensures IsMatch(Code1(rb, Match(len, off)), rb, len, off + Pow2(rb) - 1, lo, n)
  {
    var a, b, g, c, d, e, s, w;
    lo, n, w := MatchNumbers(rb, len, off);
    a, b, g, c, d, e, s := MatchPieces(rb, len, off, lo, n, w);
    FirstParts(a, b, g + (c + (d + e)), lo, s);
    Split(a + b, g, c + (d + e), s);
    MiddleParts(a + b, g, c, d + e, len, n, s);
    Split(a + b + g, c, d + e, s);
    LowFirstHas(w, rb);
    LowFirstHas(w / Pow2(rb), lo);
    LastParts(a + b + g + c, d, e, w, rb, w / Pow2(rb), lo, s);
  }

  lemma Split(h: seq<bit>, g: seq<bit>, r: seq<bit>, s: seq<bit>)
    requires s == h + (g + r)
    ensures s == h + g + r
  {
  }

  lemma MatchNumbers(rb: nat, len: nat, off: nat) returns (lo: nat, n: nat, w: nat)
    requires Fits1(rb, Match(len, off))
    ensures w == off + Pow2(rb) - 1 && lo == OffsetBits(off, rb) && n + 1 == Lg(len / 4)
    ensures Pow2(rb + lo) <= w < Pow2(rb + lo + 1) && HasGamma(Gamma(len / 4, n), 0, len / 4, n)
  {
    w := off + Pow2(rb) - 1;
    lo := OffsetBits(off, rb);
    OffsetNumbers(w, rb, lo);
    TopOfGamma(len / 4);
    n := Lg(len / 4) - 1;
    GammaOf(len / 4, n);
  }

  lemma OffsetNumbers(w: nat, rb: nat, lo: nat)
    requires w > 0 && rb + lo + 1 == Lg(w)
    ensures Pow2(rb + lo) <= w < Pow2(rb + lo + 1)
  {
    CountBitBounds(w);
  }

  lemma MatchPieces(rb: nat, len: nat, off: nat, lo: nat, n: nat, w: nat)
    returns (a: seq<bit>, b: seq<bit>, g: seq<bit>, c: seq<bit>, d: seq<bit>, e: seq<bit>, s: seq<bit>)
    requires Fits1(rb, Match(len, off)) && lo == OffsetBits(off, rb) && n + 1 == Lg(len / 4) && w == off + Pow2(rb) - 1
    ensures s == Code1(rb, Match(len, off)) && s == a + b + (g + (c + (d + e)))
    ensures a == LowFirst((lo + 8) / 8, 2) && b == LowFirst(lo % 8, 3) && g == Gamma(len / 4, n)
    ensures c == LowFirst(len % 4, 2) && d == LowFirst(w, rb) && e == LowFirst(w / Pow2(rb), lo)
  {
    ShrIsDiv(w, rb);
    a, b, g := LowFirst((lo + 8) / 8, 2), LowFirst(lo % 8, 3), Gamma(len / 4, n);
    c, d, e := LowFirst(len % 4, 2), LowFirst(w, rb), LowFirst(w / Pow2(rb), lo);
    s := Code1(rb, Match(len, off));
  }

  predicate IsMatch(s: seq<bit>, rb: nat, len: nat, w: nat, lo: nat, n: nat) {
    && |s| == 2 * n + 8 + rb + lo && Pow2(rb + lo) <= w < Pow2(rb + lo + 1)
    && HasLow(s, 0, lo / 8 + 1, 2) && HasLow(s, 2, lo, 3)
    && HasGamma(s, 5, len / 4, n) && HasLow(s, 2 * n + 6, len, 2)
    && HasLow(s, 2 * n + 8, w, rb) && HasLow(s, 2 * n + 8 + rb, w / Pow2(rb), lo)
  }

  lemma FirstParts(a: seq<bit>, b: seq<bit>, rest: seq<bit>, lo: nat, s: seq<bit>)
    requires a == LowFirst((lo + 8) / 8, 2) && b == LowFirst(lo % 8, 3) && s == a + b + rest
    ensures HasLow(s, 0, lo / 8 + 1, 2) && HasLow(s, 2, lo, 3)
  {
    LowFirstHas((lo + 8) / 8, 2);
    HasAround([], a, b + rest, lo / 8 + 1, 2);
    assert [] + a + (b + rest) == s;
    SmallPowers();
    LowFirstHas(lo % 8, 3);
    LowOf(b, lo, 3);
    HasAround(a, b, rest, lo, 3);
  }

  lemma MiddleParts(h: seq<bit>, g: seq<bit>, c: seq<bit>, rest: seq<bit>, len: nat, n: nat, s: seq<bit>)
    requires |g| == 2 * n + 1 && HasGamma(g, 0, len / 4, n) && c == LowFirst(len % 4, 2) && s == h + (g + (c + rest))
    ensures HasGamma(s, |h|, len / 4, n) && HasLow(s, |h| + 2 * n + 1, len, 2)
  {
    GammaAround(h, g, c + rest, len / 4, n);
    assert h + g + (c + rest) == s;
    SmallPowers();
    LowFirstHas(len % 4, 2);
    LowOf(c, len, 2);
    HasAround(h + g, c, rest, len, 2);
    assert h + g + c + rest == s;
  }

  lemma LastParts(h: seq<bit>, d: seq<bit>, e: seq<bit>, w: nat, rb: nat, v: nat, lo: nat, s: seq<bit>)
    requires |d| == rb && HasLow(d, 0, w, rb) && HasLow(e, 0, v, lo) && s == h + (d + e)
    ensures HasLow(s, |h|, w, rb) && HasLow(s, |h| + rb, v, lo)
  {
    Split(h, d, e, s);
    HasAround(h, d, e, w, rb);
    HasLast(h + d, e, v, lo, s);
  }

  lemma HasLast(a: seq<bit>, e: seq<bit>, x: nat, n: nat, s: seq<bit>)
    requires HasLow(e, 0, x, n) && s == a + e
    ensures HasLow(s, |a|, x, n)
  {
  }

  /** The low n bits do not change when the others are cut off. */
  lemma {:induction false} LowOf(s: seq<bit>, x: nat, n: nat)
    requires HasLow(s, 0, x % Pow2(n), n)
    ensures HasLow(s, 0, x, n)
  {
    forall k | 0 <= k < n
      ensures BitOf(x, k) == BitOf(x % Pow2(n), k)
    {
      LowBitOf(x, k, n);
    }
  }

  lemma {:induction false} LowBitOf(x: nat, k: nat, n: nat)
    requires k < n
    ensures BitOf(x % Pow2(n), k) == BitOf(x, k)
    decreases n
  {
    var y := x % Pow2(n);
    HalfOf(x, Pow2(n - 1), y);
    if k > 0 {
      HalfHas(x, k);
      HalfHas(y, k);
      LowBitOf(x / 2, k - 1, n - 1);
    } else {
      LowestBit(x);
      LowestBit(y);
    }
  }

  lemma HalfOf(x: nat, p: nat, y: nat)
    requires p > 0 && y == x % (2 * p)
    ensures y / 2 == x / 2 % p && y % 2 == x % 2
  {
    LowHalf(x, p);
  }

  lemma LowestBit(x: nat)
    ensures BitOf(x, 0) == x % 2
  {
    assert Pow2(0) == 1;
  }
}
