/** The LZ77 encoder as it runs: match search, pending literals, packed bits, pauses when the buffer is half full. */
module Lz77Buffer {
  import opened Sequences
  import opened Bytes
  import opened Bits
  import opened Copying
  import opened Lz77
  import opened Lz77Bits
  import opened Lz77Decoding
  import opened Lz77Search
  import opened Lz77Scan

  // ---------------------------------------------------------------- packed bits

  lemma {:induction false} BytesAsBitsOneMore(a: seq<byte>, b: byte)
    ensures BytesAsBits(a + [b]) == BytesAsBits(a) + LowFirst(b, 8)
  {
    if a == [] {
      assert a + [b] == [b] && [b][1..] == [];
      assert BytesAsBits([b]) == LowFirst(b, 8) + [];
    } else {
      assert (a + [b])[1..] == a[1..] + [b];
      BytesAsBitsOneMore(a[1..], b);
      Grouped(LowFirst(a[0], 8), BytesAsBits(a[1..]), LowFirst(b, 8));
    }
  }

  lemma {:induction false} LowFirstJoin(x: nat, y: nat, n: nat, k: nat)
    requires x < Pow2(n)
    ensures LowFirst(x + y * Pow2(n), n + k) == LowFirst(x, n) + LowFirst(y, k)
    decreases n
  {
    if n == 0 {
      assert y * Pow2(0) == y;
    } else {
      HalfOfJoin(x, y, Pow2(n - 1));
      LowFirstJoin(x / 2, y, n - 1, k);
    }
  }

  lemma HalfOfJoin(x: nat, y: nat, p: nat)
    ensures (x + y * (2 * p)) % 2 == x % 2 && (x + y * (2 * p)) / 2 == x / 2 + y * p
  {
    assert x + y * (2 * p) == x + 2 * (y * p);
  }

  lemma HalfOfRest(x: nat, p: nat)
    requires p > 0
    ensures 2 * p > 0 && x % (2 * p) % 2 == x % 2 && x % (2 * p) / 2 == x / 2 % p
  {
    LowHalf(x, p);
  }

  lemma {:induction false} LowFirstOfRest(x: nat, k: nat)
    ensures LowFirst(x % Pow2(k), k) == LowFirst(x, k)
    decreases k
  {
    if k > 0 {
      HalfOfRest(x, Pow2(k - 1));
      LowFirstOfRest(x / 2, k - 1);
    }
  }

  lemma {:induction false} LowFirstSplit(x: nat, n: nat, k: nat)
    ensures LowFirst(x, n + k) == LowFirst(x, n) + LowFirst(Shr(x, n), k)
    decreases n
  {
    if n > 0 {
      LowFirstSplit(x / 2, n - 1, k);
      ShrHalf(x, n - 1);
    }
  }

  lemma BelowQuotient(x: nat, n: nat)
    requires n >= 8 && x < Pow2(n)
    ensures x / 256 < Pow2(n - 8)
  {
    Pow2Add(8, n - 8);
    SmallPowers();
  }

  lemma JoinBelow(x: nat, y: nat, n: nat, k: nat)
    requires x < Pow2(n) && y < Pow2(k)
    ensures x + y * Pow2(n) < Pow2(n + k)
  {
    Pow2Add(n, k);
    NextMultiple(y, Pow2(k), Pow2(n));
  }

  // ---------------------------------------------------------------- how many bytes are written

  /** At most so many 64ths of a byte for n literals, and for a match of length len. */
  function LiteralCost(n: nat): nat { 65 * n + 576 }
  function MatchCost(len: nat): nat { 5 * len + 960 }

  /** At most so many 64ths of a byte for one step of the scan. */
  function StepCost(lookahead: nat): nat { LiteralCost(MAX_LITERAL + lookahead) + MatchCost(MAX_MATCH + lookahead) }

  const SAFE_LOOKAHEAD := 128

  lemma StepFits(lookahead: nat)
    ensures StepCost(lookahead) >= LiteralCost(MAX_LITERAL)
    ensures lookahead <= SAFE_LOOKAHEAD ==> 64 * (BUFSIZE / 2) + StepCost(lookahead) + 64 < 64 * (BUFSIZE - 5)
  {
  }

  lemma LgAtMost(x: nat, k: nat)
    requires x < Pow2(k)
    ensures Lg(x) <= k
  {
    if x > 0 {
      CountBitBounds(x);
      if Lg(x) > k {
        Pow2Monotone(k, Lg(x) - 1);
      }
    }
  }

  lemma LiteralBitsSize(rb: nat, b: seq<byte>, n: nat)
    requires b != [] && |b| <= n && rb <= 8 && n + Pow2(rb) <= Pow2(24 + rb)
    ensures 8 * (|Code1(rb, Literals(b))| + 7) <= LiteralCost(|b|)
  {
    TopOfGamma(|b|);
    Pow2Monotone(24 + rb, 32);
    LgAtMost(|b|, 32);
  }

  lemma MatchBitsSize(rb: nat, len: nat, off: nat, n: nat)
    requires Fits1(rb, Match(len, off)) && len <= n && rb <= 8 && n + Pow2(rb) <= Pow2(24 + rb)
    ensures 8 * (|Code1(rb, Match(len, off))| + 7) <= MatchCost(len)
  {
    TopOfGamma(len / 4);
    Pow2Monotone(24 + rb, 32);
    LgAtMost(len / 4, 32);
  }

  lemma {:induction false} LiteralBytesSize(b: seq<byte>)
    ensures 64 * |LitBytes(b)| <= 65 * |b| + 63
    decreases |b|
  {
    if b != [] {
      LiteralBytesSize(b[if |b| > 64 then 64 else |b|..]);
    }
  }

  lemma {:induction false} MatchBytesSize(m: nat, len: nat, off: nat)
    requires Splits(m, len) && 1 <= off <= TWO32
    ensures 64 * |MatchBytes(m, len, off)| <= if len == 0 then 0 else if len <= m + 63 then 320 else 5 * len + 640
    decreases len
  {
    if len > 0 {
      MatchBytesSize(m, len - FirstPiece(m, len), off);
    }
  }

  // ---------------------------------------------------------------- the encoder

  class LzBuffer {
    const src: seq<byte>
    const level: nat
    const rb: nat
    const st: Settings
    var i: nat
    var bits: nat
    var nbits: nat
    /** Everything given out so far. */
    var out: seq<byte>
    /** The tokens that have been coded. */
    ghost var ts: seq<Token>
    /** Where the scan has stood. */
    ghost var path: seq<Stop>

    /** The level, the shortest match and the block size go together. */
    ghost predicate Settled() {
      && (level == 1 || level == 2) && SearchOk(st, |src|)
      && (level == 1 ==> st.minMatch >= 4 && rb <= 8 && |src| + Pow2(rb) <= Pow2(24 + rb))
      && (level == 2 ==> st.minMatch <= 64 && |src| <= TWO32)
    }

    constructor (src: seq<byte>, level: nat, rb: nat, st: Settings)
      requires (level == 1 || level == 2) && SearchOk(st, |src|)
      requires level == 1 ==> st.minMatch >= 4 && rb <= 8 && |src| + Pow2(rb) <= Pow2(24 + rb)
      requires level == 2 ==> st.minMatch <= 64 && |src| <= TWO32
      ensures Valid() && i == 0 && out == [] && ts == [] && At(0)
      ensures this.src == src && this.level == level && this.rb == rb && this.st == st
    {
      this.src, this.level, this.rb, this.st := src, level, rb, st;
      i, bits, nbits, out, ts, path := 0, 0, 0, [], [], [BEGIN];
    }

    /** All bits written, the ones not yet in a byte included. */
    ghost function Stream(): seq<bit>
      reads this`out, this`bits, this`nbits
    {
      BytesAsBits(out) + LowFirst(bits, nbits)
    }

    ghost predicate Packed()
      reads this`bits, this`nbits
    {
      nbits <= 7 && bits < Pow2(nbits)
    }

    /** What has been written is the code of ts. */
    ghost predicate Written()
      reads this`out, this`bits, this`nbits, this`ts
    {
      && Settled()
      && (level == 2 ==> AllFit2(st.minMatch, ts) && out == Codes2(st.minMatch, ts) && nbits == 0 && bits == 0)
      && (level == 1 ==> AllFit1(rb, ts) && Packed() && Stream() == Codes1(rb, ts))
    }

    /** The tokens tell the input up to their end, and they are written, into which proofs look only when asked to. */
    ghost predicate Valid()
      reads this`out, this`bits, this`nbits, this`ts
    {
      && Settled() && Parses(src, 0, ts) && End(0, ts) <= |src|
      && forall q: nat {:trigger Asked(q)} :: Asked(q) ==> Written()
    }

    /** The scan has come to i, with lit literals pending. */
    ghost predicate At(lit: nat)
      requires st.minMatch >= 1
      reads this`i, this`ts, this`path
    {
      Scanned(src, level, st, path) && path[|path| - 1] == Stop(i, lit, ts)
    }

    method PutBits(x: nat, k: nat)
      requires Packed()
      modifies this`out, this`bits, this`nbits
      ensures Packed() && Stream() == old(Stream()) + LowFirst(x, k)
    {
      var low := x % Pow2(k);
      LowFirstJoin(bits, low, nbits, k);
      LowFirstOfRest(x, k);
      JoinBelow(bits, low, nbits, k);
      Grouped(BytesAsBits(out), LowFirst(bits, nbits), LowFirst(low, k));
      bits := bits + Shl(low, nbits);
      nbits := nbits + k;
      while nbits > 7
        invariant bits < Pow2(nbits) && Stream() == old(Stream()) + LowFirst(x, k)
      {
        BelowQuotient(bits, nbits);
        PutByteOfBits();
      }
    }

    /** Moves eight bits into a byte. */
    method PutByteOfBits()
      requires nbits >= 8
      modifies this`out, this`bits, this`nbits
      ensures Stream() == old(Stream()) && bits == old(bits) / 256 && nbits == old(nbits) - 8
    {
      LowFirstSplit(bits, 8, nbits - 8);
      ShrIsDiv(bits, 8);
      SmallPowers();
      LowFirstOfRest(bits, 8);
      BytesAsBitsOneMore(out, bits % 256);
      Grouped(BytesAsBits(out), LowFirst(bits % 256, 8), LowFirst(bits / 256, nbits - 8));
      out := out + [bits % 256];
      bits := bits / 256;
      nbits := nbits - 8;
    }

    /** The bits of x below its top k, each behind a 1, and a 0. */
    method PutGamma(x: nat, k: nat)
      requires Packed()
      modifies this`out, this`bits, this`nbits
      ensures Packed() && Stream() == old(Stream()) + Gamma(x, k)
    {
      ghost var before := Stream();
      var left := k;
      while left > 0
        invariant 0 <= left <= k && Packed() && Stream() + Gamma(x, left) == before + Gamma(x, k)
      {
        ghost var now := Stream();
        left := left - 1;
        PutBits(1, 1);
        PutBits(BitAt(x, left), 1);
        GammaPut(now, x, left);
      }
      PutBits(0, 1);
      assert LowFirst(0, 1) == [0];
    }

    static lemma GammaPut(now: seq<bit>, x: nat, k: nat)
      ensures now + LowFirst(1, 1) + LowFirst(BitAt(x, k), 1) + Gamma(x, k) == now + Gamma(x, k + 1)
    {
      assert LowFirst(1, 1) == [1] && LowFirst(BitAt(x, k), 1) == [BitAt(x, k)];
    }

    method PutBytes(b: seq<byte>)
      requires Packed()
      modifies this`out, this`bits, this`nbits
      ensures Packed() && Stream() == old(Stream()) + BytesAsBits(b)
    {
      var j := 0;
      assert b[0..] == b;
      while j < |b|
        invariant 0 <= j <= |b| && Packed() && Stream() + BytesAsBits(b[j..]) == old(Stream()) + BytesAsBits(b)
      {
        assert b[j..][1..] == b[j + 1..];
        Grouped(Stream(), LowFirst(b[j], 8), BytesAsBits(b[j + 1..]));
        PutBits(b[j], 8);
        j := j + 1;
      }
    }

    /** 00, and how many literals there are. */
    method PutLiteralHead(n: nat, k: nat)
      requires Packed()
      modifies this`out, this`bits, this`nbits
      ensures Packed() && Stream() == old(Stream()) + ([0, 0] + Gamma(n, k))
    {
      ghost var before := Stream();
      PutBits(0, 2);
      assert LowFirst(0, 2) == [0, 0] by { assert LowFirst(0, 1) == [0]; }
      PutGamma(n, k);
      Grouped(before, [0, 0], Gamma(n, k));
    }

    /** Literals in the code of level 1. */
    method PutLiteralBits(b: seq<byte>)
      requires Packed() && b != []
      modifies this`out, this`bits, this`nbits
      ensures Packed() && Stream() == old(Stream()) + Code1(rb, Literals(b))
    {
      TopOfGamma(|b|);
      var k := Lg(|b|) - 1;
      LiteralCode(Stream(), rb, b, k);
      PutLiteralHead(|b|, k);
      PutBytes(b);
    }

    static lemma LiteralCode(before: seq<bit>, rb: nat, b: seq<byte>, k: nat)
      requires b != [] && k == Lg(|b|) - 1
      ensures before + ([0, 0] + Gamma(|b|, k)) + BytesAsBits(b) == before + Code1(rb, Literals(b))
    {
      Grouped(before, [0, 0] + Gamma(|b|, k), BytesAsBits(b));
      Grouped([0, 0], Gamma(|b|, k), BytesAsBits(b));
    }

    method PutMatchHead(lo: nat, x: nat, k: nat)
      requires Packed()
      modifies this`out, this`bits, this`nbits
      ensures Packed() && Stream() == old(Stream()) + (LowFirst((lo + 8) / 8, 2) + LowFirst(lo % 8, 3) + Gamma(x, k))
    {
      ghost var before, a, b := Stream(), LowFirst((lo + 8) / 8, 2), LowFirst(lo % 8, 3);
      PutBits((lo + 8) / 8, 2);
      PutBits(lo % 8, 3);
      Grouped(before, a, b);
      PutGamma(x, k);
      Grouped(before, a + b, Gamma(x, k));
    }

    method PutLenEnd(len: nat, shifted: nat, lo: nat)
      requires Packed()
      modifies this`out, this`bits, this`nbits
      ensures Packed()
      ensures Stream() == old(Stream())
                + (LowFirst(len % 4, 2) + (LowFirst(shifted, rb) + LowFirst(Shr(shifted, rb), lo)))
    {
      ghost var before, a, b, c := Stream(), LowFirst(len % 4, 2), LowFirst(shifted, rb), LowFirst(Shr(shifted, rb), lo);
      PutBits(len % 4, 2);
      PutBits(shifted, rb);
      PutBits(Shr(shifted, rb), lo);
      Grouped(before + a, b, c);
      Grouped(before, a, b + c);
    }

    /** A match in the code of level 1. */
    method PutMatchBits(len: nat, off: nat)
      requires Packed() && Fits1(rb, Match(len, off))
      modifies this`out, this`bits, this`nbits
      ensures Packed() && Stream() == old(Stream()) + Code1(rb, Match(len, off))
    {
      ghost var t, before := Match(len, off), Stream();
      var shifted := off + Pow2(rb) - 1;
      var lo: nat := Lg(shifted) - 1 - rb;
      TopOfGamma(len / 4);
      var k := Lg(len / 4) - 1;
      ghost var h, g := LowFirst((lo + 8) / 8, 2) + LowFirst(lo % 8, 3), Gamma(len / 4, k);
      PutMatchHead(lo, len / 4, k);
      PutLenEnd(len, shifted, lo);
      ThreeParts(before, h, g, LenEnd(t, rb), Code1(rb, t));
    }

    static lemma ThreeParts(before: seq<bit>, a: seq<bit>, b: seq<bit>, c: seq<bit>, all: seq<bit>)
      requires all == a + (b + c)
      ensures before + (a + b) + c == before + all
    {
    }

    /** Literals in the code of level 2, in runs of at most 64. */
    method PutLiteralBytes(b: seq<byte>)
      modifies this`out
      ensures out == old(out) + LitBytes(b)
    {
      var rest := b;
      while rest != []
        invariant out + LitBytes(rest) == old(out) + LitBytes(b)
        decreases |rest|
      {
        var k := if |rest| > 64 then 64 else |rest|;
        Grouped(out, [k - 1] + rest[..k], LitBytes(rest[k..]));
        assert out + [k - 1] + rest[..k] == out + ([k - 1] + rest[..k]);
        out := out + [k - 1] + rest[..k];
        rest := rest[k..];
      }
    }

    /** A match in the code of level 2, in pieces. */
    method PutMatchBytes(len: nat, off: nat)
      requires Splits(st.minMatch, len) && 1 <= off <= TWO32
      modifies this`out
      ensures out == old(out) + MatchBytes(st.minMatch, len, off)
    {
      var m, left := st.minMatch, len;
      while left > 0
        invariant Splits(m, left) && out + MatchBytes(m, left, off) == old(out) + MatchBytes(m, len, off)
        decreases left
      {
        var len1 := if left > m * 2 + 63 then m + 63 else if left > m + 63 then left - m else left;
        Grouped(out, Head(len1 - m, off - 1), MatchBytes(m, left - len1, off));
        out := out + Head(len1 - m, off - 1);
        left := left - len1;
      }
    }

    // -------------------------------------------------------------- tokens

    static lemma {:induction false} Codes1OneMore(rb: nat, ts: seq<Token>, t: Token)
      requires AllFit1(rb, ts) && Fits1(rb, t)
      ensures AllFit1(rb, ts + [t]) && Codes1(rb, ts + [t]) == Codes1(rb, ts) + Code1(rb, t)
      decreases |ts|
    {
      if ts == [] {
        assert [t][1..] == [];
        assert Codes1(rb, []) == [];
      } else {
        var all := ts + [t];
        assert all[0] == ts[0] && all[1..] == ts[1..] + [t];
        Codes1OneMore(rb, ts[1..], t);
        Grouped(Code1(rb, ts[0]), Codes1(rb, ts[1..]), Code1(rb, t));
      }
    }

    static lemma LiteralsTell(src: seq<byte>, pos: nat, b: seq<byte>, end: nat)
      requires pos < end <= |src| && b == src[pos..end]
      ensures Tells(src, pos, Literals(b)) && |b| == end - pos
    {
    }

    static lemma LiteralsTold(src: seq<byte>, ts: seq<Token>, b: seq<byte>, end: nat, lit: nat)
      requires Parses(src, 0, ts) && End(0, ts) + lit == end <= |src| && lit > 0 && b == src[end - lit..end]
      ensures b != [] && |b| == lit <= |src|
      ensures Parses(src, 0, ts + [Literals(b)]) && End(0, ts + [Literals(b)]) == end
    {
      LiteralsTell(src, end - lit, b, end);
      ParsesOneMore(src, 0, ts, Literals(b));
    }

    /** Writes the lit literals in front of end, if there are any. */
    method WriteLiteral(end: nat, lit: nat)
      requires Valid() && End(0, ts) + lit == end <= |src|
      modifies this`out, this`bits, this`nbits, this`ts
      ensures Valid() && End(0, ts) == end && (lit == 0 ==> out == old(out))
      ensures ts == old(ts) + Pending(src, end - lit, end)
      ensures 0 <= 64 * (|out| - |old(out)|) <= LiteralCost(lit)
    {
      if lit > 0 {
        var b := src[end - lit..end];
        LiteralsTold(src, ts, b, end, lit);
        WriteLiterals(b);
      }
    }

    method WriteLiterals(b: seq<byte>)
      requires Valid() && b != [] && |b| <= |src|
      requires Parses(src, 0, ts + [Literals(b)]) && End(0, ts + [Literals(b)]) <= |src|
      modifies this`out, this`bits, this`nbits, this`ts
      ensures Valid() && ts == old(ts) + [Literals(b)]
      ensures 0 <= 64 * (|out| - |old(out)|) <= LiteralCost(|b|)
    {
      assert Asked(0);
      if level == 1 {
        WriteLiteralBits(b);
      } else {
        WriteLiteralBytes(b);
      }
      ts := ts + [Literals(b)];
    }

    method WriteLiteralBits(b: seq<byte>)
      requires Written() && level == 1 && b != [] && |b| <= |src|
      modifies this`out, this`bits, this`nbits
      ensures AllFit1(rb, ts + [Literals(b)]) && Packed() && Stream() == Codes1(rb, ts + [Literals(b)])
      ensures 0 <= 64 * (|out| - |old(out)|) <= LiteralCost(|b|)
    {
      Codes1OneMore(rb, ts, Literals(b));
      LiteralBitsSize(rb, b, |src|);
      PutLiteralBits(b);
    }

    method WriteLiteralBytes(b: seq<byte>)
      requires Written() && level == 2 && b != []
      modifies this`out
      ensures AllFit2(st.minMatch, ts + [Literals(b)]) && out == Codes2(st.minMatch, ts + [Literals(b)])
      ensures 0 <= 64 * (|out| - |old(out)|) <= LiteralCost(|b|)
    {
      Codes2OneMore(st.minMatch, ts, Literals(b));
      LiteralBytesSize(b);
      PutLiteralBytes(b);
    }

    static lemma MatchTold(src: seq<byte>, ts: seq<Token>, len: nat, off: nat)
      requires Parses(src, 0, ts) && Repeats(src, End(0, ts), off, len) && len > 0
      ensures 1 <= off < |src| && len <= |src|
      ensures
        var ts1 := ts + [Match(len, off)];
        Parses(src, 0, ts1) && End(0, ts1) == End(0, ts) + len <= |src|
    {
      ParsesOneMore(src, 0, ts, Match(len, off));
    }

    method WriteMatch(len: nat, off: nat)
      requires Valid() && len >= st.minMatch && Repeats(src, End(0, ts), off, len)
      modifies this`out, this`bits, this`nbits, this`ts
      ensures Valid() && End(0, ts) == old(End(0, ts)) + len && ts == old(ts) + [Match(len, off)]
      ensures 0 <= 64 * (|out| - |old(out)|) <= MatchCost(len)
    {
      MatchTold(src, ts, len, off);
      assert Asked(0);
      if level == 1 {
        MatchFits(len, off, rb, |src|);
        WriteMatchBits(len, off);
      } else {
        WriteMatchBytes(len, off);
      }
      ts := ts + [Match(len, off)];
    }

    method WriteMatchBytes(len: nat, off: nat)
      requires 1 <= st.minMatch <= 64 && len >= st.minMatch && 1 <= off <= TWO32
      requires AllFit2(st.minMatch, ts) && out == Codes2(st.minMatch, ts)
      modifies this`out
      ensures AllFit2(st.minMatch, ts + [Match(len, off)]) && out == Codes2(st.minMatch, ts + [Match(len, off)])
      ensures 0 <= 64 * (|out| - |old(out)|) <= MatchCost(len)
    {
      Codes2OneMore(st.minMatch, ts, Match(len, off));
      MatchBytesSize(st.minMatch, len, off);
      PutMatchBytes(len, off);
    }

    method WriteMatchBits(len: nat, off: nat)
      requires Packed() && AllFit1(rb, ts) && Stream() == Codes1(rb, ts)
      requires Fits1(rb, Match(len, off)) && len <= |src| && rb <= 8 && |src| + Pow2(rb) <= Pow2(24 + rb)
      modifies this`out, this`bits, this`nbits
      ensures AllFit1(rb, ts + [Match(len, off)]) && Packed()
      ensures Stream() == Codes1(rb, ts + [Match(len, off)])
      ensures 0 <= 64 * (|out| - |old(out)|) <= MatchCost(len)
    {
      ghost var t, o, n := Match(len, off), |out|, nbits;
      Codes1OneMore(rb, ts, t);
      MatchBitsSize(rb, len, off, |src|);
      PutMatchBits(len, off);
      WholeBytes(o, n, |out|, nbits, |Code1(rb, t)|, MatchCost(len));
    }

    /** How many whole bytes c more bits make. */
    static lemma WholeBytes(o: nat, n: nat, o1: nat, n1: nat, c: nat, cost: nat)
      requires 8 * o1 + n1 == 8 * o + n + c && n <= 7 && n1 <= 7 && 8 * (c + 7) <= cost
      ensures 0 <= 64 * (o1 - o) <= cost
    {
    }

    static lemma MatchFits(len: nat, off: nat, rb: nat, n: nat)
      requires len >= 4 && 1 <= off < n && n + Pow2(rb) <= Pow2(24 + rb)
      ensures Fits1(rb, Match(len, off))
    {
      OffsetFits(off, rb, n);
    }

    /** The block size keeps the offset in 23 bits and its leading one. */
    static lemma OffsetFits(off: nat, rb: nat, n: nat)
      requires 1 <= off < n && n + Pow2(rb) <= Pow2(24 + rb)
      ensures 0 <= OffsetBits(off, rb) <= 23
    {
      var x := Shifted(off, rb);
      CountBitBounds(x);
      if CountBit(x) <= rb {
        Pow2Monotone(CountBit(x), rb);
      } else if CountBit(x) > 24 + rb {
        Pow2Monotone(24 + rb, CountBit(x) - 1);
      }
    }

    /** Pads the last byte. */
    method Flush()
      requires Packed()
      modifies this`out, this`bits, this`nbits
      ensures nbits == 0 && bits == 0
      ensures old(nbits) == 0 ==> out == old(out)
      ensures |old(out)| <= |out| <= |old(out)| + 1
      ensures exists pad: seq<bit> :: |pad| <= 7 && BytesAsBits(out) == old(Stream()) + pad
    {
      if nbits > 0 {
        Pow2Monotone(nbits, 7);
        SmallPowers();
        ghost var pad := LowFirst(0, 8 - nbits);
        LowFirstJoin(bits, 0, nbits, 8 - nbits);
        BytesAsBitsOneMore(out, bits);
        Grouped(BytesAsBits(out), LowFirst(bits, nbits), pad);
        assert BytesAsBits(out + [bits]) == Stream() + pad;
        out := out + [bits];
      } else {
        assert BytesAsBits(out) == Stream() + [];
      }
      bits, nbits := 0, 0;
    }

    // -------------------------------------------------------------- filling the buffer

    /** Writes a match behind the literals in front of it. */
    method WriteBoth(at: nat, lit: nat, len: nat, off: nat)
      requires Valid() && End(0, ts) + lit == at && Repeats(src, at, off, len) && len >= st.minMatch
      modifies this`out, this`bits, this`nbits, this`ts
      ensures Valid() && End(0, ts) == at + len && ts == old(ts) + WithMatch(src, at, lit, len, off)
      ensures 0 <= 64 * (|out| - |old(out)|) <= LiteralCost(lit) + MatchCost(len)
    {
      Grouped(ts, Pending(src, at - lit, at), [Match(len, off)]);
      WriteLiteral(at, lit);
      WriteMatch(len, off);
    }

    /** A match that is worth it is long enough, and true. */
    static lemma WorthStands(src: seq<byte>, level: nat, st: Settings, i: nat, lit0: nat, best: Best)
      requires st.minMatch >= 1 && i < |src| && lit0 < MAX_LITERAL
      requires BestOk(src, i, st.lookahead, best) && Worth(level, st, best, i - best.p)
      ensures best.lit < best.len && st.minMatch <= best.len - best.lit && i + best.len <= |src|
      ensures Repeats(src, i + best.lit, i - best.p, best.len - best.lit)
      ensures LiteralCost(lit0 + best.lit) + MatchCost(best.len - best.lit) <= StepCost(st.lookahead)
    {
    }

    /** One step of the scan with a literal; many are written. */
    method PassBy(lit0: nat) returns (lit: nat)
      requires Valid() && i < |src| && End(0, ts) + lit0 == i && lit0 < MAX_LITERAL
      modifies this`i, this`out, this`bits, this`nbits, this`ts
      ensures Valid() && i == old(i) + 1 && End(0, ts) + lit == i && lit < MAX_LITERAL && (out == old(out) || lit == 0)
      ensures Stop(i, lit, ts) == (if lit0 + 1 < MAX_LITERAL then Stop(old(i) + 1, lit0 + 1, old(ts))
                                   else Stop(old(i) + 1, 0, old(ts) + Pending(src, old(i) - lit0, old(i) + 1)))
      ensures 0 <= 64 * (|out| - |old(out)|) <= StepCost(st.lookahead)
    {
      StepFits(st.lookahead);
      lit := lit0 + 1;
      i := i + 1;
      if lit >= MAX_LITERAL {
        WriteLiteral(i, lit);
        lit := 0;
      }
    }

    /** One step of the scan with a match. */
    method TakeMatch(ahead: nat, lit0: nat, len: nat, off: nat)
      requires Valid() && i < |src| && End(0, ts) + lit0 == i && Repeats(src, i + ahead, off, len) && len >= st.minMatch
      modifies this`i, this`out, this`bits, this`nbits, this`ts
      ensures Valid() && End(0, ts) == i == old(i) + ahead + len <= |src|
      ensures Stop(i, 0, ts) == Stop(old(i) + ahead + len, 0,
                                     old(ts) + WithMatch(src, old(i) + ahead, lit0 + ahead, len, off))
      ensures 0 <= 64 * (|out| - |old(out)|) <= LiteralCost(lit0 + ahead) + MatchCost(len)
    {
      WriteBoth(i + ahead, lit0 + ahead, len, off);
      i := i + ahead + len;
    }

    /** Asks the search, which says where the scan will stand after this step. Without a match worth it len is 0. */
    method Look(lit0: nat) returns (ahead: nat, len: nat, off: nat)
      requires SearchOk(st, |src|) && At(lit0) && i < |src| && lit0 < MAX_LITERAL
      modifies this`path
      ensures Scanned(src, level, st, path)
      ensures len > 0 ==>
                && len >= st.minMatch && Repeats(src, i + ahead, off, len)
                && LiteralCost(lit0 + ahead) + MatchCost(len) <= StepCost(st.lookahead)
                && path[|path| - 1] == Stop(i + ahead + len, 0, ts + WithMatch(src, i + ahead, lit0 + ahead, len, off))
      ensures len == 0 ==>
                path[|path| - 1] == (if lit0 + 1 < MAX_LITERAL then Stop(i + 1, lit0 + 1, ts)
                                     else Stop(i + 1, 0, ts + Pending(src, i - lit0, i + 1)))
    {
      var best := FindMatch(src, i, lit0, st);
      ghost var t := After(src, level, st, Stop(i, lit0, ts), best);
      OneStepMore(src, level, st, path, best, Stop(i, lit0, ts), t);
      path := path + [t];
      ahead, len, off := 0, 0, i - best.p;
      if Worth(level, st, best, off) {
        WorthStands(src, level, st, i, lit0, best);
        ahead, len := best.lit, best.len - best.lit;
      }
    }

    /** One step of the scan: a match with the literals in front of it, or one more literal. */
    method Scan(lit0: nat) returns (lit: nat)
      requires Valid() && At(lit0) && i < |src| && End(0, ts) + lit0 == i && lit0 < MAX_LITERAL
      modifies this
      ensures Valid() && At(lit) && i > old(i) && End(0, ts) + lit == i <= |src| && lit < MAX_LITERAL
      ensures out == old(out) || lit == 0
      ensures 0 <= 64 * (|out| - |old(out)|) <= StepCost(st.lookahead)
    {
      var ahead, len, off := Look(lit0);
      if len > 0 {
        TakeMatch(ahead, lit0, len, off);
        lit := 0;
      } else {
        lit := PassBy(lit0);
      }
    }

    /** The input has been coded to its end. */
    ghost predicate Finished()
      reads this
    {
      && i == |src| && Settled() && Parses(src, 0, ts) && End(0, ts) == |src| && Told()
      && (level == 2 ==> AllFit2(st.minMatch, ts) && out == Codes2(st.minMatch, ts))
      && (level == 1 ==> AllFit1(rb, ts) && exists pad: seq<bit> :: |pad| <= 7 && BytesAsBits(out) == Codes1(rb, ts) + pad)
    }

    /** The tokens are those of the scan, and literals that are pending at the end. */
    ghost predicate Told()
      requires st.minMatch >= 1
      reads this`ts, this`path
    {
      && Scanned(src, level, st, path)
      && var last := path[|path| - 1]; last.i == |src| && ts == last.ts + Pending(src, |src| - last.lit, |src|)
    }

    /** Writes the last byte. */
    method Pad()
      requires Valid() && Told() && End(0, ts) == i == |src|
      modifies this`out, this`bits, this`nbits
      ensures Finished() && |old(out)| <= |out| <= |old(out)| + 1
    {
      assert Asked(0);
      Flush();
    }

    /** Writes pending literals at the end of the input, and the last byte. */
    method EndInput(lit: nat)
      requires Valid() && At(lit) && End(0, ts) + lit == i == |src|
      modifies this`out, this`bits, this`nbits, this`ts
      ensures Finished() && 0 <= 64 * (|out| - |old(out)|) <= LiteralCost(lit) + 64
      ensures lit == 0 ==> |out| <= |old(out)| + 1
    {
      WriteLiteral(|src|, lit);
      Pad();
    }

    /** The loop of the scan, until the buffer is half full or the input at its end. */
    method ScanOn() returns (lit: nat)
      requires Valid() && At(0) && End(0, ts) == i
      modifies this
      ensures Valid() && At(lit) && End(0, ts) + lit == i <= |src| && lit < MAX_LITERAL
      ensures 0 <= 64 * (|out| - |old(out)|) <= 64 * (BUFSIZE / 2) + if lit == 0 then StepCost(st.lookahead) else 0
      ensures i < |src| ==> lit == 0 && (|out| - |old(out)|) * 2 >= BUFSIZE
      ensures i >= old(i) && (old(i) < |src| ==> i > old(i))
    {
      lit := 0;
      var start := |out|;
      while i < |src| && (|out| - start) * 2 < BUFSIZE
        invariant Valid() && At(lit) && End(0, ts) + lit == i <= |src| && lit < MAX_LITERAL
        invariant (|out| - start) * 2 >= BUFSIZE ==> lit == 0
        invariant (i == old(i) && |out| == start) || i > old(i)
        invariant 0 <= 64 * (|out| - start) <= 64 * (BUFSIZE / 2) + if lit == 0 then StepCost(st.lookahead) else 0
        decreases |src| - i
      {
        lit := Scan(lit);
      }
    }

    /**
     Goes on until the buffer is half full or the input is at its end. When it pauses before the end no
     literals are pending: all input up to i has been coded. What has been coded are the matches that the
     search comes to wherever the scan stands, if they are worth it, and literals. With a lookahead that is
     not too long the bytes written always fit the buffer.
     */
    method Fill()
      requires Valid() && At(0) && End(0, ts) == i
      modifies this
      ensures i < |src| ==> Valid() && At(0) && End(0, ts) == i && (|out| - |old(out)|) * 2 >= BUFSIZE
      ensures i == |src| ==> Finished()
      ensures old(i) <= i <= |src| && (old(i) < |src| ==> i > old(i)) && |old(out)| <= |out|
      ensures st.lookahead <= SAFE_LOOKAHEAD ==> |out| - |old(out)| < BUFSIZE - 5
    {
      StepFits(st.lookahead);
      var lit := ScanOn();
      if i == |src| {
        EndInput(lit);
      }
    }
  }

  /** Whatever matches the search comes up with, what the finished buffer holds is decoded to the input. */
  lemma FinishedDecodes(b: LzBuffer)
    requires b.Finished()
    ensures b.level == 2 ==> Leads2(S2(0, 0, 0, []), b.out, b.st.minMatch, b.src)
    ensures b.level == 1 ==>
              var r := Run1(S1(0, 0, 0, 0, [], []), b.out, b.rb);
              r.Some? && r.value.state == 0 && r.value.out == b.src
  {
    if b.level == 2 {
      Level2RoundTrip(b.src, 0, b.ts, b.st.minMatch, S2(0, 0, 0, []));
      assert b.src[..|b.src|] == b.src;
    } else {
      var pad: seq<bit> :| |pad| <= 7 && BytesAsBits(b.out) == Codes1(b.rb, b.ts) + pad;
      Level1RoundTrip(b.src, b.ts, b.rb, b.out, pad);
    }
  }
}
