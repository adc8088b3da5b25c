/** LZ77 on tokens, and the byte-aligned coding of level 2 with the state machine that decodes it. */
module Lz77 {
  import opened Sequences
  import opened Bytes
  import opened Copying

  // ---------------------------------------------------------------- tokens

  datatype Token = Literals(bytes: seq<byte>) | Match(len: nat, off: nat)

  function Size(t: Token): nat { if t.Literals? then |t.bytes| else t.len }

  /** The token says truthfully what comes at pos. */
  ghost predicate Tells(src: seq<byte>, pos: nat, t: Token) {
    if t.Literals? then t.bytes != [] && pos + |t.bytes| <= |src| && src[pos..pos + |t.bytes|] == t.bytes
    else t.len > 0 && Repeats(src, pos, t.off, t.len)
  }

  ghost predicate Parses(src: seq<byte>, pos: nat, ts: seq<Token>)
    decreases |ts|
  {
    ts == [] || (Tells(src, pos, ts[0]) && Parses(src, pos + Size(ts[0]), ts[1..]))
  }

  function End(pos: nat, ts: seq<Token>): nat
    decreases |ts|
  {
    if ts == [] then pos else End(pos + Size(ts[0]), ts[1..])
  }

  lemma {:induction false} ParsesOneMore(src: seq<byte>, pos: nat, ts: seq<Token>, t: Token)
    requires Parses(src, pos, ts) && Tells(src, End(pos, ts), t)
    ensures Parses(src, pos, ts + [t]) && End(pos, ts + [t]) == End(pos, ts) + Size(t)
    decreases |ts|
  {
    if ts == [] {
      assert [t][1..] == [];
    } else {
      assert (ts + [t])[0] == ts[0] && (ts + [t])[1..] == ts[1..] + [t];
      ParsesOneMore(src, pos + Size(ts[0]), ts[1..], t);
    }
  }

  /** The token can be carried out behind out. */
  predicate Applies(out: seq<byte>, t: Token) { t.Literals? || 1 <= t.off <= |out| }

  function Apply(out: seq<byte>, t: Token): seq<byte>
    requires Applies(out, t)
  {
    if t.Literals? then out + t.bytes else CopyBack(out, t.off, t.len)
  }

  lemma TellsApplies(src: seq<byte>, pos: nat, t: Token)
    requires pos <= |src| && Tells(src, pos, t)
    ensures pos + Size(t) <= |src| && Applies(src[..pos], t) && Apply(src[..pos], t) == src[..pos + Size(t)]
  {
    if t.Literals? {
      assert src[..pos] + src[pos..pos + |t.bytes|] == src[..pos + |t.bytes|];
    } else {
      CopyBackOfRepeat(src, pos, t.off, t.len);
    }
  }

  // ---------------------------------------------------------------- level 2: whole bytes

  /** How much of a match of length len goes into its first code. */
  function FirstPiece(m: nat, len: nat): nat {
    if len > m * 2 + 63 then m + 63 else if len > m + 63 then len - m else len
  }

  /** The code byte and the offset, in as many bytes as it needs. */
  function Head(x: nat, o: nat): seq<byte>
    requires x < 64 && o < TWO32
  {
    if o < 0x1_0000 then [64 + x, o / 256, o % 256]
    else if o < TWO24 then [128 + x, o / 256 / 256, o / 256 % 256, o % 256]
    else [192 + x, o / 256 / 256 / 256, o / 256 / 256 % 256, o / 256 % 256, o % 256]
  }

  predicate Splits(m: nat, len: nat) { 1 <= m <= 64 && (len == 0 || len >= m) }

  function MatchBytes(m: nat, len: nat, off: nat): seq<byte>
    requires Splits(m, len) && 1 <= off <= TWO32
    decreases len
  {
    if len == 0 then []
    else Head(FirstPiece(m, len) - m, off - 1) + MatchBytes(m, len - FirstPiece(m, len), off)
  }

  function LitBytes(b: seq<byte>): seq<byte>
    decreases |b|
  {
    if b == [] then []
    else
      var k := if |b| > 64 then 64 else |b|;
      [k - 1] + b[..k] + LitBytes(b[k..])
  }

  /** The lengths and offsets level 2 can code. */
  predicate Fits2(m: nat, t: Token) { t.Match? ==> t.len >= m && 1 <= t.off <= TWO32 }

  function Code2(m: nat, t: Token): seq<byte>
    requires 1 <= m <= 64 && Fits2(m, t)
  {
    if t.Literals? then LitBytes(t.bytes) else MatchBytes(m, t.len, t.off)
  }

  ghost predicate AllFit2(m: nat, ts: seq<Token>) { forall t :: t in ts ==> Fits2(m, t) }

  ghost function Codes2(m: nat, ts: seq<Token>): seq<byte>
    requires 1 <= m <= 64 && AllFit2(m, ts)
    decreases |ts|
  {
    if ts == [] then [] else Code2(m, ts[0]) + Codes2(m, ts[1..])
  }

  lemma {:induction false} Codes2OneMore(m: nat, ts: seq<Token>, t: Token)
    requires 1 <= m <= 64 && AllFit2(m, ts) && Fits2(m, t)
    ensures AllFit2(m, ts + [t]) && Codes2(m, ts + [t]) == Codes2(m, ts) + Code2(m, t)
    decreases |ts|
  {
    if ts == [] {
      assert [t][1..] == [];
      assert Codes2(m, []) == [];
    } else {
      var all := ts + [t];
      assert all[0] == ts[0] && all[1..] == ts[1..] + [t];
      Codes2OneMore(m, ts[1..], t);
      Grouped(Code2(m, ts[0]), Codes2(m, ts[1..]), Code2(m, t));
    }
  }

  // ---------------------------------------------------------------- the decoder of level 2

  /** Expecting a code (0), literals (1), the last byte of an offset (2), or an earlier one (more). */
  datatype S2 = S2(d: nat, r1: nat, r2: nat, out: seq<byte>)

  /** None where the machine would copy from in front of the output. */
  datatype Option<T> = None | Some(value: T)

  function Next2(s: S2, c: byte, m: nat): Option<S2> {
    if s.d == 0 then
      if c / 64 == 0 then Some(S2(1, 1 + c, 0, s.out)) else Some(S2(c / 64 + 2, c % 64 + m, 0, s.out))
    else if s.d == 1 then
      Some(S2(if s.r1 == 1 then 0 else 1, if s.r1 == 0 then TWO32 - 1 else s.r1 - 1, s.r2, s.out + [c]))
    else if s.d > 2 then
      Some(s.(d := s.d - 1, r2 := s.r2 * 256 % TWO32 + c))
    else
      var off := s.r2 * 256 % TWO32 + c + 1;
      if off > |s.out| then None else Some(S2(0, s.r1, s.r2, CopyBack(s.out, off, s.r1)))
  }

  function Run2(s: S2, input: seq<byte>, m: nat): Option<S2>
    decreases |input|
  {
    if input == [] then Some(s)
    else
      match Next2(s, input[0], m)
      case None => None
      case Some(s1) => Run2(s1, input[1..], m)
  }

  lemma {:induction false} Run2Append(s: S2, a: seq<byte>, b: seq<byte>, m: nat)
    ensures Run2(s, a + b, m) == match Run2(s, a, m) case None => None case Some(s1) => Run2(s1, b, m)
    decreases |a|
  {
    if a == [] {
      assert a + b == b;
    } else {
      assert (a + b)[0] == a[0] && (a + b)[1..] == a[1..] + b;
      match Next2(s, a[0], m)
      case None =>
      case Some(s1) => Run2Append(s1, a[1..], b, m);
    }
  }

  /** From expecting a code to expecting the next, with out in between. */
  ghost predicate Leads2(s: S2, input: seq<byte>, m: nat, out: seq<byte>) {
    s.d == 0 && Run2(s, input, m).Some? && Run2(s, input, m).value.d == 0 && Run2(s, input, m).value.out == out
  }

  lemma Leads2Join(s: S2, a: seq<byte>, b: seq<byte>, m: nat, out: seq<byte>)
    requires s.d == 0 && Run2(s, a, m).Some? && Leads2(Run2(s, a, m).value, b, m, out)
    ensures Leads2(s, a + b, m, out)
  {
    Run2Append(s, a, b, m);
  }

  lemma {:induction false} LiteralsRun(r2: nat, out: seq<byte>, b: seq<byte>, m: nat)
    requires b != []
    ensures Run2(S2(1, |b|, r2, out), b, m) == Some(S2(0, 0, r2, out + b))
    decreases |b|
  {
    var s1 := Next2(S2(1, |b|, r2, out), b[0], m).value;
    if |b| > 1 {
      LiteralsRun(r2, out + [b[0]], b[1..], m);
      assert out + [b[0]] + b[1..] == out + b;
    } else {
      assert b[1..] == [] && out + [b[0]] == out + b;
    }
  }

  lemma {:induction false} LitBytesRun(s: S2, b: seq<byte>, m: nat)
    requires s.d == 0
    ensures Leads2(s, LitBytes(b), m, s.out + b)
    decreases |b|
  {
    if b == [] {
      assert s.out + b == s.out;
    } else {
      var k := if |b| > 64 then 64 else |b|;
      var piece := b[..k];
      var s1 := Next2(s, k - 1, m).value;
      LiteralsRun(0, s.out, piece, m);
      var s2 := S2(0, 0, 0, s.out + piece);
      assert ([k - 1] + piece)[1..] == piece;
      assert Run2(s, [k - 1] + piece, m) == Some(s2);
      LitBytesRun(s2, b[k..], m);
      assert s.out + piece + b[k..] == s.out + b;
      Leads2Join(s, [k - 1] + piece, LitBytes(b[k..]), m, s.out + b);
    }
  }

  /** One byte after the other. */
  lemma RunFirst(s: S2, c: byte, rest: seq<byte>, m: nat)
    ensures Run2(s, [c] + rest, m) == match Next2(s, c, m) case None => None case Some(s1) => Run2(s1, rest, m)
  {
    assert ([c] + rest)[1..] == rest;
  }

  lemma OffsetByte(s: S2, c: byte, rest: seq<byte>, m: nat)
    requires s.d > 2 && s.r2 < TWO24
    ensures Run2(s, [c] + rest, m) == Run2(S2(s.d - 1, s.r1, s.r2 * 256 + c, s.out), rest, m)
  {
    RunFirst(s, c, rest, m);
  }

  lemma LastOffsetByte(s: S2, c: byte, m: nat)
    requires s.d == 2 && s.r2 < TWO24 && s.r2 * 256 + c + 1 <= |s.out|
    ensures Run2(s, [c], m) == Some(S2(0, s.r1, s.r2, CopyBack(s.out, s.r2 * 256 + c + 1, s.r1)))
  {
    RunFirst(s, c, [], m);
    assert [c] + [] == [c];
  }

  /** The number that the bytes b make up behind x. */
  function Extended(x: nat, b: seq<byte>): nat
    decreases |b|
  {
    if b == [] then x else Extended(x * 256 + b[0], b[1..])
  }

  lemma {:induction false} ExtendedGrows(x: nat, b: seq<byte>)
    ensures Extended(x, b) >= x
    decreases |b|
  {
    if b != [] {
      ExtendedGrows(x * 256 + b[0], b[1..]);
    }
  }

  /** The offset comes together byte by byte. */
  lemma {:induction false} OffsetRun(r1: nat, r2: nat, out: seq<byte>, b: seq<byte>, m: nat)
    requires b != [] && Extended(r2, b) < |out| && Extended(r2, b) < TWO32
    ensures
      var r := Run2(S2(|b| + 1, r1, r2, out), b, m);
      r.Some? && r.value.d == 0 && r.value.out == CopyBack(out, Extended(r2, b) + 1, r1)
    decreases |b|
  {
    var rest := b[1..];
    assert b == [b[0]] + rest;
    ExtendedGrows(r2 * 256 + b[0], rest);
    if rest == [] {
      LastOffsetByte(S2(2, r1, r2, out), b[0], m);
    } else {
      OffsetByte(S2(|b| + 1, r1, r2, out), b[0], rest, m);
      OffsetRun(r1, r2 * 256 + b[0], out, rest, m);
    }
  }

  /** The code byte tells the length, and how many offset bytes follow. */
  lemma HeadRun(s: S2, x: nat, o: nat, m: nat)
    requires s.d == 0 && x < 64 && o < TWO32 && o < |s.out|
    ensures Leads2(s, Head(x, o), m, CopyBack(s.out, o + 1, x + m))
  {
    var h := Head(x, o);
    var b := h[1..];
    assert h == [h[0]] + b;
    RunFirst(s, h[0], b, m);
    OffsetDigits(x, o);
    OffsetRun(x + m, 0, s.out, b, m);
  }

  lemma OffsetDigits(x: nat, o: nat)
    requires x < 64 && o < TWO32
    ensures Extended(0, Head(x, o)[1..]) == o
  {
    if o < 0x1_0000 {
      ExtendedTwo(0, o / 256, o % 256);
    } else if o < TWO24 {
      ExtendedThree(0, o / 256 / 256, o / 256 % 256, o % 256);
    } else {
      ExtendedThree(o / 256 / 256 / 256, o / 256 / 256 % 256, o / 256 % 256, o % 256);
      var h := Head(x, o);
      assert h[1..][1..] == [h[2], h[3], h[4]];
    }
  }

  lemma ExtendedTwo(x: nat, a: byte, b: byte)
    ensures Extended(x, [a, b]) == (x * 256 + a) * 256 + b
  {
    assert [a, b][1..] == [b];
    assert Extended(x * 256 + a, [b]) == (x * 256 + a) * 256 + b;
  }

  lemma ExtendedThree(x: nat, a: byte, b: byte, c: byte)
    ensures Extended(x, [a, b, c]) == ((x * 256 + a) * 256 + b) * 256 + c
  {
    assert [a, b, c][1..] == [b, c];
    ExtendedTwo(x * 256 + a, b, c);
  }

  lemma {:induction false} CopyTwice(out: seq<byte>, off: nat, a: nat, b: nat)
    requires 1 <= off <= |out|
    ensures CopyBack(CopyBack(out, off, a), off, b) == CopyBack(out, off, a + b)
    decreases a
  {
    if a > 0 {
      CopyTwice(out + [out[|out| - off]], off, a - 1, b);
    }
  }

  /** A match split into pieces copies what the whole match copies. */
  lemma {:induction false} MatchRun(s: S2, m: nat, len: nat, off: nat)
    requires s.d == 0 && Splits(m, len) && 1 <= off <= |s.out| && off <= TWO32
    ensures Leads2(s, MatchBytes(m, len, off), m, CopyBack(s.out, off, len))
    decreases len
  {
    if len > 0 {
      var k := PieceOf(m, len, off);
      var s1 := PieceRun(s, m, k, off);
      MatchRun(s1, m, len - k, off);
      CopyTwice(s.out, off, k, len - k);
      Leads2Join(s, Head(k - m, off - 1), MatchBytes(m, len - k, off), m, CopyBack(s.out, off, len));
    }
  }

  lemma PieceOf(m: nat, len: nat, off: nat) returns (k: nat)
    requires Splits(m, len) && len > 0 && 1 <= off <= TWO32
    ensures m <= k < m + 64 && k <= len && Splits(m, len - k)
    ensures MatchBytes(m, len, off) == Head(k - m, off - 1) + MatchBytes(m, len - k, off)
  {
    k := FirstPiece(m, len);
  }

  /** The state behind the first piece. */
  lemma PieceRun(s: S2, m: nat, k: nat, off: nat) returns (s1: S2)
    requires s.d == 0 && m <= k < m + 64 && 1 <= off <= |s.out| && off <= TWO32
    ensures Run2(s, Head(k - m, off - 1), m) == Some(s1) && s1.d == 0 && s1.out == CopyBack(s.out, off, k)
    ensures |s1.out| >= |s.out|
  {
    HeadRun(s, k - m, off - 1, m);
    s1 := Run2(s, Head(k - m, off - 1), m).value;
  }

  lemma TokenRun(s: S2, m: nat, t: Token)
    requires s.d == 0 && 1 <= m <= 64 && Fits2(m, t) && Applies(s.out, t)
    ensures Leads2(s, Code2(m, t), m, Apply(s.out, t))
  {
    if t.Literals? {
      LitBytesRun(s, t.bytes, m);
    } else {
      MatchRun(s, m, t.len, t.off);
    }
  }

  /** The machine turns the codes of a parse back into what was parsed. */
  lemma {:induction false} Level2RoundTrip(src: seq<byte>, pos: nat, ts: seq<Token>, m: nat, s: S2)
    requires 1 <= m <= 64 && AllFit2(m, ts) && Parses(src, pos, ts) && pos <= |src|
    requires s.d == 0 && s.out == src[..pos]
    ensures End(pos, ts) <= |src| && Leads2(s, Codes2(m, ts), m, src[..End(pos, ts)])
    decreases |ts|
  {
    if ts != [] {
      var t := ts[0];
      TellsApplies(src, pos, t);
      TokenRun(s, m, t);
      var s1 := Run2(s, Code2(m, t), m).value;
      Level2RoundTrip(src, pos + Size(t), ts[1..], m, s1);
      Leads2Join(s, Code2(m, t), Codes2(m, ts[1..]), m, src[..End(pos, ts)]);
    }
  }
}
