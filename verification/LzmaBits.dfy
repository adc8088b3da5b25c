/**
 The bit syntax of packets: which symbols the encoder codes for a bit tree, a matched literal,
 a length or a distance, how the decoder reads each back, and that the readings agree.
 */
module LzmaBits {
  import opened Bytes
  import opened LzmaContexts
  import opened RangeCoder
  import opened Bits

  // ---------------------------------------------------------------- bit trees

  /** Bits of val from position n-1 down, each under the tree node reached so far. */
  function TreeSyms(t: Table, val: nat, n: nat, node: nat): seq<Sym> {
    if n == 0 then []
    else [Sym(Adaptive(Cell(t, node - 1)), BitAt(val, n - 1))] + TreeSyms(t, val, n - 1, 2 * node + BitAt(val, n - 1))
  }

  function DecTree(get: Reader, d: Dec, t: Table, n: nat, node: nat): (nat, Dec)
    decreases n
  {
    if n == 0 then (node, d)
    else
      var (b, d1) := get(d, Adaptive(Cell(t, node - 1)));
      DecTree(get, d1, t, n - 1, 2 * node + b)
  }

  lemma {:induction false} ReadTree(get: Reader, d: Dec, t: Table, val: nat, n: nat, node: nat)
    requires Decodes(get, d, TreeSyms(t, val, n, node))
    ensures DecTree(get, d, t, n, node) == (node * Pow2(n) + val % Pow2(n), After(get, d, TreeSyms(t, val, n, node)))
    decreases n
  {
    if n > 0 {
      var b := BitAt(val, n - 1);
      ReadTree(get, get(d, Adaptive(Cell(t, node - 1))).1, t, val, n - 1, 2 * node + b);
      TopBit(val, n);
      Regroup(node, b, Pow2(n - 1), val % Pow2(n - 1));
    }
  }

  /** Reading one bit more goes one level deeper into the tree. */
  lemma {:induction false} TreeSnoc(t: Table, v: nat, b: bit, n: nat, node: nat)
    ensures TreeSyms(t, 2 * v + b, n + 1, node)
         == TreeSyms(t, v, n, node) + [Sym(Adaptive(Cell(t, NodeBelow(node, v, n) - 1)), b)]
    decreases n
  {
    BitOfDoubled(v, b, if n == 0 then 0 else n - 1);
    if n > 0 {
      TreeSnoc(t, v, b, n - 1, 2 * node + BitAt(v, n - 1));
    }
  }

  // ---------------------------------------------------------------- literals after a match

  /** The half of the table in force: kept while the coded bits follow the match byte. */
  function MatchedOffset(off: nat, matchBit: bit): nat {
    if matchBit == 1 then off else 0
  }

  function NextOffset(off: nat, matchBit: bit, b: bit): nat {
    if b == matchBit then off else 0
  }

  function MatchedSyms(t: Table, val: nat, matchByte: nat, n: nat, node: nat, off: nat): seq<Sym> {
    if n == 0 then []
    else
      var m, b := BitAt(matchByte, n - 1), BitAt(val, n - 1);
      [Sym(Adaptive(Cell(t, MatchedOffset(off, m) + off + node - 1)), b)]
      + MatchedSyms(t, val, matchByte, n - 1, 2 * node + b, NextOffset(off, m, b))
  }

  function DecMatched(get: Reader, d: Dec, t: Table, matchByte: nat, n: nat, node: nat, off: nat): (nat, Dec)
    decreases n
  {
    if n == 0 then (node, d)
    else
      var m := BitAt(matchByte, n - 1);
      var (b, d1) := get(d, Adaptive(Cell(t, MatchedOffset(off, m) + off + node - 1)));
      DecMatched(get, d1, t, matchByte, n - 1, 2 * node + b, NextOffset(off, m, b))
  }

  lemma {:induction false} ReadMatched(get: Reader, d: Dec, t: Table, val: nat, matchByte: nat, n: nat, node: nat,
                                       off: nat)
    requires Decodes(get, d, MatchedSyms(t, val, matchByte, n, node, off))
    ensures DecMatched(get, d, t, matchByte, n, node, off)
         == (node * Pow2(n) + val % Pow2(n), After(get, d, MatchedSyms(t, val, matchByte, n, node, off)))
    decreases n
  {
    if n > 0 {
      var m, b := BitAt(matchByte, n - 1), BitAt(val, n - 1);
      var c := Cell(t, MatchedOffset(off, m) + off + node - 1);
      ReadMatched(get, get(d, Adaptive(c)).1, t, val, matchByte, n - 1, 2 * node + b, NextOffset(off, m, b));
      TopBit(val, n);
      Regroup(node, b, Pow2(n - 1), val % Pow2(n - 1));
    }
  }

  /** The table offset after n bits of v have been coded against n bits of w. */
  function OffsetAfter(v: nat, w: nat, n: nat, off: nat): nat {
    if n == 0 then off
    else OffsetAfter(v, w, n - 1, NextOffset(off, BitAt(w, n - 1), BitAt(v, n - 1)))
  }

  lemma {:induction false} MatchedSnoc(t: Table, v: nat, b: bit, w: nat, m: bit, n: nat, node: nat, off: nat)
    ensures
      var last := OffsetAfter(v, w, n, off);
      MatchedSyms(t, 2 * v + b, 2 * w + m, n + 1, node, off)
      == MatchedSyms(t, v, w, n, node, off)
         + [Sym(Adaptive(Cell(t, MatchedOffset(last, m) + last + NodeBelow(node, v, n) - 1)), b)]
    ensures OffsetAfter(2 * v + b, 2 * w + m, n + 1, off) == NextOffset(OffsetAfter(v, w, n, off), m, b)
    decreases n
  {
    BitOfDoubled(v, b, if n == 0 then 0 else n - 1);
    BitOfDoubled(w, m, if n == 0 then 0 else n - 1);
    if n > 0 {
      var c, k := BitAt(v, n - 1), BitAt(w, n - 1);
      MatchedSnoc(t, v, b, w, m, n - 1, 2 * node + c, NextOffset(off, k, c));
    }
  }

  /** The byte is what follows the leading one of the final node. */
  function DecMatchedByte(get: Reader, d: Dec, t: Table, matchByte: nat, n: nat): (nat, Dec) {
    var (v, r) := DecMatched(get, d, t, matchByte, n, 1, 256);
    (v % Pow2(n), r)
  }

  lemma ReadMatchedByte(get: Reader, d: Dec, t: Table, val: nat, matchByte: nat, n: nat)
    requires val < Pow2(n) && Decodes(get, d, MatchedSyms(t, val, matchByte, n, 1, 256))
    ensures DecMatchedByte(get, d, t, matchByte, n) == (val, After(get, d, MatchedSyms(t, val, matchByte, n, 1, 256)))
  {
    ReadMatched(get, d, t, val, matchByte, n, 1, 256);
    RemainderIs(val, Pow2(n), 0, val);
    RemainderIs(1 * Pow2(n) + val, Pow2(n), 1, val);
  }

  lemma ShiftedQuotient(x: nat, a: nat, c: nat)
    requires a > 0 && c > 0 && a * c == 128
    ensures x * a / 128 == x / c
  {
    var q, r := x / c, x % c;
    TimesOf(x, a, c, q, r);
    NextMultiple(r, c, a);
    RemainderIs(x * a, 128, q, r * a);
  }

  lemma TimesOf(x: nat, a: nat, c: nat, q: nat, r: nat)
    requires x == q * c + r && a * c == 128
    ensures x * a == q * 128 + r * a
  {
    assert (q * c + r) * a == q * (a * c) + r * a;
  }

  /** Shifting a byte left brings its bits one after the other into position 7. */
  lemma TopOfShifted(x: byte, i: nat)
    requires i < 8
    ensures Shl(x, i) / 128 % 2 == BitAt(x, 7 - i)
    ensures Shl(x, i + 1) == 2 * Shl(x, i)
  {
    SmallPowers();
    Pow2Add(i, 7 - i);
    ShiftedQuotient(x, Pow2(i), Pow2(7 - i));
    ShrIsDiv(x, 7 - i);
  }

  lemma ByteHasEightBits(x: byte)
    ensures Shr(x, 8) == 0
  {
    SmallPowers();
    ShrIsDiv(x, 8);
  }

  /** The decoder's variables when i bits of a literal, v, have been read against the byte w. */
  ghost predicate MatchedHead(w: byte, matchBits: nat, node: nat, off: nat, v: nat, i: nat)
    requires i <= 8
  {
    && matchBits == Shl(w, i) && (off == 0 || off == 0x100)
    && v < Pow2(i) && node == Pow2(i) + v && off == OffsetAfter(v, Shr(w, 8 - i), i, 0x100)
  }

  /** The node below which a value has been read as far as i of eight bits. */
  lemma NodeInTable(v: nat, i: nat)
    requires i < 8 && v < Pow2(i)
    ensures 1 <= Pow2(i) + v < 256
  {
    SmallPowers();
    Pow2Monotone(i + 1, 8);
  }

  /** Takes the bit in position 7 and shifts. */
  method ShiftOutBit(bits: nat, ghost x: byte, ghost i: nat) returns (b: bit, rest: nat)
    requires i < 8 && bits == Shl(x, i)
    ensures b == BitAt(x, 7 - i) && rest == Shl(x, i + 1)
  {
    TopOfShifted(x, i);
    rest := 2 * bits;
    b := rest / 256 % 2;
  }

  /** One more bit of a matched literal, behind whatever has been coded before. */
  lemma MatchedOneMore(front: seq<Sym>, t: Table, v: nat, b: bit, w: nat, m: bit, n: nat, node: nat, off: nat)
    requires v < Pow2(n) && node == Pow2(n) + v && off == OffsetAfter(v, w, n, 256)
    ensures
      front + MatchedSyms(t, v, w, n, 1, 256) + [Sym(Adaptive(Cell(t, MatchedOffset(off, m) + off + node - 1)), b)]
      == front + MatchedSyms(t, 2 * v + b, 2 * w + m, n + 1, 1, 256)
    ensures OffsetAfter(2 * v + b, 2 * w + m, n + 1, 256) == NextOffset(off, m, b)
  {
    MatchedSnoc(t, v, b, w, m, n, 1, 256);
    NodeOfPrefix(v, n);
  }

  // ---------------------------------------------------------------- fixed-probability bits

  function DirectSyms(val: nat, n: nat): seq<Sym> {
    if n == 0 then [] else [Sym(Direct, BitAt(val, n - 1))] + DirectSyms(val, n - 1)
  }

  function DecDirects(get: Reader, d: Dec, n: nat, acc: nat): (nat, Dec)
    decreases n
  {
    if n == 0 then (acc, d)
    else
      var (b, d1) := get(d, Direct);
      DecDirects(get, d1, n - 1, 2 * acc + b)
  }

  lemma {:induction false} ReadDirects(get: Reader, d: Dec, val: nat, n: nat, acc: nat)
    requires Decodes(get, d, DirectSyms(val, n))
    ensures DecDirects(get, d, n, acc) == (acc * Pow2(n) + val % Pow2(n), After(get, d, DirectSyms(val, n)))
    decreases n
  {
    if n > 0 {
      var b := BitAt(val, n - 1);
      ReadDirects(get, get(d, Direct).1, val, n - 1, 2 * acc + b);
      TopBit(val, n);
      Regroup(acc, b, Pow2(n - 1), val % Pow2(n - 1));
    }
  }

  lemma {:induction false} DirectSnoc(v: nat, b: bit, n: nat)
    ensures DirectSyms(2 * v + b, n + 1) == DirectSyms(v, n) + [Sym(Direct, b)]
    decreases n
  {
    BitOfDoubled(v, b, if n == 0 then 0 else n - 1);
    if n > 0 {
      DirectSnoc(v, b, n - 1);
    }
  }

  lemma ReadDirectNumber(get: Reader, d: Dec, val: nat, n: nat)
    requires val < Pow2(n) && Decodes(get, d, DirectSyms(val, n))
    ensures DecDirects(get, d, n, 0) == (val, After(get, d, DirectSyms(val, n)))
  {
    ReadDirects(get, d, val, n, 0);
    RemainderIs(val, Pow2(n), 0, val);
  }

  lemma ReadTreeNumber(get: Reader, d: Dec, t: Table, val: nat, n: nat)
    requires val < Pow2(n) && Decodes(get, d, TreeSyms(t, val, n, 1))
    ensures
      var (v, r) := DecTree(get, d, t, n, 1);
      v % Pow2(n) == val && r == After(get, d, TreeSyms(t, val, n, 1))
  {
    ReadTree(get, d, t, val, n, 1);
    RemainderIs(val, Pow2(n), 0, val);
    RemainderIs(1 * Pow2(n) + val, Pow2(n), 1, val);
  }
}
