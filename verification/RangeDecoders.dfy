/** The range decoder as it runs, and the bit-level readers of the decoder built on it. */
module RangeDecoders {
  import opened Bytes
  import opened LzmaContexts
  import opened RangeCoder
  import opened Bits
  import opened LzmaBits
  import opened LzmaFields
  import opened RangeEncoders

  class RangeDecoder {
    var code: nat
    var range: nat
    var idx: nat
    var overflow: bool
    const src: seq<byte>

    /** Every bit answered so far, with the model it was read under, and the same as whole fields. */
    ghost var bits: seq<Sym>
    ghost var trail: seq<Field>

    ghost predicate Valid()
      reads this
    {
      code < TWO32 && range < TWO32 && idx <= |src|
    }

    /** The decoder together with the tables it is used on. */
    ghost function Joint(t: ProbTables): Dec
      requires Valid() && t.Valid()
      reads this, t
    {
      DecState(src, code, range, idx, overflow, t.table)
    }

    /** In use with the tables t: from the initial state, the symbols of bits have been read. */
    ghost predicate Decoding(t: ProbTables)
      reads this, t
    {
      && Valid() && t.Valid()
      && Decodes(RANGE_READER, DecInit(src), bits)
      && Joint(t) == After(RANGE_READER, DecInit(src), bits)
    }

    /** Between fields: what has been read is the trail. */
    ghost predicate Trailed(t: ProbTables)
      reads this, t
    {
      Decoding(t) && bits == AllSyms(trail) && AllFit(trail)
    }

    constructor (src: seq<byte>)
      ensures Valid() && this.src == src && bits == [] && trail == []
      ensures DecState(src, code, range, idx, overflow, map[]) == DecInit(src)
    {
      this.src := src;
      bits, trail := [], [];
      code, range, idx, overflow := 0, 0, 0, false;
      new;
      var i := 0;
      while i < 5
        invariant i <= 5 && Valid() && range == 0 && bits == [] && trail == []
        invariant DecState(src, code, range, idx, overflow, map[]) == ReadBytes(DecStart(src), i)
      {
        Normalize();
        i := i + 1;
      }
      range := 0xFFFF_FFFF;
    }

    method Normalize()
      requires Valid()
      modifies this
      ensures Valid() && bits == old(bits) && trail == old(trail)
      ensures forall m: Probs :: Bounded(m) ==>
        DecState(src, code, range, idx, overflow, m)
        == DecNormalize(DecState(src, old(code), old(range), old(idx), old(overflow), m))
    {
      if range < TWO24 {
        if idx != |src| {
          range := range * 256 % TWO32;
          code := code * 256 % TWO32 + src[idx];
          idx := idx + 1;
        } else {
          overflow := true;
        }
      }
    }

    /** The step itself, before it is entered in the bits. */
    method StepBit(t: ProbTables, c: Ctx) returns (b: bit)
      requires Valid() && t.Valid() && InBounds(c, t.dims)
      modifies this, t
      ensures Valid() && t.Valid() && bits == old(bits) && trail == old(trail)
      ensures (b, Joint(t)) == DecStep(old(Joint(t)), Adaptive(c))
    {
      var prob := t.Prob(c);
      ghost var before := Joint(t);
      Normalize();
      assert Joint(t) == DecNormalize(before);
      var bound := Bound(range, prob);
      if code < bound {
        range := bound;
        b := 0;
      } else {
        range := range - bound;
        code := code - bound;
        b := 1;
      }
      t.Train(c, b);
    }

    method DecodeBit(t: ProbTables, c: Ctx) returns (b: bit)
      requires Decoding(t) && InBounds(c, t.dims)
      modifies this, t
      ensures Decoding(t) && trail == old(trail) && bits == old(bits) + [Sym(Adaptive(c), b)]
    {
      ghost var before := Joint(t);
      b := StepBit(t, c);
      DecodesOneMore(src, bits, Sym(Adaptive(c), b), before);
      bits := bits + [Sym(Adaptive(c), b)];
    }

    method StepDirect(ghost t: ProbTables) returns (b: bit)
      requires Valid() && t.Valid()
      modifies this
      ensures Valid() && bits == old(bits) && trail == old(trail)
      ensures (b, Joint(t)) == DecStep(old(Joint(t)), Direct)
    {
      ghost var before := Joint(t);
      Normalize();
      assert Joint(t) == DecNormalize(before);
      range := range / 2;
      code := (code - range) % TWO32;
      b := if code / TWO31 % 2 == 0 then 1 else 0;
      if b == 0 {
        code := (code + range) % TWO32;
      }
    }

    method DecodeDirect(ghost t: ProbTables) returns (b: bit)
      requires Decoding(t)
      modifies this
      ensures Decoding(t) && trail == old(trail) && bits == old(bits) + [Sym(Direct, b)]
    {
      ghost var before := Joint(t);
      b := StepDirect(t);
      DecodesOneMore(src, bits, Sym(Direct, b), before);
      bits := bits + [Sym(Direct, b)];
    }

    /** One bit more of an integer, below the node reached by the i bits of v. */
    method DecodeNode(t: ProbTables, table: Table, node: nat, ghost v: nat, ghost i: nat, ghost front: seq<Sym>)
      returns (b: bit)
      requires Decoding(t) && TableInBounds(table, t.dims) && 1 <= node <= Length(table, t.dims)
      requires v < Pow2(i) && node == Pow2(i) + v
      requires bits == front + TreeSyms(table, v, i, 1)
      modifies this, t
      ensures Decoding(t) && trail == old(trail) && bits == front + TreeSyms(table, 2 * v + b, i + 1, 1)
    {
      b := DecodeBit(t, Cell(table, node - 1));
      TreeSnoc(table, v, b, i, 1);
      NodeOfPrefix(v, i);
    }

    /** An integer of bitCount bits from a tree: the bits read are those the encoder codes for it. */
    method DecodeInt(t: ProbTables, table: Table, bitCount: nat) returns (val: nat)
      requires Decoding(t)
      requires TableInBounds(table, t.dims) && Pow2(bitCount) - 1 <= Length(table, t.dims)
      modifies this, t
      ensures Decoding(t) && trail == old(trail) && bits == old(bits) + TreeSyms(table, val, bitCount, 1)
      ensures val < Pow2(bitCount)
    {
      var node: nat, i := 1, 0;
      ghost var v: nat := 0;
      while i < bitCount
        invariant 0 <= i <= bitCount && Decoding(t) && trail == old(trail)
        invariant node == Pow2(i) + v && v < Pow2(i)
        invariant bits == old(bits) + TreeSyms(table, v, i, 1)
      {
        Pow2Monotone(i + 1, bitCount);
        var b := DecodeNode(t, table, node, v, i, old(bits));
        node := 2 * node + b;
        v := 2 * v + b;
        i := i + 1;
      }
      RemainderIs(node, Pow2(bitCount), 1, v);
      val := node % Pow2(bitCount);
    }

    method DecodeDirects(ghost t: ProbTables, bitCount: nat) returns (val: nat)
      requires Decoding(t)
      modifies this
      ensures Decoding(t) && trail == old(trail) && bits == old(bits) + DirectSyms(val, bitCount)
      ensures val < Pow2(bitCount)
    {
      val := 0;
      var i := 0;
      while i < bitCount
        invariant 0 <= i <= bitCount && Decoding(t) && trail == old(trail)
        invariant val < Pow2(i)
        invariant bits == old(bits) + DirectSyms(val, i)
      {
        var b := DecodeDirect(t);
        DirectSnoc(val, b, i);
        val := 2 * val + b;
        i := i + 1;
      }
    }

    /** One bit of a matched literal; off0 selects the half of the table still following the match byte. */
    method DecodeMatchedBit(t: ProbTables, table: Table, matchBit: bit, node: nat, off0: nat,
                            ghost v: nat, ghost w: nat, ghost i: nat, ghost front: seq<Sym>) returns (b: bit, next: nat)
      requires Decoding(t) && TableInBounds(table, t.dims) && table.Literal?
      requires 1 <= node < 256 && (off0 == 0 || off0 == 0x100)
      requires v < Pow2(i) && node == Pow2(i) + v && off0 == OffsetAfter(v, w, i, 256)
      requires bits == front + MatchedSyms(table, v, w, i, 1, 256)
      modifies this, t
      ensures Decoding(t) && trail == old(trail) && (next == 0 || next == 0x100)
      ensures bits == front + MatchedSyms(table, 2 * v + b, 2 * w + matchBit, i + 1, 1, 256)
      ensures next == OffsetAfter(2 * v + b, 2 * w + matchBit, i + 1, 256)
    {
      var off1 := off0;
      next := if matchBit == 1 then off0 else 0;
      b := DecodeBit(t, Cell(table, next + off1 + node - 1));
      MatchedOneMore(front, table, v, b, w, matchBit, i, node, off0);
      if b == 0 {
        next := off1 - next;
      }
    }

    /** The same with the match bit taken from the byte still to be followed. */
    method DecodeNextMatched(t: ProbTables, table: Table, ghost matchByte: byte, matchBits: nat, node: nat, off0: nat,
                             ghost v: nat, ghost i: nat, ghost front: seq<Sym>)
      returns (below: nat, rest: nat, next: nat, ghost v': nat)
      requires Decoding(t) && TableInBounds(table, t.dims) && table.Literal? && i < 8
      requires MatchedHead(matchByte, matchBits, node, off0, v, i)
      requires bits == front + MatchedSyms(table, v, Shr(matchByte, 8 - i), i, 1, 256)
      modifies this, t
      ensures Decoding(t) && trail == old(trail)
      ensures MatchedHead(matchByte, rest, below, next, v', i + 1)
      ensures bits == front + MatchedSyms(table, v', Shr(matchByte, 7 - i), i + 1, 1, 256)
    {
      ShrSplit(matchByte, 7 - i);
      NodeInTable(v, i);
      var m, b;
      m, rest := ShiftOutBit(matchBits, matchByte, i);
      b, next := DecodeMatchedBit(t, table, m, node, off0, v, Shr(matchByte, 8 - i), i, front);
      below, v' := 2 * node + b, 2 * v + b;
    }

    /** The first n bits of a literal read against the byte at the last match distance. */
    method DecodeMatchedPath(t: ProbTables, table: Table, matchByte: byte, n: nat) returns (node: nat, ghost v: nat)
      requires Decoding(t) && TableInBounds(table, t.dims) && table.Literal? && n <= 8
      modifies this, t
      ensures Decoding(t) && trail == old(trail) && v < Pow2(n) && node == Pow2(n) + v
      ensures bits == old(bits) + MatchedSyms(table, v, Shr(matchByte, 8 - n), n, 1, 256)
    {
      var off0: nat, i := 0x100, 0;
      var matchBits: nat := matchByte;
      node, v := 1, 0;
      ByteHasEightBits(matchByte);
      while i < n
        invariant 0 <= i <= n && Decoding(t) && trail == old(trail)
        invariant MatchedHead(matchByte, matchBits, node, off0, v, i)
        invariant bits == old(bits) + MatchedSyms(table, v, Shr(matchByte, 8 - i), i, 1, 256)
      {
        node, matchBits, off0, v := DecodeNextMatched(t, table, matchByte, matchBits, node, off0, v, i, old(bits));
        i := i + 1;
      }
    }

    method DecodeMatchedBits(t: ProbTables, table: Table, matchByte: byte, n: nat) returns (val: nat)
      requires Decoding(t) && TableInBounds(table, t.dims) && table.Literal? && n <= 8
      modifies this, t
      ensures Decoding(t) && trail == old(trail) && val < Pow2(n)
      ensures bits == old(bits) + MatchedSyms(table, val, Shr(matchByte, 8 - n), n, 1, 256)
    {
      var node;
      ghost var v;
      node, v := DecodeMatchedPath(t, table, matchByte, n);
      RemainderIs(node, Pow2(n), 1, v);
      val := node % Pow2(n);
    }

    method DecodeMatchedByte(t: ProbTables, table: Table, matchByte: byte) returns (val: byte)
      requires Decoding(t) && TableInBounds(table, t.dims) && table.Literal?
      modifies this, t
      ensures Decoding(t) && trail == old(trail) && bits == old(bits) + MatchedSyms(table, val, matchByte, 8, 1, 256)
    {
      assert Pow2(8) == 256 by { SmallPowers(); }
      val := DecodeMatchedBits(t, table, matchByte, 8);
    }

    // ------------------------------------------------------------ whole fields

    /** Enters the field in the trail once its symbols have been read. */
    ghost method Enter(t: ProbTables, f: Field)
      requires Decoding(t) && bits == AllSyms(trail) + FieldSyms(f) && AllFit(trail) && Fits(f)
      modifies this`trail
      ensures Trailed(t) && trail == old(trail) + [f]
    {
      AllSymsOneMore(trail, f);
      trail := trail + [f];
    }

    method GetBit(t: ProbTables, c: Ctx) returns (b: bit)
      requires Trailed(t) && InBounds(c, t.dims)
      modifies this, t
      ensures Trailed(t) && trail == old(trail) + [Field(OneBit(c), b)]
    {
      b := DecodeBit(t, c);
      Enter(t, Field(OneBit(c), b));
    }

    method GetNumber(t: ProbTables, table: Table, bitCount: nat) returns (val: nat)
      requires Trailed(t) && TableInBounds(table, t.dims) && Pow2(bitCount) - 1 <= Length(table, t.dims)
      modifies this, t
      ensures Trailed(t) && trail == old(trail) + [Field(Number(table, bitCount), val)]
      ensures val < Pow2(bitCount)
    {
      val := DecodeInt(t, table, bitCount);
      Enter(t, Field(Number(table, bitCount), val));
    }

    method GetMatchedByte(t: ProbTables, table: Table, matchByte: byte) returns (val: byte)
      requires Trailed(t) && TableInBounds(table, t.dims) && table.Literal?
      modifies this, t
      ensures Trailed(t) && trail == old(trail) + [Field(MatchedByte(table, matchByte), val)]
    {
      val := DecodeMatchedByte(t, table, matchByte);
      Enter(t, Field(MatchedByte(table, matchByte), val));
    }

    method GetFixed(ghost t: ProbTables, bitCount: nat) returns (val: nat)
      requires Trailed(t)
      modifies this
      ensures Trailed(t) && trail == old(trail) + [Field(Fixed(bitCount), val)]
      ensures val < Pow2(bitCount)
    {
      val := DecodeDirects(t, bitCount);
      Enter(t, Field(Fixed(bitCount), val));
    }
  }
}
