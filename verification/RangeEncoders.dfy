/** The range encoder as it runs: fields updated in place, output into a caller's buffer. */
module RangeEncoders {
  import opened Bytes
  import opened LzmaContexts
  import opened RangeCoder
  import opened Bits
  import opened LzmaBits
  import opened LzmaFields

  /** Largest value of the 64-bit counter of pending bytes. */
  const CACHE_SIZE_MAX := 0xFFFF_FFFF_FFFF_FFFF

  /** The probability arrays, trained in place; accesses are checked against the declared sizes. */
  class ProbTables {
    const dims: Dims
    var table: Probs

    ghost predicate Valid()
      reads this
    {
      Bounded(table)
    }

    constructor (dims: Dims)
      ensures Valid() && this.dims == dims && table == map[]
    {
      this.dims := dims;
      table := map[];
    }

    function Prob(c: Ctx): (p: nat)
      requires Valid() && InBounds(c, dims)
      reads this
      ensures p == ProbOf(table, c) && 31 <= p <= 2017
    {
      TrainedIsBounded(table, c, 0);
      ProbOf(table, c)
    }

    method Train(c: Ctx, b: bit)
      requires Valid() && InBounds(c, dims)
      modifies this
      ensures Valid() && table == Trained(old(table), c, b)
    {
      TrainedIsBounded(table, c, b);
      var prob := Prob(c);
      if b == 0 {
        table := table[c := prob + (2048 - prob) / 32];
      } else {
        table := table[c := prob - prob / 32];
      }
    }
  }

  class RangeEncoder {
    var overflow: bool
    var cache: byte
    var lowMsb: bit
    var lowLsb: nat
    var range: nat
    var cacheSize: nat
    var pos: nat
    const dst: array<byte>
    const start: nat
    const limit: nat

    /** What the caller has already put in front of the coded bytes. */
    ghost const prefix: seq<byte>

    /** The same encoder writing into unlimited space, with an unbounded pending count. */
    ghost var model: Enc

    /** Every symbol coded so far, and the same as whole fields. */
    ghost var bits: seq<Sym>
    ghost var log: seq<Field>

    /** The buffer holds as much of the bytes o as fits; overflow says that some did not. */
    ghost predicate Holds(o: seq<byte>)
      reads this, dst
    {
      && start <= pos <= limit <= dst.Length
      && pos - start == (if |o| <= limit - start then |o| else limit - start)
      && overflow == (|o| > limit - start)
      && |prefix| == start
      && dst[..pos] == prefix + o[..pos - start]
    }

    ghost predicate Valid()
      reads this, dst
    {
      && EncShape(model)
      && cache == model.cache && lowMsb == model.lowMsb && lowLsb == model.lowLsb && range == model.range
      && cacheSize == (if model.cacheSize <= CACHE_SIZE_MAX then model.cacheSize else CACHE_SIZE_MAX)
      && Holds(model.out)
      && limit - start < CACHE_SIZE_MAX
    }

    /** The encoder together with the tables it is used on. */
    ghost function Joint(t: ProbTables): Enc
      reads this, t
    {
      model.(probs := t.table)
    }

    /** In use with the tables t: from the initial state, the symbols of bits have been coded. */
    ghost predicate Coding(t: ProbTables)
      reads this, dst, t
    {
      Valid() && t.Valid() && Joint(t) == EncSyms(ENC_INIT, bits)
    }

    /** Between fields: what has been coded is the log. */
    ghost predicate Logged(t: ProbTables)
      reads this, dst, t
    {
      Coding(t) && bits == AllSyms(log)
    }

    constructor (dst: array<byte>, start: nat, limit: nat)
      requires start <= limit <= dst.Length && limit - start < CACHE_SIZE_MAX
      ensures Valid() && this.dst == dst && this.start == start && this.limit == limit
      ensures prefix == dst[..start] && model == ENC_INIT && bits == [] && log == []
    {
      cache := 0;
      lowMsb := 0;
      lowLsb := 0;
      range := 0xFFFF_FFFF;
      cacheSize := 1;
      this.dst := dst;
      this.start := start;
      prefix := dst[..start];
      pos := start;
      this.limit := limit;
      overflow := false;
      model := ENC_INIT;
      bits := [];
      log := [];
    }

    method OutByte(b: byte, ghost o: seq<byte>)
      requires Holds(o)
      modifies this`pos, this`overflow, dst
      ensures Holds(o + [b])
    {
      if pos != limit {
        dst[pos] := b;
        pos := pos + 1;
        assert dst[..pos] == old(dst[..pos]) + [b];
        assert (o + [b])[..|o| + 1] == o + [b] && o[..|o|] == o;
      } else {
        overflow := true;
        assert (o + [b])[..pos - start] == o[..pos - start];
      }
    }

    /** Empties the run of pending bytes behind the cache byte. */
    method OutPending(b: byte, ghost o: seq<byte>)
      requires Holds(o) && cacheSize >= 1
      modifies this`pos, this`overflow, this`cacheSize, dst
      ensures Holds(o + Fill(b, old(cacheSize) - 1))
      ensures cacheSize == 1
    {
      assert o + Fill(b, 0) == o;
      while cacheSize > 1
        invariant 1 <= cacheSize <= old(cacheSize)
        invariant Holds(o + Fill(b, old(cacheSize) - cacheSize))
      {
        ghost var k := old(cacheSize) - cacheSize;
        OutByte(b, o + Fill(b, k));
        assert o + Fill(b, k) + [b] == o + Fill(b, k + 1);
        cacheSize := cacheSize - 1;
      }
    }

    /** Past the end of the buffer it no longer matters how many pending bytes there were: k counts n up to the limit. */
    lemma HoldsSaturated(o: seq<byte>, b: byte, k: nat, n: nat)
      requires Holds(o + Fill(b, k)) && o != [] && limit - start < CACHE_SIZE_MAX
      requires k + 1 == (if n + 1 <= CACHE_SIZE_MAX then n + 1 else CACHE_SIZE_MAX)
      ensures Holds(o + Fill(b, n))
    {
      FillPrefix(b, k, n);
      assert (o + Fill(b, n))[..pos - start] == (o + Fill(b, k))[..pos - start];
    }

    lemma {:induction false} FillPrefix(b: byte, k: nat, n: nat)
      requires k <= n
      ensures Fill(b, k) == Fill(b, n)[..k]
    {
      if k < n {
        FillPrefix(b, k, n - 1);
        assert Fill(b, n)[..k] == Fill(b, n - 1)[..k];
      }
    }

    /** Settles the cache byte and the n bytes pending behind it. */
    method Flush(first: byte, rest: byte, ghost out: seq<byte>, ghost n: nat)
      requires Holds(out) && limit - start < CACHE_SIZE_MAX && lowLsb < TWO32
      requires cacheSize == (if n + 1 <= CACHE_SIZE_MAX then n + 1 else CACHE_SIZE_MAX)
      modifies this`pos, this`overflow, this`cacheSize, this`cache, dst
      ensures Holds(out + [first] + Fill(rest, n))
      ensures cache == lowLsb / TWO24 && cacheSize == 0
    {
      ghost var pending := cacheSize - 1;
      OutByte(first, out);
      OutPending(rest, out + [first]);
      HoldsSaturated(out + [first], rest, pending, n);
      cache := lowLsb / TWO24;
      cacheSize := 0;
    }

    method SettleCache()
      requires Valid()
      modifies this`pos, this`overflow, this`cacheSize, this`cache, dst
      ensures var s := Settle(model);
              && Holds(s.out) && cache == s.cache
              && cacheSize == (if s.cacheSize <= CACHE_SIZE_MAX then s.cacheSize else CACHE_SIZE_MAX)
    {
      if lowMsb != 0 {
        Flush((cache + 1) % 256, 0, model.out, model.cacheSize - 1);
      } else if lowLsb < 0xFF00_0000 {
        Flush(cache, 255, model.out, model.cacheSize - 1);
      }
    }

    method Normalize()
      requires Valid()
      modifies this, dst
      ensures Valid() && model == EncNormalize(old(model)) && bits == old(bits) && log == old(log)
    {
      if range < TWO24 {
        SettleCache();
        if cacheSize < CACHE_SIZE_MAX {
          cacheSize := cacheSize + 1;
        }
        lowMsb := 0;
        lowLsb := lowLsb * 256 % TWO32;
        range := range * 256 % TWO32;
        model := ShiftLow(model);
      }
    }

    method AddToLow(x: nat)
      requires Valid()
      modifies this`lowMsb, this`lowLsb, this`model
      ensures Valid() && model == AddLow(old(model), x)
    {
      var sum := (lowLsb + x) % TWO32;
      if sum < lowLsb {
        lowMsb := 1;
      }
      lowLsb := sum;
      model := AddLow(model, x);
    }

    /** Keeps the part of the interval below the bound, or the part above it. */
    method Keep(bound: nat, b: bit)
      requires Valid() && bound <= range
      modifies this`range, this`lowMsb, this`lowLsb, this`model
      ensures Valid()
      ensures model == if b == 0 then old(model).(range := bound) else AddLow(old(model).(range := old(range) - bound), bound)
    {
      if b == 0 {
        range := bound;
        model := model.(range := range);
      } else {
        range := range - bound;
        model := model.(range := range);
        AddToLow(bound);
      }
    }

    /** The step itself, before it is entered in the bits. */
    method StepBit(t: ProbTables, c: Ctx, b: bit)
      requires Valid() && t.Valid() && InBounds(c, t.dims)
      modifies this, dst, t
      ensures Valid() && t.Valid() && bits == old(bits) && log == old(log)
      ensures Joint(t) == EncStep(old(Joint(t)), Sym(Adaptive(c), b))
    {
      ghost var before := Joint(t);
      var prob := t.Prob(c);
      Normalize();
      assert Joint(t) == EncNormalize(before);
      Keep(Bound(range, prob), b);
      t.Train(c, b);
    }

    method EncodeBit(t: ProbTables, c: Ctx, b: bit)
      requires Coding(t) && InBounds(c, t.dims)
      modifies this, dst, t
      ensures Coding(t) && log == old(log) && bits == old(bits) + [Sym(Adaptive(c), b)]
    {
      EncSymsOneMore(bits, Sym(Adaptive(c), b));
      StepBit(t, c, b);
      bits := bits + [Sym(Adaptive(c), b)];
    }

    method Halve(b: bit)
      requires Valid()
      modifies this`range, this`lowMsb, this`lowLsb, this`model
      ensures Valid()
      ensures var h := old(model).(range := old(range) / 2);
              model == if b == 0 then h else AddLow(h, h.range)
    {
      range := range / 2;
      model := model.(range := range);
      if b == 1 {
        AddToLow(range);
      }
    }

    method StepDirect(ghost t: ProbTables, b: bit)
      requires Valid() && t.Valid()
      modifies this, dst
      ensures Valid() && bits == old(bits) && log == old(log)
      ensures Joint(t) == EncStep(old(Joint(t)), Sym(Direct, b))
    {
      ghost var before := Joint(t);
      Normalize();
      assert Joint(t) == EncNormalize(before);
      Halve(b);
    }

    method EncodeDirect(ghost t: ProbTables, b: bit)
      requires Coding(t)
      modifies this, dst
      ensures Coding(t) && log == old(log) && bits == old(bits) + [Sym(Direct, b)]
    {
      EncSymsOneMore(bits, Sym(Direct, b));
      StepDirect(t, b);
      bits := bits + [Sym(Direct, b)];
    }

    /** The bits of val from the top, each under the tree node reached so far. */
    method EncodeInt(t: ProbTables, table: Table, val: nat, bitCount: nat)
      requires Coding(t)
      requires TableInBounds(table, t.dims) && Pow2(bitCount) - 1 <= Length(table, t.dims)
      modifies this, dst, t
      ensures Coding(t) && log == old(log) && bits == old(bits) + TreeSyms(table, val, bitCount, 1)
    {
      var treePos, left := 1, bitCount;
      while left > 0
        invariant 0 <= left <= bitCount && Coding(t) && log == old(log)
        invariant Pow2(bitCount - left) <= treePos < 2 * Pow2(bitCount - left)
        invariant bits + TreeSyms(table, val, left, treePos) == old(bits) + TreeSyms(table, val, bitCount, 1)
      {
        Pow2Monotone(bitCount - left + 1, bitCount);
        ghost var tail := TreeSyms(table, val, left - 1, 2 * treePos + BitAt(val, left - 1));
        ghost var so := bits + [Sym(Adaptive(Cell(table, treePos - 1)), BitAt(val, left - 1))];
        assert so + tail == bits + TreeSyms(table, val, left, treePos);
        EncodeBit(t, Cell(table, treePos - 1), BitAt(val, left - 1));
        treePos := 2 * treePos + BitAt(val, left - 1);
        left := left - 1;
      }
    }

    /** One bit of a matched literal; off0 selects the half of the table still following the match byte. */
    method EncodeMatchedBit(t: ProbTables, table: Table, b: bit, matchBit: bit, treePos: nat, off0: nat,
                            ghost v: nat, ghost w: nat, ghost i: nat, ghost front: seq<Sym>) returns (next: nat)
      requires Coding(t) && TableInBounds(table, t.dims) && table.Literal?
      requires 1 <= treePos < 256 && (off0 == 0 || off0 == 0x100)
      requires v < Pow2(i) && treePos == Pow2(i) + v && off0 == OffsetAfter(v, w, i, 256)
      requires bits == front + MatchedSyms(table, v, w, i, 1, 256)
      modifies this, dst, t
      ensures Coding(t) && log == old(log) && (next == 0 || next == 0x100)
      ensures bits == front + MatchedSyms(table, 2 * v + b, 2 * w + matchBit, i + 1, 1, 256)
      ensures next == OffsetAfter(2 * v + b, 2 * w + matchBit, i + 1, 256)
    {
      MatchedOneMore(front, table, v, b, w, matchBit, i, treePos, off0);
      var off1 := off0;
      next := if matchBit == 1 then off0 else 0;
      EncodeBit(t, Cell(table, next + off1 + treePos - 1), b);
      if b == 0 {
        next := off1 - next;
      }
    }

    /** The same with both bits taken from the bytes still to be coded and followed. */
    method EncodeNextMatched(t: ProbTables, table: Table, ghost val: byte, ghost matchByte: byte, byteBits: nat,
                             matchBits: nat,
                             treePos: nat, off0: nat, ghost i: nat, ghost front: seq<Sym>)
      returns (b: bit, byteRest: nat, matchRest: nat, next: nat)
      requires Coding(t) && TableInBounds(table, t.dims) && table.Literal?
      requires i < 8 && byteBits == Shl(val, i) && matchBits == Shl(matchByte, i)
      requires 1 <= treePos < 256 && (off0 == 0 || off0 == 0x100)
      requires Shr(val, 8 - i) < Pow2(i) && treePos == Pow2(i) + Shr(val, 8 - i)
      requires off0 == OffsetAfter(Shr(val, 8 - i), Shr(matchByte, 8 - i), i, 256)
      requires bits == front + MatchedSyms(table, Shr(val, 8 - i), Shr(matchByte, 8 - i), i, 1, 256)
      modifies this, dst, t
      ensures Coding(t) && log == old(log)
      ensures b == BitAt(val, 7 - i) && byteRest == Shl(val, i + 1) && matchRest == Shl(matchByte, i + 1)
      ensures next == OffsetAfter(Shr(val, 7 - i), Shr(matchByte, 7 - i), i + 1, 256) && (next == 0 || next == 0x100)
      ensures bits == front + MatchedSyms(table, Shr(val, 7 - i), Shr(matchByte, 7 - i), i + 1, 1, 256)
    {
      ShrSplit(val, 7 - i);
      ShrSplit(matchByte, 7 - i);
      var m;
      b, byteRest := ShiftOutBit(byteBits, val, i);
      m, matchRest := ShiftOutBit(matchBits, matchByte, i);
      next := EncodeMatchedBit(t, table, b, m, treePos, off0, Shr(val, 8 - i), Shr(matchByte, 8 - i), i, front);
    }

    /** The top n bits of a literal coded against the byte at the last match distance. */
    method EncodeMatchedBits(t: ProbTables, table: Table, val: byte, matchByte: byte, n: nat)
      requires Coding(t) && TableInBounds(table, t.dims) && table.Literal? && n <= 8
      modifies this, dst, t
      ensures Coding(t) && log == old(log)
      ensures bits == old(bits) + MatchedSyms(table, Shr(val, 8 - n), Shr(matchByte, 8 - n), n, 1, 256)
    {
      var treePos: nat, off0: nat, i := 1, 0x100, 0;
      var byteBits: nat, matchBits: nat := val, matchByte;
      assert Pow2(8) == 256 by { SmallPowers(); }
      ByteHasEightBits(val);
      ByteHasEightBits(matchByte);
      while i < n
        invariant 0 <= i <= n && Coding(t) && log == old(log)
        invariant byteBits == Shl(val, i) && matchBits == Shl(matchByte, i)
        invariant off0 == OffsetAfter(Shr(val, 8 - i), Shr(matchByte, 8 - i), i, 0x100) && (off0 == 0 || off0 == 0x100)
        invariant treePos == Pow2(i) + Shr(val, 8 - i) && Shr(val, 8 - i) < Pow2(i)
        invariant bits == old(bits) + MatchedSyms(table, Shr(val, 8 - i), Shr(matchByte, 8 - i), i, 1, 256)
      {
        Pow2Monotone(i + 1, 8);
        ShrSplit(val, 7 - i);
        var b;
        b, byteBits, matchBits, off0 :=
          EncodeNextMatched(t, table, val, matchByte, byteBits, matchBits, treePos, off0, i, old(bits));
        treePos := 2 * treePos + b;
        i := i + 1;
      }
    }

    method EncodeMatchedByte(t: ProbTables, table: Table, val: byte, matchByte: byte)
      requires Coding(t) && TableInBounds(table, t.dims) && table.Literal?
      modifies this, dst, t
      ensures Coding(t) && log == old(log) && bits == old(bits) + MatchedSyms(table, val, matchByte, 8, 1, 256)
    {
      EncodeMatchedBits(t, table, val, matchByte, 8);
    }

    method EncodeDirects(ghost t: ProbTables, val: nat, bitCount: nat)
      requires Coding(t)
      modifies this, dst
      ensures Coding(t) && log == old(log) && bits == old(bits) + DirectSyms(val, bitCount)
    {
      var left := bitCount;
      while left > 0
        invariant 0 <= left <= bitCount && Coding(t) && log == old(log)
        invariant bits + DirectSyms(val, left) == old(bits) + DirectSyms(val, bitCount)
      {
        EncodeDirect(t, BitAt(val, left - 1));
        left := left - 1;
      }
    }

    // ------------------------------------------------------------ whole fields

    /** Enters the field in the log once its symbols have been coded. */
    ghost method Enter(t: ProbTables, f: Field)
      requires Coding(t) && bits == AllSyms(log) + FieldSyms(f)
      modifies this`log
      ensures Logged(t) && log == old(log) + [f]
    {
      AllSymsOneMore(log, f);
      log := log + [f];
    }

    method PutBit(t: ProbTables, c: Ctx, b: bit)
      requires Logged(t) && InBounds(c, t.dims)
      modifies this, dst, t
      ensures Logged(t) && log == old(log) + [Field(OneBit(c), b)]
    {
      EncodeBit(t, c, b);
      Enter(t, Field(OneBit(c), b));
    }

    method PutNumber(t: ProbTables, table: Table, val: nat, bitCount: nat)
      requires Logged(t) && TableInBounds(table, t.dims) && Pow2(bitCount) - 1 <= Length(table, t.dims)
      modifies this, dst, t
      ensures Logged(t) && log == old(log) + [Field(Number(table, bitCount), val)]
    {
      EncodeInt(t, table, val, bitCount);
      Enter(t, Field(Number(table, bitCount), val));
    }

    method PutMatchedByte(t: ProbTables, table: Table, val: byte, matchByte: byte)
      requires Logged(t) && TableInBounds(table, t.dims) && table.Literal?
      modifies this, dst, t
      ensures Logged(t) && log == old(log) + [Field(MatchedByte(table, matchByte), val)]
    {
      EncodeMatchedByte(t, table, val, matchByte);
      Enter(t, Field(MatchedByte(table, matchByte), val));
    }

    method PutFixed(ghost t: ProbTables, val: nat, bitCount: nat)
      requires Logged(t)
      modifies this, dst
      ensures Logged(t) && log == old(log) + [Field(Fixed(bitCount), val)]
    {
      EncodeDirects(t, val, bitCount);
      Enter(t, Field(Fixed(bitCount), val));
    }

    // ------------------------------------------------------------ the end of a run

    /** With range 0 every normalization shifts. */
    method ShiftRepeatedly(n: nat)
      requires Valid() && range == 0
      modifies this, dst
      ensures Valid() && model == Shifts(old(model), n) && bits == old(bits) && log == old(log)
    {
      var i := 0;
      while i < n
        invariant i <= n && Valid() && range == 0 && bits == old(bits) && log == old(log)
        invariant model == Shifts(old(model), i)
      {
        Normalize();
        i := i + 1;
      }
    }

    /** Forces six shifts; afterwards the buffer holds the coded bytes, or as many as fit. */
    method Terminate(ghost t: ProbTables)
      requires Coding(t)
      modifies this, dst
      ensures Holds(Encoded(ENC_INIT, bits)) && bits == old(bits) && log == old(log)
    {
      range := 0;
      model := model.(range := 0);
      TerminatedOutput(bits, model);
      ShiftRepeatedly(6);
    }
  }
}
