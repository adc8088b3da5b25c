/** The encoder as it runs: packets chosen with two steps of lookahead and coded bit by bit. */
module LzmaEncoder {
  import opened Sequences
  import opened Bytes
  import opened Results
  import opened LzmaContexts
  import opened RangeCoder
  import opened Bits
  import opened LzmaFields
  import opened LzmaDistances
  import opened LzmaPackets
  import opened LzmaStream
  import opened LzmaSearch
  import opened RangeEncoders

  // ---------------------------------------------------------------- coding one packet

  method PutKind(e: RangeEncoder, t: ProbTables, state: nat, posState: nat, kind: Kind)
    requires e.Logged(t) && state < N_STATES && posState < t.dims.posStates
    modifies e, e.dst, t
    ensures e.Logged(t) && e.log == old(e.log) + KindFields(state, posState, kind)
  {
    if kind.Lit? {
      e.PutBit(t, Cell(IsMatch(state), posState), 0);
    } else {
      e.PutBit(t, Cell(IsMatch(state), posState), 1);
      PutMatchKind(e, t, state, posState, kind);
      Grouped(old(e.log), [Flag(IsMatch(state), posState, 1)], MatchKindFields(state, posState, kind));
    }
  }

  method PutMatchKind(e: RangeEncoder, t: ProbTables, state: nat, posState: nat, kind: Kind)
    requires e.Logged(t) && state < N_STATES && posState < t.dims.posStates && !kind.Lit?
    modifies e, e.dst, t
    ensures e.Logged(t) && e.log == old(e.log) + MatchKindFields(state, posState, kind)
  {
    if kind.Match? {
      e.PutBit(t, Cell(IsRep, state), 0);
    } else {
      e.PutBit(t, Cell(IsRep, state), 1);
      PutRepKind(e, t, state, posState, kind);
      Grouped(old(e.log), [Flag(IsRep, state, 1)], RepKindFields(state, posState, kind));
    }
  }

  method PutRepKind(e: RangeEncoder, t: ProbTables, state: nat, posState: nat, kind: Kind)
    requires e.Logged(t) && state < N_STATES && posState < t.dims.posStates && !kind.Lit? && !kind.Match?
    modifies e, e.dst, t
    ensures e.Logged(t) && e.log == old(e.log) + RepKindFields(state, posState, kind)
  {
    if kind.ShortRep? || kind.Rep0? {
      e.PutBit(t, Cell(IsRep0, state), 0);
      e.PutBit(t, Cell(IsRep0Long(state), posState), if kind.Rep0? then 1 else 0);
    } else {
      e.PutBit(t, Cell(IsRep0, state), 1);
      PutFarRepKind(e, t, state, kind);
    }
  }

  method PutFarRepKind(e: RangeEncoder, t: ProbTables, state: nat, kind: Kind)
    requires e.Logged(t) && state < N_STATES && IsFarRep(kind)
    modifies e, e.dst, t
    ensures e.Logged(t) && e.log == old(e.log) + FarRepFields(state, kind)
  {
    if kind.Rep1? {
      e.PutBit(t, Cell(IsRep1, state), 0);
    } else {
      e.PutBit(t, Cell(IsRep1, state), 1);
      e.PutBit(t, Cell(IsRep2, state), if kind.Rep2? then 0 else 1);
    }
  }

  /** A length: the choice bit and the number in the table it chooses. */
  method PutChosen(e: RangeEncoder, t: ProbTables, choice: Table, isRep: bit, b: bit, table: Table, val: nat,
                   bitCount: nat)
    requires e.Logged(t) && (choice == LenChoice || choice == LenChoice2)
    requires TableInBounds(table, t.dims) && Pow2(bitCount) - 1 <= Length(table, t.dims)
    modifies e, e.dst, t
    ensures e.Logged(t) && e.log == old(e.log) + [Flag(choice, isRep, b), Field(Number(table, bitCount), val)]
  {
    e.PutBit(t, Cell(choice, isRep), b);
    e.PutNumber(t, table, val, bitCount);
    Grouped(old(e.log), [Flag(choice, isRep, b)], [Field(Number(table, bitCount), val)]);
  }

  method PutLen(e: RangeEncoder, t: ProbTables, isRep: bit, posState: nat, len: nat)
    requires e.Logged(t) && posState < t.dims.posStates && 2 <= len <= 273
    modifies e, e.dst, t
    ensures e.Logged(t) && e.log == old(e.log) + LenFields(isRep, posState, len)
  {
    SmallPowers();
    if len < 10 {
      PutChosen(e, t, LenChoice, isRep, 0, LenLow(isRep, posState), len - 2, 3);
    } else {
      e.PutBit(t, Cell(LenChoice, isRep), 1);
      PutLongLen(e, t, isRep, posState, len);
      Grouped(old(e.log), [Flag(LenChoice, isRep, 1)], LongLenFields(isRep, posState, len));
    }
  }

  method PutLongLen(e: RangeEncoder, t: ProbTables, isRep: bit, posState: nat, len: nat)
    requires e.Logged(t) && posState < t.dims.posStates && 10 <= len <= 273
    modifies e, e.dst, t
    ensures e.Logged(t) && e.log == old(e.log) + LongLenFields(isRep, posState, len)
  {
    SmallPowers();
    if len < 18 {
      PutChosen(e, t, LenChoice2, isRep, 0, LenMid(isRep, posState), len - 10, 3);
    } else {
      PutChosen(e, t, LenChoice2, isRep, 1, LenHigh(isRep), len - 18, 8);
    }
  }

  /** The position of the highest set bit, counted from one. */
  method CountBits(val: nat) returns (count: nat)
    ensures count == CountBit(val)
  {
    count := 0;
    var rest := val;
    while rest != 0
      invariant count + CountBit(rest) == CountBit(val)
    {
      count := count + 1;
      rest := rest / 2;
    }
  }

  method PutDistTail(e: RangeEncoder, t: ProbTables, dist: nat, slot: nat)
    requires e.Logged(t) && slot < 64
    modifies e, e.dst, t
    ensures e.Logged(t) && e.log == old(e.log) + DistTail(dist, slot)
  {
    if slot >= 4 {
      var rev := BitsReverse(LowOf(dist, slot), LowBits(slot));
      PutMiddleAndLow(e, t, slot, MiddleOf(dist, slot), rev);
    }
  }

  method PutMiddleAndLow(e: RangeEncoder, t: ProbTables, slot: nat, middle: nat, low: nat)
    requires e.Logged(t) && 4 <= slot < 64
    modifies e, e.dst, t
    ensures e.Logged(t)
    ensures e.log == old(e.log)
              + (if slot < 14 then [] else [Field(Fixed(FreeBits(slot) - LowBits(slot)), middle)])
              + [Field(Number(LowTable(slot), LowBits(slot)), low)]
  {
    if slot >= 14 {
      e.PutFixed(t, middle, FreeBits(slot) - LowBits(slot));
    }
    LowTableHolds(slot, t.dims);
    e.PutNumber(t, LowTable(slot), low, LowBits(slot));
  }

  method FindSlot(dist: nat) returns (slot: nat)
    requires dist < TWO32
    ensures slot == SlotOf(dist) < 64
  {
    slot := dist;
    if dist >= 4 {
      SlotSplitsDistance(dist);
      CountBitBounds(dist);
      TopBitRange(dist);
      slot := CountBits(dist);
      slot := 2 * (slot - 1) + BitAt(dist, slot - 2);
    }
  }

  /** dist is the distance less one. */
  method PutDist(e: RangeEncoder, t: ProbTables, len: nat, dist: nat)
    requires e.Logged(t) && len >= 2 && dist < TWO32
    modifies e, e.dst, t
    ensures e.Logged(t) && e.log == old(e.log) + DistFields(len, dist)
  {
    assert Pow2(6) == 64 by { SmallPowers(); }
    var slot := FindSlot(dist);
    e.PutNumber(t, DistSlot(LenClass(len)), slot, 6);
    PutDistTail(e, t, dist, slot);
    Grouped(old(e.log), [Field(Number(DistSlot(LenClass(len)), 6), slot)], DistTail(dist, slot));
  }

  method PutLit(e: RangeEncoder, t: ProbTables, c: Context, b: byte)
    requires e.Logged(t) && TableInBounds(c.litTable, t.dims) && c.litTable.Literal?
    modifies e, e.dst, t
    ensures e.Logged(t) && e.log == old(e.log) + [Field(LitUnit(c), b)]
  {
    assert Pow2(8) == 256 by { SmallPowers(); }
    if c.state < N_LIT_STATES {
      e.PutNumber(t, c.litTable, b, 8);
    } else {
      e.PutMatchedByte(t, c.litTable, b, c.matchByte);
    }
  }

  method PutBody(e: RangeEncoder, t: ProbTables, c: Context, p: Packet)
    requires e.Logged(t) && c.posState < t.dims.posStates && WellFormed(p)
    requires TableInBounds(c.litTable, t.dims) && c.litTable.Literal?
    modifies e, e.dst, t
    ensures e.Logged(t) && e.log == old(e.log) + BodyFields(c, p)
  {
    match p.kind
    case Lit => PutLit(e, t, c, p.lit);
    case ShortRep =>
    case Match =>
      PutLen(e, t, 0, c.posState, p.len);
      PutDist(e, t, p.len, p.dist - 1);
    case _ => PutLen(e, t, 1, c.posState, p.len);
  }

  method PutPacket(e: RangeEncoder, t: ProbTables, c: Context, p: Packet)
    requires e.Logged(t) && c.state < N_STATES && c.posState < t.dims.posStates && WellFormed(p)
    requires TableInBounds(c.litTable, t.dims) && c.litTable.Literal?
    modifies e, e.dst, t
    ensures e.Logged(t) && e.log == old(e.log) + PacketFields(c, p)
  {
    PutKind(e, t, c.state, c.posState, p.kind);
    PutBody(e, t, c, p);
    Grouped(old(e.log), KindFields(c.state, c.posState, p.kind), BodyFields(c, p));
  }

  // ---------------------------------------------------------------- choosing a packet

  /** What an earlier lookahead has decided: skip n literals, then use this match. */
  datatype Bypass = Bypass(n: nat, len: nat, dist: nat)

  /** The stored match will be true where it is used. */
  predicate BypassOk(src: seq<byte>, pos: nat, b: Bypass) {
    && (b.n > 0 || b.len > 0 ==> pos + b.n < |src|)
    && Found(src, pos + b.n, b.len, b.dist)
  }

  const NO_BYPASS := Bypass(0, 0, 0)

  /** What the look one and two bytes ahead makes of a match found at pos. */
  ghost predicate LookedAhead(src: seq<byte>, pos: nat, lz: Lz, len0: nat, dist0: nat, len: nat, dist: nat, put: Bypass) {
    exists one: (nat, nat), two: (nat, nat) :: Weighed(src, pos, lz, len0, dist0, one, two, len, dist, put)
  }

  /**
   one is what the search comes to a byte later, two, for a match of three bytes or more, what it comes to two bytes
   later.
   */
  ghost predicate Weighed(src: seq<byte>, pos: nat, lz: Lz, len0: nat, dist0: nat, one: (nat, nat), two: (nat, nat),
                          len: nat, dist: nat, put: Bypass) {
    && pos + 8 < |src| && Searched(src, pos + 1, lz, pos, one.0, one.1)
    && (len0 >= 3 ==> Searched(src, pos + 2, lz, pos, two.0, two.1))
    && Decided(src, pos, lz, len0, dist0, one, two, len, dist, put)
  }

  /**
   A better match takes the place of the one found, the nearer one when they are equal; two bytes ahead counts one
   less, and a recent distance can serve for both bytes.
   */
  ghost predicate Decided(src: seq<byte>, pos: nat, lz: Lz, len0: nat, dist0: nat, one: (nat, nat), two: (nat, nat),
                          len: nat, dist: nat, put: Bypass)
    requires pos + 8 < |src|
  {
    var score0, score1 := Score(len0, dist0, lz), Score(one.0, one.1, lz);
    var score2 := if len0 >= 3 then Score(two.0, two.1, lz) - 1 else 0;
    if score2 > score0 && score2 > score1 then
      LongestRep(src, pos, Reps(lz), 2, len, dist) && put == Bypass(if len < 2 then 1 else 0, two.0, two.1)
    else if score1 > score0 then (len, dist) == (0, 0) && put == Bypass(0, one.0, one.1)
    else (len, dist) == (len0, dist0) && put == NO_BYPASS
  }

  /** What is used at pos: what was stored, or what the search comes to, weighed if it is not near the end. */
  ghost predicate Chosen(src: seq<byte>, pos: nat, lz: Lz, stored: Bypass, len: nat, dist: nat, put: Bypass) {
    if stored.n > 0 then (len, dist) == (0, 0) && put == stored.(n := stored.n - 1)
    else if stored.len > 0 then (len, dist) == (stored.len, stored.dist) && put == NO_BYPASS
    else exists first: (nat, nat) :: ChosenFrom(src, pos, lz, first, len, dist, put)
  }

  ghost predicate ChosenFrom(src: seq<byte>, pos: nat, lz: Lz, first: (nat, nat), len: nat, dist: nat, put: Bypass) {
    && Searched(src, pos, lz, pos, first.0, first.1)
    && if |src| - pos > 8 && first.0 >= 2 then LookedAhead(src, pos, lz, first.0, first.1, len, dist, put)
       else (len, dist) == first && put == NO_BYPASS
  }

  /** The length and distance to use at pos, or length 0 for a single byte; and what is put off. */
  method ChooseMatch(src: seq<byte>, pos: nat, lz: Lz, table: HashTable, stored: Bypass)
    returns (len: nat, dist: nat, put: Bypass)
    requires table.Valid() && table.Holds(src, pos) && pos < |src| < INVALID_HASH_ITEM && RepsInRange(lz)
    requires BypassOk(src, pos, stored)
    ensures Found(src, pos, len, dist) && Chosen(src, pos, lz, stored, len, dist, put)
    ensures BypassOk(src, pos + (if len < 2 then 1 else len), put)
  {
    if stored.n > 0 {
      return 0, 0, stored.(n := stored.n - 1);
    }
    if stored.len > 0 {
      return stored.len, stored.dist, NO_BYPASS;
    }
    len, dist := Find(src, pos, lz, table, pos);
    ghost var first := (len, dist);
    put := NO_BYPASS;
    if |src| - pos > 8 && len >= 2 {
      len, dist, put := LookAhead(src, pos, lz, table, len, dist);
    }
    assert ChosenFrom(src, pos, lz, first, len, dist, put);
  }

  /** Puts the match off when one or two bytes later a better one starts. */
  method LookAhead(src: seq<byte>, pos: nat, lz: Lz, table: HashTable, len0: nat, dist0: nat)
    returns (len: nat, dist: nat, put: Bypass)
    requires table.Valid() && table.Holds(src, pos) && pos + 8 < |src| < INVALID_HASH_ITEM && RepsInRange(lz)
    requires Found(src, pos, len0, dist0) && len0 >= 2
    ensures Found(src, pos, len, dist) && LookedAhead(src, pos, lz, len0, dist0, len, dist, put)
    ensures BypassOk(src, pos + (if len < 2 then 1 else len), put)
    // either the match is used at once, or at most two bytes are coded before another
    ensures (len, dist, put) == (len0, dist0, NO_BYPASS) || len <= 2
    // a match that is put off is replaced by a better one
    ensures put != NO_BYPASS && put.len >= 2 ==>
              Score(len0, dist0, lz) < Score(put.len, put.dist, lz)
  {
    var len1, dist1, len2, dist2;
    len1, dist1 := Find(src, pos + 1, lz, table, pos);
    len2, dist2 := 0, 0;
    if len0 >= 3 {
      len2, dist2 := Find(src, pos + 2, lz, table, pos);
    }
    len, dist, put := Decide(src, pos, lz, len0, dist0, (len1, dist1), (len2, dist2));
  }

  /** Weighs the match found against those found ahead. */
  method Decide(src: seq<byte>, pos: nat, lz: Lz, len0: nat, dist0: nat, one: (nat, nat), two: (nat, nat))
    returns (len: nat, dist: nat, put: Bypass)
    requires pos + 8 < |src| < INVALID_HASH_ITEM && RepsInRange(lz) && Found(src, pos, len0, dist0) && len0 >= 2
    requires Found(src, pos + 1, one.0, one.1) && Searched(src, pos + 1, lz, pos, one.0, one.1)
    requires len0 >= 3 ==> Found(src, pos + 2, two.0, two.1) && Searched(src, pos + 2, lz, pos, two.0, two.1)
    ensures Found(src, pos, len, dist) && LookedAhead(src, pos, lz, len0, dist0, len, dist, put)
    ensures BypassOk(src, pos + (if len < 2 then 1 else len), put)
    ensures (len, dist, put) == (len0, dist0, NO_BYPASS) || len <= 2
    ensures put != NO_BYPASS && put.len >= 2 ==> Score(len0, dist0, lz) < Score(put.len, put.dist, lz)
  {
    var score0, score1 := Score(len0, dist0, lz), Score(one.0, one.1, lz);
    var score2 := if len0 >= 3 then Score(two.0, two.1, lz) - 1 else 0;
    len, dist, put := len0, dist0, NO_BYPASS;
    if score2 > score0 && score2 > score1 {
      len, dist := SearchRep(src, pos, lz, 2);
      put := Bypass(if len < 2 then 1 else 0, two.0, two.1);
    } else if score1 > score0 {
      len, dist := 0, 0;
      put := Bypass(0, one.0, one.1);
    }
    assert Weighed(src, pos, lz, len0, dist0, one, two, len, dist, put);
  }

  /** The packet has the length and distance chosen, and names a recent distance, as it does for one byte. */
  predicate Named(src: seq<byte>, pos: nat, lz: Lz, len: nat, dist: nat, p: Packet)
    requires pos < |src| && RepsInRange(lz)
  {
    && LengthOf(p) == (if len < 2 then 1 else len) && (len >= 2 ==> DistanceOf(lz, p) == dist)
    && (p.kind.Match? ==> dist !in {lz.rep0, lz.rep1, lz.rep2, lz.rep3})
    && (p.kind.Lit? ==> !IsShortRep(src, pos, lz.rep0))
  }

  /** The packet for a length and distance: a recent distance is named, not coded. */
  method Classify(src: seq<byte>, pos: nat, lz: Lz, len: nat, dist: nat) returns (p: Packet)
    requires pos < |src| && RepsInRange(lz) && Found(src, pos, len, dist)
    ensures Describes(src, pos, lz, p) && RepsInRange(NextLz(lz, p)) && Named(src, pos, lz, len, dist, p)
  {
    if len < 2 {
      if IsShortRep(src, pos, lz.rep0) {
        p := Packet(ShortRep, 0, 0, 0);
      } else {
        p := Packet(Lit, src[pos], 0, 0);
      }
    } else if dist == lz.rep0 {
      p := Packet(Rep0, 0, len, 0);
    } else if dist == lz.rep1 {
      p := Packet(Rep1, 0, len, 0);
    } else if dist == lz.rep2 {
      p := Packet(Rep2, 0, len, 0);
    } else if dist == lz.rep3 {
      p := Packet(Rep3, 0, len, 0);
    } else {
      p := Packet(Match, 0, len, dist);
    }
  }

  // ---------------------------------------------------------------- the encoding loop

  method EncoderContext(src: seq<byte>, pos: nat, lz: Lz) returns (c: Context)
    requires pos <= |src| && RepsInRange(lz) && lz.state < N_STATES && (pos > 0 ==> lz.rep0 <= pos)
    requires pos == 0 ==> lz.rep0 == 1
    ensures c == ContextAt(src[..pos], lz, ENCODER_PROPS)
    ensures c.state < N_STATES && c.posState < ENCODER_DIMS.posStates && TableInBounds(c.litTable, ENCODER_DIMS)
  {
    var matchByte: byte, prevMsbs := 0, 0;
    assert Pow2(8) == 256 && Pow2(0) == 1 by { SmallPowers(); }
    if pos > 0 {
      matchByte := src[pos - lz.rep0];
      prevMsbs := src[pos - 1] / Pow2(0) % Pow2(8);
    }
    c := Context(lz.state, 0, Literal(0, prevMsbs), matchByte);
  }

  /** What one turn at pos does: a packet for what is chosen. */
  ghost predicate Picked(src: seq<byte>, pos: nat, lz: Lz, stored: Bypass, p: Packet, put: Bypass) {
    pos < |src| && RepsInRange(lz)
    && exists len: nat, dist: nat :: Chosen(src, pos, lz, stored, len, dist, put) && Named(src, pos, lz, len, dist, p)
  }

  /** Turn k of a run; bs is what is stored before each turn, and in the end. */
  ghost predicate PickedAt(src: seq<byte>, ps: seq<Packet>, bs: seq<Bypass>, k: nat)
    requires k < |ps| && |bs| == |ps| + 1
  {
    Picked(src, EndPos(0, ps[..k]), EndLz(LZ_INIT, ps[..k]), bs[k], ps[k], bs[k + 1])
  }

  /** The run is what the search and the look ahead come to, from the start on. */
  ghost predicate Greedy(src: seq<byte>, ps: seq<Packet>, bs: seq<Bypass>) {
    |bs| == |ps| + 1 && bs[0] == NO_BYPASS && forall k: nat :: k < |ps| ==> PickedAt(src, ps, bs, k)
  }

  lemma GreedyOneMore(src: seq<byte>, ps: seq<Packet>, bs: seq<Bypass>, p: Packet, put: Bypass)
    requires Greedy(src, ps, bs)
    requires Picked(src, EndPos(0, ps), EndLz(LZ_INIT, ps), bs[|ps|], p, put)
    ensures Greedy(src, ps + [p], bs + [put])
  {
    var qs, cs := ps + [p], bs + [put];
    forall k: nat | k < |qs|
      ensures PickedAt(src, qs, cs, k)
    {
      if k < |ps| {
        assert PickedAt(src, ps, bs, k);
        assert qs[..k] == ps[..k] && qs[k] == ps[k] && cs[k] == bs[k] && cs[k + 1] == bs[k + 1];
      } else {
        assert qs[..k] == ps;
      }
    }
  }

  /** A turn of the loop begins: ps tells src up to pos. */
  ghost predicate Told(src: seq<byte>, pos: nat, lz: Lz, ps: seq<Packet>) {
    && Tells(src, 0, LZ_INIT, ps) && EndPos(0, ps) == pos <= |src| && EndLz(LZ_INIT, ps) == lz
    && RepsInRange(lz) && lz.state < N_STATES
    && if pos == 0 then lz.rep0 == 1 else lz.rep0 <= pos
  }

  /** The fields of ps, and nothing else, have been coded. */
  ghost predicate Written(e: RangeEncoder, t: ProbTables, src: seq<byte>, ps: seq<Packet>)
    requires Tells(src, 0, LZ_INIT, ps)
    reads e, e.dst, t
  {
    && t.dims == ENCODER_DIMS && e.Logged(t)
    && e.log == RunFields(PacketCoder(ENCODER_PROPS), src, 0, LZ_INIT, ps)
  }

  lemma ToldOneMore(src: seq<byte>, pos: nat, lz: Lz, ps: seq<Packet>, p: Packet)
    requires Told(src, pos, lz, ps) && Describes(src, pos, lz, p) && RepsInRange(NextLz(lz, p))
    ensures Told(src, pos + LengthOf(p), NextLz(lz, p), ps + [p])
  {
    TellsOneMore(PacketCoder(ENCODER_PROPS), src, 0, LZ_INIT, ps, p);
  }

  method WritePacket(e: RangeEncoder, t: ProbTables, src: seq<byte>, pos: nat, lz: Lz, ghost ps: seq<Packet>, p: Packet)
    requires Told(src, pos, lz, ps) && Written(e, t, src, ps) && Describes(src, pos, lz, p)
    modifies e, e.dst, t
    ensures Tells(src, 0, LZ_INIT, ps + [p]) && Written(e, t, src, ps + [p])
  {
    TellsOneMore(PacketCoder(ENCODER_PROPS), src, 0, LZ_INIT, ps, p);
    var c := EncoderContext(src, pos, lz);
    assert PacketCoder(ENCODER_PROPS)(src[..pos], lz, p) == PacketFields(c, p);
    PutPacket(e, t, c, p);
  }

  /** Between two turns: the run is true and greedy up to pos, where stored is stored. */
  ghost predicate UpTo(src: seq<byte>, pos: nat, lz: Lz, stored: Bypass, ps: seq<Packet>, bs: seq<Bypass>) {
    Told(src, pos, lz, ps) && BypassOk(src, pos, stored) && Greedy(src, ps, bs) && bs[|ps|] == stored
  }

  /** The packet of a turn. */
  method Pick(src: seq<byte>, pos: nat, lz: Lz, stored: Bypass, table: HashTable, ghost ps: seq<Packet>,
              ghost bs: seq<Bypass>)
    returns (p: Packet, put: Bypass)
    requires UpTo(src, pos, lz, stored, ps, bs) && table.Valid() && table.Holds(src, pos) && pos < |src| < INVALID_HASH_ITEM
    ensures Describes(src, pos, lz, p) && LengthOf(p) >= 1 && Picked(src, pos, lz, stored, p, put)
    ensures UpTo(src, pos + LengthOf(p), NextLz(lz, p), put, ps + [p], bs + [put])
  {
    var len, dist;
    len, dist, put := ChooseMatch(src, pos, lz, table, stored);
    p := Classify(src, pos, lz, len, dist);
    assert Picked(src, pos, lz, stored, p, put);
    ToldOneMore(src, pos, lz, ps, p);
    GreedyOneMore(src, ps, bs, p, put);
  }

  /** One turn of the loop. */
  method EncodeNext(e: RangeEncoder, t: ProbTables, src: seq<byte>, pos: nat, lz: Lz, stored: Bypass, table: HashTable,
                    ghost ps: seq<Packet>, ghost bs: seq<Bypass>)
    returns (p: Packet, put: Bypass)
    requires UpTo(src, pos, lz, stored, ps, bs) && Written(e, t, src, ps)
    requires table.Valid() && table.Holds(src, pos) && pos < |src| < INVALID_HASH_ITEM
    modifies e, e.dst, t, table.items
    ensures LengthOf(p) >= 1 && Picked(src, pos, lz, stored, p, put)
    ensures UpTo(src, pos + LengthOf(p), NextLz(lz, p), put, ps + [p], bs + [put]) && Written(e, t, src, ps + [p])
    ensures table.Valid() && table.Holds(src, pos + LengthOf(p))
  {
    p, put := Pick(src, pos, lz, stored, table, ps, bs);
    table.Register(src, pos, pos + LengthOf(p));
    WritePacket(e, t, src, pos, lz, ps, p);
  }

  /** The bytes of a run that tells src go to the buffer after what is already there. */
  method EncodeLoop(e: RangeEncoder, t: ProbTables, src: seq<byte>)
    returns (ghost ps: seq<Packet>, ghost bs: seq<Bypass>)
    requires Written(e, t, src, []) && |src| < INVALID_HASH_ITEM
    modifies e, e.dst, t
    ensures Tells(src, 0, LZ_INIT, ps) && Written(e, t, src, ps) && Greedy(src, ps, bs)
    ensures Covers(src, ps) || e.overflow
  {
    var table := new HashTable();
    var pos: nat, lz, stored := 0, LZ_INIT, NO_BYPASS;
    ps, bs := [], [NO_BYPASS];
    while !e.overflow && pos < |src|
      invariant UpTo(src, pos, lz, stored, ps, bs) && Written(e, t, src, ps)
      invariant table.Valid() && table.Holds(src, pos) && fresh(table.items)
      decreases |src| - pos
    {
      var p;
      p, stored := EncodeNext(e, t, src, pos, lz, stored, table, ps, bs);
      ps, bs := ps + [p], bs + [stored];
      pos := pos + LengthOf(p);
      lz := NextLz(lz, p);
    }
  }

  /** Bytes that did not fit before the end was coded do not fit afterwards. */
  lemma EncodedGrows(e: RangeEncoder, t: ProbTables)
    requires e.Coding(t)
    ensures e.overflow ==> |Encoded(ENC_INIT, e.bits)| > e.limit - e.start
  {
    OutputGrows(e.bits);
    assert e.Joint(t).out == e.model.out;
  }

  method StartEncoder(dst: array<byte>, start: nat, limit: nat, src: seq<byte>) returns (e: RangeEncoder, t: ProbTables)
    requires start <= limit <= dst.Length && limit - start < CACHE_SIZE_MAX
    ensures fresh(e) && fresh(t) && Written(e, t, src, [])
    ensures e.dst == dst && e.start == start && e.limit == limit && e.prefix == dst[..start]
  {
    e := new RangeEncoder(dst, start, limit);
    t := new ProbTables(ENCODER_DIMS);
    assert e.Joint(t) == EncSyms(ENC_INIT, e.bits);
  }

  /** Ends the run. */
  method Close(e: RangeEncoder, t: ProbTables, src: seq<byte>, ghost ps: seq<Packet>)
    requires Tells(src, 0, LZ_INIT, ps) && Written(e, t, src, ps)
    modifies e, e.dst
    ensures e.Holds(Coded(src, ps, ENCODER_PROPS))
    ensures old(e.overflow) ==> e.overflow
  {
    EncodedGrows(e, t);
    e.Terminate(t);
  }

  method EncodeAll(e: RangeEncoder, t: ProbTables, src: seq<byte>)
    returns (ghost ps: seq<Packet>, ghost bs: seq<Bypass>)
    requires Written(e, t, src, []) && |src| < INVALID_HASH_ITEM
    modifies e, e.dst, t
    ensures Tells(src, 0, LZ_INIT, ps) && e.Holds(Coded(src, ps, ENCODER_PROPS)) && Greedy(src, ps, bs)
    ensures Covers(src, ps) || e.overflow
  {
    ps, bs := EncodeLoop(e, t, src);
    Close(e, t, src, ps);
  }

  method Outcome(e: RangeEncoder, ghost coded: seq<byte>) returns (res: Result<nat, Error>)
    requires e.Holds(coded)
    ensures res.Err? <==> e.overflow
    ensures if |coded| > e.limit - e.start then res == Err(OutputOverflow)
            else res == Ok(|coded|) && e.dst[..e.start + |coded|] == e.prefix + coded
  {
    if e.overflow {
      return Err(OutputOverflow);
    }
    assert coded[..|coded|] == coded;
    return Ok(e.pos - e.start);
  }

  /**
   Fills the buffer from start on, up to limit, with the coded form of a run that covers src, the one to which the
   search leads.
   */
  method LzmaEncode(src: seq<byte>, dst: array<byte>, start: nat, limit: nat)
    returns (res: Result<nat, Error>, ghost ps: seq<Packet>, ghost bs: seq<Bypass>)
    requires |src| < INVALID_HASH_ITEM && start <= limit <= dst.Length && limit - start < CACHE_SIZE_MAX
    modifies dst
    ensures Tells(src, 0, LZ_INIT, ps) && Greedy(src, ps, bs)
    ensures
      var coded := Coded(src, ps, ENCODER_PROPS);
      if |coded| > limit - start then res == Err(OutputOverflow)
      else Covers(src, ps) && res == Ok(|coded|) && dst[..start + |coded|] == old(dst[..start]) + coded
  {
    var e, t := StartEncoder(dst, start, limit, src);
    ps, bs := EncodeAll(e, t, src);
    res := Outcome(e, Coded(src, ps, ENCODER_PROPS));
  }
}
