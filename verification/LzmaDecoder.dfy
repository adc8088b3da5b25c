/** The decoder as it runs: packets read bit by bit, bytes copied inside the output buffer. */
module LzmaDecoder {
  import opened Sequences
  import opened Bytes
  import opened Results
  import opened LzmaContexts
  import opened Bits
  import opened LzmaFields
  import opened LzmaDistances
  import opened LzmaPackets
  import opened Copying
  import opened LzmaStream
  import opened RangeEncoders
  import opened RangeDecoders

  // ---------------------------------------------------------------- one packet

  method ReadKindBits(d: RangeDecoder, t: ProbTables, state: nat, posState: nat) returns (kind: Kind)
    requires d.Trailed(t) && state < N_STATES && posState < t.dims.posStates
    modifies d, t
    ensures d.Trailed(t) && d.trail == old(d.trail) + KindFields(state, posState, kind)
  {
    var b := d.GetBit(t, Cell(IsMatch(state), posState));
    if b == 0 {
      return Lit;
    }
    kind := ReadMatchKindBits(d, t, state, posState);
    Grouped(old(d.trail), [Flag(IsMatch(state), posState, 1)], MatchKindFields(state, posState, kind));
  }

  method ReadMatchKindBits(d: RangeDecoder, t: ProbTables, state: nat, posState: nat) returns (kind: Kind)
    requires d.Trailed(t) && state < N_STATES && posState < t.dims.posStates
    modifies d, t
    ensures !kind.Lit?
    ensures d.Trailed(t) && d.trail == old(d.trail) + MatchKindFields(state, posState, kind)
  {
    var b := d.GetBit(t, Cell(IsRep, state));
    if b == 0 {
      return Match;
    }
    kind := ReadRepKindBits(d, t, state, posState);
    Grouped(old(d.trail), [Flag(IsRep, state, 1)], RepKindFields(state, posState, kind));
  }

  method ReadNearRepKindBits(d: RangeDecoder, t: ProbTables, state: nat, posState: nat) returns (kind: Kind)
    requires d.Trailed(t) && state < N_STATES && posState < t.dims.posStates
    modifies d, t
    ensures kind.ShortRep? || kind.Rep0?
    ensures d.Trailed(t) && d.trail == old(d.trail) + [Flag(IsRep0Long(state), posState, if kind.Rep0? then 1 else 0)]
  {
    var b := d.GetBit(t, Cell(IsRep0Long(state), posState));
    return if b == 1 then Rep0 else ShortRep;
  }

  method ReadRepKindBits(d: RangeDecoder, t: ProbTables, state: nat, posState: nat) returns (kind: Kind)
    requires d.Trailed(t) && state < N_STATES && posState < t.dims.posStates
    modifies d, t
    ensures !kind.Lit? && !kind.Match?
    ensures d.Trailed(t) && d.trail == old(d.trail) + RepKindFields(state, posState, kind)
  {
    var b := d.GetBit(t, Cell(IsRep0, state));
    if b == 0 {
      kind := ReadNearRepKindBits(d, t, state, posState);
      NearParts(old(d.trail), state, posState, kind);
    } else {
      kind := ReadFarRepKindBits(d, t, state);
      Grouped(old(d.trail), [Flag(IsRep0, state, 1)], FarRepFields(state, kind));
    }
  }

  lemma NearParts(before: seq<Field>, state: nat, posState: nat, kind: Kind)
    requires kind.ShortRep? || kind.Rep0?
    ensures
      before + [Flag(IsRep0, state, 0)] + [Flag(IsRep0Long(state), posState, if kind.Rep0? then 1 else 0)]
      == before + RepKindFields(state, posState, kind)
  {
  }

  method ReadFarRepKindBits(d: RangeDecoder, t: ProbTables, state: nat) returns (kind: Kind)
    requires d.Trailed(t) && state < N_STATES
    modifies d, t
    ensures IsFarRep(kind)
    ensures d.Trailed(t) && d.trail == old(d.trail) + FarRepFields(state, kind)
  {
    var b := d.GetBit(t, Cell(IsRep1, state));
    if b == 0 {
      return Rep1;
    }
    b := d.GetBit(t, Cell(IsRep2, state));
    return if b == 1 then Rep3 else Rep2;
  }

  method ReadLenBits(d: RangeDecoder, t: ProbTables, isRep: bit, posState: nat) returns (len: nat)
    requires d.Trailed(t) && posState < t.dims.posStates
    modifies d, t
    ensures 2 <= len <= 273
    ensures d.Trailed(t) && d.trail == old(d.trail) + LenFields(isRep, posState, len)
  {
    assert Pow2(3) == 8 by { SmallPowers(); }
    var b := d.GetBit(t, Cell(LenChoice, isRep));
    if b == 0 {
      len := d.GetNumber(t, LenLow(isRep, posState), 3);
      return 2 + len;
    }
    len := ReadLongLenBits(d, t, isRep, posState);
  }

  method ReadLongLenBits(d: RangeDecoder, t: ProbTables, isRep: bit, posState: nat) returns (len: nat)
    requires d.Trailed(t) && posState < t.dims.posStates
    modifies d, t
    ensures 10 <= len <= 273
    ensures d.Trailed(t) && d.trail == old(d.trail) + LongLenFields(isRep, posState, len)
  {
    assert Pow2(3) == 8 && Pow2(8) == 256 by { SmallPowers(); }
    var b := d.GetBit(t, Cell(LenChoice2, isRep));
    if b == 0 {
      len := d.GetNumber(t, LenMid(isRep, posState), 3);
      return 10 + len;
    }
    len := d.GetNumber(t, LenHigh(isRep), 8);
    return 18 + len;
  }

  /** The fields below a slot, read as numbers. */
  method ReadMiddleAndLow(d: RangeDecoder, t: ProbTables, slot: nat) returns (middle: nat, low: nat)
    requires d.Trailed(t) && 4 <= slot < 64
    modifies d, t
    ensures middle < Pow2(FreeBits(slot) - LowBits(slot)) && low < Pow2(LowBits(slot))
    ensures d.Trailed(t)
    ensures d.trail == old(d.trail)
              + (if slot < 14 then [] else [Field(Fixed(FreeBits(slot) - LowBits(slot)), middle)])
              + [Field(Number(LowTable(slot), LowBits(slot)), low)]
  {
    var free, lowBits := FreeBits(slot), LowBits(slot);
    middle := 0;
    assert Pow2(0) == 1;
    if slot >= 14 {
      middle := d.GetFixed(t, free - lowBits);
    }
    LowTableHolds(slot, t.dims);
    low := d.GetNumber(t, LowTable(slot), lowBits);
  }

  /** The fields that have been read are those of the distance they make. */
  lemma TailIs(slot: nat, middle: nat, low: nat)
    requires 4 <= slot < 64 && middle < Pow2(FreeBits(slot) - LowBits(slot)) && low < Pow2(LowBits(slot))
    ensures
      var dist := SlotBase(slot) + Shl(middle, LowBits(slot)) + Reverse(low, LowBits(slot));
      var top := if slot < 14 then [] else [Field(Fixed(FreeBits(slot) - LowBits(slot)), middle)];
      && SlotOf(dist) == slot && dist < TWO32
      && DistTail(dist, slot) == top + [Field(Number(LowTable(slot), LowBits(slot)), low)]
  {
    ReverseBound(low, LowBits(slot));
    ReverseTwice(low, LowBits(slot));
    PartsOfSum(slot, middle, Reverse(low, LowBits(slot)));
    PartsFit(slot, middle, Reverse(low, LowBits(slot)));
  }

  /** The bits below the slot; the distance they make is one that has this slot. */
  method ReadDistTailBits(d: RangeDecoder, t: ProbTables, slot: nat) returns (dist: nat)
    requires d.Trailed(t) && slot < 64
    modifies d, t
    ensures SlotOf(dist) == slot && dist < TWO32
    ensures d.Trailed(t) && d.trail == old(d.trail) + DistTail(dist, slot)
  {
    if slot < 4 {
      return slot;
    }
    var middle, low := ReadMiddleAndLow(d, t, slot);
    TailIs(slot, middle, low);
    var rev := BitsReverse(low, LowBits(slot));
    dist := Shl(2 + slot % 2, slot / 2 - 1) + Shl(middle, LowBits(slot)) + rev;
    ghost var top := if slot < 14 then [] else [Field(Fixed(FreeBits(slot) - LowBits(slot)), middle)];
    Grouped(old(d.trail), top, [Field(Number(LowTable(slot), LowBits(slot)), low)]);
  }

  method ReadDistBits(d: RangeDecoder, t: ProbTables, len: nat) returns (dist: nat)
    requires d.Trailed(t) && len >= 2
    modifies d, t
    ensures dist < TWO32
    ensures d.Trailed(t) && d.trail == old(d.trail) + DistFields(len, dist)
  {
    assert Pow2(6) == 64 by { SmallPowers(); }
    var slot := d.GetNumber(t, DistSlot(LenClass(len)), 6);
    dist := ReadDistTailBits(d, t, slot);
  }

  method ReadLitBits(d: RangeDecoder, t: ProbTables, c: Context) returns (b: byte)
    requires d.Trailed(t) && TableInBounds(c.litTable, t.dims) && c.litTable.Literal?
    modifies d, t
    ensures d.Trailed(t) && d.trail == old(d.trail) + [Field(LitUnit(c), b)]
  {
    assert Pow2(8) == 256 by { SmallPowers(); }
    if c.state < N_LIT_STATES {
      b := d.GetNumber(t, c.litTable, 8);
    } else {
      b := d.GetMatchedByte(t, c.litTable, c.matchByte);
    }
  }

  method ReadMatchBodyBits(d: RangeDecoder, t: ProbTables, posState: nat) returns (len: nat, dist: nat)
    requires d.Trailed(t) && posState < t.dims.posStates
    modifies d, t
    ensures 2 <= len <= 273 && dist < TWO32
    ensures d.Trailed(t) && d.trail == old(d.trail) + (LenFields(0, posState, len) + DistFields(len, dist))
  {
    len := ReadLenBits(d, t, 0, posState);
    dist := ReadDistBits(d, t, len);
    Grouped(old(d.trail), LenFields(0, posState, len), DistFields(len, dist));
  }

  method ReadBodyBits(d: RangeDecoder, t: ProbTables, c: Context, kind: Kind) returns (p: Packet)
    requires d.Trailed(t) && c.posState < t.dims.posStates
    requires TableInBounds(c.litTable, t.dims) && c.litTable.Literal?
    modifies d, t
    ensures WellFormed(p) && p.kind == kind
    ensures d.Trailed(t) && d.trail == old(d.trail) + BodyFields(c, p)
  {
    match kind
    case Lit =>
      var b := ReadLitBits(d, t, c);
      p := Packet(kind, b, 0, 0);
    case ShortRep =>
      p := Packet(kind, 0, 0, 0);
    case Match =>
      var len, dist := ReadMatchBodyBits(d, t, c.posState);
      p := Packet(kind, 0, len, dist + 1);
    case _ =>
      var len := ReadLenBits(d, t, 1, c.posState);
      p := Packet(kind, 0, len, 0);
  }

  /** The fields read are those the encoder codes for the packet returned. */
  method ReadPacketBits(d: RangeDecoder, t: ProbTables, c: Context) returns (p: Packet)
    requires d.Trailed(t) && c.state < N_STATES && c.posState < t.dims.posStates
    requires TableInBounds(c.litTable, t.dims) && c.litTable.Literal?
    modifies d, t
    ensures WellFormed(p)
    ensures d.Trailed(t) && d.trail == old(d.trail) + PacketFields(c, p)
  {
    var kind := ReadKindBits(d, t, c.state, c.posState);
    p := ReadBodyBits(d, t, c, kind);
    Grouped(old(d.trail), KindFields(c.state, c.posState, kind), BodyFields(c, p));
  }

  // ---------------------------------------------------------------- the output buffer

  method ContextOf(dst: array<byte>, pos: nat, prevByte: byte, lz: Lz, props: Props) returns (c: Context)
    requires Supported(props) && pos <= dst.Length && RepsPositive(lz) && lz.state < N_STATES
    requires prevByte == if pos == 0 then 0 else dst[pos - 1]
    ensures c == ContextAt(dst[..pos], lz, props)
    ensures c.state < N_STATES && c.posState < DECODER_DIMS.posStates && TableInBounds(c.litTable, DECODER_DIMS)
  {
    var matchByte: byte := 0;
    if pos >= lz.rep0 {
      matchByte := dst[pos - lz.rep0];
    }
    assert Pow2(8) == 256 && Pow2(4) == 16 by { SmallPowers(); }
    Pow2Monotone(props.pb, 4);
    Pow2Monotone(props.lp, 4);
    Pow2Monotone(props.lc, 8);
    c := Context(lz.state, pos % Pow2(props.pb),
                 Literal(pos % Pow2(props.lp), prevByte / Pow2(8 - props.lc) % Pow2(props.lc)), matchByte);
  }

  /** Carries the packet out on the buffer. */
  method CarryOut(dst: array<byte>, pos: nat, lz: Lz, p: Packet) returns (lastByte: byte)
    requires WellFormed(p) && pos + LengthOf(p) <= dst.Length
    requires p.kind.Lit? || 1 <= DistanceOf(lz, p) <= pos
    modifies dst
    ensures dst[..pos + LengthOf(p)] == Output(old(dst[..pos]), lz, p)
    ensures lastByte == dst[pos + LengthOf(p) - 1]
  {
    if p.kind.Lit? {
      dst[pos] := p.lit;
      lastByte := p.lit;
      assert dst[..pos + 1] == old(dst[..pos]) + [p.lit];
    } else {
      lastByte := CopyWithin(dst, pos, DistanceOf(lz, p), LengthOf(p));
    }
  }

  // ---------------------------------------------------------------- the decoding loop

  /** What is known of the last packet at the head of the loop. */
  ghost predicate AtHead(d: RangeDecoder, t: ProbTables, l: LastRead, out: seq<byte>, lz: Lz, limit: nat, props: Props)
    requires Supported(props)
    reads d, t
  {
    && d.Trailed(t)
    && Stands(d.src, l, limit, props) && (l.NoPacket? || Applies(l))
    && out == OutputSoFar(l)
    && d.trail == FieldsRead(l, props)
    && lz == (if l.NoPacket? then LZ_INIT else NextLz(EndLz(LZ_INIT, l.ps), l.p))
  }

  /** The run that ends with the last packet. */
  ghost function RunOf(l: LastRead): seq<Packet> {
    if l.NoPacket? then [] else l.ps + [l.p]
  }

  lemma RunOfTells(l: LastRead, src: seq<byte>, limit: nat, props: Props)
    requires Supported(props) && Stands(src, l, limit, props) && (l.NoPacket? || Applies(l))
    ensures Tells(OutputSoFar(l), 0, LZ_INIT, RunOf(l)) && EndPos(0, RunOf(l)) == |OutputSoFar(l)|
    ensures EndLz(LZ_INIT, RunOf(l)) == if l.NoPacket? then LZ_INIT else NextLz(EndLz(LZ_INIT, l.ps), l.p)
    ensures RunFields(PacketCoder(props), OutputSoFar(l), 0, LZ_INIT, RunOf(l)) == FieldsRead(l, props)
    ensures RepsPositive(EndLz(LZ_INIT, RunOf(l)))
  {
    if l.LastRead? {
      RunCarriesOut(PacketCoder(props), l.out, l.ps, l.p);
      TellsBounds(OutputSoFar(l), 0, LZ_INIT, RunOf(l));
    }
  }

  /** Reads the next packet at the head of the loop, with input left. */
  method NextPacket(d: RangeDecoder, t: ProbTables, dst: array<byte>, pos: nat, prevByte: byte, lz: Lz,
                    ghost l: LastRead,
                    limit: nat, props: Props)
    returns (p: Packet, ghost next: LastRead)
    requires Supported(props) && t.dims == DECODER_DIMS && lz.state < N_STATES
    requires pos < limit <= dst.Length && prevByte == if pos == 0 then 0 else dst[pos - 1]
    requires AtHead(d, t, l, dst[..pos], lz, limit, props) && !d.overflow
    modifies d, t
    ensures d.Trailed(t) && WellFormed(p) && RepsPositive(lz)
    ensures next.LastRead? && next.out == dst[..pos] && next.p == p && EndLz(LZ_INIT, next.ps) == lz
    ensures Stands(d.src, next, limit, props)
    ensures d.trail == FieldsRead(next, props)
  {
    RunOfTells(l, d.src, limit, props);
    next := LastRead(dst[..pos], RunOf(l), Packet(Lit, 0, 0, 0));
    assert StandAfter(d.src, d.trail) == d.Joint(t);
    var c := ContextOf(dst, pos, prevByte, lz, props);
    p := ReadPacketBits(d, t, c);
    next := next.(p := p);
    assert PacketCoder(props)(dst[..pos], lz, p) == PacketFields(c, p);
  }

  /** The packet p, read at pos, ends the loop. */
  predicate Halts(p: Packet, lz: Lz, pos: nat, limit: nat) {
    IsEndMark(p) || DistanceOf(lz, p) > pos || pos + LengthOf(p) > limit
  }

  /** The decoder's answer when the packet ends the loop. */
  ghost function Verdict(p: Packet, lz: Lz, pos: nat): Result<nat, Error> {
    if IsEndMark(p) then Ok(pos) else if DistanceOf(lz, p) > pos then Err(DataError) else Err(OutputOverflow)
  }

  method Judge(p: Packet, lz: Lz, pos: nat, limit: nat) returns (res: Result<nat, Error>)
    requires Halts(p, lz, pos, limit)
    ensures res == Verdict(p, lz, pos)
  {
    if IsEndMark(p) {
      return Ok(pos);
    }
    if DistanceOf(lz, p) > pos {
      return Err(DataError);
    }
    return Err(OutputOverflow);
  }

  lemma StoppedByPacket(src: seq<byte>, l: LastRead, lz: Lz, limit: nat, props: Props)
    requires Supported(props) && l.LastRead? && Stands(src, l, limit, props) && lz == EndLz(LZ_INIT, l.ps)
    requires Halts(l.p, lz, |l.out|, limit)
    ensures
      var res := Verdict(l.p, lz, |l.out|);
      Stopped(src, l, limit, props, if res.Ok? then Ok(l.out) else Err(res.error)) && (res.Ok? ==> res.value == |l.out|)
  {
  }

  lemma StoppedAtHead(d: RangeDecoder, t: ProbTables, l: LastRead, out: seq<byte>, lz: Lz, limit: nat, props: Props)
    requires Supported(props) && AtHead(d, t, l, out, lz, limit, props) && |out| <= limit
    ensures |out| == limit ==> Stopped(d.src, l, limit, props, Ok(out))
    ensures |out| < limit && d.overflow ==> Stopped(d.src, l, limit, props, Err(InputOverflow))
  {
    assert d.Joint(t) == StandAfter(d.src, d.trail);
  }

  /** One turn of the loop, with input left: either the packet stops it, or it is carried out. */
  method Turn(d: RangeDecoder, t: ProbTables, dst: array<byte>, pos: nat, prevByte: byte, lz: Lz, ghost l: LastRead,
              limit: nat, props: Props)
    returns (stop: bool, res: Result<nat, Error>, pos': nat, prevByte': byte, lz': Lz, ghost next: LastRead)
    requires Supported(props) && t.dims == DECODER_DIMS && lz.state < N_STATES
    requires pos < limit <= dst.Length && prevByte == if pos == 0 then 0 else dst[pos - 1]
    requires AtHead(d, t, l, dst[..pos], lz, limit, props) && !d.overflow
    modifies d, t, dst
    ensures stop ==> res.Ok? ==> res.value <= limit
    ensures stop ==> Stopped(d.src, next, limit, props, if res.Ok? then Ok(dst[..res.value]) else Err(res.error))
    ensures !stop ==> pos < pos' <= limit && lz'.state < N_STATES && prevByte' == dst[pos' - 1]
    ensures !stop ==> AtHead(d, t, next, dst[..pos'], lz', limit, props)
  {
    var p;
    p, next := NextPacket(d, t, dst, pos, prevByte, lz, l, limit, props);
    stop, res, pos', prevByte', lz' := Finish(dst, pos, lz, p, next, limit);
    if stop {
      StoppedByPacket(d.src, next, lz, limit, props);
    }
  }

  /** What becomes of the packet that has been read. */
  method Finish(dst: array<byte>, pos: nat, lz: Lz, p: Packet, ghost l: LastRead, limit: nat)
    returns (stop: bool, res: Result<nat, Error>, pos': nat, prevByte': byte, lz': Lz)
    requires l.LastRead? && lz == EndLz(LZ_INIT, l.ps) && pos < limit <= dst.Length && l.out == dst[..pos] && l.p == p
    requires lz.state < N_STATES && RepsPositive(lz) && WellFormed(p)
    modifies dst
    ensures stop <==> Halts(p, lz, pos, limit)
    ensures stop ==> dst[..pos] == l.out && res == Verdict(p, lz, pos)
    ensures !stop ==> pos < pos' <= limit && lz'.state < N_STATES && prevByte' == dst[pos' - 1]
    ensures !stop ==> Applies(l) && dst[..pos'] == OutputSoFar(l) && lz' == NextLz(lz, p)
  {
    stop, res, pos', prevByte', lz' := Halts(p, lz, pos, limit), Ok(pos), pos, 0, lz;
    if stop {
      res := Judge(p, lz, pos, limit);
    } else {
      pos', prevByte', lz' := Advance(dst, pos, lz, p, l);
    }
  }

  method Advance(dst: array<byte>, pos: nat, lz: Lz, p: Packet, ghost l: LastRead)
    returns (pos': nat, prevByte': byte, lz': Lz)
    requires lz.state < N_STATES && RepsPositive(lz) && pos + LengthOf(p) <= dst.Length
    requires l.LastRead? && l.out == dst[..pos] && l.p == p && EndLz(LZ_INIT, l.ps) == lz && WellFormed(p)
    requires !IsEndMark(p) && DistanceOf(lz, p) <= pos
    modifies dst
    ensures pos < pos' == pos + LengthOf(p) && prevByte' == dst[pos' - 1]
    ensures Applies(l) && dst[..pos'] == OutputSoFar(l) && lz' == NextLz(lz, p) && lz'.state < N_STATES
  {
    HeadAfterPacket(l, lz);
    prevByte' := CarryOut(dst, pos, lz, p);
    pos' := pos + LengthOf(p);
    lz' := NextLz(lz, p);
  }

  lemma HeadAfterPacket(l: LastRead, lz: Lz)
    requires l.LastRead? && EndLz(LZ_INIT, l.ps) == lz && RepsPositive(lz) && WellFormed(l.p)
    requires !IsEndMark(l.p) && DistanceOf(lz, l.p) <= |l.out|
    ensures Applies(l) && OutputSoFar(l) == Output(l.out, lz, l.p)
  {
  }

  method DecodeLoop(src: seq<byte>, dst: array<byte>, limit: nat, props: Props)
    returns (res: Result<nat, Error>, ghost l: LastRead)
    requires Supported(props) && limit <= dst.Length
    modifies dst
    ensures res.Ok? ==> res.value <= limit
    ensures Stopped(src, l, limit, props, if res.Ok? then Ok(dst[..res.value]) else Err(res.error))
  {
    var d := new RangeDecoder(src);
    var t := new ProbTables(DECODER_DIMS);
    var prevByte: byte, pos := 0, 0;
    var lz := LZ_INIT;
    l := NoPacket;
    while pos < limit
      invariant fresh(d) && fresh(t) && d.src == src && t.dims == DECODER_DIMS
      invariant 0 <= pos <= limit && lz.state < N_STATES
      invariant prevByte == if pos == 0 then 0 else dst[pos - 1]
      invariant AtHead(d, t, l, dst[..pos], lz, limit, props)
      decreases limit - pos
    {
      if d.overflow {
        StoppedAtHead(d, t, l, dst[..pos], lz, limit, props);
        return Err(InputOverflow), l;
      }
      var stop;
      stop, res, pos, prevByte, lz, l := Turn(d, t, dst, pos, prevByte, lz, l, limit, props);
      if stop {
        return;
      }
    }
    StoppedAtHead(d, t, l, dst[..pos], lz, limit, props);
    return Ok(pos), l;
  }

  /** The running decoder computes Decode: same output, or same error, on every input. */
  method LzmaDecode(src: seq<byte>, dst: array<byte>, limit: nat, props: Props) returns (res: Result<nat, Error>)
    requires Supported(props) && limit <= dst.Length
    modifies dst
    ensures match Decode(src, limit, props)
            case Ok(out) => res == Ok(|out|) && |out| <= limit && dst[..|out|] == out
            case Err(e) => res == Err(e)
  {
    ghost var l;
    res, l := DecodeLoop(src, dst, limit, props);
    StoppedIsDecode(src, l, limit, props, if res.Ok? then Ok(dst[..res.value]) else Err(res.error));
  }
}
