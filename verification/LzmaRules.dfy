/** What the format prescribes, in numbers: states, recent distances, flags, contexts and probabilities. */
module LzmaRules {
  import opened Bytes
  import opened Bits
  import opened LzmaContexts
  import opened RangeCoder
  import opened LzmaBits
  import opened LzmaFields
  import opened LzmaDistances
  import opened LzmaPackets
  import opened LzmaStream

  // ---------------------------------------------------------------- what a run leaves behind

  lemma {:induction false} EndOneMore(lz: Lz, ps: seq<Packet>)
    requires ps != []
    ensures EndLz(lz, ps) == NextLz(EndLz(lz, ps[..|ps| - 1]), ps[|ps| - 1])
    decreases |ps|
  {
    var qs := ps[..|ps| - 1];
    if qs == [] {
      assert ps[1..] == [];
    } else {
      assert ps[1..][..|ps| - 2] == qs[1..] && ps[1..][|ps| - 2] == ps[|ps| - 1];
      EndOneMore(NextLz(lz, ps[0]), ps[1..]);
    }
  }

  /** How many literals the run ends with. */
  function LiteralsBehind(ps: seq<Packet>): (k: nat)
    ensures k <= |ps| && (k < |ps| ==> !ps[|ps| - 1 - k].kind.Lit?)
  {
    if ps == [] || !ps[|ps| - 1].kind.Lit? then 0
    else
      var front := ps[..|ps| - 1];
      assert forall i :: 0 <= i < |front| ==> front[i] == ps[i];
      1 + LiteralsBehind(front)
  }

  /** Packet i comes directly behind a copy. */
  predicate BehindCopy(ps: seq<Packet>, i: nat)
    requires i < |ps|
  {
    i > 0 && !ps[i - 1].kind.Lit?
  }

  /**
   The state that belongs to a history: 0 while there are only literals or three of them have followed a copy; 7, 8
   and 9 right behind a match, a repeat and a repeat of one byte, 3 less with each literal behind it; and
   directly behind another copy 10 and 11, with which a match and a repeat of one byte are as their next of kin.
   */
  predicate StateOf(ps: seq<Packet>, state: nat) {
    var k := LiteralsBehind(ps);
    if k == |ps| || k >= 3 then state == 0
    else
      var c := |ps| - 1 - k;
      var kind, again := ps[c].kind, BehindCopy(ps, c);
      if k == 0 && again then state == if kind.Match? then 10 else 11
      else state == 7 - 3 * k + if kind.Match? then 0 else if kind.ShortRep? && !again then 2 else 1
  }

  /** The state is fixed by the history. */
  lemma {:induction false} StateFollowsHistory(ps: seq<Packet>)
    ensures StateOf(ps, EndLz(LZ_INIT, ps).state)
    decreases |ps|
  {
    if ps != [] {
      var front := ps[..|ps| - 1];
      StateFollowsHistory(front);
      EndOneMore(LZ_INIT, ps);
      assert forall i :: 0 <= i < |front| ==> front[i] == ps[i];
    }
  }

  /** Which of the recent distances a packet uses; 4 is a new one. */
  function Place(kind: Kind): nat {
    match kind
    case Match => 4
    case Rep1 => 1
    case Rep2 => 2
    case Rep3 => 3
    case _ => 0
  }

  function Recent(lz: Lz): seq<nat> { [lz.rep0, lz.rep1, lz.rep2, lz.rep3] }

  /** The distance used comes to the front, the others keep their order; a new one pushes the last one out. */
  lemma UsedMovesToFront(lz: Lz, p: Packet)
    ensures
      var all, i := Recent(lz) + [p.dist], Place(p.kind);
      && Recent(NextLz(lz, p)) == ([all[i]] + all[..i] + all[i + 1..])[..4]
      && (!p.kind.Lit? ==> DistanceOf(lz, p) == all[i])
  {
    var all := Recent(lz) + [p.dist];
    match p.kind {
      case Match => assert [all[4]] + all[..4] == [p.dist, lz.rep0, lz.rep1, lz.rep2, lz.rep3];
      case Rep1 =>
      case Rep2 =>
      case Rep3 =>
      case _ =>
    }
  }

  /** A literal is coded against the byte one distance back exactly when it comes directly behind a copy. */
  lemma LiteralAgainstMatch(ps: seq<Packet>, out: seq<byte>, props: Props)
    requires Supported(props)
    ensures
      var lz := EndLz(LZ_INIT, ps);
      var c := ContextAt(out, lz, props);
      if ps != [] && !ps[|ps| - 1].kind.Lit?
      then LitUnit(c) == MatchedByte(c.litTable, if 1 <= lz.rep0 <= |out| then out[|out| - lz.rep0] else 0)
      else LitUnit(c) == Number(c.litTable, 8)
  {
    StateFollowsHistory(ps);
  }

  /** The upper bits of the byte before, and the lower bits of the position. */
  lemma ContextInNumbers(out: seq<byte>, lz: Lz, props: Props)
    requires Supported(props)
    ensures
      var c := ContextAt(out, lz, props);
      var prev := if out == [] then 0 else out[|out| - 1];
      && c.posState < Pow2(props.pb) && (|out| - c.posState) % Pow2(props.pb) == 0
      && c.litTable.Literal?
      && c.litTable.posState < Pow2(props.lp) && (|out| - c.litTable.posState) % Pow2(props.lp) == 0
      && c.litTable.prevMsbs * Pow2(8 - props.lc) <= prev < (c.litTable.prevMsbs + 1) * Pow2(8 - props.lc)
  {
    var prev: byte := if out == [] then 0 else out[|out| - 1];
    LessRest(|out|, Pow2(props.pb));
    LessRest(|out|, Pow2(props.lp));
    UpperBits(prev, props.lc, Pow2(8 - props.lc));
  }

  lemma LessRest(x: nat, p: nat)
    requires p > 0
    ensures x % p < p && (x - x % p) % p == 0
  {
    assert x == x / p * p + x % p;
    RemainderIs(x - x % p, p, x / p, 0);
  }

  lemma UpperBits(b: byte, lc: nat, w: nat)
    requires lc <= 8 && w == Pow2(8 - lc)
    ensures b / w % Pow2(lc) * w <= b < (b / w % Pow2(lc) + 1) * w
  {
    SmallPowers();
    Pow2Add(lc, 8 - lc);
    QuotientBelow(b, w, Pow2(lc), b / w);
  }

  lemma QuotientBelow(b: nat, w: nat, p: nat, q: nat)
    requires w > 0 && p > 0 && b < p * w && q == b / w
    ensures q < p && q % p == q && q * w <= b < (q + 1) * w
  {
    QuotientWithin(b, w, q);
    if q >= p {
      NextMultiple(p - 1, q, w);
    }
    RemainderIs(q, p, 0, q);
  }

  lemma QuotientWithin(b: nat, w: nat, q: nat)
    requires w > 0 && q == b / w
    ensures q * w <= b < (q + 1) * w
  {
    assert b == q * w + b % w;
  }

  // ---------------------------------------------------------------- the symbols of a number

  lemma {:induction false} ShiftedTwice(x: nat, a: nat, b: nat)
    ensures Shr(Shr(x, a), b) == Shr(x, a + b)
  {
    if b > 0 {
      ShiftedTwice(x, a, b - 1);
    }
  }

  /** The top k of the low n bits of v. */
  function TopBits(v: nat, n: nat, k: nat): nat
    requires k <= n
  {
    v / Pow2(n - k) % Pow2(k)
  }

  lemma TopBitsBegin(v: nat, n: nat, k: nat)
    requires 0 < k <= n
    ensures TopBits(v, n, k) == BitAt(v, n - 1) * Pow2(k - 1) + TopBits(v, n - 1, k - 1)
    ensures TopBits(v, n - 1, k - 1) < Pow2(k - 1)
  {
    var x := Shr(v, n - k);
    ShrIsDiv(v, n - k);
    TopBit(x, k);
    ShiftedTwice(v, n - k, k - 1);
  }

  /** Equal beginnings are equal bit by bit. */
  lemma SameTopBits(v: nat, w: nat, n: nat, k: nat)
    requires 0 < k <= n
    ensures
      TopBits(v, n, k) == TopBits(w, n, k)
      <==> BitAt(v, n - 1) == BitAt(w, n - 1) && TopBits(v, n - 1, k - 1) == TopBits(w, n - 1, k - 1)
  {
    TopBitsBegin(v, n, k);
    TopBitsBegin(w, n, k);
  }

  /** Bit k from the top of the low n bits of v. */
  function BitFromTop(v: nat, n: nat, k: nat): bit
    requires k < n
  {
    v / Pow2(n - 1 - k) % 2
  }

  /** Every bit is coded under the number that the bits above it make behind a leading 1. */
  lemma {:induction false} TreeSymbol(t: Table, val: nat, n: nat, node: nat, k: nat)
    requires k < n
    ensures |TreeSyms(t, val, n, node)| == n
    ensures TreeSyms(t, val, n, node)[k]
         == Sym(Adaptive(Cell(t, node * Pow2(k) + TopBits(val, n, k) - 1)), BitFromTop(val, n, k))
    decreases n
  {
    TreeLength(t, val, n, node);
    var b := BitAt(val, n - 1);
    if k == 0 {
      ShrIsDiv(val, n - 1);
    } else {
      TreeSymbol(t, val, n - 1, 2 * node + b, k - 1);
      TopBitsBegin(val, n, k);
      Regroup(node, b, Pow2(k - 1), TopBits(val, n - 1, k - 1));
    }
  }

  lemma {:induction false} TreeLength(t: Table, val: nat, n: nat, node: nat)
    ensures |TreeSyms(t, val, n, node)| == n
    decreases n
  {
    if n > 0 {
      TreeLength(t, val, n - 1, 2 * node + BitAt(val, n - 1));
    }
  }

  /** The half of the table that the bit of the match byte names, as long as the bits above agree. */
  function Half(off: nat, agree: bool, m: bit): nat { if !agree then 0 else if m == 0 then off else 2 * off }

  /** The same in two more halves of the table as long as the bits above are those of the match byte. */
  lemma {:induction false} MatchedSymbol(t: Table, val: nat, w: nat, n: nat, node: nat, off: nat, k: nat)
    requires k < n
    ensures |MatchedSyms(t, val, w, n, node, off)| == n
    ensures
      var half := Half(off, TopBits(val, n, k) == TopBits(w, n, k), BitFromTop(w, n, k));
      MatchedSyms(t, val, w, n, node, off)[k]
      == Sym(Adaptive(Cell(t, half + node * Pow2(k) + TopBits(val, n, k) - 1)), BitFromTop(val, n, k))
    decreases n
  {
    MatchedLength(t, val, w, n, node, off);
    if k == 0 {
      MatchedFirst(t, val, w, n, node, off);
    } else {
      var b, m := BitAt(val, n - 1), BitAt(w, n - 1);
      MatchedSymbol(t, val, w, n - 1, 2 * node + b, NextOffset(off, m, b), k - 1);
      MatchedRest(t, val, w, n, node, off, k);
      TopBitsBegin(val, n, k);
      SameTopBits(val, w, n, k);
      Regroup(node, b, Pow2(k - 1), TopBits(val, n - 1, k - 1));
    }
  }

  lemma MatchedFirst(t: Table, val: nat, w: nat, n: nat, node: nat, off: nat)
    requires n > 0
    ensures TopBits(val, n, 0) == TopBits(w, n, 0) == 0 && Pow2(0) == 1
    ensures MatchedSyms(t, val, w, n, node, off)[0]
         == Sym(Adaptive(Cell(t, Half(off, true, BitFromTop(w, n, 0)) + node - 1)), BitFromTop(val, n, 0))
  {
    ShrIsDiv(val, n - 1);
    ShrIsDiv(w, n - 1);
  }

  lemma MatchedRest(t: Table, val: nat, w: nat, n: nat, node: nat, off: nat, k: nat)
    requires 0 < k < n && |MatchedSyms(t, val, w, n, node, off)| == n
    ensures
      var b, m := BitAt(val, n - 1), BitAt(w, n - 1);
      var rest := MatchedSyms(t, val, w, n - 1, 2 * node + b, NextOffset(off, m, b));
      |rest| == n - 1 && MatchedSyms(t, val, w, n, node, off)[k] == rest[k - 1]
  {
  }

  lemma {:induction false} MatchedLength(t: Table, val: nat, w: nat, n: nat, node: nat, off: nat)
    ensures |MatchedSyms(t, val, w, n, node, off)| == n
    decreases n
  {
    if n > 0 {
      var b, m := BitAt(val, n - 1), BitAt(w, n - 1);
      MatchedLength(t, val, w, n - 1, 2 * node + b, NextOffset(off, m, b));
    }
  }

  lemma {:induction false} DirectSymbol(val: nat, n: nat, k: nat)
    requires k < n
    ensures |DirectSyms(val, n)| == n && DirectSyms(val, n)[k] == Sym(Direct, BitFromTop(val, n, k))
    decreases n
  {
    ShrIsDiv(val, n - 1);
    if n > 1 {
      DirectSymbol(val, n - 1, if k == 0 then 0 else k - 1);
    }
  }

  /**
   What bit k of a unit is coded under: its own cell; the number that the bits in front of it make behind a
   leading 1; the same in the half of two more that the next bit of the match byte names, as long as all
   bits in front agree with it; or nothing.
   */
  function CodedUnder(u: Unit, val: nat, k: nat): Model
    requires k < UnitBits(u)
  {
    var n := UnitBits(u);
    var path := Pow2(k) + TopBits(val, n, k) - 1;
    match u
    case OneBit(c) => Adaptive(c)
    case Number(t, _) => Adaptive(Cell(t, path))
    case MatchedByte(t, w) =>
      if TopBits(val, n, k) != TopBits(w, n, k) then Adaptive(Cell(t, path))
      else if BitFromTop(w, n, k) == 0 then Adaptive(Cell(t, 256 + path))
      else Adaptive(Cell(t, 512 + path))
    case Fixed(_) => Direct
  }

  /** The symbols of a field are its bits from the top. */
  lemma FieldSymbol(f: Field, k: nat)
    requires k < UnitBits(f.unit)
    ensures |FieldSyms(f)| == UnitBits(f.unit)
    ensures FieldSyms(f)[k] == Sym(CodedUnder(f.unit, f.val, k), BitFromTop(f.val, UnitBits(f.unit), k))
  {
    match f.unit {
      case OneBit(_) => assert Pow2(0) == 1;
      case Number(t, n) => TreeSymbol(t, f.val, n, 1, k);
      case MatchedByte(t, w) => MatchedSymbol(t, f.val, w, UnitBits(f.unit), 1, 256, k);
      case Fixed(n) => DirectSymbol(f.val, n, k);
    }
  }

  // ---------------------------------------------------------------- the fields of a packet

  /** The flags by which the kinds of packets differ. */
  lemma FlagsOfKind(state: nat, posState: nat, kind: Kind)
    ensures
      var fs := KindFields(state, posState, kind);
      var match0, match1 := Flag(IsMatch(state), posState, 0), Flag(IsMatch(state), posState, 1);
      match kind
      case Lit => fs == [match0]
      case Match => fs == [match1, Flag(IsRep, state, 0)]
      case ShortRep => fs == [match1, Flag(IsRep, state, 1), Flag(IsRep0, state, 0), Flag(IsRep0Long(state), posState, 0)]
      case Rep0 => fs == [match1, Flag(IsRep, state, 1), Flag(IsRep0, state, 0), Flag(IsRep0Long(state), posState, 1)]
      case Rep1 => fs == [match1, Flag(IsRep, state, 1), Flag(IsRep0, state, 1), Flag(IsRep1, state, 0)]
      case Rep2 =>
        fs == [match1, Flag(IsRep, state, 1), Flag(IsRep0, state, 1), Flag(IsRep1, state, 1), Flag(IsRep2, state, 0)]
      case Rep3 =>
        fs == [match1, Flag(IsRep, state, 1), Flag(IsRep0, state, 1), Flag(IsRep1, state, 1), Flag(IsRep2, state, 1)]
  {
  }

  /** A length is 2, 10 or 18 more than a number of 3, 3 or 8 bits. */
  lemma LengthInNumbers(isRep: bit, posState: nat, len: nat)
    requires 2 <= len <= 273
    ensures
      var fs := LenFields(isRep, posState, len);
      var last := fs[|fs| - 1];
      && 2 <= |fs| <= 3 && fs[0] == Flag(LenChoice, isRep, |fs| - 2)
      && (|fs| == 3 ==> fs[1] == Flag(LenChoice2, isRep, if last.unit == Number(LenHigh(isRep), 8) then 1 else 0))
      && if |fs| == 2 then last.unit == Number(LenLow(isRep, posState), 3) && last.val < 8 && len == 2 + last.val
         else if fs[1].val == 0 then last.unit == Number(LenMid(isRep, posState), 3) && last.val < 8 && len == 10 + last.val
         else last.unit == Number(LenHigh(isRep), 8) && last.val < 256 && len == 18 + last.val
  {
  }

  lemma {:induction false} BitOfSum(b: bit, y: nat, m: nat, k: nat)
    requires y < Pow2(m) && k <= m
    ensures BitAt(AtBit(b, m) + y, k) == if k == m then b else BitAt(y, k)
    decreases k
  {
    if m > 0 {
      assert AtBit(b, m) == 2 * AtBit(b, m - 1);
      if k > 0 {
        var x := AtBit(b, m) + y;
        assert x / 2 == AtBit(b, m - 1) + y / 2;
        BitOfSum(b, y / 2, m - 1, k - 1);
        ShiftedTwice(x, 1, k - 1);
        ShiftedTwice(y, 1, k - 1);
      }
    }
  }

  lemma {:induction false} ReversedBit(x: nat, n: nat, k: nat)
    requires k < n
    ensures BitAt(Reverse(x, n), k) == BitAt(x, n - 1 - k)
    decreases n
  {
    ReverseStep(x, n);
    ReverseBound(x / 2, n - 1);
    BitOfSum(x % 2, Reverse(x / 2, n - 1), n - 1, k);
    if k < n - 1 {
      ReversedBit(x / 2, n - 1, k);
      ShiftedTwice(x, 1, n - 2 - k);
    }
  }

  /** From 4 on the slot names the place of the top bit and the bit below it; the rest follows, its low bits reversed. */
  lemma DistanceInNumbers(len: nat, dist: nat, t: nat)
    requires len >= 2 && t >= 2 && Pow2(t) <= dist < Pow2(t + 1) && dist < TWO32
    ensures
      var fs := DistFields(len, dist);
      var slot, free := 2 * t + dist / Pow2(t - 1) % 2, t - 1;
      && fs[0] == Field(Number(DistSlot(if len > 5 then 3 else len - 2), 6), slot)
      && if t < 7 then fs[1..] == [Field(Number(DistSpecial(slot - 4), free), Reverse(dist % Pow2(free), free))]
         else
           fs[1..] == [Field(Fixed(free - 4), dist / 16 % Pow2(free - 4)), Field(Number(DistAlign, 4), Reverse(dist % 16, 4))]
  {
    var slot := SlotInNumbers(dist, t);
    if t < 7 {
      NearTail(dist, slot, t);
    } else {
      SmallPowers();
      FarTail(dist, slot, t, 4);
    }
  }

  lemma SlotInNumbers(dist: nat, t: nat) returns (slot: nat)
    requires t >= 2 && Pow2(t) <= dist < Pow2(t + 1)
    ensures SlotOf(dist) == slot == 2 * t + dist / Pow2(t - 1) % 2
  {
    TopBitIs(dist, t);
    ShrIsDiv(dist, t - 1);
    slot := SlotOf(dist);
  }

  lemma NearTail(dist: nat, slot: nat, t: nat)
    requires 2 <= t < 7 && 2 * t <= slot <= 2 * t + 1
    ensures DistTail(dist, slot) == [Field(Number(DistSpecial(slot - 4), t - 1), Reverse(dist % Pow2(t - 1), t - 1))]
  {
  }

  lemma FarTail(dist: nat, slot: nat, t: nat, k: nat)
    requires t >= 7 && 2 * t <= slot <= 2 * t + 1 && k == 4 && Pow2(k) == 16
    ensures
      DistTail(dist, slot)
      == [Field(Fixed(t - 1 - k), dist / 16 % Pow2(t - 1 - k)), Field(Number(DistAlign, k), Reverse(dist % 16, k))]
  {
  }

  /** Below 4 a distance is its slot. */
  lemma SmallDistance(len: nat, dist: nat)
    requires len >= 2 && dist < 4
    ensures DistFields(len, dist) == [Field(Number(DistSlot(if len > 5 then 3 else len - 2), 6), dist)]
  {
  }

  lemma TopBitIs(x: nat, t: nat)
    requires Pow2(t) <= x < Pow2(t + 1)
    ensures CountBit(x) == t + 1
  {
    CountBitBounds(x);
    if CountBit(x) < t + 1 {
      Pow2Monotone(CountBit(x), t);
    } else if CountBit(x) > t + 1 {
      Pow2Monotone(t + 1, CountBit(x) - 1);
    }
  }

  // ---------------------------------------------------------------- probabilities

  /** A 0 keeps so many of 2048 equal parts at the low end as its probability tells, a 1 the rest above them. */
  lemma AdaptiveShare(e: Enc, c: Ctx, q: nat)
    requires EncShape(e) && Bounded(e.probs) && q * 2048 <= e.range < (q + 1) * 2048
    requires Low33(e) + e.range <= 2 * TWO32
    ensures
      var part, zero, one := q * ProbOf(e.probs, c), Narrow(e, Sym(Adaptive(c), 0)), Narrow(e, Sym(Adaptive(c), 1));
      && zero.range == part && Low33(zero) == Low33(e)
      && one.range == e.range - part && (one.range > 0 ==> Low33(one) == Low33(e) + part)
  {
    PartIs(e.range, ProbOf(e.probs, c), q);
    UpperPart(e, c, Bound(e.range, ProbOf(e.probs, c)));
  }

  lemma PartIs(range: nat, prob: nat, q: nat)
    requires q * 2048 <= range < (q + 1) * 2048 && range < TWO32 && prob <= 2048
    ensures Bound(range, prob) == q * prob
  {
    RemainderIs(range, 2048, q, range - q * 2048);
  }

  lemma UpperPart(e: Enc, c: Ctx, part: nat)
    requires EncShape(e) && Bounded(e.probs) && part == Bound(e.range, ProbOf(e.probs, c))
    requires Low33(e) + e.range <= 2 * TWO32
    ensures
      var one := Narrow(e, Sym(Adaptive(c), 1));
      one.range == e.range - part && (one.range > 0 ==> Low33(one) == Low33(e) + part)
  {
    TrainedIsBounded(e.probs, c, 1);
    if part < e.range {
      AddLowValue(e.(probs := Trained(e.probs, c, 1), range := e.range - part), part);
    }
  }

  /** Without a probability a 0 keeps the lower half, rounded down, a 1 as much above it. */
  lemma DirectShare(e: Enc, b: bit)
    requires EncShape(e) && Bounded(e.probs) && Low33(e) + e.range < 2 * TWO32
    ensures
      var r := Narrow(e, Sym(Direct, b));
      2 * r.range <= e.range < 2 * r.range + 2 && r.probs == e.probs && Low33(r) == Low33(e) + b * r.range
  {
    var h := e.(range := e.range / 2);
    AddLowValue(h, h.range);
  }

  /** The probability of 0 goes a 32nd of the way up with a 0, and down with a 1; it starts at one half. */
  lemma AdaptiveMove(e: Enc, c: Ctx, b: bit)
    requires EncShape(e) && Bounded(e.probs)
    ensures
      var p, r := if c in e.probs then e.probs[c] else 1024, Narrow(e, Sym(Adaptive(c), b));
      && c in r.probs && r.probs == e.probs[c := r.probs[c]]
      && if b == 0 then 0 <= 2048 - p - 32 * (r.probs[c] - p) < 32 else 0 <= p - 32 * (p - r.probs[c]) < 32
  {
    TrainedIsBounded(e.probs, c, b);
  }

  /** A byte goes out exactly when less than 2^24 is left of the range, which then grows by 256. */
  lemma NormalizedBelow(e: Enc)
    requires EncShape(e)
    ensures
      var r := EncNormalize(e);
      if e.range < 0x100_0000 then r.range == 256 * e.range && Count(r) == Count(e) + 1 else r == e
  {
  }
}
