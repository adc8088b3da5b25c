/**
 The range coder on values: one function per coding step of the encoder and of the decoder,
 and the proof that the decoder recovers every sequence of coded symbols.
 */
module RangeCoder {
  import opened Bytes
  import opened LzmaContexts

  /** How a bit is coded: under an adaptive context, or with fixed probability one half. */
  datatype Model = Adaptive(ctx: Ctx) | Direct

  datatype Sym = Sym(model: Model, b: bit)

  // ---------------------------------------------------------------- encoder

  datatype Enc = Enc(cache: byte, lowMsb: bit, lowLsb: nat, range: nat, cacheSize: nat,
                     out: seq<byte>, probs: Probs)

  const ENC_INIT := Enc(0, 0, 0, 0xFFFF_FFFF, 1, [], map[])

  predicate EncShape(e: Enc) {
    e.cacheSize >= 1 && e.lowLsb < TWO32 && e.range < TWO32
  }

  /** Settles the cache byte and the bytes pending behind it, once a carry can no longer reach them. */
  function Settle(e: Enc): (r: Enc)
    requires EncShape(e)
    ensures r == e.(out := r.out, cache := r.cache, cacheSize := r.cacheSize)
  {
    if e.lowMsb != 0 then
      e.(out := e.out + [(e.cache + 1) % 256] + Fill(0, e.cacheSize - 1), cache := e.lowLsb / TWO24, cacheSize := 0)
    else if e.lowLsb < 0xFF00_0000 then
      e.(out := e.out + [e.cache] + Fill(255, e.cacheSize - 1), cache := e.lowLsb / TWO24, cacheSize := 0)
    else
      e
  }

  /** The body of the encoder's normalization, taken when range has dropped below 2^24. */
  function ShiftLow(e: Enc): (r: Enc)
    requires EncShape(e)
    ensures EncShape(r) && r.probs == e.probs
  {
    var s := Settle(e);
    s.(cacheSize := s.cacheSize + 1, lowMsb := 0, lowLsb := e.lowLsb * 256 % TWO32, range := e.range * 256 % TWO32)
  }

  function EncNormalize(e: Enc): (r: Enc)
    requires EncShape(e)
    ensures EncShape(r) && r.probs == e.probs
  {
    if e.range < TWO24 then ShiftLow(e) else e
  }

  /** Adding to the 32-bit low sets the carry when the sum wraps. */
  function AddLow(e: Enc, x: nat): (r: Enc)
    requires EncShape(e)
    ensures EncShape(r)
  {
    var sum := (e.lowLsb + x) % TWO32;
    e.(lowMsb := if sum < e.lowLsb then 1 else e.lowMsb, lowLsb := sum)
  }

  function Bound(range: nat, prob: nat): (b: nat)
    requires prob <= 2048
    ensures b <= range
  {
    ShareIsLess(range / 2048, prob);
    range / 2048 * prob
  }

  lemma ShareIsLess(q: nat, prob: nat)
    requires prob <= 2048
    ensures 0 <= q * prob <= q * 2048
  {
    assert q * (2048 - prob) >= 0;
  }

  /** Keep the part of the interval that the symbol names. */
  function Narrow(e: Enc, s: Sym): (r: Enc)
    requires EncShape(e) && Bounded(e.probs)
    ensures EncShape(r) && Bounded(r.probs)
  {
    match s.model
    case Direct =>
      var h := e.(range := e.range / 2);
      if s.b == 1 then AddLow(h, h.range) else h
    case Adaptive(c) =>
      TrainedIsBounded(e.probs, c, s.b);
      var bound := Bound(e.range, ProbOf(e.probs, c));
      var t := e.(probs := Trained(e.probs, c, s.b));
      if s.b == 0 then t.(range := bound) else AddLow(t.(range := t.range - bound), bound)
  }

  function EncStep(e: Enc, s: Sym): (r: Enc)
    requires EncShape(e) && Bounded(e.probs)
    ensures EncShape(r) && Bounded(r.probs)
  {
    Narrow(EncNormalize(e), s)
  }

  // ---------------------------------------------------------------- what the encoder state denotes

  function Low33(e: Enc): nat { e.lowMsb * TWO32 + e.lowLsb }

  /** Bytes that are settled up to a carry. */
  function Digits(e: Enc): seq<byte>
    requires e.cacheSize >= 1
  {
    e.out + [e.cache] + Fill(255, e.cacheSize - 1)
  }

  /** The unbounded low end of the coding interval, carries resolved. */
  function TrueLow(e: Enc): nat
    requires e.cacheSize >= 1
  {
    Value(Digits(e)) * TWO32 + Low33(e)
  }

  /** Number of bytes settled or pending; grows by one with every normalization. */
  function Count(e: Enc): nat { |e.out| + e.cacheSize }

  ghost predicate EncInv(e: Enc) {
    && EncShape(e)
    && 0x1_0000 <= e.range
    && Low33(e) + e.range <= 2 * TWO32
    // no carry can leave the cache byte when it is 255, nor enter the very first byte
    && (e.out == [] || e.cache == 255 ==> Low33(e) + e.range <= TWO32)
    && (e.out == [] ==> e.cache == 0)
    && (e.out != [] ==> e.out[0] == 0)
    && Bounded(e.probs)
  }

  lemma FillOneMore(s: seq<byte>, b: byte, n: nat)
    requires n > 0
    ensures Value(s + Fill(b, n)) == 256 * Value(s + Fill(b, n - 1)) + b
  {
    var front := s + Fill(b, n - 1);
    assert s + Fill(b, n) == front + [b];
    ValueAppend(front, b);
  }

  lemma {:induction false} CarryValue(s: seq<byte>, c: byte, n: nat)
    requires c < 255
    ensures Value(s + [c + 1] + Fill(0, n)) == Value(s + [c] + Fill(255, n)) + 1
  {
    if n == 0 {
      assert s + [c + 1] + Fill(0, 0) == s + [c + 1] && s + [c] + Fill(255, 0) == s + [c];
      ValueAppend(s, c + 1);
      ValueAppend(s, c);
    } else {
      CarryValue(s, c, n - 1);
      FillOneMore(s + [c + 1], 0, n);
      FillOneMore(s + [c], 255, n);
    }
  }

  /** Shifting multiplies the denoted low end by 256: pending bytes never lose a carry. */
  lemma ShiftLowValue(e: Enc)
    requires EncShape(e)
    requires e.lowMsb != 0 ==> e.cache < 255
    ensures TrueLow(ShiftLow(e)) == 256 * TrueLow(e)
    ensures Count(ShiftLow(e)) == Count(e) + 1
  {
    var r := ShiftLow(e);
    TopByte(e.lowLsb);
    if e.lowMsb != 0 || e.lowLsb < 0xFF00_0000 {
      var settled := Settle(e).out;
      assert Digits(r) == settled + [e.lowLsb / TWO24];
      ValueAppend(settled, e.lowLsb / TWO24);
      if e.lowMsb != 0 {
        CarryValue(e.out, e.cache, e.cacheSize - 1);
      }
    } else {
      assert Digits(r) == Digits(e) + [255];
      ValueAppend(Digits(e), 255);
    }
  }

  lemma TopByte(low: nat)
    requires low < TWO32
    ensures low / TWO24 < 256 && 256 * low == low / TWO24 * TWO32 + low * 256 % TWO32
  {
  }

  lemma NormalizeKeepsInv(e: Enc)
    requires EncInv(e)
    ensures EncInv(EncNormalize(e)) && EncNormalize(e).range >= TWO24
    ensures EncNormalize(e).lowMsb == 0 || e.range >= TWO24
    ensures e.range < TWO24 ==>
              && TrueLow(EncNormalize(e)) == 256 * TrueLow(e)
              && EncNormalize(e).range == 256 * e.range
              && Count(EncNormalize(e)) == Count(e) + 1
  {
    if e.range < TWO24 {
      ShiftLowValue(e);
    }
  }

  function Split(n: Enc, s: Sym): nat
    requires EncShape(n) && Bounded(n.probs)
  {
    match s.model
    case Direct => n.range / 2
    case Adaptive(c) => TrainedIsBounded(n.probs, c, 0); Bound(n.range, ProbOf(n.probs, c))
  }

  lemma AddLowValue(e: Enc, x: nat)
    requires EncShape(e) && Low33(e) + x < 2 * TWO32 && x < TWO32
    ensures Low33(AddLow(e, x)) == Low33(e) + x
    ensures TrueLow(AddLow(e, x)) == TrueLow(e) + x
  {
    assert Digits(AddLow(e, x)) == Digits(e);
  }

  /** r is the part of the normalized n that s keeps. */
  ghost predicate KeepsPart(n: Enc, s: Sym, r: Enc)
    requires EncShape(n) && Bounded(n.probs) && EncShape(r)
  {
    var split := Split(n, s);
    && 0x1_0000 <= split <= n.range - 0x1_0000
    && r.range == (if s.b == 0 || s.model.Direct? then split else n.range - split)
    && TrueLow(r) == TrueLow(n) + (if s.b == 0 then 0 else split)
    && Low33(r) == Low33(n) + (if s.b == 0 then 0 else split)
    && Count(r) == Count(n)
  }

  lemma DirectNests(n: Enc, s: Sym)
    requires EncInv(n) && n.range >= TWO24 && s.model.Direct?
    ensures KeepsPart(n, s, Narrow(n, s)) && EncInv(Narrow(n, s))
  {
    var h := n.(range := n.range / 2);
    assert Digits(h) == Digits(n);
    if s.b == 1 { AddLowValue(h, h.range); }
  }

  lemma AdaptiveNests(n: Enc, s: Sym)
    requires EncInv(n) && n.range >= TWO24 && s.model.Adaptive?
    ensures KeepsPart(n, s, Narrow(n, s)) && EncInv(Narrow(n, s))
  {
    var split, c := Split(n, s), s.model.ctx;
    TrainedIsBounded(n.probs, c, s.b);
    BoundIsInside(n.range, ProbOf(n.probs, c));
    if s.b == 1 {
      var t := n.(probs := Trained(n.probs, c, s.b), range := n.range - split);
      assert Digits(t) == Digits(n);
      AddLowValue(t, split);
    } else {
      assert Digits(Narrow(n, s)) == Digits(n);
    }
  }

  /** The normalized interval is split at the bound (or in half) and one part is kept. */
  lemma NarrowNests(n: Enc, s: Sym)
    requires EncInv(n) && n.range >= TWO24
    ensures KeepsPart(n, s, Narrow(n, s)) && EncInv(Narrow(n, s))
  {
    if s.model.Direct? {
      DirectNests(n, s);
    } else {
      AdaptiveNests(n, s);
    }
  }

  lemma StepNests(e: Enc, s: Sym)
    requires EncInv(e)
    ensures EncInv(EncStep(e, s))
    ensures
      var n, r := EncNormalize(e), EncStep(e, s);
      && Count(r) == Count(n)
      && TrueLow(n) <= TrueLow(r)
      && TrueLow(r) + r.range <= TrueLow(n) + n.range
  {
    NormalizeKeepsInv(e);
    NarrowNests(EncNormalize(e), s);
  }

  lemma BoundIsInside(range: nat, prob: nat)
    requires TWO24 <= range < TWO32 && 31 <= prob <= 2017
    ensures 0x1_0000 <= Bound(range, prob) <= range - 0x1_0000
  {
    var q := range / 2048;
    assert q >= 8192;
    assert 31 * q <= q * prob <= 2017 * q;
  }

  // ---------------------------------------------------------------- whole runs of the encoder

  function EncSyms(e: Enc, syms: seq<Sym>): (r: Enc)
    requires EncShape(e) && Bounded(e.probs)
    ensures EncShape(r) && Bounded(r.probs)
    decreases |syms|
  {
    if syms == [] then e else EncSyms(EncStep(e, syms[0]), syms[1..])
  }

  lemma {:induction false} EncSymsAppend(e: Enc, a: seq<Sym>, b: seq<Sym>)
    requires EncShape(e) && Bounded(e.probs)
    ensures EncSyms(e, a + b) == EncSyms(EncSyms(e, a), b)
    decreases |a|
  {
    if a == [] {
      assert a + b == b;
    } else {
      assert (a + b)[0] == a[0] && (a + b)[1..] == a[1..] + b;
      EncSymsAppend(EncStep(e, a[0]), a[1..], b);
    }
  }

  lemma EncSymsOneMore(syms: seq<Sym>, s: Sym)
    ensures EncSyms(ENC_INIT, syms + [s]) == EncStep(EncSyms(ENC_INIT, syms), s)
  {
    EncSymsAppend(ENC_INIT, syms, [s]);
  }

  lemma {:induction false} EncSymsKeepsInv(e: Enc, syms: seq<Sym>)
    requires EncInv(e)
    ensures EncInv(EncSyms(e, syms))
    ensures Count(EncSyms(e, syms)) >= Count(e)
    decreases |syms|
  {
    if syms != [] {
      StepNests(e, syms[0]);
      NormalizeKeepsInv(e);
      EncSymsKeepsInv(EncStep(e, syms[0]), syms[1..]);
    }
  }

  function Shifts(e: Enc, n: nat): (r: Enc)
    requires EncShape(e)
    ensures EncShape(r) && r.probs == e.probs
  {
    if n == 0 then e else ShiftLow(Shifts(e, n - 1))
  }

  /** Termination: with range forced to 0 each of the six normalizations shifts. */
  function Finish(e: Enc): (r: Enc)
    requires EncShape(e)
    ensures EncShape(r) && r.probs == e.probs
  {
    Shifts(e.(range := 0), 6)
  }

  ghost predicate FirstIsZero(e: Enc) {
    (e.out == [] ==> e.cache == 0 && e.lowMsb == 0) && (e.out != [] ==> e.out[0] == 0)
  }

  lemma ShiftOnce(e: Enc)
    requires EncShape(e) && FirstIsZero(e) && (e.lowMsb != 0 ==> e.cache < 255)
    ensures
      var r := ShiftLow(e);
      && FirstIsZero(r) && r.lowMsb == 0
      && r.lowLsb == e.lowLsb * 256 % TWO32
      && TrueLow(r) == 256 * TrueLow(e)
      && Count(r) == Count(e) + 1
      && (e.lowMsb == 0 && e.lowLsb == 0 ==> r.cache == 0 && r.cacheSize == 1)
  {
    ShiftLowValue(e);
  }

  /** The low bits known to be zero after n shifts. */
  function Granule(n: nat): nat {
    if n == 0 then 1 else if n == 1 then 0x100 else if n == 2 then 0x1_0000 else if n == 3 then TWO24 else TWO32
  }

  function Times256(x: nat, n: nat): nat {
    if n == 0 then x else 256 * Times256(x, n - 1)
  }

  lemma GranuleStep(x: nat, n: nat)
    requires x % Granule(n) == 0
    ensures x * 256 % TWO32 % Granule(n + 1) == 0
  {
    if n == 0 {
      LowBitsStayZero(x, 1, 0x100, TWO24);
    } else if n == 1 {
      LowBitsStayZero(x, 0x100, 0x1_0000, 0x1_0000);
    } else if n == 2 {
      LowBitsStayZero(x, 0x1_0000, TWO24, 0x100);
    } else if n == 3 {
      LowBitsStayZero(x, TWO24, TWO32, 1);
    } else {
      LowBitsStayZero(x, TWO32, TWO32, 1);
    }
  }

  lemma LowBitsStayZero(x: nat, g: nat, h: nat, c: nat)
    requires g > 0 && h > 0 && x % g == 0 && 256 * g % h == 0 && h * c == TWO32
    ensures x * 256 % TWO32 % h == 0
  {
    var k, q := x / g, x * 256 / TWO32;
    var m := 256 * g / h;
    assert x * 256 == h * (m * k) by {
      assert x == g * k && 256 * g == h * m;
      assert x * 256 == 256 * g * k;
    }
    assert q * TWO32 == h * (c * q);
    assert x * 256 % TWO32 == h * (m * k - c * q) by {
      assert x * 256 % TWO32 == x * 256 - q * TWO32;
      assert h * (m * k - c * q) == h * (m * k) - h * (c * q);
    }
    RemainderIs(x * 256 % TWO32, h, m * k - c * q, 0);
  }

  /** f is what n shifts make of an encoder with the low end and the length given. */
  ghost predicate ShiftedTo(low: nat, count: nat, n: nat, f: Enc)
    requires EncShape(f)
  {
    && FirstIsZero(f)
    && TrueLow(f) == Times256(low, n)
    && Count(f) == count + n
    && (n > 0 ==> f.lowMsb == 0)
    && f.lowLsb % Granule(n) == 0
    && (n >= 5 ==> f.cache == 0 && f.cacheSize == 1)
  }

  lemma ShiftedMore(low: nat, count: nat, n: nat, f: Enc)
    requires EncShape(f) && ShiftedTo(low, count, n, f) && (f.lowMsb != 0 ==> f.cache < 255)
    ensures ShiftedTo(low, count, n + 1, ShiftLow(f))
  {
    ShiftOnce(f);
    GranuleStep(f.lowLsb, n);
  }

  lemma {:induction false} ShiftsValue(e: Enc, n: nat)
    requires EncShape(e) && FirstIsZero(e) && (e.lowMsb != 0 ==> e.cache < 255)
    ensures ShiftedTo(TrueLow(e), Count(e), n, Shifts(e, n))
  {
    if n > 0 {
      ShiftsValue(e, n - 1);
      ShiftedMore(TrueLow(e), Count(e), n - 1, Shifts(e, n - 1));
    }
  }

  lemma SixTimes(x: nat)
    ensures Times256(x, 6) == 256 * TWO32 * (256 * x)
  {
    assert Times256(x, 0) == x;
    assert Times256(x, 1) == 256 * x;
    assert Times256(x, 2) == 256 * Times256(x, 1);
    assert Times256(x, 3) == 256 * Times256(x, 2);
    assert Times256(x, 4) == 256 * Times256(x, 3);
    assert Times256(x, 5) == 256 * Times256(x, 4);
  }

  /** After termination the output is the low end of the interval followed by one zero byte. */
  lemma FinishValue(e: Enc)
    requires EncInv(e)
    ensures
      var out := Finish(e).out;
      && Value(out) == 256 * TrueLow(e)
      && |out| == Count(e) + 5
      && out[0] == 0
  {
    var f0 := e.(range := 0);
    assert TrueLow(f0) == TrueLow(e) by { assert Digits(f0) == Digits(e); }
    var f := Finish(e);
    ShiftsValue(f0, 6);
    assert Digits(f) == f.out + [0];
    ValueAppend(f.out, 0);
    var low := TrueLow(e);
    SixTimes(low);
  }

  /** Everything the encoder has written once it has coded syms and terminated. */
  function Encoded(e: Enc, syms: seq<Sym>): seq<byte>
    requires EncShape(e) && Bounded(e.probs)
    decreases |syms|
  {
    if syms == [] then Finish(e).out else Encoded(EncStep(e, syms[0]), syms[1..])
  }

  lemma {:induction false} EncodedIsFinish(e: Enc, syms: seq<Sym>)
    requires EncShape(e) && Bounded(e.probs)
    ensures Encoded(e, syms) == Finish(EncSyms(e, syms)).out
    decreases |syms|
  {
    if syms != [] {
      EncodedIsFinish(EncStep(e, syms[0]), syms[1..]);
    }
  }

  /**
   Nested intervals: however many symbols are still to be coded, the bytes finally written,
   cut at the width of the present state, name a point of the present interval.
   */
  lemma {:induction false} FinalInInterval(e: Enc, syms: seq<Sym>)
    requires EncInv(e)
    ensures InInterval(e, Encoded(e, syms))
    decreases |syms|
  {
    if syms == [] {
      FinishValue(e);
      ValuePrefix(Finish(e).out, |Finish(e).out| - 1);
      assert Finish(e).out[..|Finish(e).out|] == Finish(e).out;
    } else {
      StepNests(e, syms[0]);
      FinalInInterval(EncStep(e, syms[0]), syms[1..]);
      WidenInterval(e, EncStep(e, syms[0]), Encoded(e, syms));
    }
  }

  ghost predicate InInterval(e: Enc, out: seq<byte>)
    requires EncShape(e)
  {
    Count(e) + 4 < |out| && TrueLow(e) <= Value(out[..Count(e) + 4]) < TrueLow(e) + e.range
  }

  /** What lies inside the interval after a step lay inside the interval before it. */
  lemma WidenInterval(e: Enc, r: Enc, out: seq<byte>)
    requires EncInv(e) && EncShape(r)
    requires
      var n := EncNormalize(e);
      Count(r) == Count(n) && TrueLow(n) <= TrueLow(r) && TrueLow(r) + r.range <= TrueLow(n) + n.range
    requires InInterval(r, out)
    ensures InInterval(EncNormalize(e), out) && InInterval(e, out)
  {
    NormalizeKeepsInv(e);
    if e.range < TWO24 {
      ValuePrefix(out, Count(e) + 4);
    }
  }

  /** Termination does not look at the tables. */
  lemma {:induction false} ShiftsIgnoreProbs(e: Enc, f: Enc, n: nat)
    requires EncShape(e) && f == e.(probs := f.probs)
    ensures Shifts(f, n) == Shifts(e, n).(probs := f.probs)
  {
    if n > 0 {
      ShiftsIgnoreProbs(e, f, n - 1);
    }
  }

  lemma TerminatedOutput(syms: seq<Sym>, f: Enc)
    requires f == EncSyms(ENC_INIT, syms).(range := 0, probs := f.probs)
    ensures EncShape(f) && Shifts(f, 6).out == Encoded(ENC_INIT, syms)
  {
    EncodedIsFinish(ENC_INIT, syms);
    ShiftsIgnoreProbs(EncSyms(ENC_INIT, syms).(range := 0), f, 6);
  }

  /** The first byte written is always zero, and a run with n normalizations writes n + 6 bytes. */
  lemma EncodedLength(syms: seq<Sym>)
    ensures EncInv(ENC_INIT)
    ensures |Encoded(ENC_INIT, syms)| == Count(EncSyms(ENC_INIT, syms)) - Count(ENC_INIT) + 6
    ensures Encoded(ENC_INIT, syms)[0] == 0
  {
    EncSymsKeepsInv(ENC_INIT, syms);
    EncodedIsFinish(ENC_INIT, syms);
    FinishValue(EncSyms(ENC_INIT, syms));
  }

  /** What has been written is a part of what will be. */
  lemma OutputGrows(syms: seq<Sym>)
    ensures |EncSyms(ENC_INIT, syms).out| < |Encoded(ENC_INIT, syms)|
  {
    EncodedLength(syms);
  }

  // ---------------------------------------------------------------- decoder

  datatype DecState = DecState(src: seq<byte>, code: nat, range: nat, idx: nat, overflow: bool, probs: Probs)

  ghost predicate DecShape(d: DecState) {
    d.code < TWO32 && d.range < TWO32 && d.idx <= |d.src| && Bounded(d.probs)
  }

  type Dec = d: DecState | DecShape(d) ghost witness DecState([], 0, 0, 0, false, map[])

  function DecNormalize(d: Dec): Dec {
    if d.range < TWO24 then
      if d.idx < |d.src| then
        d.(range := d.range * 256 % TWO32, code := d.code * 256 % TWO32 + d.src[d.idx], idx := d.idx + 1)
      else
        d.(overflow := true)
    else
      d
  }

  function DecStart(src: seq<byte>): Dec { DecState(src, 0, 0, 0, false, map[]) }

  function ReadBytes(d: Dec, n: nat): Dec {
    if n == 0 then d else DecNormalize(ReadBytes(d, n - 1))
  }

  /** Five bytes are read with range 0, so only the last four remain in the 32-bit code. */
  function DecInit(src: seq<byte>): Dec {
    ReadBytes(DecStart(src), 5).(range := 0xFFFF_FFFF)
  }

  /** The comparison of an adaptive bit, on a normalized decoder. */
  function PickBit(d: Dec, c: Ctx): (bit, Dec) {
    TrainedIsBounded(d.probs, c, 0);
    TrainedIsBounded(d.probs, c, 1);
    var bound := Bound(d.range, ProbOf(d.probs, c));
    if d.code < bound then
      (0, d.(range := bound, probs := Trained(d.probs, c, 0)))
    else
      (1, d.(range := d.range - bound, code := d.code - bound, probs := Trained(d.probs, c, 1)))
  }

  /** For a fixed probability the comparison is made on the sign bit of the wrapped difference. */
  function PickDirect(d: Dec): (bit, Dec) {
    var h := d.range / 2;
    var diff := (d.code - h) % TWO32;
    if diff / TWO31 % 2 == 0 then
      (1, d.(range := h, code := diff))
    else
      (0, d.(range := h, code := (diff + h) % TWO32))
  }

  /** For a code inside the range the sign test is the comparison with half of the range. */
  lemma SignTestCompares(d: Dec)
    requires d.code < d.range
    ensures
      var (b, r) := PickDirect(d);
      && (b == 1 <==> d.code >= d.range / 2)
      && r.code == d.code - (if b == 1 then d.range / 2 else 0)
  {
  }

  function Pick(d: Dec, m: Model): (bit, Dec) {
    match m
    case Adaptive(c) => PickBit(d, c)
    case Direct => PickDirect(d)
  }

  function DecStep(d: Dec, m: Model): (bit, Dec) {
    Pick(DecNormalize(d), m)
  }

  // ---------------------------------------------------------------- decoding what was encoded

  /** The decoder is where the encoder was: same range, same tables, code = final value - low. */
  ghost predicate Sync(d: Dec, e: Enc) {
    && EncInv(e)
    && !d.overflow
    && d.range == e.range
    && d.probs == e.probs
    && d.idx == Count(e) + 4
    && d.code == Value(d.src[..d.idx]) - TrueLow(e)
  }

  /** The decoder is in step and its input holds the rest of the run that codes syms. */
  ghost predicate Ready(d: Dec, e: Enc, syms: seq<Sym>) {
    Sync(d, e) && Encoded(e, syms) <= d.src
  }

  lemma CutInInterval(src: seq<byte>, e: Enc, syms: seq<Sym>)
    requires EncInv(e) && Encoded(e, syms) <= src
    ensures InInterval(e, src)
  {
    FinalInInterval(e, syms);
    assert src[..Count(e) + 4] == Encoded(e, syms)[..Count(e) + 4];
  }

  lemma NormalizeSync(d: Dec, e: Enc)
    requires Sync(d, e) && InInterval(e, d.src)
    ensures Sync(DecNormalize(d), EncNormalize(e)) && DecNormalize(d).src == d.src
  {
    NormalizeKeepsInv(e);
    if e.range < TWO24 {
      ValuePrefix(d.src, d.idx);
    }
  }

  lemma PickSync(d: Dec, e: Enc, s: Sym)
    requires Sync(d, e) && e.range >= TWO24
    requires InInterval(e, d.src) && InInterval(Narrow(e, s), d.src)
    ensures var (b, r) := Pick(d, s.model);
            b == s.b && Sync(r, Narrow(e, s)) && r.src == d.src
  {
    NarrowNests(e, s);
    if s.model.Direct? {
      SignTestCompares(d);
    }
  }

  /** One decoding step recovers the coded bit and keeps step with the encoder. */
  lemma StepBack(d: Dec, e: Enc, s: Sym, rest: seq<Sym>)
    requires Ready(d, e, [s] + rest)
    ensures d.code < d.range
    ensures var (b, r) := DecStep(d, s.model);
            b == s.b && Ready(r, EncStep(e, s), rest)
  {
    var syms := [s] + rest;
    assert syms[1..] == rest;
    CutInInterval(d.src, e, syms);
    StepNests(e, s);
    NormalizeKeepsInv(e);
    CutInInterval(d.src, EncStep(e, s), rest);
    WidenInterval(e, EncStep(e, s), d.src);
    NormalizeSync(d, e);
    PickSync(DecNormalize(d), EncNormalize(e), s);
  }

  lemma {:induction false} ReadBytesValue(src: seq<byte>, n: nat)
    requires n <= 5 && n <= |src| && (|src| > 0 ==> src[0] == 0)
    ensures
      var d := ReadBytes(DecStart(src), n);
      d.src == src && d.range == 0 && d.idx == n && !d.overflow && d.probs == map[] && d.code == Value(src[..n])
    ensures Value(src[..n]) < (if n <= 1 then 1 else if n == 2 then 0x100 else if n == 3 then 0x1_0000 else if n == 4 then TWO24 else TWO32)
  {
    if n > 0 {
      ReadBytesValue(src, n - 1);
      ValuePrefix(src, n - 1);
    }
  }

  lemma StartReady(src: seq<byte>, syms: seq<Sym>)
    requires Encoded(ENC_INIT, syms) <= src
    ensures Ready(DecInit(src), ENC_INIT, syms)
  {
    CutInInterval(src, ENC_INIT, syms);
    assert Digits(ENC_INIT) == [0];
    ValueAppend([], 0);
    EncodedLength(syms);
    ReadBytesValue(src, 5);
  }

  // ---------------------------------------------------------------- reading symbol lists

  /** A way to answer for one coded bit; the syntax of packets is written over any of these. */
  type Reader = (Dec, Model) -> (bit, Dec)

  const RANGE_READER: Reader := (d, m) => DecStep(d, m)

  /** Asked for the models of syms in turn, the reader answers with their bits. */
  predicate Decodes(get: Reader, d: Dec, syms: seq<Sym>)
    decreases |syms|
  {
    syms == []
    || (get(d, syms[0].model).0 == syms[0].b && Decodes(get, get(d, syms[0].model).1, syms[1..]))
  }

  /** The decoder once it has answered for all of syms. */
  function After(get: Reader, d: Dec, syms: seq<Sym>): Dec
    decreases |syms|
  {
    if syms == [] then d else After(get, get(d, syms[0].model).1, syms[1..])
  }

  lemma {:induction false} DecodesAppend(get: Reader, d: Dec, a: seq<Sym>, b: seq<Sym>)
    ensures Decodes(get, d, a + b) <==> Decodes(get, d, a) && Decodes(get, After(get, d, a), b)
    ensures After(get, d, a + b) == After(get, After(get, d, a), b)
    decreases |a|
  {
    if a == [] {
      assert a + b == b;
    } else {
      assert (a + b)[0] == a[0] && (a + b)[1..] == a[1..] + b;
      DecodesAppend(get, get(d, a[0].model).1, a[1..], b);
    }
  }

  lemma DecodesOneMore(src: seq<byte>, syms: seq<Sym>, s: Sym, d: Dec)
    requires Decodes(RANGE_READER, DecInit(src), syms) && d == After(RANGE_READER, DecInit(src), syms)
    requires DecStep(d, s.model).0 == s.b
    ensures Decodes(RANGE_READER, DecInit(src), syms + [s])
    ensures After(RANGE_READER, DecInit(src), syms + [s]) == DecStep(d, s.model).1
  {
    DecodesAppend(RANGE_READER, DecInit(src), syms, [s]);
  }

  lemma {:induction false} ReadyDecodes(d: Dec, e: Enc, syms: seq<Sym>)
    requires Ready(d, e, syms)
    ensures Decodes(RANGE_READER, d, syms) && Sync(After(RANGE_READER, d, syms), EncSyms(e, syms))
    decreases |syms|
  {
    if syms != [] {
      assert syms == [syms[0]] + syms[1..];
      StepBack(d, e, syms[0], syms[1..]);
      ReadyDecodes(DecStep(d, syms[0].model).1, EncStep(e, syms[0]), syms[1..]);
    }
  }

  /**
   Round trip of the range coder: for any symbols under any contexts, and whatever follows the
   encoded bytes, the decoder returns the coded bits, ends with the encoder's tables and range,
   and has read one byte less than was written.
   */
  lemma RoundTrip(syms: seq<Sym>, src: seq<byte>)
    requires Encoded(ENC_INIT, syms) <= src
    ensures Decodes(RANGE_READER, DecInit(src), syms)
    ensures
      var d, e := After(RANGE_READER, DecInit(src), syms), EncSyms(ENC_INIT, syms);
      && d.probs == e.probs
      && d.range == e.range
      && !d.overflow
      && d.idx == |Encoded(ENC_INIT, syms)| - 1
  {
    StartReady(src, syms);
    ReadyDecodes(DecInit(src), ENC_INIT, syms);
    EncodedIsFinish(ENC_INIT, syms);
    FinishValue(EncSyms(ENC_INIT, syms));
  }
}
