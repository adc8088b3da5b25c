/** The arithmetic of the bit predictor: what each component puts out and learns, within its bits and within 32. */
module ZpaqPredictor {
  import opened Bytes

  type Int32 = x: int | -TWO31 <= x < TWO31
  /** A prediction in the logistic domain, and one as a 15-bit probability. */
  type Output = x: int | -2048 <= x <= 2047
  type Prob15 = x: int | 0 <= x <= 32767
  /** Mixing weights. */
  type Weight = x: int | -0x8_0000 <= x < 0x8_0000
  type Weight16 = x: int | 0 <= x <= 65535

  /** The tables for going to the logistic domain and back. */
  datatype Logistic = Logistic(squash: Output -> Prob15, stretch: Prob15 -> Output)

  function Clamp2k(x: int): Output { if x < -2048 then -2048 else if x > 2047 then 2047 else x }

  function Clamp512k(x: int): Weight {
    if x < -0x8_0000 then -0x8_0000 else if x >= 0x8_0000 then 0x7_FFFF else x
  }

  function Clamp16(x: int): Weight16 { if x < 0 then 0 else if x > 65535 then 65535 else x }

  // ---------------------------------------------------------------- products

  /** A product of numbers within bounds. */
  lemma ProductWithin(a: int, b: int, m: nat, n: nat)
    requires 0 - m <= a <= m && 0 - n <= b <= n
    ensures 0 - m * n <= a * b <= m * n
  {
    var x: nat, y: nat := if a < 0 then -a else a, if b < 0 then -b else b;
    assert x * y <= m * y <= m * n by {
      MoreOf(x, m, y);
      MoreOf(y, n, m);
    }
    assert a * b == if (a < 0) == (b < 0) then x * y else -(x * y);
  }

  lemma MoreOf(a: nat, b: nat, c: nat)
    requires a <= b
    ensures a * c <= b * c && c * a <= c * b
  {
    assert (b - a) * c >= 0;
  }

  // ---------------------------------------------------------------- counters: probability and count in one word

  const COUNT_MAX := 1020

  /** Upper 22 bits probability, lower 10 bits count. */
  predicate Counter(pn: int) { 0 <= pn < TWO32 && pn % 1024 <= COUNT_MAX }

  function Dt(count: nat): nat { 131072 / (2 * count + 3) * 2 }

  /** A 32-bit result as a signed number. */
  function Wrapped(x: int): Int32 {
    var r := x % TWO32;
    if r < TWO31 then r else r - TWO32
  }

  function Error15(p: Prob15, y: bit): int { y * 32767 - p }

  function Train(pn: nat, limit: nat, y: bit): nat
    requires Counter(pn)
  {
    var count := pn % 1024;
    var step := Wrapped(Error15(pn / 131072, y) * Dt(count));
    (pn + (step - step % 1024) + if count < limit then 1 else 0) % TWO32
  }

  lemma DtWithin(count: nat)
    ensures Dt(count) <= 87380 && (count >= 1 ==> Dt(count) <= 52428) && Dt(0) == 87380
  {
    QuotientFalls(131072, 3, 2 * count + 3);
    if count >= 1 {
      QuotientFalls(131072, 5, 2 * count + 3);
    }
  }

  lemma QuotientFalls(x: nat, a: nat, b: nat)
    requires 0 < a <= b
    ensures x / b <= x / a
  {
    var q, k := x / b, x / a;
    if k < q {
      NextMultiple(k, q, a);
      MoreOf(a, b, q);
    }
  }

  /** The product fits a signed word unless nothing has been counted and the error is large. */
  lemma TrainProductFits(pn: nat, y: bit)
    requires Counter(pn)
    ensures
      var e := Error15(pn / 131072, y);
      -TWO31 <= e * Dt(pn % 1024) < TWO31 <==> !(pn % 1024 == 0 && (e > 24576 || e < -24576))
  {
    var e, count := Error15(pn / 131072, y), pn % 1024;
    DtWithin(count);
    if count >= 1 {
      ProductWithin(e, Dt(count), 32767, 52428);
    }
  }

  /** One half, trained with a 1 under a limit of 0. */
  lemma TrainedOnce()
    ensures Train(0x8000_0000, 0, 1) == 3579029504
  {
    DtWithin(0);
    assert Error15(16384, 1) * Dt(0) == 1431546540;
    assert Wrapped(1431546540) == 1431546540 && 1431546540 % 1024 == 684;
  }

  /** Such a counter: the error of a 0 is now large, and nothing has been counted. */
  lemma TrainProductOverflows()
    ensures
      var pn := Train(0x8000_0000, 0, 1);
      var e := Error15(pn / 131072, 0);
      Counter(pn) && pn % 1024 == 0 && e < -24576 && e * Dt(pn % 1024) < -TWO31
  {
    TrainedOnce();
    DtWithin(0);
  }

  lemma Fields(pn: nat)
    requires pn < TWO32
    ensures pn == pn / 1024 * 1024 + pn % 1024 && pn / 1024 < 0x40_0000 && pn / 1024 / 128 == pn / 131072 <= 32767
  {
  }

  lemma Rejoined(p: nat, count: nat)
    requires p < 0x40_0000 && count < 1024
    ensures p * 1024 + count < TWO32 && (p * 1024 + count) % 1024 == count && (p * 1024 + count) / 1024 == p
  {
  }

  /** Even a product that has wrapped around moves the probability exactly: toward the bit, and never out of its field. */
  lemma TrainMoves(pn: nat, limit: nat, y: bit)
    requires Counter(pn) && limit <= COUNT_MAX
    ensures
      var p, count, e := pn / 1024, pn % 1024, Error15(pn / 131072, y);
      var p1, count1 := p + e * Dt(count) / 1024, if count < limit then count + 1 else count;
      && Train(pn, limit, y) == p1 * 1024 + count1 && 0 <= p1 < 0x40_0000 && Counter(Train(pn, limit, y))
      && (if y == 1 then p <= p1 else p1 <= p)
  {
    var p, count, e, x, inc := TrainParts(pn, limit, y);
    Moved(pn, p, count, x, inc, e, Dt(count), y);
  }

  lemma TrainParts(pn: nat, limit: nat, y: bit) returns (p: nat, count: nat, e: int, x: int, inc: nat)
    requires Counter(pn) && limit <= COUNT_MAX
    ensures p == pn / 1024 && count == pn % 1024 && e == Error15(pn / 131072, y) && x == e * Dt(count)
    ensures inc == (if count < limit then 1 else 0) && count + inc <= COUNT_MAX && Dt(count) <= 87380
    ensures pn == p * 1024 + count && p < 0x40_0000 && e == y * 32767 - p / 128
    ensures Train(pn, limit, y) == (pn + (Wrapped(x) - Wrapped(x) % 1024) + inc) % TWO32
  {
    Fields(pn);
    p, count := pn / 1024, pn % 1024;
    e := Error15(pn / 131072, y);
    x, inc := e * Dt(count), if count < limit then 1 else 0;
    TrainIs(pn, limit, y, count, x, inc);
    DtWithin(count);
  }

  lemma TrainIs(pn: nat, limit: nat, y: bit, count: nat, x: int, inc: nat)
    requires Counter(pn) && count == pn % 1024 && x == Error15(pn / 131072, y) * Dt(count)
    requires inc == if count < limit then 1 else 0
    ensures Train(pn, limit, y) == (pn + (Wrapped(x) - Wrapped(x) % 1024) + inc) % TWO32
  {
  }

  lemma Moved(pn: nat, p: nat, count: nat, x: int, inc: nat, e: int, dt: nat, y: bit)
    requires pn == p * 1024 + count && p < 0x40_0000 && count + inc <= COUNT_MAX && x == e * dt && dt <= 87380
    requires e == y * 32767 - p / 128
    ensures
      var p1 := p + x / 1024;
      && 0 <= p1 < 0x40_0000 && (if y == 1 then p <= p1 else p1 <= p) && Counter(p1 * 1024 + (count + inc))
      && (pn + (Wrapped(x) - Wrapped(x) % 1024) + inc) % TWO32 == p1 * 1024 + (count + inc)
  {
    StepWithin(p, e, dt, y);
    Rejoined(p + x / 1024, count + inc);
    WrapIsHarmless(pn, x, inc, (p + x / 1024) * 1024 + (count + inc));
  }

  /** The step stays below the distance to go. */
  lemma StepWithin(p: nat, e: int, dt: nat, y: bit)
    requires p < 0x40_0000 && dt <= 87380 && e == y * 32767 - p / 128
    ensures 0 <= p + e * dt / 1024 < 0x40_0000
    ensures if y == 1 then e * dt / 1024 >= 0 else e * dt / 1024 <= 0
  {
    if y == 1 {
      MoreOf(dt, 87380, e);
      Share(e * dt, e);
    } else {
      MoreOf(dt, 87380, -e);
      assert e * dt == -(-e * dt);
      Share(e * dt, -e);
    }
  }

  lemma Share(x: int, e: nat)
    requires 0 - 87380 * e <= x <= 87380 * e
    ensures 0 - 86 * e <= x / 1024 <= 86 * e && (x >= 0 ==> x / 1024 >= 0) && (x <= 0 ==> x / 1024 <= 0)
  {
  }

  lemma WrapIsHarmless(pn: nat, x: int, inc: int, r: nat)
    requires r < TWO32 && r == pn + x / 1024 * 1024 + inc
    ensures (pn + (Wrapped(x) - Wrapped(x) % 1024) + inc) % TWO32 == r
  {
    var w, k := Wrapped(x), x / TWO32;
    assert exists j: int :: w == x + j * TWO32 by {
      var j := if x % TWO32 < TWO31 then -k else -k - 1;
      assert w == x + j * TWO32;
    }
    var j: int :| w == x + j * TWO32;
    assert w == x + 1024 * (j * 0x40_0000);
    ShiftedRest(x, 1024, j * 0x40_0000);
    WholeTurns(r, j);
  }

  /** Quotient and rest of any number are unique. */
  lemma FloorIs(x: int, m: nat, q: int, r: nat)
    requires m > 0 && x == q * m + r && r < m
    ensures x % m == r && x / m == q
  {
    var k := x / m;
    if q < k {
      NextMultiple(q, k, m);
    } else if k < q {
      NextMultiple(k, q, m);
    }
  }

  lemma ShiftedRest(x: int, m: nat, k: int)
    requires m > 0
    ensures (x + m * k) % m == x % m
  {
    var q, r := x / m, x % m;
    assert (q + k) * m == q * m + m * k;
    FloorIs(x + m * k, m, q + k, r);
  }

  lemma WholeTurns(r: nat, j: int)
    requires r < TWO32
    ensures (r + j * TWO32) % TWO32 == r
  {
  }

  // ---------------------------------------------------------------- components

  /** Context model, indirect context model, match model, averages, mixers and corrections, with their arguments. */
  datatype Component =
    | Cons(c: byte)
    | Cm(limit: nat)
    | Icm
    | Match
    | Avg(j: nat, k: nat, wt: byte)
    | Mix2(j: nat, k: nat, rate: byte)
    | Mix(j: nat, m: nat, rate: byte)
    | Isse(j: nat)
    | Sse(j: nat, limit: nat)

  /** Component i takes its input from components in front of it. */
  predicate Legal(c: Component, i: nat) {
    match c
    case Cm(limit) => limit <= COUNT_MAX
    case Avg(j, k, _) => j < i && k < i
    case Mix2(j, k, _) => j < i && k < i
    case Mix(j, m, _) => j < i && 1 <= m <= i - j && m <= 255
    case Isse(j) => j < i
    case Sse(j, limit) => j < i && limit <= COUNT_MAX
    case _ => true
  }

  /** The learned numbers of a component: counters, bit history probabilities, or weights. */
  ghost predicate TableOk(c: Component, t: seq<int>) {
    match c
    case Cm(_) => |t| > 0 && forall k :: 0 <= k < |t| ==> Counter(t[k])
    case Icm => |t| == 256 && forall k :: 0 <= k < |t| ==> Chance(t[k])
    case Mix2(_, _, _) => |t| > 0 && forall k :: 0 <= k < |t| ==> IsWeight16(t[k])
    case Mix(_, m, _) => |t| >= m && forall k :: 0 <= k < |t| ==> IsWeight(t[k])
    case Isse(_) => |t| == 512 && forall k :: 0 <= k < |t| ==> IsWeight(t[k])
    case Sse(_, _) => |t| >= 32 && forall k :: 0 <= k < |t| ==> Counter(t[k])
    case _ => true
  }

  predicate Chance(pn: int) { 0 <= pn < 0x80_0000 }

  predicate IsWeight(w: int) { -0x8_0000 <= w < 0x8_0000 }
  predicate IsWeight16(w: int) { 0 <= w <= 65535 }

  /** What hashing finds for a component before a bit: a cell or row of its table, or the length and bit of a match. */
  datatype Found = Found(at: nat, len: byte, bit: bit)

  // ---------------------------------------------------------------- predicting

  function Dt2k(len: byte): nat { if len == 0 then 0 else 2048 / len }

  /** Two predictions weighed against each other stay between them. */
  function Blend(w: nat, whole: nat, a: Output, b: Output): (r: Output)
    requires w <= whole && (whole == 256 || whole == 65536)
  {
    BlendWithin(w, whole, a, b);
    var sum: Int32 := w * a + (whole - w) * b;
    sum / whole
  }

  lemma BlendWithin(w: nat, whole: nat, a: Output, b: Output)
    requires w <= whole && (whole == 256 || whole == 65536)
    ensures -2048 * whole <= w * a + (whole - w) * b <= 2047 * whole
    ensures -2048 <= (w * a + (whole - w) * b) / whole <= 2047
  {
    MoreThan(w, a);
    MoreThan(whole - w, b);
  }

  lemma MoreThan(w: nat, a: Output)
    ensures -2048 * w <= w * a <= 2047 * w
  {
    MoreOf(0, a + 2048, w);
    MoreOf(0, 2047 - a, w);
    assert w * a == w * (a + 2048) - 2048 * w;
  }

  /** The sum of the first k products of weights and inputs. */
  function Dot(t: seq<int>, row: nat, p: seq<Output>, j: nat, k: nat): int
    requires row + k <= |t| && j + k <= |p|
  {
    if k == 0 then 0 else Dot(t, row, p, j, k - 1) + t[row + k - 1] / 256 * p[j + k - 1]
  }

  lemma {:induction false} DotWithin(t: seq<int>, row: nat, p: seq<Output>, j: nat, k: nat)
    requires row + k <= |t| && j + k <= |p| && forall i :: 0 <= i < |t| ==> IsWeight(t[i])
    ensures 0 - 0x40_0000 * k <= Dot(t, row, p, j, k) <= 0x40_0000 * k
  {
    if k > 0 {
      DotWithin(t, row, p, j, k - 1);
      assert IsWeight(t[row + k - 1]);
      ProductWithin(t[row + k - 1] / 256, p[j + k - 1], 2048, 2048);
    }
  }

  /** The row of a mixer's weights. */
  function RowOf(size: nat, m: nat, at: nat): nat
    requires 1 <= m <= size
  {
    at % (size / m) * m
  }

  lemma RowFits(size: nat, m: nat, at: nat)
    requires 1 <= m <= size
    ensures size / m >= 1 && RowOf(size, m, at) + m <= size
  {
    QuotientFalls2(size, m);
    NextMultiple(at % (size / m), size / m, m);
  }

  lemma QuotientFalls2(size: nat, m: nat)
    requires 1 <= m <= size
    ensures size / m >= 1 && size / m * m <= size
  {
  }

  /** The place between two neighbouring cells that a correction looks at. */
  function Between(o: Output): (pq: nat)
    ensures pq <= 1983
  {
    if o + 992 < 0 then 0 else if o + 992 > 1983 then 1983 else o + 992
  }

  function SseOut(a: int, b: int, wt: nat): (r: Prob15)
    requires Counter(a) && Counter(b) && wt < 64
  {
    SseWithin(a / 1024, b / 1024, 64 - wt, wt);
    var sum: Int32 := a / 1024 * (64 - wt) + b / 1024 * wt;
    sum / 8192
  }

  lemma SseWithin(a: nat, b: nat, v: nat, wt: nat)
    requires a < 0x40_0000 && b < 0x40_0000 && v + wt == 64
    ensures 0 <= a * v + b * wt <= 0x3F_FFFF * 64
  {
    PartWithin(a, v);
    PartWithin(b, wt);
  }

  lemma PartWithin(a: nat, v: nat)
    requires a < 0x40_0000
    ensures 0 <= a * v <= 0x3F_FFFF * v
  {
    MoreOf(a, 0x3F_FFFF, v);
  }

  function MixOut(t: seq<int>, row: nat, p: seq<Output>, j: nat, m: nat): Output
    requires row + m <= |t| && j + m <= |p| && m <= 255 && forall i :: 0 <= i < |t| ==> IsWeight(t[i])
  {
    DotWithin(t, row, p, j, m);
    var sum: Int32 := Dot(t, row, p, j, m);
    Clamp2k(sum / 256)
  }

  function IsseOut(w0: Weight, w1: Weight, o: Output): Output {
    ProductWithin(w0, o, 0x8_0000, 2048);
    var sum: Int32 := w0 * o + w1 * 64;
    Clamp2k(sum / 65536)
  }

  /** What component i puts out, given the outputs in front of it. */
  function Out(c: Component, t: seq<int>, p: seq<Output>, i: nat, x: Found, lg: Logistic): Output
    requires Legal(c, i) && TableOk(c, t) && i <= |p|
  {
    match c
    case Cons(b) => (b - 128) * 4
    case Cm(_) =>
      assert Counter(t[x.at % |t|]);
      lg.stretch(t[x.at % |t|] / 131072)
    case Icm =>
      assert Chance(t[x.at % 256]);
      lg.stretch(t[x.at % 256] / 256)
    case Match => if x.len == 0 then 0 else lg.stretch(Dt2k(x.len) * (1 - 2 * x.bit) % 32768)
    case Avg(j, k, wt) => Blend(wt, 256, p[j], p[k])
    case Mix2(j, k, _) =>
      assert IsWeight16(t[x.at % |t|]);
      Blend(t[x.at % |t|], 65536, p[j], p[k])
    case Mix(j, m, _) =>
      RowFits(|t|, m, x.at);
      MixOut(t, RowOf(|t|, m, x.at), p, j, m)
    case Isse(j) =>
      var k := x.at % 256 * 2;
      assert IsWeight(t[k]) && IsWeight(t[k + 1]);
      IsseOut(t[k], t[k + 1], p[j])
    case Sse(j, _) =>
      var pq := Between(p[j]);
      var k := x.at * 32 + pq / 64;
      assert Counter(t[k % |t|]) && Counter(t[(k + 1) % |t|]);
      lg.stretch(SseOut(t[k % |t|], t[(k + 1) % |t|], pq % 64))
  }

  // ---------------------------------------------------------------- learning

  /** A mixer's error, scaled; it and its products with inputs fit 32 bits. */
  function Scaled(e: int, rate: byte, shift: nat): (err: Int32)
    requires -32767 <= e <= 32767 && (shift == 16 || shift == 32)
    ensures -522240 <= err <= 522240
  {
    ProductWithin(e, rate, 32767, 255);
    var product: Int32 := e * rate;
    product / shift
  }

  function Step(err: int, input: int): (r: int)
    requires -522240 <= err <= 522240 && -4095 <= input <= 4095 && (-261120 <= err <= 261120 || -2048 <= input <= 2047)
  {
    if -261120 <= err <= 261120 then
      ProductWithin(err, input, 261120, 4095);
      var product: Int32 := err * input + 4096;
      product / 8192
    else
      ProductWithin(err, input, 522240, 2048);
      var product: Int32 := err * input + 4096;
      product / 8192
  }

  /** The first k weights of a row adjusted. */
  function Adjusted(t: seq<int>, row: nat, p: seq<Output>, j: nat, k: nat, err: int): (r: seq<int>)
    requires row + k <= |t| && j + k <= |p| && -522240 <= err <= 522240
    requires forall i :: 0 <= i < |t| ==> IsWeight(t[i])
    ensures |r| == |t| && forall i :: 0 <= i < |r| ==> IsWeight(r[i])
    ensures forall i :: 0 <= i < |r| && !(row <= i < row + k) ==> r[i] == t[i]
  {
    if k == 0 then t
    else
      var u := Adjusted(t, row, p, j, k - 1, err);
      u[row + k - 1 := Clamp512k(t[row + k - 1] + Step(err, p[j + k - 1]))]
  }

  function LearnCounter(t: seq<int>, k: nat, limit: nat, y: bit): (r: seq<int>)
    requires k < |t| && limit <= COUNT_MAX && forall i :: 0 <= i < |t| ==> Counter(t[i])
    ensures |r| == |t| && forall i :: 0 <= i < |r| ==> Counter(r[i])
  {
    assert Counter(t[k]);
    TrainMoves(t[k], limit, y);
    t[k := Train(t[k], limit, y)]
  }

  function Nudged(pn: int, y: bit): (r: int)
    requires Chance(pn)
    ensures Chance(r) && if y == 1 then pn <= r else r <= pn
  {
    pn + (y * 32767 - pn / 256) / 4
  }

  function LearnMix2(t: seq<int>, at: nat, e: int, rate: byte, a: Output, b: Output): (r: seq<int>)
    requires at < |t| && -32767 <= e <= 32767 && forall i :: 0 <= i < |t| ==> IsWeight16(t[i])
    ensures |r| == |t| && forall i :: 0 <= i < |r| ==> IsWeight16(r[i])
  {
    HalfScale(e, rate);
    t[at := Clamp16(t[at] + Step(Scaled(e, rate, 32), a - b))]
  }

  function LearnIsse(t: seq<int>, k: nat, e: int, o: Output): (r: seq<int>)
    requires k + 1 < |t| && -32767 <= e <= 32767 && forall i :: 0 <= i < |t| ==> IsWeight(t[i])
    ensures |r| == |t| && forall i :: 0 <= i < |r| ==> IsWeight(r[i])
  {
    t[k := Clamp512k(t[k] + Step(e, o))][k + 1 := Clamp512k(t[k + 1] + (e + 16) / 32)]
  }

  /** The table of component i after it has been told the bit. */
  function Learn(c: Component, t: seq<int>, p: seq<Output>, i: nat, y: bit, x: Found, lg: Logistic): (r: seq<int>)
    requires Legal(c, i) && TableOk(c, t) && i < |p|
    ensures TableOk(c, r) && |r| == |t|
  {
    var e := Error15(lg.squash(p[i]), y);
    match c
    case Cm(limit) => LearnCounter(t, x.at % |t|, limit, y)
    case Icm => t[x.at % 256 := Nudged(t[x.at % 256], y)]
    case Mix2(j, k, rate) => LearnMix2(t, x.at % |t|, e, rate, p[j], p[k])
    case Mix(j, m, rate) =>
      RowFits(|t|, m, x.at);
      Adjusted(t, RowOf(|t|, m, x.at), p, j, m, Scaled(e, rate, 16))
    case Isse(j) => LearnIsse(t, x.at % 256 * 2, e, p[j])
    case Sse(j, limit) =>
      var pq := Between(p[j]);
      LearnCounter(t, (x.at * 32 + pq / 64 + pq % 64 / 32) % |t|, limit, y)
    case _ => t
  }

  lemma HalfScale(e: int, rate: byte)
    requires -32767 <= e <= 32767
    ensures -261120 <= Scaled(e, rate, 32) <= 261120
  {
    ProductWithin(e, rate, 32767, 255);
  }

  // ---------------------------------------------------------------- runs

  ghost predicate AllLegal(cs: seq<Component>) { forall i :: 0 <= i < |cs| ==> Legal(cs[i], i) }

  ghost predicate AllOk(cs: seq<Component>, ts: seq<seq<int>>) {
    |ts| == |cs| && forall i :: 0 <= i < |cs| ==> TableOk(cs[i], ts[i])
  }

  /** The outputs of the first n components. */
  function Outs(cs: seq<Component>, ts: seq<seq<int>>, xs: seq<Found>, lg: Logistic, n: nat): (p: seq<Output>)
    requires AllLegal(cs) && AllOk(cs, ts) && |xs| == |cs| && n <= |cs|
    ensures |p| == n
  {
    if n == 0 then []
    else
      var p := Outs(cs, ts, xs, lg, n - 1);
      p + [Out(cs[n - 1], ts[n - 1], p, n - 1, xs[n - 1], lg)]
  }

  /** The tables of the first n components after the bit. */
  function Learned(cs: seq<Component>, ts: seq<seq<int>>, p: seq<Output>, y: bit, xs: seq<Found>, lg: Logistic, n: nat)
    : (r: seq<seq<int>>)
    requires AllLegal(cs) && AllOk(cs, ts) && |xs| == |cs| == |p| && n <= |cs|
    ensures |r| == n && forall i :: 0 <= i < n ==> TableOk(cs[i], r[i])
  {
    if n == 0 then []
    else Learned(cs, ts, p, y, xs, lg, n - 1) + [Learn(cs[n - 1], ts[n - 1], p, n - 1, y, xs[n - 1], lg)]
  }

  /** A bit, and what hashing finds for each component in front of it. */
  datatype Turn = Turn(xs: seq<Found>, y: bit)

  /**
   The tables after any sequence of predictions and updates: counters, chances and weights stay in their
   fields whatever bits come and whatever contexts hashing finds.
   */
  function After(cs: seq<Component>, ts: seq<seq<int>>, lg: Logistic, turns: seq<Turn>): (r: seq<seq<int>>)
    requires AllLegal(cs) && AllOk(cs, ts) && forall t :: t in turns ==> |t.xs| == |cs|
    ensures AllOk(cs, r)
  {
    if turns == [] then ts
    else
      var m := |turns| - 1;
      var t := turns[m];
      assert t in turns;
      var us := After(cs, ts, lg, turns[..m]);
      Learned(cs, us, Outs(cs, us, t.xs, lg, |cs|), t.y, t.xs, lg, |cs|)
  }

  // ---------------------------------------------------------------- before the first bit

  /** How many zeros and ones a bit history stands for. */
  type Counts = nat -> (byte, byte)

  function CmInit(counts: Counts, state: nat): (pn: int)
    ensures Chance(pn)
  {
    var (n0, n1) := counts(state);
    InitialChance(n0, n1);
    (n1 * 2 + 1) * 0x40_0000 / (n0 + n1 + 1)
  }

  lemma InitialChance(n0: byte, n1: byte)
    ensures 0 <= (n1 * 2 + 1) * 0x40_0000 / (n0 + n1 + 1) < 0x80_0000
  {
    var m := n0 + n1 + 1;
    var x := (n1 * 2 + 1) * 0x40_0000;
    assert x < 0x80_0000 * m;
    if x / m >= 0x80_0000 {
      MoreOf(0x80_0000, x / m, m);
    }
  }

  /** Entry k of a table before the first bit. */
  function Initial(c: Component, k: nat, start: nat, counts: Counts, lg: Logistic): int {
    match c
    case Cm(_) => 0x8000_0000
    case Icm => CmInit(counts, k)
    case Mix2(_, _, _) => 32768
    case Mix(_, m, _) => if m == 0 then 0 else 65536 / m
    case Isse(_) => if k % 2 == 0 then 0x8000 else Clamp512k(lg.stretch(CmInit(counts, k / 2) / 256) * 1024)
    case Sse(_, _) => lg.squash(k % 32 * 64 - 992) * 0x2_0000 + start
    case _ => 0
  }

  predicate EntryOk(c: Component, x: int) {
    match c
    case Cm(_) => Counter(x)
    case Icm => Chance(x)
    case Mix2(_, _, _) => IsWeight16(x)
    case Mix(_, _, _) => IsWeight(x)
    case Isse(_) => IsWeight(x)
    case Sse(_, _) => Counter(x)
    case _ => true
  }

  lemma SseStart(q: Prob15, start: nat)
    requires start <= 255
    ensures Counter(q * 0x2_0000 + start)
  {
  }

  lemma InitialEntryOk(c: Component, i: nat, k: nat, start: nat, counts: Counts, lg: Logistic)
    requires Legal(c, i) && start <= 255
    ensures EntryOk(c, Initial(c, k, start, counts, lg))
  {
    match c {
      case Mix(_, m, _) =>
        if m > 0 {
          QuotientFalls(65536, 1, m);
        }
      case Sse(_, _) => SseStart(lg.squash(k % 32 * 64 - 992), start);
      case _ =>
    }
  }

  lemma InitialOk(c: Component, i: nat, t: seq<int>, start: nat, counts: Counts, lg: Logistic)
    requires Legal(c, i) && (c.Sse? ==> start <= c.limit && start <= 255)
    requires forall k :: 0 <= k < |t| ==> t[k] == Initial(c, k, start, counts, lg)
    requires match c
             case Icm => |t| == 256
             case Isse(_) => |t| == 512
             case Mix(_, m, _) => |t| >= m
             case _ => |t| >= 32
    ensures TableOk(c, t)
  {
    forall k | 0 <= k < |t|
      ensures EntryOk(c, t[k])
    {
      InitialEntryOk(c, i, k, if c.Sse? then start else 0, counts, lg);
    }
  }
}
