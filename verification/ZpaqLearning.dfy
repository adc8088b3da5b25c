/** What the components of the predictor put out and how they learn, in numbers; and that they learn the right way. */
module ZpaqLearning {
  import opened Bytes
  import opened ZpaqPredictor

  /** q is x / n, rounded down. */
  predicate Floor(q: int, x: int, n: nat) { q * n <= x < (q + 1) * n }

  /** o is x / n, rounded down, or the end of the range on the side where that lies. */
  predicate FloorWithin(o: int, x: int, n: nat, lo: int, hi: int) {
    lo <= o <= hi && (Floor(o, x, n) || (o == hi && x >= (hi + 1) * n) || (o == lo && x < lo * n))
  }

  /** w1 is w moved by x / n, rounded to the nearest, or the end of the range on the way there. */
  predicate Moved(w: int, w1: int, x: int, n: nat, lo: int, hi: int) {
    || 0 - n < 2 * (n * (w1 - w) - x) <= n
    || (w1 == hi && n * (hi - w) < x)
    || (w1 == lo && n * (lo - w) > x)
  }

  lemma FloorOf(x: int, n: nat)
    requires n > 0
    ensures Floor(x / n, x, n)
  {
  }

  // ---------------------------------------------------------------- outputs

  /** The prediction that stands in a cell, as many of its upper bits as belong to it. */
  predicate PutsCell(o: Output, cell: int, n: nat, lg: Logistic) {
    n > 0 && 0 <= cell / n <= 32767 && o == lg.stretch(cell / n)
  }

  /** A match of len bytes expects its bit so much. */
  predicate PutsMatch(o: Output, len: byte, b: bit, lg: Logistic) {
    if len == 0 then o == 0
    else exists d: nat :: d <= 2048 && Floor(d, 2048, len) && o == lg.stretch(if b == 0 then d else (32768 - d) % 32768)
  }

  lemma MatchInNumbers(len: byte, b: bit, lg: Logistic)
    ensures PutsMatch(if len == 0 then 0 else lg.stretch(Dt2k(len) * (1 - 2 * b) % 32768), len, b, lg)
  {
    if len > 0 {
      var d := Dt2k(len);
      FloorOf(2048, len);
      QuotientFalls(2048, 1, len);
      assert b == 1 ==> d * (1 - 2 * b) == -d;
      assert b == 1 ==> -d % 32768 == (32768 - d) % 32768;
      assert Floor(d, 2048, len);
    }
  }

  /** The sum of the products of inputs and the upper bits of weights. */
  function SumOf(ws: seq<int>, ins: seq<Output>): int
    requires |ws| == |ins|
  {
    if ws == [] then 0 else ws[0] / 256 * ins[0] + SumOf(ws[1..], ins[1..])
  }

  lemma {:induction false} SumOneMore(ws: seq<int>, ins: seq<Output>, w: int, o: Output)
    requires |ws| == |ins|
    ensures SumOf(ws + [w], ins + [o]) == SumOf(ws, ins) + w / 256 * o
    decreases |ws|
  {
    if ws == [] {
      assert [w][1..] == [] && [o][1..] == [];
    } else {
      assert (ws + [w])[1..] == ws[1..] + [w] && (ins + [o])[1..] == ins[1..] + [o];
      SumOneMore(ws[1..], ins[1..], w, o);
    }
  }

  lemma {:induction false} DotIsSum(t: seq<int>, row: nat, p: seq<Output>, j: nat, k: nat)
    requires row + k <= |t| && j + k <= |p|
    ensures Dot(t, row, p, j, k) == SumOf(t[row..row + k], p[j..j + k])
  {
    if k > 0 {
      DotIsSum(t, row, p, j, k - 1);
      SumOneMore(t[row..row + k - 1], p[j..j + k - 1], t[row + k - 1], p[j + k - 1]);
      assert t[row..row + k] == t[row..row + k - 1] + [t[row + k - 1]];
      assert p[j..j + k] == p[j..j + k - 1] + [p[j + k - 1]];
    }
  }

  predicate PutsMixed(o: Output, t: seq<int>, m: nat, at: nat, p: seq<Output>, j: nat)
    requires 1 <= m <= |t| && j + m <= |p|
  {
    RowFits(|t|, m, at);
    var row := at % (|t| / m) * m;
    FloorWithin(o, SumOf(t[row..row + m], p[j..j + m]), 256, -2048, 2047)
  }

  /** Between two neighbouring cells, in proportion to the nearness of the input. */
  predicate PutsBetween(o: Output, t: seq<int>, at: nat, input: Output, lg: Logistic)
    requires t != []
  {
    var place := if input < -992 then 0 else if input > 991 then 1983 else input + 992;
    var k, wt := at * 32 + place / 64, place % 64;
    exists v: Prob15 :: o == lg.stretch(v) && Floor(v, t[k % |t|] / 1024 * (64 - wt) + t[(k + 1) % |t|] / 1024 * wt, 8192)
  }

  ghost predicate Puts(c: Component, t: seq<int>, p: seq<Output>, i: nat, x: Found, lg: Logistic, o: Output)
    requires Legal(c, i) && TableOk(c, t) && i <= |p|
  {
    match c
    case Cons(b) => o == 4 * b - 512
    case Cm(_) => PutsCell(o, t[x.at % |t|], 131072, lg)
    case Icm => PutsCell(o, t[x.at % 256], 256, lg)
    case Match => PutsMatch(o, x.len, x.bit, lg)
    case Avg(j, k, wt) => Floor(o, wt * p[j] + (256 - wt) * p[k], 256)
    case Mix2(j, k, _) => Floor(o, t[x.at % |t|] * p[j] + (65536 - t[x.at % |t|]) * p[k], 65536)
    case Mix(j, m, _) => PutsMixed(o, t, m, x.at, p, j)
    case Isse(j) =>
      FloorWithin(o, t[x.at % 256 * 2] * p[j] + 64 * t[x.at % 256 * 2 + 1], 65536, -2048, 2047)
    case Sse(j, _) => PutsBetween(o, t, x.at, p[j], lg)
  }

  lemma ClampFloors(x: int, n: nat)
    requires n > 0
    ensures FloorWithin(Clamp2k(x / n), x, n, -2048, 2047)
  {
    FloorOf(x, n);
    if x / n < -2048 {
      Further(x / n + 1, -2048, n);
    } else if x / n > 2047 {
      Further(2048, x / n, n);
    }
  }

  lemma Further(a: int, b: int, n: nat)
    requires a <= b
    ensures a * n <= b * n
  {
    assert (b - a) * n >= 0;
  }

  lemma SseInNumbers(t: seq<int>, at: nat, input: Output, lg: Logistic)
    requires t != [] && forall k :: 0 <= k < |t| ==> Counter(t[k])
    ensures
      var pq := Between(input);
      var k := at * 32 + pq / 64;
      Counter(t[k % |t|]) && Counter(t[(k + 1) % |t|])
      && PutsBetween(lg.stretch(SseOut(t[k % |t|], t[(k + 1) % |t|], pq % 64)), t, at, input, lg)
  {
    var pq := Between(input);
    var k, wt := at * 32 + pq / 64, pq % 64;
    var v := SseOut(t[k % |t|], t[(k + 1) % |t|], wt);
    FloorOf(t[k % |t|] / 1024 * (64 - wt) + t[(k + 1) % |t|] / 1024 * wt, 8192);
    assert Floor(v, t[k % |t|] / 1024 * (64 - wt) + t[(k + 1) % |t|] / 1024 * wt, 8192);
  }

  lemma CmPuts(c: Component, t: seq<int>, p: seq<Output>, i: nat, x: Found, lg: Logistic)
    requires Legal(c, i) && TableOk(c, t) && i <= |p| && c.Cm?
    ensures Puts(c, t, p, i, x, lg, Out(c, t, p, i, x, lg))
  {
    assert Counter(t[x.at % |t|]);
  }

  lemma IcmPuts(c: Component, t: seq<int>, p: seq<Output>, i: nat, x: Found, lg: Logistic)
    requires Legal(c, i) && TableOk(c, t) && i <= |p| && c.Icm?
    ensures Puts(c, t, p, i, x, lg, Out(c, t, p, i, x, lg))
  {
    assert Chance(t[x.at % 256]);
  }

  lemma AvgPuts(c: Component, t: seq<int>, p: seq<Output>, i: nat, x: Found, lg: Logistic)
    requires Legal(c, i) && TableOk(c, t) && i <= |p| && c.Avg?
    ensures Puts(c, t, p, i, x, lg, Out(c, t, p, i, x, lg))
  {
    FloorOf(c.wt * p[c.j] + (256 - c.wt) * p[c.k], 256);
  }

  lemma Mix2Puts(c: Component, t: seq<int>, p: seq<Output>, i: nat, x: Found, lg: Logistic)
    requires Legal(c, i) && TableOk(c, t) && i <= |p| && c.Mix2?
    ensures Puts(c, t, p, i, x, lg, Out(c, t, p, i, x, lg))
  {
    var w := t[x.at % |t|];
    assert IsWeight16(w);
    FloorOf(w * p[c.j] + (65536 - w) * p[c.k], 65536);
  }

  lemma MixPuts(c: Component, t: seq<int>, p: seq<Output>, i: nat, x: Found, lg: Logistic)
    requires Legal(c, i) && TableOk(c, t) && i <= |p| && c.Mix?
    ensures Puts(c, t, p, i, x, lg, Out(c, t, p, i, x, lg))
  {
    var row := RowOf(|t|, c.m, x.at);
    RowFits(|t|, c.m, x.at);
    DotIsSum(t, row, p, c.j, c.m);
    ClampFloors(Dot(t, row, p, c.j, c.m), 256);
  }

  lemma IssePuts(c: Component, t: seq<int>, p: seq<Output>, i: nat, x: Found, lg: Logistic)
    requires Legal(c, i) && TableOk(c, t) && i <= |p| && c.Isse?
    ensures Puts(c, t, p, i, x, lg, Out(c, t, p, i, x, lg))
  {
    var k := x.at % 256 * 2;
    assert IsWeight(t[k]) && IsWeight(t[k + 1]);
    ClampFloors(t[k] * p[c.j] + 64 * t[k + 1], 65536);
  }

  /** What every component puts out. */
  lemma OutputInNumbers(c: Component, t: seq<int>, p: seq<Output>, i: nat, x: Found, lg: Logistic)
    requires Legal(c, i) && TableOk(c, t) && i <= |p|
    ensures Puts(c, t, p, i, x, lg, Out(c, t, p, i, x, lg))
  {
    match c {
      case Cm(_) => CmPuts(c, t, p, i, x, lg);
      case Icm => IcmPuts(c, t, p, i, x, lg);
      case Match => MatchInNumbers(x.len, x.bit, lg);
      case Avg(_, _, _) => AvgPuts(c, t, p, i, x, lg);
      case Mix2(_, _, _) => Mix2Puts(c, t, p, i, x, lg);
      case Mix(_, _, _) => MixPuts(c, t, p, i, x, lg);
      case Isse(_) => IssePuts(c, t, p, i, x, lg);
      case Sse(j, _) => SseInNumbers(t, x.at, p[j], lg);
      case _ =>
    }
  }

  // ---------------------------------------------------------------- learning

  /** Only n entries from k on can be different. */
  ghost predicate OnlyAt(t: seq<int>, r: seq<int>, k: nat, n: nat) {
    |r| == |t| && forall i :: 0 <= i < |t| && !(k <= i < k + n) ==> r[i] == t[i]
  }

  /** The probability in the upper 22 bits moves by error times rate, the count in the lower ten goes up to the limit. */
  ghost predicate CounterLearns(t: seq<int>, r: seq<int>, k: nat, limit: nat, y: bit) {
    && k < |t| && OnlyAt(t, r, k, 1) && 0 <= r[k] < TWO32
    && var p, n := t[k] / 1024, t[k] % 1024;
       && r[k] % 1024 == (if n < limit then n + 1 else n)
       && exists d: nat :: Floor(d, 131072, 2 * n + 3) && Floor(r[k] / 1024 - p, (y * 32767 - p / 128) * (2 * d), 1024)
  }

  ghost predicate WeightsLearn(t: seq<int>, r: seq<int>, row: nat, err: int, ins: seq<Output>) {
    OnlyAt(t, r, row, |ins|) && forall q :: 0 <= q < |ins| ==> InputLearns(t, r, row, err, ins, q)
  }

  predicate InputLearns(t: seq<int>, r: seq<int>, row: nat, err: int, ins: seq<Output>, q: nat)
    requires q < |ins|
  {
    WeightLearns(t, r, row + q, err * ins[q])
  }

  predicate WeightLearns(t: seq<int>, r: seq<int>, k: nat, x: int) {
    k < |t| && k < |r| && Moved(t[k], r[k], x, 8192, -0x8_0000, 0x7_FFFF)
  }

  ghost predicate MixLearns(t: seq<int>, r: seq<int>, m: nat, at: nat, e: int, rate: byte, ins: seq<Output>)
    requires 1 <= m <= |t|
  {
    exists err: int :: Floor(err, e * rate, 16) && WeightsLearn(t, r, at % (|t| / m) * m, err, ins)
  }

  ghost predicate Mix2Learns(t: seq<int>, r: seq<int>, k: nat, e: int, rate: byte, input: int) {
    && k < |t| && OnlyAt(t, r, k, 1)
    && exists err: int :: Floor(err, e * rate, 32) && Moved(t[k], r[k], err * input, 8192, 0, 65535)
  }

  /** What every component learns; e is the error of its own output. */
  ghost predicate Learns(c: Component, t: seq<int>, p: seq<Output>, i: nat, y: bit, x: Found, lg: Logistic, r: seq<int>)
    requires Legal(c, i) && TableOk(c, t) && i < |p|
  {
    var e := y * 32767 - lg.squash(p[i]);
    match c
    case Cm(limit) => CounterLearns(t, r, x.at % |t|, limit, y)
    case Icm =>
      var k := x.at % 256;
      OnlyAt(t, r, k, 1) && Floor(r[k] - t[k], y * 32767 - t[k] / 256, 4)
    case Mix2(j, k, rate) => Mix2Learns(t, r, x.at % |t|, e, rate, p[j] as int - p[k] as int)
    case Mix(j, m, rate) => MixLearns(t, r, m, x.at, e, rate, p[j..j + m])
    case Isse(j) =>
      var k := x.at % 256 * 2;
      OnlyAt(t, r, k, 2) && WeightLearns(t, r, k, e * p[j]) && Moved(t[k + 1], r[k + 1], e, 32, -0x8_0000, 0x7_FFFF)
    case Sse(j, limit) =>
      var place := if p[j] < -992 then 0 else if p[j] > 991 then 1983 else p[j] + 992;
      CounterLearns(t, r, (x.at * 32 + (place + 32) / 64) % |t|, limit, y)
    case _ => r == t
  }

  /** A weight and a rounded step, kept within the range. */
  lemma StepIsMove(w: int, w1: int, x: int, n: nat, lo: int, hi: int, step: int)
    requires (n == 8192 || n == 32) && lo <= w <= hi && step == (x + n / 2) / n
    requires w1 == if w + step < lo then lo else if w + step > hi then hi else w + step
    ensures Moved(w, w1, x, n, lo, hi)
  {
  }

  lemma CounterInNumbers(t: seq<int>, k: nat, limit: nat, y: bit)
    requires k < |t| && limit <= COUNT_MAX && forall i :: 0 <= i < |t| ==> Counter(t[i])
    ensures CounterLearns(t, LearnCounter(t, k, limit, y), k, limit, y)
  {
    assert Counter(t[k]);
    TrainMoves(t[k], limit, y);
    TrainedInNumbers(t[k], limit, y);
  }

  lemma TrainedInNumbers(pn: nat, limit: nat, y: bit)
    requires Counter(pn) && limit <= COUNT_MAX
    ensures
      var p, n, r := pn / 1024, pn % 1024, Train(pn, limit, y);
      && 0 <= r < TWO32 && r % 1024 == (if n < limit then n + 1 else n)
      && exists d: nat :: Floor(d, 131072, 2 * n + 3) && Floor(r / 1024 - p, (y * 32767 - p / 128) * (2 * d), 1024)
  {
    TrainMoves(pn, limit, y);
    Fields(pn);
    var p, n := pn / 1024, pn % 1024;
    var e, d := Error15(pn / 131072, y), 131072 / (2 * n + 3);
    FloorOf(131072, 2 * n + 3);
    FloorOf(e * (2 * d), 1024);
    var p1, n1 := p + e * Dt(n) / 1024, if n < limit then n + 1 else n;
    assert Dt(n) == 2 * d;
    Rejoined(p1, n1);
    assert Floor(d, 131072, 2 * n + 3) && Floor(p1 - p, e * (2 * d), 1024);
  }

  lemma {:induction false} AdjustedInNumbers(t: seq<int>, row: nat, p: seq<Output>, j: nat, m: nat, err: int)
    requires row + m <= |t| && j + m <= |p| && -522240 <= err <= 522240 && forall i :: 0 <= i < |t| ==> IsWeight(t[i])
    ensures WeightsLearn(t, Adjusted(t, row, p, j, m, err), row, err, p[j..j + m])
  {
    if m > 0 {
      AdjustedInNumbers(t, row, p, j, m - 1, err);
      var u, r, ins := Adjusted(t, row, p, j, m - 1, err), Adjusted(t, row, p, j, m, err), p[j..j + m];
      var q := m - 1;
      assert IsWeight(t[row + q]);
      StepIsMove(t[row + q], r[row + q], err * ins[q], 8192, -0x8_0000, 0x7_FFFF, Step(err, ins[q]));
      forall i | 0 <= i < m
        ensures InputLearns(t, r, row, err, ins, i)
      {
        if i < q {
          assert p[j..j + q][i] == ins[i] && InputLearns(t, u, row, err, p[j..j + q], i);
        }
      }
    }
  }

  lemma MixInNumbers(t: seq<int>, m: nat, at: nat, e: int, rate: byte, p: seq<Output>, j: nat)
    requires 1 <= m <= |t| && j + m <= |p| && -32767 <= e <= 32767 && forall i :: 0 <= i < |t| ==> IsWeight(t[i])
    ensures RowOf(|t|, m, at) + m <= |t|
    ensures MixLearns(t, Adjusted(t, RowOf(|t|, m, at), p, j, m, Scaled(e, rate, 16)), m, at, e, rate, p[j..j + m])
  {
    RowFits(|t|, m, at);
    AdjustedInNumbers(t, RowOf(|t|, m, at), p, j, m, Scaled(e, rate, 16));
    FloorOf(e * rate, 16);
    assert Floor(Scaled(e, rate, 16), e * rate, 16);
  }

  lemma Mix2InNumbers(t: seq<int>, k: nat, e: int, rate: byte, a: Output, b: Output)
    requires k < |t| && -32767 <= e <= 32767 && forall i :: 0 <= i < |t| ==> IsWeight16(t[i])
    ensures Mix2Learns(t, LearnMix2(t, k, e, rate, a, b), k, e, rate, a as int - b as int)
  {
    assert IsWeight16(t[k]);
    HalfScale(e, rate);
    var err, input, r := Scaled(e, rate, 32), a as int - b as int, LearnMix2(t, k, e, rate, a, b);
    FloorOf(e * rate, 32);
    StepIsMove(t[k], r[k], err * input, 8192, 0, 65535, Step(err, input));
    assert Floor(err, e * rate, 32);
  }

  lemma IsseInNumbers(t: seq<int>, k: nat, e: int, o: Output)
    requires k + 1 < |t| && -32767 <= e <= 32767 && forall i :: 0 <= i < |t| ==> IsWeight(t[i])
    ensures
      var r := LearnIsse(t, k, e, o);
      OnlyAt(t, r, k, 2) && WeightLearns(t, r, k, e * o) && Moved(t[k + 1], r[k + 1], e, 32, -0x8_0000, 0x7_FFFF)
  {
    assert IsWeight(t[k]) && IsWeight(t[k + 1]);
    var r := LearnIsse(t, k, e, o);
    StepIsMove(t[k], r[k], e * o, 8192, -0x8_0000, 0x7_FFFF, Step(e, o));
    StepIsMove(t[k + 1], r[k + 1], e, 32, -0x8_0000, 0x7_FFFF, (e + 16) / 32);
  }

  lemma SseCell(input: Output)
    ensures
      var place := if input < -992 then 0 else if input > 991 then 1983 else input + 992;
      Between(input) == place && place / 64 + place % 64 / 32 == (place + 32) / 64
  {
  }

  lemma NudgedInNumbers(t: seq<int>, k: nat, y: bit)
    requires k < |t| && forall i :: 0 <= i < |t| ==> Chance(t[i])
    ensures var r := t[k := Nudged(t[k], y)]; OnlyAt(t, r, k, 1) && Floor(r[k] - t[k], y * 32767 - t[k] / 256, 4)
  {
    assert Chance(t[k]);
    FloorOf(y * 32767 - t[k] / 256, 4);
  }

  lemma CmLearnsSo(c: Component, t: seq<int>, p: seq<Output>, i: nat, y: bit, x: Found, lg: Logistic)
    requires Legal(c, i) && TableOk(c, t) && i < |p| && c.Cm?
    ensures Learns(c, t, p, i, y, x, lg, Learn(c, t, p, i, y, x, lg))
  {
    CounterInNumbers(t, x.at % |t|, c.limit, y);
  }

  lemma IcmLearnsSo(c: Component, t: seq<int>, p: seq<Output>, i: nat, y: bit, x: Found, lg: Logistic)
    requires Legal(c, i) && TableOk(c, t) && i < |p| && c.Icm?
    ensures Learns(c, t, p, i, y, x, lg, Learn(c, t, p, i, y, x, lg))
  {
    NudgedInNumbers(t, x.at % 256, y);
  }

  lemma Mix2LearnsSo(c: Component, t: seq<int>, p: seq<Output>, i: nat, y: bit, x: Found, lg: Logistic)
    requires Legal(c, i) && TableOk(c, t) && i < |p| && c.Mix2?
    ensures Learns(c, t, p, i, y, x, lg, Learn(c, t, p, i, y, x, lg))
  {
    Mix2InNumbers(t, x.at % |t|, y * 32767 - lg.squash(p[i]), c.rate, p[c.j], p[c.k]);
  }

  lemma MixLearnsSo(c: Component, t: seq<int>, p: seq<Output>, i: nat, y: bit, x: Found, lg: Logistic)
    requires Legal(c, i) && TableOk(c, t) && i < |p| && c.Mix?
    ensures Learns(c, t, p, i, y, x, lg, Learn(c, t, p, i, y, x, lg))
  {
    MixInNumbers(t, c.m, x.at, y * 32767 - lg.squash(p[i]), c.rate, p, c.j);
  }

  lemma IsseLearnsSo(c: Component, t: seq<int>, p: seq<Output>, i: nat, y: bit, x: Found, lg: Logistic)
    requires Legal(c, i) && TableOk(c, t) && i < |p| && c.Isse?
    ensures Learns(c, t, p, i, y, x, lg, Learn(c, t, p, i, y, x, lg))
  {
    IsseInNumbers(t, x.at % 256 * 2, y * 32767 - lg.squash(p[i]), p[c.j]);
  }

  lemma SseLearnsSo(c: Component, t: seq<int>, p: seq<Output>, i: nat, y: bit, x: Found, lg: Logistic)
    requires Legal(c, i) && TableOk(c, t) && i < |p| && c.Sse?
    ensures Learns(c, t, p, i, y, x, lg, Learn(c, t, p, i, y, x, lg))
  {
    SseCell(p[c.j]);
    var pq := Between(p[c.j]);
    CounterInNumbers(t, (x.at * 32 + pq / 64 + pq % 64 / 32) % |t|, c.limit, y);
  }

  /** What every component learns. */
  lemma LearningInNumbers(c: Component, t: seq<int>, p: seq<Output>, i: nat, y: bit, x: Found, lg: Logistic)
    requires Legal(c, i) && TableOk(c, t) && i < |p|
    ensures Learns(c, t, p, i, y, x, lg, Learn(c, t, p, i, y, x, lg))
  {
    match c {
      case Cm(_) => CmLearnsSo(c, t, p, i, y, x, lg);
      case Icm => IcmLearnsSo(c, t, p, i, y, x, lg);
      case Mix2(_, _, _) => Mix2LearnsSo(c, t, p, i, y, x, lg);
      case Mix(_, _, _) => MixLearnsSo(c, t, p, i, y, x, lg);
      case Isse(_) => IsseLearnsSo(c, t, p, i, y, x, lg);
      case Sse(_, _) => SseLearnsSo(c, t, p, i, y, x, lg);
      case _ =>
    }
  }

  // ---------------------------------------------------------------- learning goes the right way

  /** From a to b is toward the bit, or no way at all. */
  predicate Toward(y: bit, a: int, b: int) { if y == 1 then a <= b else b <= a }

  ghost predicate RisingStretch(lg: Logistic) {
    forall a: Prob15, b: Prob15 :: a <= b ==> lg.stretch(a) <= lg.stretch(b)
  }

  /** A weight moves so that its product with the input goes the way of the error. */
  lemma ProductMoves(w: int, w1: int, err: int, input: int, n: nat, lo: int, hi: int)
    requires (n == 8192 || n == 32) && lo <= w <= hi && Moved(w, w1, err * input, n, lo, hi)
    ensures err >= 0 ==> (w1 - w) * input >= 0
    ensures err <= 0 ==> (w1 - w) * input <= 0
  {
    var x, d := err * input, w1 - w;
    assert (x > 0 ==> d >= 0) && (x < 0 ==> d <= 0) && (x == 0 ==> d == 0);
    if err > 0 {
      SignOf(err, input);
      ProductSign(d, input);
    } else if err < 0 {
      SignOf(-err, input);
      assert x == -((-err) * input);
      ProductSign(-d, input);
      assert d * input == -((-d) * input);
    }
  }

  lemma SignOf(a: int, b: int)
    requires a > 0
    ensures (b > 0 ==> a * b > 0) && (b < 0 ==> a * b < 0)
  {
    if b < 0 {
      assert a * b == -(a * (-b));
    }
  }

  lemma ProductSign(d: int, input: int)
    requires (input > 0 ==> d >= 0) && (input < 0 ==> d <= 0)
    ensures d * input >= 0
  {
  }

  lemma ErrorSign(y: bit, q: Prob15, err: int, rate: byte, n: nat)
    requires (n == 16 || n == 32) && Floor(err, (y * 32767 - q) * rate, n)
    ensures if y == 1 then err >= 0 else err <= 0
  {
    var e := y * 32767 - q;
    if y == 1 {
      assert e * rate >= 0;
    } else {
      assert e * rate <= 0 by { assert (-e) * rate >= 0; }
    }
  }

  /** The product of weight q and its input goes toward the bit. */
  predicate ProductToward(t: seq<int>, r: seq<int>, row: nat, p: seq<Output>, j: nat, q: nat, y: bit) {
    row + q < |t| == |r| && j + q < |p| && Toward(y, 0, (r[row + q] - t[row + q]) * p[j + q])
  }

  /** More upper bits of weights that go with the inputs make a greater sum. */
  lemma {:induction false} DotMoves(t: seq<int>, r: seq<int>, row: nat, p: seq<Output>, j: nat, m: nat, y: bit)
    requires row + m <= |t| == |r| && j + m <= |p| && forall q :: 0 <= q < m ==> ProductToward(t, r, row, p, j, q, y)
    ensures Toward(y, Dot(t, row, p, j, m), Dot(r, row, p, j, m))
  {
    if m > 0 {
      DotMoves(t, r, row, p, j, m - 1, y);
      assert ProductToward(t, r, row, p, j, m - 1, y);
      UpperBitsMove(t[row + m - 1], r[row + m - 1], p[j + m - 1]);
    }
  }

  lemma UpperBitsMove(w: int, w1: int, o: int)
    ensures (w1 - w) * o >= 0 ==> w / 256 * o <= w1 / 256 * o
    ensures (w1 - w) * o <= 0 ==> w1 / 256 * o <= w / 256 * o
  {
    var d := w1 / 256 - w / 256;
    assert (w1 >= w ==> d >= 0) && (w1 <= w ==> d <= 0);
    assert w1 / 256 * o - w / 256 * o == d * o;
    if o > 0 {
      SignOf(o, w1 - w);
      SignOf(o, d);
    } else if o < 0 {
      SignOf(-o, w1 - w);
      SignOf(-o, d);
      assert (w1 - w) * o == -((-o) * (w1 - w)) && d * o == -((-o) * d);
    }
  }

  /** A greater sum is not put out as less. */
  lemma FloorsMove(y: bit, x: int, x1: int, n: nat)
    requires n > 0 && Toward(y, x, x1)
    ensures Toward(y, x / n, x1 / n) && Toward(y, Clamp2k(x / n), Clamp2k(x1 / n))
  {
    FloorOf(x, n);
    FloorOf(x1, n);
    if x / n > x1 / n {
      Further(x1 / n + 1, x / n, n);
    } else if x / n < x1 / n {
      Further(x / n + 1, x1 / n, n);
    }
  }

  lemma CmMoves(t: seq<int>, k: nat, limit: nat, y: bit, lg: Logistic)
    requires k < |t| && limit <= COUNT_MAX && (forall i :: 0 <= i < |t| ==> Counter(t[i])) && RisingStretch(lg)
    ensures
      var r := LearnCounter(t, k, limit, y);
      Counter(t[k]) && Counter(r[k]) && Toward(y, lg.stretch(t[k] / 131072), lg.stretch(r[k] / 131072))
  {
    assert Counter(t[k]);
    TrainMoves(t[k], limit, y);
    var r := LearnCounter(t, k, limit, y);
    Fields(t[k]);
    Fields(r[k]);
    FloorsMove(y, t[k] / 1024, r[k] / 1024, 128);
  }

  lemma IcmMoves(pn: int, y: bit, lg: Logistic)
    requires Chance(pn) && RisingStretch(lg)
    ensures Toward(y, lg.stretch(pn / 256), lg.stretch(Nudged(pn, y) / 256))
  {
    FloorsMove(y, pn, Nudged(pn, y), 256);
  }

  lemma Mix2Moves(w: int, w1: int, err: int, y: bit, a: Output, b: Output)
    requires IsWeight16(w) && IsWeight16(w1) && Moved(w, w1, err * (a as int - b as int), 8192, 0, 65535)
    requires if y == 1 then err >= 0 else err <= 0
    ensures Toward(y, Blend(w, 65536, a, b), Blend(w1, 65536, a, b))
  {
    var input := a as int - b as int;
    ProductMoves(w, w1, err, input, 8192, 0, 65535);
    assert (w1 * a + (65536 - w1) * b) - (w * a + (65536 - w) * b) == (w1 - w) * input;
    FloorsMove(y, w * a + (65536 - w) * b, w1 * a + (65536 - w1) * b, 65536);
  }

  lemma IsseMoves(t: seq<int>, r: seq<int>, k: nat, e: int, y: bit, o: Output)
    requires k + 1 < |t| == |r| && IsWeight(t[k]) && IsWeight(t[k + 1]) && IsWeight(r[k]) && IsWeight(r[k + 1])
    requires WeightLearns(t, r, k, e * o) && Moved(t[k + 1], r[k + 1], e, 32, -0x8_0000, 0x7_FFFF)
    requires if y == 1 then e >= 0 else e <= 0
    ensures Toward(y, IsseOut(t[k], t[k + 1], o), IsseOut(r[k], r[k + 1], o))
  {
    ProductMoves(t[k], r[k], e, o, 8192, -0x8_0000, 0x7_FFFF);
    assert e * 1 == e;
    ProductMoves(t[k + 1], r[k + 1], e, 1, 32, -0x8_0000, 0x7_FFFF);
    assert r[k] * o - t[k] * o == (r[k] - t[k]) * o && (r[k + 1] - t[k + 1]) * 1 == r[k + 1] - t[k + 1];
    FloorsMove(y, t[k] * o + t[k + 1] * 64, r[k] * o + r[k + 1] * 64, 65536);
  }

  lemma MixMoves(t: seq<int>, r: seq<int>, row: nat, p: seq<Output>, j: nat, m: nat, err: int, y: bit)
    requires row + m <= |t| == |r| && j + m <= |p| && m <= 255
    requires forall i :: 0 <= i < |t| ==> IsWeight(t[i]) && IsWeight(r[i])
    requires WeightsLearn(t, r, row, err, p[j..j + m]) && if y == 1 then err >= 0 else err <= 0
    ensures Toward(y, MixOut(t, row, p, j, m), MixOut(r, row, p, j, m))
  {
    forall q | 0 <= q < m
      ensures ProductToward(t, r, row, p, j, q, y)
    {
      assert p[j..j + m][q] == p[j + q] && InputLearns(t, r, row, err, p[j..j + m], q) && IsWeight(t[row + q]);
      ProductMoves(t[row + q], r[row + q], err, p[j + q], 8192, -0x8_0000, 0x7_FFFF);
    }
    DotMoves(t, r, row, p, j, m, y);
    FloorsMove(y, Dot(t, row, p, j, m), Dot(r, row, p, j, m), 256);
  }

  lemma SseMoves(a: int, b: int, a1: int, b1: int, wt: nat, y: bit)
    requires Counter(a) && Counter(b) && Counter(a1) && Counter(b1) && wt < 64
    requires Toward(y, a / 1024, a1 / 1024) && Toward(y, b / 1024, b1 / 1024)
    ensures Toward(y, SseOut(a, b, wt), SseOut(a1, b1, wt))
  {
    if y == 1 {
      Further(a / 1024, a1 / 1024, 64 - wt);
      Further(b / 1024, b1 / 1024, wt);
    } else {
      Further(a1 / 1024, a / 1024, 64 - wt);
      Further(b1 / 1024, b / 1024, wt);
    }
    FloorsMove(y, a / 1024 * (64 - wt) + b / 1024 * wt, a1 / 1024 * (64 - wt) + b1 / 1024 * wt, 8192);
  }

  lemma CountersMove(t: seq<int>, k: nat, limit: nat, y: bit, i: nat)
    requires k < |t| && i < |t| && limit <= COUNT_MAX && forall i :: 0 <= i < |t| ==> Counter(t[i])
    ensures var r := LearnCounter(t, k, limit, y); Counter(t[i]) && Counter(r[i]) && Toward(y, t[i] / 1024, r[i] / 1024)
  {
    assert Counter(t[k]) && Counter(t[i]);
    TrainMoves(t[k], limit, y);
    var r := LearnCounter(t, k, limit, y);
    Fields(t[k]);
    Fields(r[k]);
  }

  lemma CmHelps(c: Component, t: seq<int>, p: seq<Output>, i: nat, y: bit, x: Found, lg: Logistic)
    requires Legal(c, i) && TableOk(c, t) && i < |p| && RisingStretch(lg) && c.Cm?
    ensures Toward(y, Out(c, t, p, i, x, lg), Out(c, Learn(c, t, p, i, y, x, lg), p, i, x, lg))
  {
    CmMoves(t, x.at % |t|, c.limit, y, lg);
  }

  lemma IcmHelps(c: Component, t: seq<int>, p: seq<Output>, i: nat, y: bit, x: Found, lg: Logistic)
    requires Legal(c, i) && TableOk(c, t) && i < |p| && RisingStretch(lg) && c.Icm?
    ensures Toward(y, Out(c, t, p, i, x, lg), Out(c, Learn(c, t, p, i, y, x, lg), p, i, x, lg))
  {
    assert Chance(t[x.at % 256]);
    IcmMoves(t[x.at % 256], y, lg);
  }

  lemma Mix2Helps(c: Component, t: seq<int>, p: seq<Output>, i: nat, y: bit, x: Found, lg: Logistic)
    requires Legal(c, i) && TableOk(c, t) && i < |p| && RisingStretch(lg) && c.Mix2?
    ensures Toward(y, Out(c, t, p, i, x, lg), Out(c, Learn(c, t, p, i, y, x, lg), p, i, x, lg))
  {
    var k, e := x.at % |t|, y * 32767 - lg.squash(p[i]);
    var r := Learn(c, t, p, i, y, x, lg);
    assert IsWeight16(t[k]) && IsWeight16(r[k]);
    Mix2InNumbers(t, k, e, c.rate, p[c.j], p[c.k]);
    var err: int :| Floor(err, e * c.rate, 32) && Moved(t[k], r[k], err * (p[c.j] as int - p[c.k] as int), 8192, 0, 65535);
    ErrorSign(y, lg.squash(p[i]), err, c.rate, 32);
    Mix2Moves(t[k], r[k], err, y, p[c.j], p[c.k]);
  }

  lemma MixHelps(c: Component, t: seq<int>, p: seq<Output>, i: nat, y: bit, x: Found, lg: Logistic)
    requires Legal(c, i) && TableOk(c, t) && i < |p| && RisingStretch(lg) && c.Mix?
    ensures Toward(y, Out(c, t, p, i, x, lg), Out(c, Learn(c, t, p, i, y, x, lg), p, i, x, lg))
  {
    var e, row := y * 32767 - lg.squash(p[i]), RowOf(|t|, c.m, x.at);
    var r := Learn(c, t, p, i, y, x, lg);
    RowFits(|t|, c.m, x.at);
    MixInNumbers(t, c.m, x.at, e, c.rate, p, c.j);
    var err: int :| Floor(err, e * c.rate, 16) && WeightsLearn(t, r, row, err, p[c.j..c.j + c.m]);
    ErrorSign(y, lg.squash(p[i]), err, c.rate, 16);
    MixMoves(t, r, row, p, c.j, c.m, err, y);
  }

  lemma IsseHelps(c: Component, t: seq<int>, p: seq<Output>, i: nat, y: bit, x: Found, lg: Logistic)
    requires Legal(c, i) && TableOk(c, t) && i < |p| && RisingStretch(lg) && c.Isse?
    ensures Toward(y, Out(c, t, p, i, x, lg), Out(c, Learn(c, t, p, i, y, x, lg), p, i, x, lg))
  {
    var k, e := x.at % 256 * 2, y * 32767 - lg.squash(p[i]);
    var r := Learn(c, t, p, i, y, x, lg);
    assert IsWeight(t[k]) && IsWeight(t[k + 1]) && IsWeight(r[k]) && IsWeight(r[k + 1]);
    IsseInNumbers(t, k, e, p[c.j]);
    IsseMoves(t, r, k, e, y, p[c.j]);
  }

  lemma SseHelps(c: Component, t: seq<int>, p: seq<Output>, i: nat, y: bit, x: Found, lg: Logistic)
    requires Legal(c, i) && TableOk(c, t) && i < |p| && RisingStretch(lg) && c.Sse?
    ensures Toward(y, Out(c, t, p, i, x, lg), Out(c, Learn(c, t, p, i, y, x, lg), p, i, x, lg))
  {
    var r := Learn(c, t, p, i, y, x, lg);
    var pq := Between(p[c.j]);
    var k, cell := x.at * 32 + pq / 64, (x.at * 32 + pq / 64 + pq % 64 / 32) % |t|;
    CountersMove(t, cell, c.limit, y, k % |t|);
    CountersMove(t, cell, c.limit, y, (k + 1) % |t|);
    SseMoves(t[k % |t|], t[(k + 1) % |t|], r[k % |t|], r[(k + 1) % |t|], pq % 64, y);
  }

  /**
   Told the bit, no component would, asked the same again, put out anything further away from it: the inputs of
   a mixer are weighed more the more they pointed to the bit.
   */
  lemma LearningGoesTheRightWay(c: Component, t: seq<int>, p: seq<Output>, i: nat, y: bit, x: Found, lg: Logistic)
    requires Legal(c, i) && TableOk(c, t) && i < |p| && RisingStretch(lg)
    ensures Toward(y, Out(c, t, p, i, x, lg), Out(c, Learn(c, t, p, i, y, x, lg), p, i, x, lg))
  {
    match c {
      case Cm(_) => CmHelps(c, t, p, i, y, x, lg);
      case Icm => IcmHelps(c, t, p, i, y, x, lg);
      case Mix2(_, _, _) => Mix2Helps(c, t, p, i, y, x, lg);
      case Mix(_, _, _) => MixHelps(c, t, p, i, y, x, lg);
      case Isse(_) => IsseHelps(c, t, p, i, y, x, lg);
      case Sse(_, _) => SseHelps(c, t, p, i, y, x, lg);
      case _ =>
    }
  }

  // ---------------------------------------------------------------- before the first bit

  /** The share of ones that a bit history stands for, with half a one and half a zero more, in 2^23rds. */
  predicate Share(v: int, n0: byte, n1: byte) { Floor(v, (2 * n1 as int + 1) * 0x40_0000, n0 as int + n1 as int + 1) }

  ghost predicate Begins(c: Component, k: nat, start: nat, counts: Counts, lg: Logistic, v: int) {
    match c
    case Cm(_) => 2 * v == TWO32
    case Icm => Share(v, counts(k).0, counts(k).1)
    case Mix2(_, _, _) => 2 * v == 65536
    case Mix(_, m, _) => m > 0 ==> Floor(v, 65536, m)
    case Isse(_) =>
      if k % 2 == 0 then 2 * v == 65536
      else
        exists q: int :: Share(q, counts(k / 2).0, counts(k / 2).1) && 0 <= q / 256 <= 32767
                         && v == (if lg.stretch(q / 256) < -512 then -0x8_0000
                                  else if lg.stretch(q / 256) > 511 then 0x7_FFFF else 1024 * lg.stretch(q / 256))
    case Sse(_, _) => -2048 <= k % 32 * 64 - 992 <= 2047 && v == 131072 * lg.squash(k % 32 * 64 - 992) + start
    case _ => true
  }

  /** What the tables hold before the first bit. */
  lemma InitialInNumbers(c: Component, k: nat, start: nat, counts: Counts, lg: Logistic)
    ensures Begins(c, k, start, counts, lg, Initial(c, k, start, counts, lg))
  {
    match c {
      case Icm => InitialShare(counts, k);
      case Mix(_, m, _) => if m > 0 { FloorOf(65536, m); }
      case Isse(_) =>
        InitialShare(counts, k / 2);
        assert Share(CmInit(counts, k / 2), counts(k / 2).0, counts(k / 2).1);
      case _ =>
    }
  }

  lemma InitialShare(counts: Counts, k: nat)
    ensures Share(CmInit(counts, k), counts(k).0, counts(k).1)
  {
    var (n0, n1) := counts(k);
    FloorOf((n1 * 2 + 1) * 0x40_0000, n0 + n1 + 1);
  }
}
