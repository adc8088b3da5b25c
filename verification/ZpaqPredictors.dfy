/** The bit predictor as it runs: outputs and tables updated in place, component by component. */
module ZpaqPredictors {
  import opened Bytes
  import opened ZpaqPredictor

  class Predictor {
    const cs: seq<Component>
    const lg: Logistic
    /** The learned numbers of each component. */
    var ts: seq<seq<int>>
    var p: seq<Output>

    ghost predicate Valid()
      reads this
    {
      cs != [] && AllLegal(cs) && AllOk(cs, ts) && |p| == |cs|
    }

    constructor (cs: seq<Component>, ts: seq<seq<int>>, lg: Logistic)
      requires cs != [] && AllLegal(cs) && AllOk(cs, ts)
      ensures Valid() && this.cs == cs && this.lg == lg && this.ts == ts
    {
      this.cs, this.lg, this.ts := cs, lg, ts;
      p := seq(|cs|, i => 0);
    }

    /** The chance of a 1 for the next bit. */
    method Predict(xs: seq<Found>) returns (r: Prob15)
      requires Valid() && |xs| == |cs|
      modifies this`p
      ensures Valid() && p == Outs(cs, ts, xs, lg, |cs|) && r == lg.squash(p[|cs| - 1])
    {
      var i := 0;
      while i < |cs|
        invariant 0 <= i <= |cs| && |p| == |cs| && p[..i] == Outs(cs, ts, xs, lg, i)
      {
        var o := OutputOf(i, xs[i]);
        ghost var before := p[..i];
        p := p[i := o];
        assert p[..i + 1] == before + [o];
        i := i + 1;
      }
      assert p[..|cs|] == p;
      r := lg.squash(p[|cs| - 1]);
    }

    method OutputOf(i: nat, x: Found) returns (o: Output)
      requires Valid() && i < |cs|
      ensures o == Out(cs[i], ts[i], p[..i], i, x, lg)
    {
      if cs[i].Mix? {
        RowFits(|ts[i]|, cs[i].m, x.at);
        o := Mixed(ts[i], RowOf(|ts[i]|, cs[i].m, x.at), p[..i], cs[i].j, cs[i].m);
      } else {
        o := Out(cs[i], ts[i], p[..i], i, x, lg);
      }
    }

    /** The loop over a mixer's inputs; the sum stays within 32 bits. */
    static method Mixed(t: seq<int>, row: nat, p: seq<Output>, j: nat, m: nat) returns (o: Output)
      requires row + m <= |t| && j + m <= |p| && m <= 255 && forall i :: 0 <= i < |t| ==> IsWeight(t[i])
      ensures o == MixOut(t, row, p, j, m)
    {
      var sum: Int32 := 0;
      var k := 0;
      while k < m
        invariant 0 <= k <= m && sum == Dot(t, row, p, j, k)
      {
        DotWithin(t, row, p, j, k + 1);
        sum := sum + t[row + k] / 256 * p[j + k];
        k := k + 1;
      }
      o := Clamp2k(sum / 256);
    }

    /** Tells every component the bit. */
    method Update(y: bit, xs: seq<Found>)
      requires Valid() && |xs| == |cs|
      modifies this`ts
      ensures Valid() && ts == Learned(cs, old(ts), p, y, xs, lg, |cs|)
    {
      ghost var before := ts;
      var i := 0;
      while i < |cs|
        invariant 0 <= i <= |cs| && Valid()
        invariant ts[..i] == Learned(cs, before, p, y, xs, lg, i) && ts[i..] == before[i..]
      {
        assert ts[i] == before[i] by { assert ts[i..][0] == before[i..][0]; }
        var t := TableOf(i, y, xs[i]);
        ghost var done, rest := ts[..i], ts[i..];
        ts := ts[i := t];
        assert ts[..i + 1] == done + [t] && ts[i + 1..] == rest[1..] == before[i..][1..];
        i := i + 1;
      }
      assert ts[..|cs|] == ts;
    }

    method TableOf(i: nat, y: bit, x: Found) returns (t: seq<int>)
      requires Valid() && i < |cs|
      ensures t == Learn(cs[i], ts[i], p, i, y, x, lg)
    {
      if cs[i].Mix? {
        RowFits(|ts[i]|, cs[i].m, x.at);
        var err := Scaled(Error15(lg.squash(p[i]), y), cs[i].rate, 16);
        t := Adjust(ts[i], RowOf(|ts[i]|, cs[i].m, x.at), p, cs[i].j, cs[i].m, err);
      } else {
        t := Learn(cs[i], ts[i], p, i, y, x, lg);
      }
    }

    /** The loop over a mixer's weights. */
    static method Adjust(t: seq<int>, row: nat, p: seq<Output>, j: nat, m: nat, err: int) returns (r: seq<int>)
      requires row + m <= |t| && j + m <= |p| && -522240 <= err <= 522240 && forall i :: 0 <= i < |t| ==> IsWeight(t[i])
      ensures r == Adjusted(t, row, p, j, m, err)
    {
      r := t;
      var k := 0;
      while k < m
        invariant 0 <= k <= m && r == Adjusted(t, row, p, j, k, err)
      {
        r := r[row + k := Clamp512k(r[row + k] + ZpaqPredictor.Step(err, p[j + k]))];
        k := k + 1;
      }
    }
  }

  /** The chance given for bit k of a run. */
  ghost function ChanceAt(cs: seq<Component>, ts: seq<seq<int>>, lg: Logistic, turns: seq<Turn>, k: nat): Prob15
    requires cs != [] && AllLegal(cs) && AllOk(cs, ts) && k < |turns| && forall t :: t in turns ==> |t.xs| == |cs|
  {
    assert turns[k] in turns;
    var us := After(cs, ts, lg, turns[..k]);
    lg.squash(Outs(cs, us, turns[k].xs, lg, |cs|)[|cs| - 1])
  }

  /** Predicting and updating for bit k of a run. */
  method TrainOne(m: Predictor, turns: seq<Turn>, k: nat, ghost ts0: seq<seq<int>>) returns (c: Prob15)
    requires m.Valid() && AllOk(m.cs, ts0) && k < |turns| && forall t :: t in turns ==> |t.xs| == |m.cs|
    requires m.ts == After(m.cs, ts0, m.lg, turns[..k])
    modifies m
    ensures m.Valid() && m.ts == After(m.cs, ts0, m.lg, turns[..k + 1]) && c == ChanceAt(m.cs, ts0, m.lg, turns, k)
  {
    assert turns[k] in turns && turns[..k + 1][..k] == turns[..k];
    c := m.Predict(turns[k].xs);
    m.Update(turns[k].y, turns[k].xs);
  }

  /** Predicting and updating bit by bit: the chances are those of the run, and odd 16-bit numbers for the coder. */
  method Train(m: Predictor, turns: seq<Turn>) returns (chances: seq<Prob15>)
    requires m.Valid() && forall t :: t in turns ==> |t.xs| == |m.cs|
    modifies m
    ensures m.Valid() && |chances| == |turns| && m.ts == After(m.cs, old(m.ts), m.lg, turns)
    ensures forall k :: 0 <= k < |turns| ==>
              chances[k] == ChanceAt(m.cs, old(m.ts), m.lg, turns, k) && 1 <= (chances[k] as int) * 2 + 1 <= 65535
  {
    chances := [];
    ghost var ts0 := m.ts;
    var k := 0;
    assert turns[..0] == [];
    while k < |turns|
      invariant 0 <= k <= |turns| && m.Valid() && |chances| == k && m.ts == After(m.cs, ts0, m.lg, turns[..k])
      invariant forall i :: 0 <= i < k ==> chances[i] == ChanceAt(m.cs, ts0, m.lg, turns, i)
    {
      var c := TrainOne(m, turns, k, ts0);
      chances := chances + [c];
      k := k + 1;
    }
    assert turns[..|turns|] == turns;
  }

  /** Entry k of the upper half is what the first j runs reach past. */
  ghost predicate InRun(often: seq<nat>, k: nat, j: nat) {
    j < |often| && Sum(often[..j]) <= k < Sum(often[..j + 1])
  }

  /** The table up to the values below i. */
  ghost predicate Filled(often: seq<nat>, upper: seq<int>, i: nat) {
    && (forall k :: 0 <= k < |upper| ==> 0 <= upper[k] <= i && InRun(often, k, upper[k]))
    && Rising(upper)
  }

  /** The run of value i. */
  method PutRun(often: seq<nat>, before: seq<int>, i: nat) returns (upper: seq<int>)
    requires i < |often| && |before| == Sum(often[..i]) && Filled(often, before, i)
    ensures |upper| == Sum(often[..i + 1]) && Filled(often, upper, i)
  {
    assert often[..i + 1] == often[..i] + [often[i]] && often[..i + 1][..i] == often[..i];
    upper := before;
    var j := often[i];
    while j > 0
      invariant 0 <= j <= often[i] && |upper| == Sum(often[..i]) + often[i] - j && Filled(often, upper, i)
    {
      upper := upper + [i];
      j := j - 1;
    }
  }

  /** The upper half of the table for going to the logistic domain, from how often each value occurs. */
  method StretchTable(often: seq<nat>) returns (s: seq<int>)
    requires |often| == 712 && Sum(often) == 16384
    ensures |s| == 32768
    ensures forall i :: 0 <= i < 32768 ==> s[32767 - i] == -s[i]
    ensures forall i :: 16384 <= i < 32768 ==> 0 <= s[i] <= 711 && InRun(often, i - 16384, s[i])
    ensures forall i :: 0 <= i < 32767 ==> s[i] <= s[i + 1]
  {
    var upper: seq<int> := [];
    var i := 0;
    assert often[..0] == [];
    while i < 712
      invariant 0 <= i <= 712 && |upper| == Sum(often[..i]) && Filled(often, upper, i)
    {
      upper := PutRun(often, upper, i);
      i := i + 1;
    }
    assert often[..712] == often;
    s := seq(16384, k requires 0 <= k < 16384 => -upper[16383 - k]) + upper;
  }

  ghost predicate Rising(s: seq<int>) { forall k :: 0 <= k < |s| - 1 ==> s[k] <= s[k + 1] }

  function Sum(s: seq<nat>): nat { if s == [] then 0 else Sum(s[..|s| - 1]) + s[|s| - 1] }
}
