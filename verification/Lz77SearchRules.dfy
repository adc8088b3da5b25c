/**
 What the match search of the LZ77 encoder comes to: a match of one of the positions looked at, better than which
 there is none, as far as the quick look at one byte lets it see.
 */
module Lz77SearchRules {
  import opened Bytes
  import opened Bits
  import opened Copying
  import opened Lz77Bits
  import opened Lz77Search

  // ---------------------------------------------------------------- hash tables

  /** b is what the k-th position found by more bytes gives, and long enough. */
  predicate FarGives(src: seq<byte>, i: nat, lit: nat, st: Settings, k: nat, b: Best)
    requires st.search.Tables?
  {
    k < |st.search.far(i)| && IsFar(src, i, st.search.far(i)[k], st.lookahead, lit, b)
    && b.len >= st.search.minMatch2 + st.lookahead
  }

  /** b is what the k-th position found by fewer bytes gives. */
  predicate NearGives(src: seq<byte>, i: nat, lit: nat, st: Settings, k: nat, b: Best)
    requires st.search.Tables?
  {
    k < |st.search.near(i)| && IsNear(src, i, st.search.near(i)[k], lit, b)
  }

  lemma {:induction false} FarRises(src: seq<byte>, i: nat, lit: nat, st: Settings, bs: seq<Best>, j: nat, k: nat)
    requires st.search.Tables? && FarSearched(src, i, lit, st, bs) && j <= k < |bs|
    ensures bs[k] == bs[j]
            || (bs[k].score > bs[j].score && exists q :: j <= q < k && FarGives(src, i, lit, st, q, bs[k]))
    decreases k
  {
    if j < k {
      FarRises(src, i, lit, st, bs, j, k - 1);
      assert FarAt(src, i, lit, st, bs, k - 1);
      if bs[k] != bs[k - 1] {
        assert FarGives(src, i, lit, st, k - 1, bs[k]);
      }
    }
  }

  lemma {:induction false} NearRises(src: seq<byte>, i: nat, lit: nat, st: Settings, bs: seq<Best>, j: nat, k: nat)
    requires st.search.Tables? && NearSearched(src, i, lit, st, bs) && j <= k < |bs|
    ensures bs[k] == bs[j]
            || (bs[k].score > bs[j].score && exists q :: j <= q < k && NearGives(src, i, lit, st, q, bs[k]))
    decreases k
  {
    if j < k {
      NearRises(src, i, lit, st, bs, j, k - 1);
      assert NearAt(src, i, lit, st, bs, k - 1);
      if bs[k] != bs[k - 1] {
        assert NearGives(src, i, lit, st, k - 1, bs[k]);
      }
    }
  }

  /** The position is worth a look when its turn comes, with the best match of then. */
  predicate FarLooked(src: seq<byte>, i: nat, st: Settings, far: seq<Best>, k: nat)
    requires st.search.Tables?
  {
    k < |st.search.far(i)| && k < |far| && Promising(src, i, st.search.far(i)[k], far[k].len, st.search.before)
  }

  predicate NearLooked(src: seq<byte>, i: nat, st: Settings, near: seq<Best>, k: nat)
    requires st.search.Tables?
  {
    k < |st.search.near(i)| && k < |near| && Promising(src, i, st.search.near(i)[k], near[k].len, st.search.before)
  }

  lemma FarNoneBetter(src: seq<byte>, i: nat, lit: nat, st: Settings, far: seq<Best>, k: nat, b: Best)
    requires st.search.Tables? && FarSearched(src, i, lit, st, far) && k < |far| - 1
    requires FarLooked(src, i, st, far, k) && FarGives(src, i, lit, st, k, b)
    ensures b.score <= far[|far| - 1].score
  {
    var p := st.search.far(i)[k];
    assert FarAt(src, i, lit, st, far, k);
    OnlyFar(src, i, p, st.lookahead, lit, b);
    FarRises(src, i, lit, st, far, k + 1, |far| - 1);
  }

  lemma NearNoneBetter(src: seq<byte>, i: nat, lit: nat, st: Settings, near: seq<Best>, k: nat, b: Best)
    requires st.search.Tables? && NearSearched(src, i, lit, st, near) && k < |near| - 1
    requires NearLooked(src, i, st, near, k) && NearGives(src, i, lit, st, k, b)
    ensures b.score <= near[|near| - 1].score
  {
    var p := st.search.near(i)[k];
    assert NearAt(src, i, lit, st, near, k);
    OnlyNear(src, i, p, lit, b);
    NearRises(src, i, lit, st, near, k + 1, |near| - 1);
  }

  /**
   The result is what one of the positions looked at gives, or nothing when none scores above 0. A position is left
   untried only when a match of 128 bytes or more has been found, or when those found by fewer bytes come too late,
   because a match by more bytes is long enough.
   */
  lemma ResultIsCandidate(src: seq<byte>, i: nat, lit: nat, st: Settings, far: seq<Best>, near: seq<Best>)
    requires st.search.Tables? && st.minMatch >= 1 && TablesSearched(src, i, lit, st, far, near)
    ensures
      var b := near[|near| - 1];
      || b == Nothing(st)
      || (b.score > 0 && ((exists k: nat :: k < |far| - 1 && FarGives(src, i, lit, st, k, b))
                          || exists k: nat :: k < |near| - 1 && NearGives(src, i, lit, st, k, b)))
    ensures st.search.minMatch2 > 0 && |far| - 1 < |st.search.far(i)| ==> near[0].len >= 128
    ensures |near| - 1 < |st.search.near(i)| ==>
              near[|near| - 1].len >= 128 || 0 < st.search.minMatch2 <= near[0].len
  {
    if |near| > 1 {
      NearRises(src, i, lit, st, near, 0, |near| - 1);
    }
    if |far| > 1 {
      FarRises(src, i, lit, st, far, 0, |far| - 1);
    }
  }

  /** No position looked at gives a better one. */
  lemma NoneBetter(src: seq<byte>, i: nat, lit: nat, st: Settings, far: seq<Best>, near: seq<Best>, k: nat, b: Best)
    requires st.search.Tables? && st.minMatch >= 1 && TablesSearched(src, i, lit, st, far, near)
    requires || (k < |far| - 1 && FarLooked(src, i, st, far, k) && FarGives(src, i, lit, st, k, b))
             || (k < |near| - 1 && NearLooked(src, i, st, near, k) && NearGives(src, i, lit, st, k, b))
    ensures b.score <= near[|near| - 1].score
  {
    if |near| > 1 {
      NearRises(src, i, lit, st, near, 0, |near| - 1);
    }
    if k < |far| - 1 && FarLooked(src, i, st, far, k) && FarGives(src, i, lit, st, k, b) {
      FarNoneBetter(src, i, lit, st, far, k, b);
    } else {
      NearNoneBetter(src, i, lit, st, near, k, b);
    }
  }

  /** With one table a match is found exactly where one of its positions scores above 0 and its last byte agrees. */
  lemma FoundIff(src: seq<byte>, i: nat, lit: nat, st: Settings, far: seq<Best>, near: seq<Best>)
    requires st.search.Tables? && 1 <= st.minMatch <= 128 && st.search.minMatch2 == 0
    requires TablesSearched(src, i, lit, st, far, near)
    ensures near[|near| - 1].score > 0 <==>
            exists k: nat, b: Best :: NearFits(src, i, lit, st, k, b) && b.score > 0
  {
    var last := |near| - 1;
    NearRises(src, i, lit, st, near, 0, last);
    if k: nat, b: Best :| NearFits(src, i, lit, st, k, b) && b.score > 0 {
      if near[last] == Nothing(st) {
        NearStays(src, i, lit, st, near);
        NearNoneBetter(src, i, lit, st, near, k, b);
      }
    }
    if near[last].score > 0 {
      FirstFits(src, i, lit, st, near, last);
    }
  }

  /** b is what the k-th position gives, which ends with the byte at which the shortest match must not end. */
  predicate NearFits(src: seq<byte>, i: nat, lit: nat, st: Settings, k: nat, b: Best)
    requires st.search.Tables? && st.minMatch >= 1
  {
    NearGives(src, i, lit, st, k, b) && Promising(src, i, b.p, st.minMatch - 1, st.search.before)
  }

  lemma NearStays(src: seq<byte>, i: nat, lit: nat, st: Settings, near: seq<Best>)
    requires st.search.Tables? && NearSearched(src, i, lit, st, near) && near[|near| - 1] == near[0]
    ensures forall k :: 0 <= k < |near| ==> near[k] == near[0]
  {
    forall k | 0 <= k < |near|
      ensures near[k] == near[0]
    {
      NearRises(src, i, lit, st, near, 0, k);
      NearRises(src, i, lit, st, near, k, |near| - 1);
    }
  }

  /** The first match taken is one that fits. */
  lemma {:induction false} FirstFits(src: seq<byte>, i: nat, lit: nat, st: Settings, near: seq<Best>, n: nat)
    requires st.search.Tables? && st.minMatch >= 1 && NearSearched(src, i, lit, st, near)
    requires near[0] == Nothing(st) && n < |near| && near[n] != near[0]
    ensures exists k: nat, b: Best :: NearFits(src, i, lit, st, k, b) && b.score > 0
    decreases n
  {
    var k := n - 1;
    if near[k] == near[0] {
      assert NearAt(src, i, lit, st, near, k);
      assert NearFits(src, i, lit, st, k, near[n]);
    } else {
      FirstFits(src, i, lit, st, near, k);
    }
  }

  /** So no position is passed over that gives a match long enough to be used, when nothing else is found. */
  lemma LongOnesFit(src: seq<byte>, i: nat, lit: nat, st: Settings, k: nat, b: Best)
    requires st.search.Tables? && st.minMatch >= 2 && NearGives(src, i, lit, st, k, b) && b.len >= st.minMatch
    ensures NearFits(src, i, lit, st, k, b)
  {
    EndsAgree(src, i, b.p, b.len, st.minMatch - 1, st.search.before);
  }

  /**
   A position that is passed over when another match has been found gives a shorter one: it scores at most by the
   distance of the other better, which nearer than 512 bytes is no better.
   */
  lemma LittleMissed(src: seq<byte>, i: nat, lit: nat, st: Settings, near: seq<Best>, k: nat, b: Best)
    requires st.search.Tables? && st.minMatch >= 2 && NearSearched(src, i, lit, st, near) && near[0] == Nothing(st)
    requires k < |near| - 1 && NearGives(src, i, lit, st, k, b) && b.len >= st.minMatch && i < |src|
    ensures b.score <= near[|near| - 1].score || (near[k] != near[0] && near[k].p < i
                                                    && b.score <= near[k].score + Lg(i - near[k].p) - 9)
  {
    var p := st.search.near(i)[k];
    NearRises(src, i, lit, st, near, 0, k);
    if Promising(src, i, p, near[k].len, st.search.before) {
      NearNoneBetter(src, i, lit, st, near, k, b);
    } else if near[k] == near[0] {
      LongOnesFit(src, i, lit, st, k, b);
      assert false;
    } else {
      PassedOver(src, i, p, lit, b, near[k], st.search.before);
    }
  }

  lemma PassedOver(src: seq<byte>, i: nat, p: nat, lit: nat, b: Best, c: Best, before: byte)
    requires IsNear(src, i, p, lit, b) && IsNear(src, i, c.p, lit, c) && i + c.len <= |src| && c.len > 0
    requires b.len > 0 && i < |src| && !Promising(src, i, p, c.len, before)
    ensures b.score <= c.score + Lg(i - c.p) - 9
  {
    if c.len <= b.len {
      EndsAgree(src, i, p, b.len, c.len, before);
      assert false;
    }
    LgPositive(i - p);
  }

  lemma LgPositive(x: nat)
    requires x > 0
    ensures Lg(x) >= 1
  {
    TopOfGamma(x);
  }

  /** When all positions are less than 512 bytes back none that is looked at gives a better match to use. */
  lemma NoneMissedNear(src: seq<byte>, i: nat, lit: nat, st: Settings, near: seq<Best>, k: nat, b: Best)
    requires st.search.Tables? && st.minMatch >= 2 && NearSearched(src, i, lit, st, near) && near[0] == Nothing(st)
    requires k < |near| - 1 && NearGives(src, i, lit, st, k, b) && b.len >= st.minMatch && i < |src|
    requires forall q :: 0 <= q < |st.search.near(i)| ==> i < st.search.near(i)[q] + 512
    ensures b.score <= near[|near| - 1].score
  {
    LittleMissed(src, i, lit, st, near, k, b);
    NearRises(src, i, lit, st, near, 0, k);
    if near[k] != near[0] && near[k].p < i {
      LgBelow512(i - near[k].p);
      NearRises(src, i, lit, st, near, k, |near| - 1);
    }
  }

  lemma LgBelow512(x: nat)
    requires 0 < x < 512
    ensures Lg(x) <= 9
  {
    CountBitBounds(x);
    if Lg(x) > 9 {
      Pow2Monotone(9, Lg(x) - 1);
      SmallPowers();
    }
  }

  /** What repeats on l bytes agrees at the end of fewer. */
  lemma EndsAgree(src: seq<byte>, i: nat, p: nat, l: nat, m: nat, before: byte)
    requires p < i && Repeats(src, i, i - p, l) && 1 <= m <= l
    ensures Promising(src, i, p, m, before)
  {
    assert Agree(src, i + m - 1, i - p);
  }

  /** The input of the next lemma: five bytes twice, n bytes apart, the second time behind one more of the first. */
  function Distracted(n: nat): seq<byte>
    requires n >= 6
  {
    [97, 97, 97, 97, 98] + Same(99, n - 6) + [97] + [97, 97, 97, 97, 98]
  }

  function Same(b: byte, n: nat): (r: seq<byte>)
    ensures |r| == n && forall k :: 0 <= k < n ==> r[k] == b
  {
    seq(n, k => b)
  }

  /**
   From 512 bytes on a better match can be missed. The position in front of the place gives one of four bytes that
   scores 20, but its fifth byte is another one. So the match of five bytes found before stays, with at most 19.
   */
  lemma BetterOneMissed(st: Settings, n: nat)
    requires 512 <= n < Pow2(28)
    requires st.search.Tables? && st.minMatch == 4 && st.search.minMatch2 == 0 && st.search.near(n) == [0, n - 1]
    ensures 10 <= Lg(n) <= 28
    ensures
      var first := Best(5, 0, 0, 29 - Lg(n));
      && TablesSearched(Distracted(n), n, 0, st, [Nothing(st)], [Nothing(st), first, first])
      && NearGives(Distracted(n), n, 0, st, 1, Best(4, n - 1, 0, 20))
  {
    FarLg(n);
    var src, none, first := Distracted(n), Nothing(st), Best(5, 0, 0, 29 - Lg(n));
    FirstGives(src, n);
    assert IsNear(src, n, 0, 0, first);
    assert NearTried(src, n, 0, 0, st.search.before, none, first);
    assert NearTried(src, n, n - 1, 0, st.search.before, first, first);
  }

  lemma FirstGives(src: seq<byte>, n: nat)
    requires n >= 6 && src == Distracted(n)
    ensures |src| == n + 5 && src[..5] == [97, 97, 97, 97, 98] && src[n - 1..n + 5] == [97, 97, 97, 97, 97, 98]
    ensures AgreeTo(src, n, 0, 0, 5) && AgreeTo(src, n, n - 1, 0, 4)
  {
    assert src[..5] == [97, 97, 97, 97, 98];
    assert src[n - 1..n + 5] == [97, 97, 97, 97, 97, 98];
    forall j | n <= j < n + 5
      ensures src[j] == src[j - n]
    {
      assert src[j] == src[n - 1..n + 5][j - n + 1] && src[j - n] == src[..5][j - n];
    }
    forall j | n <= j < n + 4
      ensures src[j] == src[j - 1]
    {
      assert src[j] == src[n - 1..n + 5][j - n + 1] && src[j - 1] == src[n - 1..n + 5][j - n];
    }
    assert src[n + 3] == src[n - 1..n + 5][4] && src[n + 4] == src[n - 1..n + 5][5];
  }

  lemma FarLg(n: nat)
    requires 512 <= n < Pow2(28)
    ensures 10 <= Lg(n) <= 28 && Lg(1) == 1
  {
    CountBitBounds(n);
    SmallPowers();
    if Lg(n) > 28 {
      Pow2Monotone(28, Lg(n) - 1);
    }
    if Lg(n) < 10 {
      Pow2Monotone(Lg(n), 9);
    }
  }

  // ---------------------------------------------------------------- suffix array

  /** Fading takes away three eighths, and what is behind the point. */
  lemma FadedInNumbers(score: int, h: nat)
    ensures Faded(score, 0) == score
    ensures
      var s, t := Faded(score, h), Faded(score, h + 1);
      if s >= 0 then 8 * t <= 5 * s < 8 * (t + 1) && t >= 0 else 8 * (t - 1) < 5 * s <= 8 * t && t <= 0
  {
  }

  /** b is what the k-th neighbour on one side of the place h bytes ahead gives. */
  predicate SideGives(src: seq<byte>, i: nat, h: nat, back: bool, k: nat, lit: nat, st: Settings, b: Best)
    requires st.search.Suffixes?
  {
    var p := Beside(st.search.sa, i, h, st.search.isa(h + i), back, k);
    p >= 0 && IsAround(src, i, h, p, lit, b)
  }

  /** b is what some neighbour of the place h bytes ahead gives. */
  ghost predicate PlaceGives(src: seq<byte>, i: nat, h: nat, lit: nat, st: Settings, b: Best)
    requires st.search.Suffixes?
  {
    Listed(st, i, h)
    && exists back: bool, k: nat :: 1 <= k <= st.search.bucket && SideGives(src, i, h, back, k, lit, st, b)
  }

  lemma {:induction false} SideRises(src: seq<byte>, i: nat, h: nat, back: bool, lit: nat, st: Settings,
                                     bs: seq<Best>, j: nat, k: nat)
    requires st.search.Suffixes? && SideSearched(src, i, h, st.search.isa(h + i), back, lit, st, bs) && j <= k < |bs|
    ensures bs[k] == bs[j]
            || (bs[k].score > bs[j].score
                && exists n: nat :: 1 <= n <= st.search.bucket && SideGives(src, i, h, back, n, lit, st, bs[k]))
    decreases k
  {
    if j < k {
      SideRises(src, i, h, back, lit, st, bs, j, k - 1);
      assert TriedAt(src, i, h, st.search.isa(h + i), back, lit, st, bs, k);
      if bs[k] != bs[k - 1] {
        assert SideGives(src, i, h, back, k, lit, st, bs[k]);
      }
    }
  }

  /** On one side n neighbours have been tried, none better than best, and then bucket is reached or one is no use. */
  ghost predicate SideDone(src: seq<byte>, i: nat, h: nat, back: bool, lit: nat, st: Settings, best: Best, n: nat)
    requires st.search.Suffixes?
  {
    && n <= st.search.bucket
    && (forall k: nat, b: Best :: 1 <= k <= n && SideGives(src, i, h, back, k, lit, st, b) ==> b.score <= best.score)
    && (n == st.search.bucket
        || (n >= 1 && exists c: Best ::
              c.score <= best.score && Stops(src, i, h, st.search.isa(h + i), back, n, lit, st, c)))
  }

  lemma SideIsDone(src: seq<byte>, i: nat, h: nat, back: bool, lit: nat, st: Settings, bs: seq<Best>, best: Best)
    requires st.search.Suffixes? && SideSearched(src, i, h, st.search.isa(h + i), back, lit, st, bs)
    requires bs[|bs| - 1].score <= best.score
    ensures SideDone(src, i, h, back, lit, st, best, |bs| - 1)
  {
    forall k: nat, b: Best | 1 <= k <= |bs| - 1 && SideGives(src, i, h, back, k, lit, st, b)
      ensures b.score <= best.score
    {
      assert TriedAt(src, i, h, st.search.isa(h + i), back, lit, st, bs, k);
      OnlyAround(src, i, h, b.p, lit, b);
      SideRises(src, i, h, back, lit, st, bs, k, |bs| - 1);
    }
    if |bs| - 1 < st.search.bucket {
      assert Stops(src, i, h, st.search.isa(h + i), back, |bs| - 1, lit, st, bs[|bs| - 1]);
    }
  }

  ghost predicate SideSettled(src: seq<byte>, i: nat, h: nat, back: bool, lit: nat, st: Settings, best: Best)
    requires st.search.Suffixes?
  {
    exists n: nat :: SideDone(src, i, h, back, lit, st, best, n)
  }

  /** On either side of the place h bytes ahead neighbours have been tried, and nothing is better than best. */
  ghost predicate PlaceDone(src: seq<byte>, i: nat, h: nat, lit: nat, st: Settings, best: Best)
    requires st.search.Suffixes?
  {
    Listed(st, i, h) ==> SideSettled(src, i, h, true, lit, st, best) && SideSettled(src, i, h, false, lit, st, best)
  }

  /** What one side adds to a best match c0. */
  lemma OneSide(src: seq<byte>, i: nat, h: nat, back: bool, lit: nat, st: Settings, bs: seq<Best>, c0: Best, c1: Best,
                best: Best)
    requires st.search.Suffixes? && SideSearched(src, i, h, st.search.isa(h + i), back, lit, st, bs)
    requires bs[0] == c0 && bs[|bs| - 1] == c1 && Listed(st, i, h)
    ensures c1.score <= best.score ==> SideSettled(src, i, h, back, lit, st, best)
    ensures c1 == c0 || (c1.score > c0.score && PlaceGives(src, i, h, lit, st, c1))
  {
    SideRises(src, i, h, back, lit, st, bs, 0, |bs| - 1);
    if c1.score <= best.score {
      SideIsDone(src, i, h, back, lit, st, bs, best);
    }
  }

  lemma PlaceIsDone(src: seq<byte>, i: nat, h: nat, lit: nat, st: Settings, b0: Best, b1: Best, best: Best)
    requires st.search.Suffixes? && PlaceSearched(src, i, h, lit, st, b0, b1) && b1.score <= best.score
    ensures PlaceDone(src, i, h, lit, st, best)
    ensures b1 == b0 || (b1.score > b0.score && PlaceGives(src, i, h, lit, st, b1))
  {
    if Listed(st, i, h) {
      var down, up, c := BothSides(src, i, h, lit, st, b0, b1);
      OneSide(src, i, h, false, lit, st, up, c, b1, best);
      OneSide(src, i, h, true, lit, st, down, b0, c, best);
    }
  }

  lemma BothSides(src: seq<byte>, i: nat, h: nat, lit: nat, st: Settings, b0: Best, b1: Best)
    returns (down: seq<Best>, up: seq<Best>, c: Best)
    requires st.search.Suffixes? && PlaceSearched(src, i, h, lit, st, b0, b1) && Listed(st, i, h)
    ensures SideSearched(src, i, h, st.search.isa(h + i), true, lit, st, down) && down[0] == b0 && down[|down| - 1] == c
    ensures SideSearched(src, i, h, st.search.isa(h + i), false, lit, st, up) && up[0] == c && up[|up| - 1] == b1
  {
    down, up :|
      && SideSearched(src, i, h, st.search.isa(h + i), true, lit, st, down)
      && SideSearched(src, i, h, st.search.isa(h + i), false, lit, st, up)
      && down[0] == b0 && up[0] == down[|down| - 1] && up[|up| - 1] == b1;
    c := up[0];
  }

  /** What the h-th place adds to the best match of before. */
  ghost predicate Added(src: seq<byte>, i: nat, h: nat, lit: nat, st: Settings, hs: seq<Best>)
    requires st.search.Suffixes? && h < |hs| - 1
  {
    hs[h + 1] == hs[h] || (hs[h + 1].score > hs[h].score && PlaceGives(src, i, h, lit, st, hs[h + 1]))
  }

  lemma {:induction false} PlaceAt(src: seq<byte>, i: nat, lit: nat, st: Settings, hs: seq<Best>, h: nat)
    requires st.search.Suffixes? && st.minMatch >= 1 && h < |hs| - 1 && PlacesSearched(src, i, lit, st, hs)
    ensures PlaceSearched(src, i, h, lit, st, hs[h], hs[h + 1])
    decreases |hs|
  {
    if h < |hs| - 2 {
      PlaceAt(src, i, lit, st, hs[..|hs| - 1], h);
    }
  }

  lemma {:induction false} BeginsWithNothing(src: seq<byte>, i: nat, lit: nat, st: Settings, hs: seq<Best>)
    requires st.search.Suffixes? && st.minMatch >= 1 && PlacesSearched(src, i, lit, st, hs)
    ensures |hs| >= 1 && hs[0] == Nothing(st)
    decreases |hs|
  {
    if |hs| > 1 {
      BeginsWithNothing(src, i, lit, st, hs[..|hs| - 1]);
    }
  }

  lemma {:induction false} PlacesRise(src: seq<byte>, i: nat, lit: nat, st: Settings, hs: seq<Best>, j: nat, k: nat)
    requires st.search.Suffixes? && j <= k < |hs|
    requires forall h: nat :: h < |hs| - 1 ==> Added(src, i, h, lit, st, hs)
    ensures hs[k] == hs[j]
            || (hs[k].score > hs[j].score && exists h: nat :: h < |hs| - 1 && PlaceGives(src, i, h, lit, st, hs[k]))
    decreases k
  {
    if j < k {
      PlacesRise(src, i, lit, st, hs, j, k - 1);
      assert Added(src, i, k - 1, lit, st, hs);
    }
  }

  lemma AllAdded(src: seq<byte>, i: nat, lit: nat, st: Settings, hs: seq<Best>)
    requires st.search.Suffixes? && st.minMatch >= 1 && PlacesSearched(src, i, lit, st, hs)
    ensures forall h: nat :: h < |hs| - 1 ==> Added(src, i, h, lit, st, hs)
  {
    forall h: nat | h < |hs| - 1
      ensures Added(src, i, h, lit, st, hs)
    {
      PlaceAt(src, i, lit, st, hs, h);
      PlaceIsDone(src, i, h, lit, st, hs[h], hs[h + 1], hs[h + 1]);
    }
  }

  lemma AllDone(src: seq<byte>, i: nat, lit: nat, st: Settings, hs: seq<Best>, best: Best)
    requires st.search.Suffixes? && st.minMatch >= 1 && PlacesSearched(src, i, lit, st, hs)
    requires hs != [] && best == hs[|hs| - 1]
    requires forall h: nat :: h < |hs| - 1 ==> Added(src, i, h, lit, st, hs)
    ensures forall h: nat :: h < |hs| - 1 ==> PlaceDone(src, i, h, lit, st, best)
  {
    forall h: nat | h < |hs| - 1
      ensures PlaceDone(src, i, h, lit, st, best)
    {
      PlaceAt(src, i, lit, st, hs, h);
      PlacesRise(src, i, lit, st, hs, h + 1, |hs| - 1);
      PlaceIsDone(src, i, h, lit, st, hs[h], hs[h + 1], best);
    }
  }

  /**
   The result is what a neighbour of a place ahead gives, or nothing; no neighbour tried gives a better one. The
   search ends early only behind a place in the array, when nothing or too little has been found by then.
   */
  lemma SuffixBest(src: seq<byte>, i: nat, lit: nat, st: Settings, hs: seq<Best>, best: Best)
    requires st.search.Suffixes? && st.minMatch >= 1 && SuffixSearched(src, i, lit, st, hs) && best == hs[|hs| - 1]
    ensures best == Nothing(st)
            || (best.score > 0 && exists h: nat :: h < |hs| - 1 && PlaceGives(src, i, h, lit, st, best))
    ensures forall h: nat :: h < |hs| - 1 ==> PlaceDone(src, i, h, lit, st, best)
    ensures |hs| - 1 <= st.lookahead ==>
              |hs| >= 2 && Listed(st, i, |hs| - 2) && (best.score <= 0 || best.len < st.minMatch)
  {
    AllAdded(src, i, lit, st, hs);
    AllDone(src, i, lit, st, hs, best);
    BeginsWithNothing(src, i, lit, st, hs);
    PlacesRise(src, i, lit, st, hs, 0, |hs| - 1);
  }

  /** So the nearest neighbours of the place itself, on either side, are never better than the result. */
  lemma NearestNeighbours(src: seq<byte>, i: nat, lit: nat, st: Settings, hs: seq<Best>, back: bool, b: Best)
    requires st.search.Suffixes? && st.minMatch >= 1 && SuffixSearched(src, i, lit, st, hs)
    requires Listed(st, i, 0) && st.search.bucket >= 1 && SideGives(src, i, 0, back, 1, lit, st, b)
    ensures b.score <= hs[|hs| - 1].score
  {
    var best := hs[|hs| - 1];
    SuffixBest(src, i, lit, st, hs, best);
    assert PlaceDone(src, i, 0, lit, st, best);
    assert SideSettled(src, i, 0, back, lit, st, best);
  }
}
