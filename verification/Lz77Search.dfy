/** The match search of the LZ77 encoder: candidates from hash tables or from a suffix array, scored. */
module Lz77Search {
  import opened Bytes
  import opened Copying
  import opened Lz77Bits

  const BUFSIZE := 0x4000
  const MAX_MATCH := BUFSIZE * 3
  const MAX_LITERAL := BUFSIZE / 4

  /** The best match so far: len bytes from i on, the first lit of them literals, copied from p on. */
  datatype Best = Best(len: nat, p: nat, lit: nat, score: int)

  /** The match, if there is one, is true behind its literals, of which there are not more than are looked ahead. */
  predicate BestOk(src: seq<byte>, i: nat, lookahead: nat, b: Best) {
    && b.p <= i
    && (b.score > 0 ==>
          && b.p < i && b.lit <= b.len && b.lit <= lookahead && b.len <= MAX_MATCH + lookahead
          && Repeats(src, i + b.lit, i - b.p, b.len - b.lit))
  }

  /**
   Where candidates come from. What the hash tables hold for each place can be any positions; before is the byte
   in front of the input, which is read where a match of no bytes would end.
   */
  datatype Search =
    | Tables(minMatch2: nat, far: nat -> seq<nat>, near: nat -> seq<nat>, before: byte)
    | Suffixes(sa: seq<nat>, isa: nat -> nat, bucket: nat)

  datatype Settings = Settings(minMatch: nat, lookahead: nat, search: Search)

  /** The suffix array lists places of the input; the inverse can be out of date. */
  predicate SearchOk(st: Settings, n: nat) {
    && st.minMatch >= 1
    && (st.search.Suffixes? ==> forall k :: 0 <= k < |st.search.sa| ==> st.search.sa[k] < n)
  }

  /** The bytes at p and i agree from start up to l, where they differ, or the input or the longest match ends. */
  predicate AgreeTo(src: seq<byte>, i: nat, p: nat, start: nat, l: nat) {
    && p < i && start <= l && (start < l ==> i + start <= |src| && l <= MAX_MATCH)
    && (i + start <= |src| ==> Repeats(src, i + start, i - p, l - start))
    && (i + l >= |src| || l >= MAX_MATCH || src[p + l] != src[i + l])
  }

  /** They agree from start down to l, where they differ in front, or the match begins. */
  predicate AgreeBack(src: seq<byte>, i: nat, p: nat, start: nat, l: nat) {
    && p < i && l <= start && Repeats(src, i + l, i - p, start - l)
    && (l == 0 || src[p + l - 1] != src[i + l - 1])
  }

  /** How far the bytes at p and i agree from start on. */
  method Extend(src: seq<byte>, i: nat, p: nat, start: nat) returns (l: nat)
    requires p < i
    ensures AgreeTo(src, i, p, start, l)
  {
    l := start;
    while i + l < |src| && l < MAX_MATCH && src[p + l] == src[i + l]
      invariant start <= l && (i + start <= |src| ==> Repeats(src, i + start, i - p, l - start))
      invariant start < l ==> i + start <= |src| && l <= MAX_MATCH
    {
      l := l + 1;
    }
  }

  /** How far back from start they still agree. */
  method ExtendBack(src: seq<byte>, i: nat, p: nat, start: nat) returns (l: nat)
    requires p < i && i + start <= |src|
    ensures AgreeBack(src, i, p, start, l)
  {
    l := start;
    while l > 0 && src[p + l - 1] == src[i + l - 1]
      invariant 0 <= l <= start && Repeats(src, i + l, i - p, start - l)
    {
      l := l - 1;
    }
  }

  lemma Joined(src: seq<byte>, i: nat, dist: nat, a: nat, b: nat, c: nat)
    requires a <= b <= c && Repeats(src, i + a, dist, b - a) && Repeats(src, i + b, dist, c - b)
    ensures Repeats(src, i + a, dist, c - a)
  {
  }

  /** How far the bytes agree around a place ahead, in both directions. */
  method Around(src: seq<byte>, i: nat, p: nat, start: nat) returns (l: nat, l1: nat)
    requires p < i && i + start <= |src|
    ensures AgreeTo(src, i, p, start, l) && AgreeBack(src, i, p, start, l1) && Repeats(src, i + l1, i - p, l - l1)
  {
    l := Extend(src, i, p, start);
    l1 := ExtendBack(src, i, p, start);
    Joined(src, i, i - p, l1, start, l);
  }

  // ---------------------------------------------------------------- hash tables

  function ByteAt(src: seq<byte>, k: int, before: byte): byte
    requires k < |src|
  {
    if k < 0 then before else src[k]
  }

  /** The byte at the end of the best match so far agrees as well. */
  predicate Promising(src: seq<byte>, i: nat, p: nat, len: nat, before: byte) {
    p < i && i + len <= |src| && ByteAt(src, p + len - 1, before) == ByteAt(src, i + len - 1, before)
  }

  /** The match that position p gives, counted from lookahead on and back: all bytes that agree, and what it is worth. */
  predicate IsFar(src: seq<byte>, i: nat, p: nat, lookahead: nat, lit: nat, b: Best) {
    && b.p == p && AgreeTo(src, i, p, lookahead, b.len) && AgreeBack(src, i, p, lookahead, b.lit)
    && b.score == 8 * (b.len - b.lit) - Lg(i - p) - (if lit == 0 && b.lit > 0 then 8 else 0) - 11
  }

  /** The match that position p gives from the start. */
  predicate IsNear(src: seq<byte>, i: nat, p: nat, lit: nat, b: Best) {
    && b.p == p && b.lit == 0 && AgreeTo(src, i, p, 0, b.len)
    && b.score == 8 * b.len - Lg(i - p) - (if lit > 0 then 2 else 0) - 11
  }

  /** Position p is passed over, or its match is taken when it is long enough and worth more than the one before. */
  ghost predicate FarTried(src: seq<byte>, i: nat, p: nat, lookahead: nat, least: nat, lit: nat, before: byte,
                           b0: Best, b1: Best) {
    if b1 == b0 then
      Promising(src, i, p, b0.len, before) ==>
        forall b: Best :: IsFar(src, i, p, lookahead, lit, b) ==> b.len < least + lookahead || b.score <= b0.score
    else
      b1.score > b0.score && Promising(src, i, p, b0.len, before) && b1.len >= least + lookahead
      && IsFar(src, i, p, lookahead, lit, b1)
  }

  ghost predicate NearTried(src: seq<byte>, i: nat, p: nat, lit: nat, before: byte, b0: Best, b1: Best) {
    if b1 == b0 then
      Promising(src, i, p, b0.len, before) ==> forall b: Best :: IsNear(src, i, p, lit, b) ==> b.score <= b0.score
    else b1.score > b0.score && Promising(src, i, p, b0.len, before) && IsNear(src, i, p, lit, b1)
  }

  /** A position gives one match. */
  lemma AgreeOnce(src: seq<byte>, i: nat, p: nat, start: nat, l: nat, m: nat)
    requires AgreeTo(src, i, p, start, l) && AgreeTo(src, i, p, start, m)
    ensures l == m
  {
    assert l < m ==> Agree(src, i + l, i - p);
    assert m < l ==> Agree(src, i + m, i - p);
  }

  lemma AgreeBackOnce(src: seq<byte>, i: nat, p: nat, start: nat, l: nat, m: nat)
    requires AgreeBack(src, i, p, start, l) && AgreeBack(src, i, p, start, m)
    ensures l == m
  {
    assert l < m ==> Agree(src, i + m - 1, i - p);
    assert m < l ==> Agree(src, i + l - 1, i - p);
  }

  /** A position whose bytes agree from lookahead on. */
  method TryFar(src: seq<byte>, i: nat, p: nat, lookahead: nat, least: nat, lit: nat, before: byte, best0: Best)
    returns (best: Best)
    requires BestOk(src, i, lookahead, best0) && least > 0
    ensures BestOk(src, i, lookahead, best) && FarTried(src, i, p, lookahead, least, lit, before, best0, best)
  {
    best := best0;
    if Promising(src, i, p, best.len, before) {
      var l := Extend(src, i, p, lookahead);
      if l >= least + lookahead {
        var l1 := ExtendBack(src, i, p, lookahead);
        Joined(src, i, i - p, l1, lookahead, l);
        var score := (l - l1) * 8 - Lg(i - p) - (if lit == 0 && l1 > 0 then 8 else 0) - 11;
        OnlyFar(src, i, p, lookahead, lit, Best(l, p, l1, score));
        if score > best.score {
          best := Best(l, p, l1, score);
        }
      } else {
        NoneFar(src, i, p, lookahead, lit, l);
      }
    }
  }

  lemma OnlyFar(src: seq<byte>, i: nat, p: nat, lookahead: nat, lit: nat, c: Best)
    requires IsFar(src, i, p, lookahead, lit, c)
    ensures forall b: Best :: IsFar(src, i, p, lookahead, lit, b) ==> b == c
  {
    forall b: Best | IsFar(src, i, p, lookahead, lit, b)
      ensures b == c
    {
      AgreeOnce(src, i, p, lookahead, b.len, c.len);
      AgreeBackOnce(src, i, p, lookahead, b.lit, c.lit);
    }
  }

  lemma NoneFar(src: seq<byte>, i: nat, p: nat, lookahead: nat, lit: nat, l: nat)
    requires AgreeTo(src, i, p, lookahead, l)
    ensures forall b: Best :: IsFar(src, i, p, lookahead, lit, b) ==> b.len == l
  {
    forall b: Best | IsFar(src, i, p, lookahead, lit, b)
      ensures b.len == l
    {
      AgreeOnce(src, i, p, lookahead, b.len, l);
    }
  }

  /** A position whose bytes agree from the start. */
  method TryNear(src: seq<byte>, i: nat, p: nat, lookahead: nat, lit: nat, before: byte, best0: Best) returns (best: Best)
    requires BestOk(src, i, lookahead, best0) && i <= |src|
    ensures BestOk(src, i, lookahead, best) && NearTried(src, i, p, lit, before, best0, best)
  {
    best := best0;
    if Promising(src, i, p, best.len, before) {
      var l := Extend(src, i, p, 0);
      var score := l * 8 - Lg(i - p) - (if lit > 0 then 2 else 0) - 11;
      OnlyNear(src, i, p, lit, Best(l, p, 0, score));
      if score > best.score {
        best := Best(l, p, 0, score);
      }
    }
  }

  lemma OnlyNear(src: seq<byte>, i: nat, p: nat, lit: nat, c: Best)
    requires IsNear(src, i, p, lit, c)
    ensures forall b: Best :: IsNear(src, i, p, lit, b) ==> b == c
  {
    forall b: Best | IsNear(src, i, p, lit, b)
      ensures b == c
    {
      AgreeOnce(src, i, p, 0, b.len, c.len);
    }
  }

  /** The search begins with no match, and the length that a match has to exceed. */
  function Nothing(st: Settings): Best
    requires st.minMatch >= 1
  {
    Best(st.minMatch - 1, 0, 0, 0)
  }

  /** bs are the best matches after each of the positions: all are tried, unless one makes the match 128 bytes long. */
  predicate AllTried(ps: seq<nat>, bs: seq<Best>) {
    && 1 <= |bs| <= |ps| + 1 && (forall k :: 0 < k < |bs| - 1 ==> bs[k].len < 128)
    && (|bs| == |ps| + 1 || (|bs| > 1 && bs[|bs| - 1].len >= 128))
  }

  ghost predicate FarAt(src: seq<byte>, i: nat, lit: nat, st: Settings, bs: seq<Best>, k: nat)
    requires st.search.Tables?
  {
    k < |st.search.far(i)| && k < |bs| - 1
    && FarTried(src, i, st.search.far(i)[k], st.lookahead, st.search.minMatch2, lit, st.search.before, bs[k], bs[k + 1])
  }

  ghost predicate NearAt(src: seq<byte>, i: nat, lit: nat, st: Settings, bs: seq<Best>, k: nat)
    requires st.search.Tables?
  {
    k < |st.search.near(i)| && k < |bs| - 1
    && NearTried(src, i, st.search.near(i)[k], lit, st.search.before, bs[k], bs[k + 1])
  }

  ghost predicate FarSearched(src: seq<byte>, i: nat, lit: nat, st: Settings, bs: seq<Best>)
    requires st.search.Tables?
  {
    AllTried(st.search.far(i), bs) && forall k: nat :: k < |bs| - 1 ==> FarAt(src, i, lit, st, bs, k)
  }

  ghost predicate NearSearched(src: seq<byte>, i: nat, lit: nat, st: Settings, bs: seq<Best>)
    requires st.search.Tables?
  {
    AllTried(st.search.near(i), bs) && forall k: nat :: k < |bs| - 1 ==> NearAt(src, i, lit, st, bs, k)
  }

  lemma FarMore(src: seq<byte>, i: nat, lit: nat, st: Settings, bs: seq<Best>, best: Best)
    requires st.search.Tables? && bs != [] && forall k: nat :: k < |bs| - 1 ==> FarAt(src, i, lit, st, bs, k)
    requires FarAt(src, i, lit, st, bs + [best], |bs| - 1)
    ensures forall k: nat :: k < |bs + [best]| - 1 ==> FarAt(src, i, lit, st, bs + [best], k)
  {
    forall k: nat | k < |bs| - 1
      ensures FarAt(src, i, lit, st, bs + [best], k)
    {
      assert FarAt(src, i, lit, st, bs, k);
    }
  }

  lemma NearMore(src: seq<byte>, i: nat, lit: nat, st: Settings, bs: seq<Best>, best: Best)
    requires st.search.Tables? && bs != [] && forall k: nat :: k < |bs| - 1 ==> NearAt(src, i, lit, st, bs, k)
    requires NearAt(src, i, lit, st, bs + [best], |bs| - 1)
    ensures forall k: nat :: k < |bs + [best]| - 1 ==> NearAt(src, i, lit, st, bs + [best], k)
  {
    forall k: nat | k < |bs| - 1
      ensures NearAt(src, i, lit, st, bs + [best], k)
    {
      assert NearAt(src, i, lit, st, bs, k);
    }
  }

  /**
   far and near are the best matches after each position looked at: first those found by more bytes, if there is
   a table for them, then, unless one of these is long enough, those found by fewer.
   */
  ghost predicate TablesSearched(src: seq<byte>, i: nat, lit: nat, st: Settings, far: seq<Best>, near: seq<Best>)
    requires st.search.Tables? && st.minMatch >= 1
  {
    && far != [] && near != [] && far[0] == Nothing(st) && near[0] == far[|far| - 1]
    && (if st.search.minMatch2 > 0 then FarSearched(src, i, lit, st, far) else |far| == 1)
    && (if st.search.minMatch2 == 0 || near[0].len < st.search.minMatch2 then NearSearched(src, i, lit, st, near)
        else |near| == 1)
  }

  method SearchFar(src: seq<byte>, i: nat, lit: nat, st: Settings, best0: Best) returns (best: Best, ghost bs: seq<Best>)
    requires i < |src| && st.search.Tables? && st.search.minMatch2 > 0 && BestOk(src, i, st.lookahead, best0)
    ensures BestOk(src, i, st.lookahead, best)
    ensures FarSearched(src, i, lit, st, bs) && bs[0] == best0 && bs[|bs| - 1] == best
  {
    best, bs := best0, [best0];
    var ps, k := st.search.far(i), 0;
    while k < |ps|
      invariant 0 <= k <= |ps| && BestOk(src, i, st.lookahead, best)
      invariant |bs| == k + 1 && bs[0] == best0 && bs[k] == best && forall q :: 0 < q <= k ==> bs[q].len < 128
      invariant forall q: nat :: q < |bs| - 1 ==> FarAt(src, i, lit, st, bs, q)
    {
      best := TryFar(src, i, ps[k], st.lookahead, st.search.minMatch2, lit, st.search.before, best);
      FarMore(src, i, lit, st, bs, best);
      bs := bs + [best];
      k := k + 1;
      if best.len >= 128 {
        break;
      }
    }
  }

  method SearchNear(src: seq<byte>, i: nat, lit: nat, st: Settings, best0: Best) returns (best: Best, ghost bs: seq<Best>)
    requires i < |src| && st.search.Tables? && BestOk(src, i, st.lookahead, best0)
    ensures BestOk(src, i, st.lookahead, best)
    ensures NearSearched(src, i, lit, st, bs) && bs[0] == best0 && bs[|bs| - 1] == best
  {
    best, bs := best0, [best0];
    var ps, k := st.search.near(i), 0;
    while k < |ps|
      invariant 0 <= k <= |ps| && BestOk(src, i, st.lookahead, best)
      invariant |bs| == k + 1 && bs[0] == best0 && bs[k] == best && forall q :: 0 < q <= k ==> bs[q].len < 128
      invariant forall q: nat :: q < |bs| - 1 ==> NearAt(src, i, lit, st, bs, q)
    {
      best := TryNear(src, i, ps[k], st.lookahead, lit, st.search.before, best);
      NearMore(src, i, lit, st, bs, best);
      bs := bs + [best];
      k := k + 1;
      if best.len >= 128 {
        break;
      }
    }
  }

  method FindInTables(src: seq<byte>, i: nat, lit: nat, st: Settings)
    returns (best: Best, ghost far: seq<Best>, ghost near: seq<Best>)
    requires i < |src| && SearchOk(st, |src|) && st.search.Tables?
    ensures BestOk(src, i, st.lookahead, best)
    ensures TablesSearched(src, i, lit, st, far, near) && best == near[|near| - 1]
  {
    best := Nothing(st);
    far := [best];
    if st.search.minMatch2 > 0 {
      best, far := SearchFar(src, i, lit, st, best);
    }
    near := [best];
    if st.search.minMatch2 == 0 || best.len < st.search.minMatch2 {
      best, near := SearchNear(src, i, lit, st, best);
    }
  }

  // ---------------------------------------------------------------- suffix array

  /** A quotient rounded toward zero. */
  function Toward0(x: int, n: nat): int
    requires n > 0
  {
    if x >= 0 then x / n else -(-x / n)
  }

  /** A match h bytes ahead counts less. */
  function Faded(score: int, h: nat): int {
    if h == 0 then score else Toward0(Faded(score, h - 1) * 5, 8)
  }

  /** Where a match that begins h bytes before the k-th slot from q on one side begins; -1 where there is none. */
  function Beside(sa: seq<nat>, i: nat, h: nat, q: nat, back: bool, k: nat): int {
    var at := if back then q - k else q + k;
    if 0 <= at < |sa| && 0 <= sa[at] - h < i then sa[at] - h else -1
  }

  /** The match that position p gives, from h bytes ahead on and back: all bytes that agree, and what it is worth. */
  predicate IsAround(src: seq<byte>, i: nat, h: nat, p: nat, lit: nat, b: Best) {
    && b.p == p && AgreeTo(src, i, p, h, b.len) && AgreeBack(src, i, p, h, b.lit)
    && b.score == Faded(8 * (b.len - b.lit) - Lg(i - p) - (if lit == 0 && b.lit > 0 then 4 else 0) - 11, h)
  }

  lemma OnlyAround(src: seq<byte>, i: nat, h: nat, p: nat, lit: nat, c: Best)
    requires IsAround(src, i, h, p, lit, c)
    ensures forall b: Best :: IsAround(src, i, h, p, lit, b) ==> b == c
  {
    forall b: Best | IsAround(src, i, h, p, lit, b)
      ensures b == c
    {
      AgreeOnce(src, i, p, h, b.len, c.len);
      AgreeBackOnce(src, i, p, h, b.lit, c.lit);
    }
  }

  /** The k-th neighbour's match is taken when it is worth more than the one before. */
  ghost predicate NeighbourTried(src: seq<byte>, i: nat, h: nat, q: nat, back: bool, k: nat, lit: nat, st: Settings,
                                 b0: Best, b1: Best)
    requires st.search.Suffixes?
  {
    var p := Beside(st.search.sa, i, h, q, back, k);
    if b1 == b0 then p >= 0 ==> forall b: Best :: IsAround(src, i, h, p, lit, b) ==> b.score <= b0.score
    else p >= 0 && b1.score > b0.score && IsAround(src, i, h, p, lit, b1)
  }

  /** The k-th neighbour's match, with best the best then, is too short or too long for others to be looked for. */
  ghost predicate Stops(src: seq<byte>, i: nat, h: nat, q: nat, back: bool, k: nat, lit: nat, st: Settings, best: Best)
    requires st.search.Suffixes?
  {
    var p := Beside(st.search.sa, i, h, q, back, k);
    p >= 0
    && exists b: Best ::
      IsAround(src, i, h, p, lit, b) && (b.len < best.len || b.len < st.minMatch || b.len > 255)
  }

  /** The k-th neighbour is tried with the best match before, and does not stop the search when others have followed. */
  ghost predicate TriedAt(src: seq<byte>, i: nat, h: nat, q: nat, back: bool, lit: nat, st: Settings, bs: seq<Best>, k: nat)
    requires st.search.Suffixes? && 1 <= k < |bs|
  {
    && NeighbourTried(src, i, h, q, back, k, lit, st, bs[k - 1], bs[k])
    && (k < |bs| - 1 ==> !Stops(src, i, h, q, back, k, lit, st, bs[k]))
  }

  ghost predicate SideTried(src: seq<byte>, i: nat, h: nat, q: nat, back: bool, lit: nat, st: Settings, bs: seq<Best>)
    requires st.search.Suffixes?
  {
    bs != [] && forall k :: 1 <= k < |bs| ==> TriedAt(src, i, h, q, back, lit, st, bs, k)
  }

  /** bs are the best matches after each neighbour on one side, nearest first, until one stops the search. */
  ghost predicate SideSearched(src: seq<byte>, i: nat, h: nat, q: nat, back: bool, lit: nat, st: Settings, bs: seq<Best>)
    requires st.search.Suffixes?
  {
    && SideTried(src, i, h, q, back, lit, st, bs) && |bs| <= st.search.bucket + 1
    && (|bs| == st.search.bucket + 1
        || (|bs| > 1 && Stops(src, i, h, q, back, |bs| - 1, lit, st, bs[|bs| - 1])))
  }

  lemma OneMoreTried(src: seq<byte>, i: nat, h: nat, q: nat, back: bool, lit: nat, st: Settings, bs: seq<Best>, k: nat,
                     best: Best)
    requires st.search.Suffixes? && |bs| == k && SideTried(src, i, h, q, back, lit, st, bs)
    requires k > 1 ==> !Stops(src, i, h, q, back, k - 1, lit, st, bs[k - 1])
    requires NeighbourTried(src, i, h, q, back, k, lit, st, bs[k - 1], best)
    ensures SideTried(src, i, h, q, back, lit, st, bs + [best])
  {
    var all := bs + [best];
    forall j | 1 <= j < |all|
      ensures TriedAt(src, i, h, q, back, lit, st, all, j)
    {
      if j < k {
        assert TriedAt(src, i, h, q, back, lit, st, bs, j);
        assert all[j] == bs[j] && all[j - 1] == bs[j - 1];
      }
    }
  }

  /** The neighbours of slot q on one side, nearest first, until one is no use. */
  method TrySide(src: seq<byte>, i: nat, h: nat, q: nat, back: bool, lit: nat, st: Settings, best0: Best)
    returns (best: Best, ghost bs: seq<Best>)
    requires SearchOk(st, |src|) && st.search.Suffixes? && h <= st.lookahead && i + h < |src|
    requires BestOk(src, i, st.lookahead, best0)
    ensures BestOk(src, i, st.lookahead, best)
    ensures SideSearched(src, i, h, q, back, lit, st, bs) && bs[0] == best0 && bs[|bs| - 1] == best
  {
    best, bs := best0, [best0];
    var k, stop := 1, false;
    while k <= st.search.bucket && !stop
      invariant 1 <= k <= st.search.bucket + 1 && BestOk(src, i, st.lookahead, best)
      invariant |bs| == k && bs[0] == best0 && bs[k - 1] == best && SideTried(src, i, h, q, back, lit, st, bs)
      invariant stop ==> k > 1
      invariant k > 1 ==> stop == Stops(src, i, h, q, back, k - 1, lit, st, best)
    {
      ghost var before := bs;
      best, stop := TryNeighbour(src, i, h, q, back, k, lit, st, best);
      OneMoreTried(src, i, h, q, back, lit, st, before, k, best);
      bs := before + [best];
      k := k + 1;
    }
  }

  /** With the match that a neighbour gives it is settled whether it is taken and whether it stops the search. */
  lemma OneMatch(src: seq<byte>, i: nat, h: nat, q: nat, back: bool, k: nat, lit: nat, st: Settings, c: Best,
                 best0: Best, best: Best)
    requires st.search.Suffixes? && Beside(st.search.sa, i, h, q, back, k) == c.p && IsAround(src, i, h, c.p, lit, c)
    requires best == if c.score > best0.score then c else best0
    ensures NeighbourTried(src, i, h, q, back, k, lit, st, best0, best)
    ensures Stops(src, i, h, q, back, k, lit, st, best) <==> c.len < best.len || c.len < st.minMatch || c.len > 255
  {
    OnlyAround(src, i, h, c.p, lit, c);
  }

  method TryNeighbour(src: seq<byte>, i: nat, h: nat, q: nat, back: bool, k: nat, lit: nat, st: Settings, best0: Best)
    returns (best: Best, stop: bool)
    requires SearchOk(st, |src|) && st.search.Suffixes? && h <= st.lookahead && i + h < |src|
    requires BestOk(src, i, st.lookahead, best0)
    ensures BestOk(src, i, st.lookahead, best) && NeighbourTried(src, i, h, q, back, k, lit, st, best0, best)
    ensures stop <==> Stops(src, i, h, q, back, k, lit, st, best)
  {
    best, stop := best0, false;
    var p := Beside(st.search.sa, i, h, q, back, k);
    if p >= 0 {
      var c := MatchAround(src, i, h, p, lit, st.lookahead);
      if c.score > best.score {
        best := c;
      }
      stop := c.len < best.len || c.len < st.minMatch || c.len > 255;
      OneMatch(src, i, h, q, back, k, lit, st, c, best0, best);
    }
  }

  method MatchAround(src: seq<byte>, i: nat, h: nat, p: nat, lit: nat, lookahead: nat) returns (c: Best)
    requires p < i && i + h < |src| && h <= lookahead
    ensures IsAround(src, i, h, p, lit, c) && BestOk(src, i, lookahead, c)
  {
    var l, l1 := Around(src, i, p, h);
    c := Best(l, p, l1, Faded((l - l1) * 8 - Lg(i - p) - (if lit == 0 && l1 > 0 then 4 else 0) - 11, h));
  }

  /** The inverse has the slot of the place h bytes ahead. */
  predicate Listed(st: Settings, i: nat, h: nat)
    requires st.search.Suffixes?
  {
    var q := st.search.isa(h + i);
    q < |st.search.sa| && st.search.sa[q] == h + i
  }

  /** From one place both sides are searched, first back, then forward. */
  ghost predicate PlaceSearched(src: seq<byte>, i: nat, h: nat, lit: nat, st: Settings, b0: Best, b1: Best)
    requires st.search.Suffixes?
  {
    if !Listed(st, i, h) then b1 == b0
    else
      exists down: seq<Best>, up: seq<Best> ::
        && SideSearched(src, i, h, st.search.isa(h + i), true, lit, st, down)
        && SideSearched(src, i, h, st.search.isa(h + i), false, lit, st, up)
        && down[0] == b0 && up[0] == down[|down| - 1] && up[|up| - 1] == b1
  }

  predicate GivesUp(st: Settings, i: nat, h: nat, b: Best)
    requires st.search.Suffixes?
  {
    Listed(st, i, h) && (b.score <= 0 || b.len < st.minMatch)
  }

  /** hs are the best matches after each place ahead, as long as there is one. */
  ghost predicate PlacesSearched(src: seq<byte>, i: nat, lit: nat, st: Settings, hs: seq<Best>)
    requires st.search.Suffixes? && st.minMatch >= 1
    decreases |hs|
  {
    if |hs| <= 1 then hs == [Nothing(st)]
    else
      var h := |hs| - 2;
      && PlacesSearched(src, i, lit, st, hs[..h + 1])
      && (h > 0 ==> !GivesUp(st, i, h - 1, hs[h]))
      && PlaceSearched(src, i, h, lit, st, hs[h], hs[h + 1])
  }

  /** All places up to lookahead, or until after one of them there is no match. */
  ghost predicate SuffixSearched(src: seq<byte>, i: nat, lit: nat, st: Settings, hs: seq<Best>)
    requires st.search.Suffixes? && st.minMatch >= 1
  {
    && 1 <= |hs| <= st.lookahead + 2 && PlacesSearched(src, i, lit, st, hs)
    && (|hs| == st.lookahead + 2 || (|hs| > 1 && GivesUp(st, i, |hs| - 2, hs[|hs| - 1])))
  }

  method FindBySuffix(src: seq<byte>, i: nat, lit: nat, st: Settings) returns (best: Best, ghost hs: seq<Best>)
    requires i < |src| && SearchOk(st, |src|) && st.search.Suffixes?
    ensures BestOk(src, i, st.lookahead, best)
    ensures SuffixSearched(src, i, lit, st, hs) && best == hs[|hs| - 1]
  {
    best := Nothing(st);
    hs := [best];
    var h := 0;
    while h <= st.lookahead
      invariant 0 <= h <= st.lookahead + 1 && BestOk(src, i, st.lookahead, best)
      invariant |hs| == h + 1 && hs[h] == best && PlacesSearched(src, i, lit, st, hs)
      invariant h > 0 ==> !GivesUp(st, i, h - 1, best)
    {
      ghost var before := hs;
      best := SearchPlace(src, i, h, lit, st, best);
      hs := hs + [best];
      assert hs[..h + 1] == before;
      h := h + 1;
      if GivesUp(st, i, h - 1, best) {
        break;
      }
    }
  }

  method SearchPlace(src: seq<byte>, i: nat, h: nat, lit: nat, st: Settings, best0: Best) returns (best: Best)
    requires SearchOk(st, |src|) && st.search.Suffixes? && h <= st.lookahead && BestOk(src, i, st.lookahead, best0)
    ensures BestOk(src, i, st.lookahead, best) && PlaceSearched(src, i, h, lit, st, best0, best)
  {
    best := best0;
    var q := st.search.isa(h + i);
    if q < |st.search.sa| && st.search.sa[q] == h + i {
      ghost var down, up;
      best, down := TrySide(src, i, h, q, true, lit, st, best);
      best, up := TrySide(src, i, h, q, false, lit, st, best);
      assert SideSearched(src, i, h, st.search.isa(h + i), true, lit, st, down);
      assert SideSearched(src, i, h, st.search.isa(h + i), false, lit, st, up);
    }
  }

  // ---------------------------------------------------------------- either search

  /** best is what the search comes to. */
  ghost predicate Searched(src: seq<byte>, i: nat, lit: nat, st: Settings, best: Best)
    requires st.minMatch >= 1
  {
    if st.search.Suffixes? then exists hs: seq<Best> :: SuffixSearched(src, i, lit, st, hs) && best == hs[|hs| - 1]
    else
      exists far: seq<Best>, near: seq<Best> :: TablesSearched(src, i, lit, st, far, near) && best == near[|near| - 1]
  }

  /** Either search comes up with a true match, or with none. */
  method FindMatch(src: seq<byte>, i: nat, lit: nat, st: Settings) returns (best: Best)
    requires i < |src| && SearchOk(st, |src|)
    ensures BestOk(src, i, st.lookahead, best) && Searched(src, i, lit, st, best)
  {
    if st.search.Suffixes? {
      ghost var hs;
      best, hs := FindBySuffix(src, i, lit, st);
    } else {
      ghost var far, near;
      best, far, near := FindInTables(src, i, lit, st);
    }
  }
}
