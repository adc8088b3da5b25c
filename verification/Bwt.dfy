/** The Burrows-Wheeler transform with an end mark, and why following links undoes it. */
module Bwt {
  import opened Bytes
  import opened Permutations

  // ---------------------------------------------------------------- sorted suffixes

  /** The suffix at p comes before the one at q; the empty suffix, at |s|, comes first. */
  ghost predicate SuffixLess(s: seq<byte>, p: nat, q: nat)
    requires p <= |s| && q <= |s|
    decreases |s| - p
  {
    p != q && (p == |s| || (q < |s| && (s[p] < s[q] || (s[p] == s[q] && SuffixLess(s, p + 1, q + 1)))))
  }

  lemma {:induction false} LessOneWay(s: seq<byte>, p: nat, q: nat)
    requires p <= |s| && q <= |s| && SuffixLess(s, p, q)
    ensures !SuffixLess(s, q, p)
    decreases |s| - p
  {
    if p < |s| && q < |s| && s[p] == s[q] {
      LessOneWay(s, p + 1, q + 1);
    }
  }

  /** sa lists the suffixes in order. */
  ghost predicate Sorts(s: seq<byte>, sa: seq<nat>) {
    && IsPerm(sa) && |sa| == |s|
    && forall i, j :: 0 <= i < j < |sa| ==> InOrder(s, sa, i, j)
  }

  ghost predicate InOrder(s: seq<byte>, sa: seq<nat>, i: nat, j: nat)
    requires i < |sa| && j < |sa|
  {
    sa[i] <= |s| && sa[j] <= |s| && SuffixLess(s, sa[i], sa[j])
  }

  /** Where the suffix of a row starts; row 0 is that of the empty suffix. */
  function Pos(sa: seq<nat>, r: nat): nat
    requires r <= |sa|
  {
    if r == 0 then |sa| else sa[r - 1]
  }

  ghost function RowOf(sa: seq<nat>, p: nat): (r: nat)
    requires IsPerm(sa) && p <= |sa|
    ensures r <= |sa| && Pos(sa, r) == p
  {
    if p == |sa| then 0
    else
      PermContains(sa, p);
      var i :| 0 <= i < |sa| && sa[i] == p;
      i + 1
  }

  lemma PosInjective(sa: seq<nat>, r: nat, t: nat)
    requires IsPerm(sa) && r <= |sa| && t <= |sa| && Pos(sa, r) == Pos(sa, t)
    ensures r == t
  {
  }

  lemma RowsSorted(s: seq<byte>, sa: seq<nat>, r: nat, t: nat)
    requires Sorts(s, sa) && r <= |sa| && t <= |sa|
    ensures r < t <==> SuffixLess(s, Pos(sa, r), Pos(sa, t))
  {
    if t < r {
      RowBefore(s, sa, t, r);
      LessOneWay(s, Pos(sa, t), Pos(sa, r));
    } else if r < t {
      RowBefore(s, sa, r, t);
    }
  }

  lemma RowBefore(s: seq<byte>, sa: seq<nat>, r: nat, t: nat)
    requires Sorts(s, sa) && r < t <= |sa|
    ensures SuffixLess(s, Pos(sa, r), Pos(sa, t))
  {
    if r > 0 {
      assert InOrder(s, sa, r - 1, t - 1);
    }
  }

  // ---------------------------------------------------------------- the transform

  const MARK: byte := 255

  /** The byte in front of the suffix of a row; the mark in front of the whole string. */
  function Before(s: seq<byte>, sa: seq<nat>, r: nat): byte
    requires |sa| == |s| && r <= |s| && Pos(sa, r) <= |s|
  {
    if Pos(sa, r) == 0 then MARK else s[Pos(sa, r) - 1]
  }

  /** The transformed bytes: one for each row. */
  function Column(s: seq<byte>, sa: seq<nat>): (col: seq<byte>)
    requires |sa| == |s| && IsPerm(sa)
    ensures |col| == |s| + 1
  {
    seq(|s| + 1, r requires 0 <= r <= |s| => Before(s, sa, r))
  }

  /** The row that follows j in the string. */
  ghost function Next(sa: seq<nat>, j: nat): (r: nat)
    requires IsPerm(sa) && 1 <= j <= |sa|
    ensures r <= |sa| && Pos(sa, r) == Pos(sa, j) + 1
  {
    RowOf(sa, Pos(sa, j) + 1)
  }

  /** Going to the next row keeps rows with equal first bytes in order. */
  lemma NextIncreases(s: seq<byte>, sa: seq<nat>, j: nat, k: nat)
    requires Sorts(s, sa) && 1 <= j < k <= |sa|
    ensures
      var a, b := Before(s, sa, Next(sa, j)), Before(s, sa, Next(sa, k));
      a < b || (a == b && Next(sa, j) < Next(sa, k))
  {
    RowsSorted(s, sa, j, k);
    RowsSorted(s, sa, Next(sa, j), Next(sa, k));
  }

  // ---------------------------------------------------------------- where counting puts a row

  /** How many of the first m rows, the mark's row left out, have the byte x. */
  function Count(col: seq<byte>, idx: nat, x: nat, m: nat): nat
    requires m <= |col|
  {
    if m == 0 then 0 else Count(col, idx, x, m - 1) + if m - 1 != idx && col[m - 1] == x then 1 else 0
  }

  /** The same for all bytes below x. */
  function Below(col: seq<byte>, idx: nat, x: nat, m: nat): nat
    requires m <= |col|
  {
    if x == 0 then 0 else Below(col, idx, x - 1, m) + Count(col, idx, x - 1, m)
  }

  /** The place, counted from 1, of row r when rows are sorted by byte and then by number. */
  function Slot(col: seq<byte>, idx: nat, r: nat): nat
    requires r < |col|
  {
    1 + Below(col, idx, col[r], |col|) + Count(col, idx, col[r], r)
  }

  lemma {:induction false} CountGrows(col: seq<byte>, idx: nat, x: nat, m: nat, k: nat)
    requires m <= k <= |col|
    ensures Count(col, idx, x, m) <= Count(col, idx, x, k)
    ensures m < k && m != idx && col[m] == x ==> Count(col, idx, x, m) < Count(col, idx, x, k)
    decreases k
  {
    if m < k {
      CountGrows(col, idx, x, m, k - 1);
    }
  }

  lemma {:induction false} BelowGrows(col: seq<byte>, idx: nat, x: nat, y: nat, m: nat)
    requires m <= |col| && x <= y
    ensures Below(col, idx, x, m) <= Below(col, idx, y, m)
    decreases y
  {
    if x < y {
      BelowGrows(col, idx, x, y - 1, m);
    }
  }

  lemma {:induction false} BelowStep(col: seq<byte>, idx: nat, x: nat, m: nat)
    requires m < |col|
    ensures Below(col, idx, x, m + 1) == Below(col, idx, x, m) + if m != idx && col[m] < x then 1 else 0
    decreases x
  {
    if x > 0 {
      BelowStep(col, idx, x - 1, m);
    }
  }

  lemma {:induction false} BelowNothing(col: seq<byte>, idx: nat, x: nat)
    ensures Below(col, idx, x, 0) == 0
    decreases x
  {
    if x > 0 {
      BelowNothing(col, idx, x - 1);
    }
  }

  lemma {:induction false} BelowAll(col: seq<byte>, idx: nat, m: nat)
    requires m <= |col|
    ensures Below(col, idx, 256, m) == if idx < m then m - 1 else m
    decreases m
  {
    var x := 256;
    if m == 0 {
      BelowNothing(col, idx, x);
    } else {
      BelowAll(col, idx, m - 1);
      BelowStep(col, idx, x, m - 1);
    }
  }

  lemma SlotInRange(col: seq<byte>, idx: nat, r: nat)
    requires r < |col| && idx < |col| && r != idx
    ensures 1 <= Slot(col, idx, r) < |col|
  {
    var x: nat := col[r];
    CountGrows(col, idx, x, r, |col|);
    assert Below(col, idx, x + 1, |col|) == Below(col, idx, x, |col|) + Count(col, idx, x, |col|);
    var top := 256;
    BelowGrows(col, idx, x + 1, top, |col|);
    BelowAll(col, idx, |col|);
  }

  lemma SlotIncreases(col: seq<byte>, idx: nat, r: nat, t: nat)
    requires r < |col| && t < |col| && r != idx && t != idx
    requires col[r] < col[t] || (col[r] == col[t] && r < t)
    ensures Slot(col, idx, r) < Slot(col, idx, t)
  {
    var x: nat := col[r];
    if col[r] < col[t] {
      CountGrows(col, idx, x, r, |col|);
      assert Below(col, idx, x + 1, |col|) == Below(col, idx, x, |col|) + Count(col, idx, x, |col|);
      BelowGrows(col, idx, x + 1, col[t], |col|);
    } else {
      CountGrows(col, idx, x, r, t);
    }
  }

  lemma SlotInjective(col: seq<byte>, idx: nat, r: nat, t: nat)
    requires r < |col| && t < |col| && r != idx && t != idx && r != t
    ensures Slot(col, idx, r) != Slot(col, idx, t)
  {
    if col[r] < col[t] || (col[r] == col[t] && r < t) {
      SlotIncreases(col, idx, r, t);
    } else {
      SlotIncreases(col, idx, t, r);
    }
  }

  /** An increasing list of n numbers in 1..n is 1..n. */
  lemma {:induction false} IncreasingIsIdentity(f: seq<nat>, n: nat, j: nat)
    requires |f| <= n && (forall i :: 0 <= i < |f| ==> i + 1 <= f[i] <= n) && j < |f|
    requires forall i, k :: 0 <= i < k < |f| ==> f[i] < f[k]
    requires |f| == n
    ensures f[j] == j + 1
    decreases n - j
  {
    if j + 1 < n {
      IncreasingIsIdentity(f, n, j + 1);
    }
  }

  lemma {:induction false} IncreasingAtLeast(f: seq<nat>, j: nat)
    requires j < |f| && (forall i :: 0 <= i < |f| ==> f[i] >= 1) && forall i, k :: 0 <= i < k < |f| ==> f[i] < f[k]
    ensures f[j] >= j + 1
  {
    if j > 0 {
      IncreasingAtLeast(f, j - 1);
    }
  }

  /** The place of the row that follows j. */
  ghost function NextSlot(s: seq<byte>, sa: seq<nat>, idx: nat, j: nat): nat
    requires Sorts(s, sa) && 1 <= j <= |s|
  {
    Slot(Column(s, sa), idx, Next(sa, j))
  }

  lemma NextSlotInRange(s: seq<byte>, sa: seq<nat>, idx: nat, j: nat)
    requires Sorts(s, sa) && idx == RowOf(sa, 0) && 1 <= j <= |s|
    ensures Next(sa, j) != idx && 1 <= NextSlot(s, sa, idx, j) <= |s|
  {
    SlotInRange(Column(s, sa), idx, Next(sa, j));
  }

  lemma NextSlotsIncrease(s: seq<byte>, sa: seq<nat>, idx: nat, j: nat, k: nat)
    requires Sorts(s, sa) && idx == RowOf(sa, 0) && 1 <= j < k <= |s|
    ensures NextSlot(s, sa, idx, j) < NextSlot(s, sa, idx, k)
  {
    NextIncreases(s, sa, j, k);
    NextSlotInRange(s, sa, idx, j);
    NextSlotInRange(s, sa, idx, k);
    SlotIncreases(Column(s, sa), idx, Next(sa, j), Next(sa, k));
  }

  /** All those places, in the order of the rows. */
  lemma NextSlots(s: seq<byte>, sa: seq<nat>, idx: nat) returns (f: seq<nat>)
    requires Sorts(s, sa) && idx == RowOf(sa, 0)
    ensures |f| == |s| && (forall i :: 0 <= i < |f| ==> f[i] == NextSlot(s, sa, idx, i + 1) && 1 <= f[i] <= |f|)
    ensures forall i, k :: 0 <= i < k < |f| ==> f[i] < f[k]
  {
    f := seq(|s|, i requires 0 <= i < |s| => NextSlot(s, sa, idx, i + 1));
    forall i | 0 <= i < |f|
      ensures 1 <= f[i] <= |s|
    {
      NextSlotInRange(s, sa, idx, i + 1);
    }
    forall i, k | 0 <= i < k < |f|
      ensures f[i] < f[k]
    {
      NextSlotsIncrease(s, sa, idx, i + 1, k + 1);
    }
  }

  /** Counting puts the row that follows j at place j. */
  lemma SlotOfNext(s: seq<byte>, sa: seq<nat>, idx: nat, j: nat)
    requires Sorts(s, sa) && idx == RowOf(sa, 0) && 1 <= j <= |s|
    ensures Next(sa, j) != idx && Slot(Column(s, sa), idx, Next(sa, j)) == j
  {
    var f := NextSlots(s, sa, idx);
    IncreasingIsOneToN(f);
    NextSlotInRange(s, sa, idx, j);
    assert f[j - 1] == j;
  }

  lemma IncreasingIsOneToN(f: seq<nat>)
    requires (forall i :: 0 <= i < |f| ==> 1 <= f[i] <= |f|) && forall i, k :: 0 <= i < k < |f| ==> f[i] < f[k]
    ensures forall i :: 0 <= i < |f| ==> f[i] == i + 1
  {
    forall i | 0 <= i < |f|
      ensures i + 1 <= f[i]
    {
      IncreasingAtLeast(f, i);
    }
    forall i | 0 <= i < |f|
      ensures f[i] == i + 1
    {
      IncreasingIsIdentity(f, |f|, i);
    }
  }
}
