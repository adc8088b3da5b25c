/** Permutations of 0..n-1 as sequences. */
module Permutations {
  predicate Distinct<T(==)>(s: seq<T>) {
    forall i, j :: 0 <= i < j < |s| ==> s[i] != s[j]
  }

  predicate InRange(s: seq<int>, n: nat) {
    forall i :: 0 <= i < |s| ==> 0 <= s[i] < n
  }

  predicate IsPerm(s: seq<int>) { InRange(s, |s|) && Distinct(s) }

  function Upto(n: nat): (s: set<int>)
    ensures forall x :: x in s <==> 0 <= x < n
    ensures |s| == n
  {
    if n == 0 then {} else Upto(n - 1) + {n - 1}
  }

  function Elements<T(!new)>(s: seq<T>): (r: set<T>)
    ensures forall x :: x in r <==> x in s
  {
    set x | x in s
  }

  lemma {:induction false} DistinctSize<T(!new)>(s: seq<T>)
    requires Distinct(s)
    ensures |Elements(s)| == |s|
    decreases |s|
  {
    if s != [] {
      var m := |s| - 1;
      DistinctSize(s[..m]);
      assert s == s[..m] + [s[m]];
      assert Elements(s) == Elements(s[..m]) + {s[m]};
    }
  }

  lemma SubsetSize<T>(a: set<T>, b: set<T>)
    requires a <= b
    ensures |a| <= |b|
    ensures |a| == |b| ==> a == b
  {
    assert b == a + (b - a);
    assert |b| == |a| + |b - a|;
  }

  /** Every number below n occurs in a permutation. */
  lemma PermContains(s: seq<int>, v: int)
    requires IsPerm(s) && 0 <= v < |s|
    ensures v in s
  {
    DistinctSize(s);
    SubsetSize(Elements(s), Upto(|s|));
  }

  /** No more than n distinct numbers lie in a range of n. */
  lemma Pigeonhole(s: seq<int>, lo: int, hi: int)
    requires Distinct(s) && lo <= hi && forall i :: 0 <= i < |s| ==> lo <= s[i] < hi
    ensures |s| <= hi - lo
  {
    var t := seq(|s|, i requires 0 <= i < |s| => s[i] - lo);
    DistinctSize(t);
    SubsetSize(Elements(t), Upto(hi - lo));
  }
}
