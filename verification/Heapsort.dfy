/** Heapsort by key with the right child read unguarded, as it is done twice inside the suffix sorter. */
module Heapsort {
  /** The sorting key of an element: the byte, or the rank, it leads to. */
  type Key = int -> int

  /** Where the parent p is at lo or behind, no child exceeds it, children from n on not counted. */
  ghost predicate Heap(s: seq<int>, key: Key, lo: nat, n: nat) {
    n <= |s| && forall j :: 1 <= j < n && (j - 1) / 2 >= lo ==> Edge(s, key, j)
  }

  ghost predicate Edge(s: seq<int>, key: Key, j: nat)
    requires 1 <= j < |s|
  {
    key(s[j]) <= key(s[(j - 1) / 2])
  }

  lemma {:induction false} HeapMax(s: seq<int>, key: Key, n: nat, k: nat)
    requires Heap(s, key, 0, n) && k < n
    ensures key(s[k]) <= key(s[0])
  {
    if k > 0 {
      assert Edge(s, key, k);
      HeapMax(s, key, n, (k - 1) / 2);
    }
  }

  /** The heap with a hole at i, where v is to go: i started at lo. */
  ghost predicate Hole(s: seq<int>, key: Key, lo: nat, n: nat, i: nat, v: int) {
    && lo <= i < n <= |s|
    && (forall j :: 1 <= j < n && (j - 1) / 2 >= lo && (j - 1) / 2 != i && j != i ==> Edge(s, key, j))
    && (i > lo ==> (i - 1) / 2 >= lo && key(v) < key(s[(i - 1) / 2])
                   && forall j :: 1 <= j < n && (j - 1) / 2 == i ==> key(s[j]) <= key(s[(i - 1) / 2]))
  }

  /** The hole moves to the greater child k, whose element moves up. */
  lemma HoleMoves(s: seq<int>, key: Key, lo: nat, n: nat, i: nat, v: int, k: nat)
    requires Hole(s, key, lo, n, i, v) && 1 <= k < n && (k - 1) / 2 == i && key(v) < key(s[k])
    requires forall j :: 1 <= j < n && (j - 1) / 2 == i ==> key(s[j]) <= key(s[k])
    ensures Hole(s[i := s[k]], key, lo, n, k, v)
  {
    var t := s[i := s[k]];
    forall j | 1 <= j < n && (j - 1) / 2 >= lo && (j - 1) / 2 != k && j != k
      ensures Edge(t, key, j)
    {
      if (j - 1) / 2 != i && j != i {
        assert Edge(s, key, j);
      }
    }
    forall j | 1 <= j < n && (j - 1) / 2 == k
      ensures key(t[j]) <= key(t[i])
    {
      assert Edge(s, key, j);
    }
  }

  /** The hole is filled when v is not below either child. */
  lemma HoleFilled(s: seq<int>, key: Key, lo: nat, n: nat, i: nat, v: int)
    requires Hole(s, key, lo, n, i, v)
    requires forall j :: 1 <= j < n && (j - 1) / 2 == i ==> key(s[j]) <= key(v)
    ensures Heap(s[i := v], key, lo, n)
  {
    var t := s[i := v];
    forall j | 1 <= j < n && (j - 1) / 2 >= lo
      ensures Edge(t, key, j)
    {
      if (j - 1) / 2 != i && j != i {
        assert Edge(s, key, j);
      }
    }
  }

  /** Elements are only moved: what is filled into the hole makes up for what moved out. */
  lemma MovedUp(s: seq<int>, n: nat, i: nat, k: nat, v: int)
    requires i < n <= |s| && k < n && i != k
    ensures multiset(s[i := s[k]][k := v][..n]) == multiset(s[i := v][..n])
  {
    var a, b := s[i := v][..n], s[i := s[k]][k := v][..n];
    assert b == a[i := a[k]][k := a[i]];
  }

  /**
   Reading the right child is safe: either the heap has odd size, so that every left child has a right
   one, or what lies behind the heap is the element that is being sifted down.
   */
  predicate RightChildSafe(s: seq<int>, lo: nat, n: nat)
    requires lo < |s|
  {
    n % 2 == 1 || (n < |s| && s[n] == s[lo])
  }

  /** The greater child of i, if it exceeds v; what may lie behind the heap is v itself, which does not. */
  method GreaterChild(a: array<int>, key: Key, n: nat, i: nat, v: int) returns (k: nat, greater: bool)
    requires i < n <= a.Length && 2 * i + 1 < n && (n % 2 == 1 || (n < a.Length && a[n] == v))
    ensures greater ==> 1 <= k < n && (k - 1) / 2 == i && key(v) < key(a[k])
    ensures forall j :: 1 <= j < n && (j - 1) / 2 == i ==> key(a[j]) <= if greater then key(a[k]) else key(v)
  {
    k := 2 * i + 1;
    var d := key(a[k]);
    var e := key(a[k + 1]);
    if d < e {
      k := k + 1;
      d := e;
    }
    greater := d > key(v);
  }

  method FixDown(a: array<int>, key: Key, lo: nat, n: nat)
    requires lo < n <= a.Length && Heap(a[..], key, lo + 1, n) && RightChildSafe(a[..], lo, n)
    modifies a
    ensures Heap(a[..], key, lo, n)
    ensures multiset(a[..n]) == multiset(old(a[..n]))
    ensures forall k :: n <= k < a.Length ==> a[k] == old(a[k])
    ensures forall k :: 0 <= k < lo ==> a[k] == old(a[k])
  {
    var i, v := lo, a[lo];
    assert a[..][lo := v] == a[..];
    while 2 * i + 1 < n
      invariant Hole(a[..], key, lo, n, i, v)
      invariant multiset(a[..][i := v][..n]) == multiset(old(a[..n]))
      invariant forall k :: (n <= k < a.Length || 0 <= k < lo) ==> a[k] == old(a[k])
      decreases n - i
    {
      var k, greater := GreaterChild(a, key, n, i, v);
      if !greater {
        break;
      }
      MoveUp(a, key, lo, n, i, v, k);
      i := k;
    }
    HoleFilled(a[..], key, lo, n, i, v);
    ghost var before := a[..];
    a[i] := v;
    assert a[..] == before[i := v] && a[..n] == before[i := v][..n];
  }

  method MoveUp(a: array<int>, ghost key: Key, ghost lo: nat, ghost n: nat, i: nat, ghost v: int, k: nat)
    requires Hole(a[..], key, lo, n, i, v) && 1 <= k < n && (k - 1) / 2 == i && key(v) < key(a[k])
    requires forall j :: 1 <= j < n && (j - 1) / 2 == i ==> key(a[j]) <= key(a[k])
    modifies a
    ensures Hole(a[..], key, lo, n, k, v)
    ensures multiset(a[..][k := v][..n]) == multiset(old(a[..][i := v][..n]))
    ensures forall j :: 0 <= j < a.Length && j != i ==> a[j] == old(a[j])
  {
    HoleMoves(a[..], key, lo, n, i, v, k);
    MovedUp(a[..], n, i, k, v);
    ghost var before := a[..];
    a[i] := a[k];
    assert a[..] == before[i := before[k]];
  }

  /** Changing the root leaves the rest of a heap a heap. */
  lemma OnlyRootChanged(s: seq<int>, u: seq<int>, key: Key, n: nat)
    requires |u| == |s| && Heap(s, key, 0, n) && forall k :: 1 <= k < n ==> u[k] == s[k]
    ensures Heap(u, key, 1, n)
  {
    forall j | 1 <= j < n && (j - 1) / 2 >= 1
      ensures Edge(u, key, j)
    {
      assert Edge(s, key, j);
    }
  }

  /** Nothing below n exceeds what lies from n up to m, which is sorted. */
  ghost predicate SortedTail(s: seq<int>, key: Key, n: nat, m: nat) {
    && n <= m <= |s|
    && (forall p, q :: 0 <= p < n <= q < m ==> key(s[p]) <= key(s[q]))
    && (forall p, q :: n <= p < q < m ==> key(s[p]) <= key(s[q]))
  }

  lemma Occurs(s: seq<int>, t: seq<int>, p: nat)
    requires multiset(s) == multiset(t) && p < |s|
    ensures exists q :: 0 <= q < |t| && t[q] == s[p]
  {
    assert s[p] in multiset(t);
  }

  /** A heap of odd size is built from the back. */
  method Build(a: array<int>, key: Key, m: nat)
    requires m <= a.Length && m % 2 == 1
    modifies a
    ensures Heap(a[..], key, 0, m) && multiset(a[..m]) == multiset(old(a[..m]))
    ensures forall k :: m <= k < a.Length ==> a[k] == old(a[k])
  {
    var i: nat := m / 2;
    while i > 0
      invariant 0 <= i <= m / 2 && Heap(a[..], key, i, m)
      invariant multiset(a[..m]) == multiset(old(a[..m])) && forall k :: m <= k < a.Length ==> a[k] == old(a[k])
    {
      i := i - 1;
      FixDown(a, key, i, m);
    }
  }

  /** Takes the greatest element of the heap to its end. */
  method Extract(a: array<int>, key: Key, i: nat, m: nat)
    requires 0 < i < m <= a.Length && Heap(a[..], key, 0, i + 1) && SortedTail(a[..], key, i + 1, m)
    modifies a
    ensures Heap(a[..], key, 0, i) && SortedTail(a[..], key, i, m)
    ensures multiset(a[..m]) == multiset(old(a[..m])) && forall k :: m <= k < a.Length ==> a[k] == old(a[k])
  {
    ghost var s := a[..];
    forall k | 0 <= k <= i
      ensures key(s[k]) <= key(s[0])
    {
      HeapMax(s, key, i + 1, k);
    }
    var t := a[0];
    a[0] := a[i];
    ghost var u := a[..];
    OnlyRootChanged(s, u, key, i);
    FixDown(a, key, 0, i);
    ghost var w := a[..];
    a[i] := t;
    Extracted(s, u, w, a[..], key, i, m);
  }

  lemma FirstTaken(s: seq<int>, u: seq<int>, w: seq<int>, key: Key, m: nat)
    requires 0 < m < |s| == |w| && (forall k :: 0 <= k <= m ==> key(s[k]) <= key(s[0])) && u == s[0 := s[m]][m := s[0]]
    requires Heap(w, key, 0, m) && multiset(w[..m]) == multiset(u[..m]) && forall k :: m <= k < |w| ==> w[k] == u[k]
    ensures SortedTail(w, key, m, m + 1) && multiset(w[..m + 1]) == multiset(s[..m + 1])
  {
    assert u[..m] == s[0 := s[m]][..m] && w == w[m := s[0]];
    Extracted(s, s[0 := s[m]], w, w, key, m, m + 1);
  }

  /** The states of an extraction: s with its first element replaced by the i-th, sifted, and that element put at i. */
  lemma Extracted(s: seq<int>, u: seq<int>, w: seq<int>, r: seq<int>, key: Key, i: nat, m: nat)
    requires 0 < i < m <= |s| == |w| && SortedTail(s, key, i + 1, m) && forall k :: 0 <= k <= i ==> key(s[k]) <= key(s[0])
    requires u == s[0 := s[i]] && multiset(w[..i]) == multiset(u[..i]) && (forall k :: i < k < |w| ==> w[k] == u[k])
    requires Heap(w, key, 0, i) && r == w[i := s[0]]
    ensures Heap(r, key, 0, i) && SortedTail(r, key, i, m) && multiset(r[..m]) == multiset(s[..m])
  {
    forall j | 1 <= j < i
      ensures Edge(r, key, j)
    {
      assert Edge(w, key, j);
    }
    forall p | 0 <= p < i
      ensures exists q :: 0 <= q <= i && s[q] == r[p]
    {
      Occurs(w[..i], u[..i], p);
      var q :| 0 <= q < i && u[..i][q] == w[..i][p];
      assert s[if q == 0 then i else q] == r[p];
    }
    SwappedCounts(s, w[..i], r, i, m);
  }

  /** The counts of an extraction. */
  lemma SwappedCounts(s: seq<int>, front: seq<int>, r: seq<int>, i: nat, m: nat)
    requires 0 < i < m <= |s| == |r| && |front| == i && multiset(front) == multiset(s[0 := s[i]][..i])
    requires r[..i] == front && r[i] == s[0] && forall k :: i < k < m ==> r[k] == s[k]
    ensures multiset(r[..m]) == multiset(s[..m])
  {
    assert r[..m] == front + [s[0]] + s[i + 1..m];
    assert s[..m] == [s[0]] + s[1..i] + [s[i]] + s[i + 1..m];
    assert s[0 := s[i]][..i] == [s[i]] + s[1..i];
  }

  /** Sorts the first size elements by key. */
  method HeapSort(a: array<int>, key: Key, size: nat)
    requires 1 <= size <= a.Length
    modifies a
    ensures forall p, q :: 0 <= p < q < size ==> key(a[p]) <= key(a[q])
    ensures multiset(a[..size]) == multiset(old(a[..size]))
    ensures forall k :: size <= k < a.Length ==> a[k] == old(a[k])
  {
    var m := size;
    if size % 2 == 0 {
      m := m - 1;
      PrepareEven(a, key, m);
    }
    BuildBelow(a, key, m, size);
    if size % 2 == 0 {
      TakeFirst(a, key, m);
    }
    ExtractAll(a, key, m, size);
  }

  method ExtractAll(a: array<int>, key: Key, m: nat, size: nat)
    requires 1 <= m <= size <= a.Length && Heap(a[..], key, 0, m) && SortedTail(a[..], key, m, size)
    modifies a
    ensures forall p, q :: 0 <= p < q < size ==> key(a[p]) <= key(a[q])
    ensures multiset(a[..size]) == multiset(old(a[..size])) && forall k :: size <= k < a.Length ==> a[k] == old(a[k])
  {
    var i := m - 1;
    while 0 < i
      invariant 0 <= i < m && Heap(a[..], key, 0, i + 1) && SortedTail(a[..], key, i + 1, size)
      invariant multiset(a[..size]) == multiset(old(a[..size])) && forall k :: size <= k < a.Length ==> a[k] == old(a[k])
    {
      Extract(a, key, i, size);
      i := i - 1;
    }
  }

  /** With an even size the last element is put aside, below its parent. */
  method PrepareEven(a: array<int>, key: Key, m: nat)
    requires m < a.Length && m % 2 == 1
    modifies a
    ensures key(a[m]) <= key(a[m / 2])
    ensures multiset(a[..m + 1]) == multiset(old(a[..m + 1])) && forall k :: m < k < a.Length ==> a[k] == old(a[k])
  {
    if key(a[m / 2]) < key(a[m]) {
      ghost var s := a[..];
      a[m], a[m / 2] := a[m / 2], a[m];
      assert a[..m + 1] == s[..m + 1][m := s[m / 2]][m / 2 := s[m]];
    }
  }

  method BuildBelow(a: array<int>, key: Key, m: nat, size: nat)
    requires m <= size <= a.Length && m % 2 == 1 && size <= m + 1
    requires m < size ==> key(a[m]) <= key(a[m / 2])
    modifies a
    ensures Heap(a[..], key, 0, m) && (m < size ==> key(a[m]) <= key(a[0]))
    ensures multiset(a[..size]) == multiset(old(a[..size])) && forall k :: m <= k < a.Length ==> a[k] == old(a[k])
  {
    ghost var s := a[..];
    Build(a, key, m);
    Occurs(s[..m], a[..m], m / 2);
    ghost var q :| 0 <= q < m && a[..m][q] == s[..m][m / 2];
    HeapMax(a[..], key, m, q);
    assert a[..size] == a[..m] + s[m..size] && s[..size] == s[..m] + s[m..size];
  }

  /** With an even size the greatest element is exchanged with the one put aside. */
  method TakeFirst(a: array<int>, key: Key, m: nat)
    requires m < a.Length && m % 2 == 1 && Heap(a[..], key, 0, m) && key(a[m]) <= key(a[0])
    modifies a
    ensures Heap(a[..], key, 0, m) && SortedTail(a[..], key, m, m + 1)
    ensures multiset(a[..m + 1]) == multiset(old(a[..m + 1])) && forall k :: m < k < a.Length ==> a[k] == old(a[k])
  {
    ghost var s := a[..];
    forall k | 0 <= k < m
      ensures key(s[k]) <= key(s[0])
    {
      HeapMax(s, key, m, k);
    }
    a[0], a[m] := a[m], a[0];
    ghost var u := a[..];
    OnlyRootChanged(s, u, key, m);
    FixDown(a, key, 0, m);
    FirstTaken(s, u, a[..], key, m);
  }
}
