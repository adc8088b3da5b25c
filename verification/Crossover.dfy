/** The two ways of crossing the permutations of two genes. */
module Crossover {
  import opened Permutations

  /** The value occurs in a between the cuts. */
  ghost predicate Kept(a: seq<int>, l: nat, r: nat, v: int)
    requires l <= r < |a|
  {
    exists k :: l <= k <= r && a[k] == v
  }

  /** The cuts l and r, both inclusive, of two permutations of the same length. */
  ghost predicate Parents(a: seq<int>, b: seq<int>, l: nat, r: nat) {
    IsPerm(a) && IsPerm(b) && |a| == |b| && l <= r < |a|
  }

  // ---------------------------------------------------------------- partially mapped crossover

  /**
   Positions linked by the segment: the first is in the segment and its value in b is not kept; at each
   further one b has what a has at the one before; all but the last are in the segment.
   */
  ghost predicate Linked(a: seq<int>, b: seq<int>, l: nat, r: nat, c: seq<nat>)
    requires Parents(a, b, l, r)
  {
    && c != [] && (forall m :: 0 <= m < |c| ==> c[m] < |a|)
    && l <= c[0] <= r && !Kept(a, l, r, b[c[0]])
    && (forall m :: 0 <= m < |c| - 1 ==> l <= c[m] <= r)
    && (forall m :: 0 <= m < |c| - 1 ==> Link(a, b, c, m))
  }

  ghost predicate Link(a: seq<int>, b: seq<int>, c: seq<nat>, m: nat)
    requires |a| == |b| && m + 1 < |c| && c[m] < |a| && c[m + 1] < |a|
  {
    b[c[m + 1]] == a[c[m]]
  }

  ghost predicate Chain(a: seq<int>, b: seq<int>, l: nat, r: nat, c: seq<nat>)
    requires Parents(a, b, l, r)
  {
    Linked(a, b, l, r, c) && !(l <= c[|c| - 1] <= r)
  }

  /** Linked positions of different starts never meet, and those of one start never come back. */
  lemma {:induction false} LinksMeet(a: seq<int>, b: seq<int>, l: nat, r: nat, c: seq<nat>, d: seq<nat>, m: nat, k: nat)
    requires Parents(a, b, l, r) && Linked(a, b, l, r, c) && Linked(a, b, l, r, d)
    requires m < |c| && k < |d| && c[m] == d[k]
    ensures m == k && c[0] == d[0]
    decreases m
  {
    assert m > 0 ==> Link(a, b, c, m - 1);
    assert k > 0 ==> Link(a, b, d, k - 1);
    if m > 0 && k > 0 {
      assert a[c[m - 1]] == a[d[k - 1]];
      LinksMeet(a, b, l, r, c, d, m - 1, k - 1);
    }
  }

  lemma LinkedDistinct(a: seq<int>, b: seq<int>, l: nat, r: nat, c: seq<nat>)
    requires Parents(a, b, l, r) && Linked(a, b, l, r, c)
    ensures Distinct(c)
  {
    forall i, j | 0 <= i < j < |c|
      ensures c[i] != c[j]
    {
      if c[i] == c[j] {
        LinksMeet(a, b, l, r, c, c, i, j);
      }
    }
  }

  /** Inside the segment there are at most as many linked positions as the segment has. */
  lemma LinkedInside(a: seq<int>, b: seq<int>, l: nat, r: nat, c: seq<nat>)
    requires Parents(a, b, l, r) && Linked(a, b, l, r, c)
    ensures |c| <= r - l + 2
  {
    LinkedDistinct(a, b, l, r, c);
    var s: seq<int> := c[..|c| - 1];
    assert Distinct(s);
    Pigeonhole(s, l, r + 1);
  }

  /** What crossing a and b between the cuts means. */
  ghost predicate PartiallyMapped(a: seq<int>, b: seq<int>, l: nat, r: nat, p: seq<int>)
    requires Parents(a, b, l, r)
  {
    && |p| == |a|
    && (forall i :: l <= i <= r ==> p[i] == a[i])
    && (forall i :: 0 <= i < |p| && !(l <= i <= r) && !Kept(a, l, r, b[i]) ==> p[i] == b[i])
    && (forall c :: Chain(a, b, l, r, c) ==> p[c[|c| - 1]] == b[c[0]])
  }

  /** Positions linked on the way back from i, of which only i is outside the segment. */
  ghost predicate Backtrack(a: seq<int>, b: seq<int>, l: nat, r: nat, i: nat, c: seq<nat>)
    requires |a| == |b|
  {
    && c != [] && (forall m :: 0 <= m < |c| ==> c[m] < |a|) && c[|c| - 1] == i
    && (forall m :: 0 <= m < |c| - 1 ==> l <= c[m] <= r && Link(a, b, c, m))
    && Distinct(c)
  }

  lemma BacktrackStep(a: seq<int>, b: seq<int>, l: nat, r: nat, i: nat, c: seq<nat>, k: nat)
    requires Parents(a, b, l, r) && Backtrack(a, b, l, r, i, c) && !(l <= i <= r)
    requires l <= k <= r && a[k] == b[c[0]]
    ensures Backtrack(a, b, l, r, i, [k] + c) && |c| <= r - l + 1
  {
    var c1 := [k] + c;
    NotInBacktrack(a, b, l, r, c, k);
    forall m | 0 <= m < |c1| - 1
      ensures l <= c1[m] <= r && Link(a, b, c1, m)
    {
      assert m > 0 ==> Link(a, b, c, m - 1);
    }
    var inside: seq<int> := c1[..|c1| - 1];
    assert Distinct(inside);
    Pigeonhole(inside, l, r + 1);
  }

  /** Every position outside the segment whose value in b is kept is the end of a chain. */
  lemma ChainTo(a: seq<int>, b: seq<int>, l: nat, r: nat, i: nat) returns (c: seq<nat>)
    requires Parents(a, b, l, r) && i < |a| && !(l <= i <= r) && Kept(a, l, r, b[i])
    ensures Chain(a, b, l, r, c) && c[|c| - 1] == i
  {
    c := [i];
    while Kept(a, l, r, b[c[0]])
      invariant Backtrack(a, b, l, r, i, c) && (|c| >= 2 || c[0] == i)
      decreases r - l + 2 - |c|
    {
      var k :| l <= k <= r && a[k] == b[c[0]];
      BacktrackStep(a, b, l, r, i, c, k);
      c := [k] + c;
    }
  }

  /** Going back, a position never occurs twice: a and b are injective, and the end is outside. */
  lemma NotInBacktrack(a: seq<int>, b: seq<int>, l: nat, r: nat, c: seq<nat>, k: nat)
    requires Parents(a, b, l, r) && c != [] && (forall m :: 0 <= m < |c| ==> c[m] < |a|)
    requires forall m :: 0 <= m < |c| - 1 ==> l <= c[m] <= r && Link(a, b, c, m)
    requires !(l <= c[|c| - 1] <= r) && Distinct(c) && l <= k <= r && a[k] == b[c[0]]
    ensures k !in c && Distinct([k] + c)
  {
    forall m | 0 <= m < |c|
      ensures c[m] != k
    {
      if m < |c| - 1 {
        assert Link(a, b, c, m);
        assert b[c[m + 1]] == a[c[m]];
        assert c[m + 1] != c[0];
      }
    }
  }

  /** Crossing gives a permutation. */
  lemma PartiallyMappedIsPerm(a: seq<int>, b: seq<int>, l: nat, r: nat, p: seq<int>)
    requires Parents(a, b, l, r) && PartiallyMapped(a, b, l, r, p)
    ensures IsPerm(p)
  {
    forall i | 0 <= i < |p|
      ensures 0 <= p[i] < |p|
    {
      var s := Origin(a, b, l, r, p, i);
    }
    forall i, j | 0 <= i < j < |p|
      ensures p[i] != p[j]
    {
      if p[i] == p[j] {
        SameOrigin(a, b, l, r, p, i, j);
      }
    }
  }

  /** Outside the segment every value comes from b, from a place whose value there is not kept. */
  lemma Origin(a: seq<int>, b: seq<int>, l: nat, r: nat, p: seq<int>, i: nat) returns (c: seq<nat>)
    requires Parents(a, b, l, r) && PartiallyMapped(a, b, l, r, p) && i < |p|
    ensures 0 <= p[i] < |p|
    ensures !(l <= i <= r) ==> c != [] && c[0] < |b| && p[i] == b[c[0]] && !Kept(a, l, r, p[i])
    ensures !(l <= i <= r) ==> c == [i] || (Chain(a, b, l, r, c) && c[|c| - 1] == i)
  {
    c := [i];
    if !(l <= i <= r) && Kept(a, l, r, b[i]) {
      c := ChainTo(a, b, l, r, i);
    }
  }

  lemma SameOrigin(a: seq<int>, b: seq<int>, l: nat, r: nat, p: seq<int>, i: nat, j: nat)
    requires Parents(a, b, l, r) && PartiallyMapped(a, b, l, r, p) && i < |p| && j < |p| && p[i] == p[j]
    ensures i == j
  {
    var c := Origin(a, b, l, r, p, i);
    var d := Origin(a, b, l, r, p, j);
    if l <= i <= r || l <= j <= r {
      assert l <= i <= r ==> Kept(a, l, r, p[i]);
      assert l <= j <= r ==> Kept(a, l, r, p[j]);
    } else {
      assert c[0] == d[0];
      if c != [i] && d != [j] {
        SameEnd(a, b, l, r, c, d);
      }
    }
  }

  /** One start has one end. */
  lemma SameEnd(a: seq<int>, b: seq<int>, l: nat, r: nat, c: seq<nat>, d: seq<nat>)
    requires Parents(a, b, l, r) && Chain(a, b, l, r, c) && Chain(a, b, l, r, d) && c[0] == d[0]
    ensures c == d
  {
    var m := 0;
    while m + 1 < |c| && m + 1 < |d|
      invariant m < |c| && m < |d| && forall k :: 0 <= k <= m ==> c[k] == d[k]
    {
      assert Link(a, b, c, m) && Link(a, b, d, m);
      m := m + 1;
    }
  }

  // ---------------------------------------------------------------- the walk

  /** The positions filled from b so far: for each start done, its chain. */
  ghost predicate Filled(a: seq<int>, b: seq<int>, l: nat, r: nat, perm: seq<int>, chains: map<nat, seq<nat>>, i: nat)
    requires Parents(a, b, l, r) && i <= r + 1
  {
    && |perm| == |a|
    && (forall k :: l <= k <= r ==> perm[k] == a[k])
    && (forall h :: h in chains <==> l <= h < i && !Kept(a, l, r, b[h]))
    && (forall h :: h in chains ==> FilledAlong(a, b, l, r, perm, h, chains[h]))
    && (forall k :: 0 <= k < |perm| && !(l <= k <= r) && perm[k] != -1 ==> EndsAt(chains, k))
  }

  ghost predicate FilledAlong(a: seq<int>, b: seq<int>, l: nat, r: nat, perm: seq<int>, h: nat, c: seq<nat>)
    requires Parents(a, b, l, r) && |perm| == |a|
  {
    Chain(a, b, l, r, c) && c[0] == h && perm[c[|c| - 1]] == b[h]
  }

  ghost predicate EndsAt(chains: map<nat, seq<nat>>, k: nat) {
    exists h :: h in chains && chains[h] != [] && chains[h][|chains[h]| - 1] == k
  }

  /** Off the chains done so far, to still leads where the permutations say. */
  ghost predicate Leads(a: seq<int>, b: seq<int>, l: nat, r: nat, to: seq<int>, chains: map<nat, seq<nat>>)
    requires Parents(a, b, l, r)
  {
    && |to| == |a| && InRange(to, |a|)
    && forall x :: l <= x <= r && !OnChain(chains, x) ==> b[to[x]] == a[x]
  }

  ghost predicate OnChain(chains: map<nat, seq<nat>>, x: nat) {
    exists h :: h in chains && x in chains[h]
  }

  /** A new walk never comes upon a position of an earlier chain. */
  lemma WalkIsNew(a: seq<int>, b: seq<int>, l: nat, r: nat, chains: map<nat, seq<nat>>, c: seq<nat>)
    requires Parents(a, b, l, r) && Linked(a, b, l, r, c) && c[0] !in chains
    requires forall h :: h in chains ==> Chain(a, b, l, r, chains[h]) && chains[h][0] == h
    ensures !OnChain(chains, c[|c| - 1]) && !EndsAt(chains, c[|c| - 1])
  {
    var x := c[|c| - 1];
    forall h | h in chains
      ensures x !in chains[h]
    {
      if x in chains[h] {
        var k :| 0 <= k < |chains[h]| && chains[h][k] == x;
        LinksMeet(a, b, l, r, c, chains[h], |c| - 1, k);
      }
    }
  }

  /** The walk from i to the first empty position. */
  method Walk(a: seq<int>, b: seq<int>, l: nat, r: nat, perm: seq<int>, to: seq<int>, i: nat, ghost chains: map<nat,
              seq<nat>>)
    returns (j: nat, path: seq<nat>)
    requires Parents(a, b, l, r) && l <= i <= r && !Kept(a, l, r, b[i])
    requires Filled(a, b, l, r, perm, chains, i) && Leads(a, b, l, r, to, chains)
    ensures j < |a| && perm[j] == -1
    ensures Chain(a, b, l, r, path + [j]) && (path + [j])[0] == i && i in path
  {
    j := i;
    path := [];
    assert forall h :: h in chains ==> FilledAlong(a, b, l, r, perm, h, chains[h]);
    while perm[j] > -1
      invariant Linked(a, b, l, r, path + [j]) && (path + [j])[0] == i
      invariant j < |a|
      decreases r - l + 2 - |path|
    {
      ghost var c := path + [j];
      WalkIsNew(a, b, l, r, chains, c);
      LinkedInside(a, b, l, r, c);
      assert c[|c| - 1] == j;
      assert l <= j <= r;
      path := path + [j];
      j := to[j];
      ghost var d := path + [j];
      LinkedFurther(a, b, l, r, c, d);
    }
    assert path != [];
    WalkIsNew(a, b, l, r, chains, path + [j]);
    assert path[0] == i;
    LinkedInside(a, b, l, r, path + [j]);
  }

  lemma LinkedFurther(a: seq<int>, b: seq<int>, l: nat, r: nat, c: seq<nat>, d: seq<nat>)
    requires Parents(a, b, l, r) && Linked(a, b, l, r, c) && l <= c[|c| - 1] <= r
    requires |d| == |c| + 1 && d[..|c|] == c && d[|c|] < |a| && b[d[|c|]] == a[c[|c| - 1]]
    ensures Linked(a, b, l, r, d)
  {
    forall m | 0 <= m < |d| - 1
      ensures l <= d[m] <= r && Link(a, b, d, m)
    {
      assert d[m] == d[..|c|][m];
      if m < |c| - 1 {
        assert Link(a, b, c, m);
        assert d[m + 1] == d[..|c|][m + 1];
      }
    }
    assert d[0] == d[..|c|][0];
  }

  // ---------------------------------------------------------------- the crossover methods

  /** The values of a between the cuts, marked in used and put in place. */
  method CopySegment(a: seq<int>, l: nat, r: nat, perm: array<int>, used: array<bool>)
    requires IsPerm(a) && l <= r < |a| && perm.Length == used.Length == |a|
    requires (forall i :: 0 <= i < |a| ==> perm[i] == -1) && (forall v :: 0 <= v < |a| ==> !used[v])
    modifies perm, used
    ensures forall i :: 0 <= i < |a| ==> perm[i] == if l <= i <= r then a[i] else -1
    ensures forall v :: 0 <= v < |a| ==> (used[v] <==> Kept(a, l, r, v))
  {
    var i := l;
    while i <= r
      invariant l <= i <= r + 1
      invariant forall k :: 0 <= k < |a| ==> perm[k] == if l <= k < i then a[k] else -1
      invariant forall v :: 0 <= v < |a| ==> (used[v] <==> exists k :: l <= k < i && a[k] == v)
    {
      perm[i] := a[i];
      used[a[i]] := true;
      i := i + 1;
    }
  }

  /** The table that leads from a position to the place of its value in b. */
  method PlacesInB(a: seq<int>, b: seq<int>) returns (to: array<int>)
    requires IsPerm(a) && IsPerm(b) && |a| == |b|
    ensures fresh(to) && to.Length == |a| && forall i :: 0 <= i < |a| ==> 0 <= to[i] < |a| && b[to[i]] == a[i]
  {
    var n := |a|;
    to := new int[n];
    var revB := new int[n];
    var i := 0;
    while i < n
      invariant 0 <= i <= n && forall k :: 0 <= k < i ==> revB[b[k]] == k
    {
      revB[b[i]] := i;
      i := i + 1;
    }
    i := 0;
    while i < n
      invariant 0 <= i <= n && forall k :: 0 <= k < n ==> revB[b[k]] == k
      invariant forall k :: 0 <= k < i ==> 0 <= to[k] < n && b[to[k]] == a[k]
    {
      PermContains(b, a[i]);
      var k :| 0 <= k < n && b[k] == a[i];
      to[i] := revB[a[i]];
      i := i + 1;
    }
  }

  /** Entering the chain found by a walk. */
  lemma FilledOneMore(a: seq<int>, b: seq<int>, l: nat, r: nat, perm: seq<int>, chains: map<nat, seq<nat>>, i: nat,
                      c: seq<nat>)
    requires Parents(a, b, l, r) && l <= i <= r && Filled(a, b, l, r, perm, chains, i) && !Kept(a, l, r, b[i])
    requires Chain(a, b, l, r, c) && c[0] == i && perm[c[|c| - 1]] == -1
    ensures Filled(a, b, l, r, perm[c[|c| - 1] := b[i]], chains[i := c], i + 1)
  {
    var j := c[|c| - 1];
    var perm1, chains1 := perm[j := b[i]], chains[i := c];
    assert i !in chains;
    forall k | 0 <= k < |perm1| && !(l <= k <= r) && perm1[k] != -1
      ensures EndsAt(chains1, k)
    {
      EndsMore(chains, i, c, k);
    }
    forall h | h in chains1
      ensures FilledAlong(a, b, l, r, perm1, h, chains1[h])
    {
      if h != i {
        assert FilledAlong(a, b, l, r, perm, h, chains[h]);
      }
    }
  }

  lemma EndsMore(chains: map<nat, seq<nat>>, i: nat, c: seq<nat>, k: nat)
    requires i !in chains && c != []
    ensures EndsAt(chains, k) || k == c[|c| - 1] ==> EndsAt(chains[i := c], k)
  {
    var chains1 := chains[i := c];
    assert chains1[i] == c;
    if EndsAt(chains, k) {
      var h :| h in chains && chains[h] != [] && chains[h][|chains[h]| - 1] == k;
      assert chains1[h] == chains[h];
    }
  }

  lemma OnMore(chains: map<nat, seq<nat>>, i: nat, c: seq<nat>, x: nat)
    requires i !in chains
    ensures OnChain(chains, x) || x in c ==> OnChain(chains[i := c], x)
  {
    var chains1 := chains[i := c];
    assert chains1[i] == c;
    if OnChain(chains, x) {
      var h :| h in chains && x in chains[h];
      assert chains1[h] == chains[h];
    }
  }

  /** Sends every position of the path to its end. */
  method Redirect(to: array<int>, path: seq<nat>, j: nat)
    requires j < to.Length && forall k :: 0 <= k < |path| ==> path[k] < to.Length
    modifies to
    ensures forall x :: 0 <= x < to.Length ==> to[x] == if x in path then j else old(to[x])
  {
    var k := 0;
    while k < |path|
      invariant 0 <= k <= |path|
      invariant forall x :: 0 <= x < to.Length ==> to[x] == if x in path[..k] then j else old(to[x])
    {
      to[path[k]] := j;
      assert path[..k + 1] == path[..k] + [path[k]];
      k := k + 1;
    }
    assert path[..k] == path;
  }

  /** The chains of all starts in the segment. */
  method FillChains(a: seq<int>, b: seq<int>, l: nat, r: nat, perm: array<int>, used: array<bool>, to: array<int>)
    returns (ghost chains: map<nat, seq<nat>>)
    requires Parents(a, b, l, r) && perm.Length == used.Length == to.Length == |a| && perm != to
    requires forall i :: 0 <= i < |a| ==> perm[i] == if l <= i <= r then a[i] else -1
    requires forall v :: 0 <= v < |a| ==> (used[v] <==> Kept(a, l, r, v))
    requires forall i :: 0 <= i < |a| ==> 0 <= to[i] < |a| && b[to[i]] == a[i]
    modifies perm, used, to
    ensures Filled(a, b, l, r, perm[..], chains, r + 1)
  {
    chains := map[];
    var i := l;
    while i <= r
      invariant l <= i <= r + 1 && Filled(a, b, l, r, perm[..], chains, i) && Leads(a, b, l, r, to[..], chains)
      invariant forall k :: i <= k <= r ==> (used[b[k]] <==> Kept(a, l, r, b[k]))
    {
      if !used[b[i]] {
        var j, path := Walk(a, b, l, r, perm[..], to[..], i, chains);
        ghost var c := path + [j];
        FilledOneMore(a, b, l, r, perm[..], chains, i, c);
        ghost var before := perm[..];
        perm[j] := b[i];
        assert perm[..] == before[j := b[i]];
        used[b[i]] := true;
        forall k | 0 <= k < |path|
          ensures path[k] < to.Length
        {
          assert path[k] == c[k];
        }
        ghost var to0 := to[..];
        Redirect(to, path, j);
        LeadsAfter(a, b, l, r, to0, to[..], chains, i, c, j);
        chains := chains[i := c];
      }
      i := i + 1;
    }
  }

  lemma LeadsAfter(a: seq<int>, b: seq<int>, l: nat, r: nat, to: seq<int>, to1: seq<int>, chains: map<nat, seq<nat>>,
                   i: nat,
                   c: seq<nat>, j: nat)
    requires Parents(a, b, l, r) && Leads(a, b, l, r, to, chains) && i !in chains && c != [] && c[|c| - 1] == j < |a|
    requires |to1| == |to| && forall x :: 0 <= x < |to| ==> to1[x] == if x in c[..|c| - 1] then j else to[x]
    ensures Leads(a, b, l, r, to1, chains[i := c])
  {
    var chains1 := chains[i := c];
    forall x | l <= x <= r && !OnChain(chains1, x)
      ensures b[to1[x]] == a[x]
    {
      OnMore(chains, i, c, x);
    }
  }

  /** What is left empty is taken from b where it stands. */
  method FillRest(b: seq<int>, perm: array<int>)
    requires perm.Length == |b|
    modifies perm
    ensures forall k :: 0 <= k < |b| ==> perm[k] == if old(perm[k]) == -1 then b[k] else old(perm[k])
  {
    var i := 0;
    while i < |b|
      invariant 0 <= i <= |b|
      invariant forall k :: 0 <= k < i ==> perm[k] == if old(perm[k]) == -1 then b[k] else old(perm[k])
      invariant forall k :: i <= k < |b| ==> perm[k] == old(perm[k])
    {
      if perm[i] == -1 {
        perm[i] := b[i];
      }
      i := i + 1;
    }
  }

  lemma EndIsKept(a: seq<int>, b: seq<int>, l: nat, r: nat, perm: seq<int>, chains: map<nat, seq<nat>>, k: nat)
    requires Parents(a, b, l, r) && Filled(a, b, l, r, perm, chains, r + 1) && k < |b|
    ensures EndsAt(chains, k) ==> Kept(a, l, r, b[k])
  {
    if EndsAt(chains, k) {
      var h :| h in chains && chains[h] != [] && chains[h][|chains[h]| - 1] == k;
      var c := chains[h];
      assert FilledAlong(a, b, l, r, perm, h, c);
      assert Link(a, b, c, |c| - 2);
    }
  }

  lemma RestIsMapped(a: seq<int>, b: seq<int>, l: nat, r: nat, perm: seq<int>, chains: map<nat, seq<nat>>, p: seq<int>)
    requires Parents(a, b, l, r) && Filled(a, b, l, r, perm, chains, r + 1) && |p| == |perm|
    requires forall k :: 0 <= k < |p| ==> p[k] == if perm[k] == -1 then b[k] else perm[k]
    ensures PartiallyMapped(a, b, l, r, p)
  {
    forall i | 0 <= i < |p| && !(l <= i <= r) && !Kept(a, l, r, b[i])
      ensures p[i] == b[i]
    {
      EndIsKept(a, b, l, r, perm, chains, i);
    }
    forall c | Chain(a, b, l, r, c)
      ensures p[c[|c| - 1]] == b[c[0]]
    {
      assert c[0] in chains && FilledAlong(a, b, l, r, perm, c[0], chains[c[0]]);
      SameEnd(a, b, l, r, c, chains[c[0]]);
    }
  }

  method PMX(a: seq<int>, b: seq<int>, l: nat, r: nat) returns (p: seq<int>)
    requires Parents(a, b, l, r)
    ensures PartiallyMapped(a, b, l, r, p) && IsPerm(p)
  {
    var n := |a|;
    var perm := new int[n](i => -1);
    var used := new bool[n](i => false);
    var to := PlacesInB(a, b);
    CopySegment(a, l, r, perm, used);
    ghost var chains := FillChains(a, b, l, r, perm, used, to);
    ghost var filled := perm[..];
    FillRest(b, perm);
    RestIsMapped(a, b, l, r, filled, chains, perm[..]);
    PartiallyMappedIsPerm(a, b, l, r, perm[..]);
    p := perm[..];
  }

  // ---------------------------------------------------------------- order crossover

  /** The values of b that are not kept, in their order. */
  ghost function Others(a: seq<int>, b: seq<int>, l: nat, r: nat): (o: seq<int>)
    requires l <= r < |a|
    ensures forall v :: v in o <==> v in b && !Kept(a, l, r, v)
    decreases |b|
  {
    if b == [] then []
    else
      var rest := Others(a, b[..|b| - 1], l, r);
      var v := b[|b| - 1];
      assert b == b[..|b| - 1] + [v];
      if Kept(a, l, r, v) then rest else rest + [v]
  }

  lemma {:induction false} OthersDistinct(a: seq<int>, b: seq<int>, l: nat, r: nat)
    requires l <= r < |a| && Distinct(b)
    ensures Distinct(Others(a, b, l, r))
    decreases |b|
  {
    if b != [] {
      OthersDistinct(a, b[..|b| - 1], l, r);
    }
  }

  lemma KeptIn(a: seq<int>, l: nat, r: nat, v: int)
    requires l <= r < |a|
    ensures Kept(a, l, r, v) <==> v in a[l..r + 1]
  {
    if Kept(a, l, r, v) {
      var k :| l <= k <= r && a[k] == v;
      assert a[l..r + 1][k - l] == v;
    }
  }

  /** As many as there are places outside the segment. */
  lemma OthersCount(a: seq<int>, b: seq<int>, l: nat, r: nat)
    requires Parents(a, b, l, r)
    ensures |Others(a, b, l, r)| == |a| - (r - l + 1)
  {
    var o, kept := Others(a, b, l, r), a[l..r + 1];
    OthersDistinct(a, b, l, r);
    var all := o + kept;
    forall i, j | 0 <= i < j < |all|
      ensures all[i] != all[j]
    {
      if i < |o| && j >= |o| {
        assert Kept(a, l, r, all[j]) by { assert all[j] == a[l + j - |o|]; }
        assert all[i] in o;
      }
    }
    DistinctSize(all);
    DistinctSize(b);
    forall v
      ensures v in all <==> v in b
    {
      KeptIn(a, l, r, v);
      if v in kept {
        PermContains(b, v);
      }
    }
    assert Elements(all) == Elements(b);
  }

  lemma {:induction false} OthersOfPrefix(a: seq<int>, b: seq<int>, l: nat, r: nat, i: nat)
    requires l <= r < |a| && i <= |b|
    ensures Others(a, b[..i], l, r) <= Others(a, b, l, r)
    decreases |b|
  {
    if i < |b| {
      OthersOfPrefix(a, b[..|b| - 1], l, r, i);
      assert b[..|b| - 1][..i] == b[..i];
    } else {
      assert b[..i] == b;
    }
  }

  /** The place of the k-th value around the segment. */
  function Around(l: nat, r: nat, k: nat): int
    requires l <= r
  {
    if k < l then k else k + (r - l + 1)
  }

  /** The segment of a stays; around it the other values follow in the order they have in b. */
  ghost predicate Ordered(a: seq<int>, b: seq<int>, l: nat, r: nat, p: seq<int>)
    requires Parents(a, b, l, r)
  {
    |p| == |a| && p[l..r + 1] == a[l..r + 1] && p[..l] + p[r + 1..] == Others(a, b, l, r)
  }

  lemma OrderedIsPerm(a: seq<int>, b: seq<int>, l: nat, r: nat, p: seq<int>)
    requires Parents(a, b, l, r) && Ordered(a, b, l, r, p)
    ensures IsPerm(p)
  {
    var o := Others(a, b, l, r);
    OthersDistinct(a, b, l, r);
    forall i | 0 <= i < |p|
      ensures 0 <= p[i] < |p|
      ensures if l <= i <= r then p[i] == a[i] else p[i] == o[if i < l then i else i - (r - l + 1)] && p[i] in o
    {
      if l <= i <= r {
        assert p[i] == p[l..r + 1][i - l] == a[l..r + 1][i - l];
      } else {
        assert p[i] == (p[..l] + p[r + 1..])[if i < l then i else i - (r - l + 1)];
        assert p[i] in o && p[i] in b;
      }
    }
    forall i, j | 0 <= i < j < |p|
      ensures p[i] != p[j]
    {
      assert l <= i <= r ==> Kept(a, l, r, p[i]);
      assert l <= j <= r ==> Kept(a, l, r, p[j]);
    }
  }

  lemma AroundIsOrdered(a: seq<int>, b: seq<int>, l: nat, r: nat, p: seq<int>)
    requires Parents(a, b, l, r) && |p| == |a| && forall k :: l <= k <= r ==> p[k] == a[k]
    requires
      var o := Others(a, b, l, r);
      |o| == |a| - (r - l + 1) && forall k :: 0 <= k < |o| ==> p[Around(l, r, k)] == o[k]
    ensures Ordered(a, b, l, r, p)
  {
    var o, q := Others(a, b, l, r), p[..l] + p[r + 1..];
    forall k | 0 <= k < |o|
      ensures q[k] == o[k]
    {
      assert q[k] == p[Around(l, r, k)];
    }
  }

  /** The next value of b in order, if it is not kept. */
  lemma NextOther(a: seq<int>, b: seq<int>, l: nat, r: nat, i: nat)
    requires l <= r < |a| && i < |b|
    ensures
      var o, n := Others(a, b, l, r), |Others(a, b[..i], l, r)|;
      if Kept(a, l, r, b[i]) then Others(a, b[..i + 1], l, r) == Others(a, b[..i], l, r)
      else n < |o| && o[n] == b[i] && |Others(a, b[..i + 1], l, r)| == n + 1
  {
    assert b[..i + 1][..i] == b[..i];
    OthersOfPrefix(a, b, l, r, i + 1);
  }

  /** The segment is in place, and done values of o around it; j is where the last of them ends. */
  ghost predicate Surrounded(a: seq<int>, l: nat, r: nat, perm: seq<int>, o: seq<int>, done: nat, j: nat) {
    && l <= r < |a| == |perm| && done <= |o| == |a| - (r - l + 1)
    && j == (if done <= l then done else Around(l, r, done))
    && (forall k :: l <= k <= r ==> perm[k] == a[k])
    && (forall k :: 0 <= k < done ==> perm[Around(l, r, k)] == o[k])
  }

  method PutNext(ghost a: seq<int>, l: nat, r: nat, perm: array<int>, v: int, j: nat, ghost o: seq<int>,
                 ghost done: nat)
    returns (j': nat)
    requires Surrounded(a, l, r, perm[..], o, done, j) && done < |o| && o[done] == v
    modifies perm
    ensures Surrounded(a, l, r, perm[..], o, done + 1, j')
  {
    j' := j;
    if j' == l {
      j' := r + 1;
    }
    perm[j'] := v;
    j' := j' + 1;
  }

  /** The value b[i] goes to the next place around the segment unless it has been used. */
  method TakeOther(a: seq<int>, b: seq<int>, l: nat, r: nat, perm: array<int>, used: bool, i: nat, j: nat,
                   ghost done: nat)
    returns (j': nat, ghost done': nat)
    requires l <= r < |a| && i < |b| && used == Kept(a, l, r, b[i]) && done == |Others(a, b[..i], l, r)|
    requires Surrounded(a, l, r, perm[..], Others(a, b, l, r), done, j)
    modifies perm
    ensures done' == |Others(a, b[..i + 1], l, r)| && Surrounded(a, l, r, perm[..], Others(a, b, l, r), done', j')
  {
    NextOther(a, b, l, r, i);
    j', done' := j, done;
    if !used {
      j' := PutNext(a, l, r, perm, b[i], j, Others(a, b, l, r), done);
      done' := done + 1;
    }
  }

  /** The loop over b: all values that are not kept are put around the segment. */
  method PutOthers(a: seq<int>, b: seq<int>, l: nat, r: nat, perm: array<int>, used: array<bool>)
    returns (ghost end: nat)
    requires l <= r < |a| == |b| == perm.Length == used.Length && forall i :: 0 <= i < |b| ==> 0 <= b[i] < |a|
    requires forall v :: 0 <= v < |a| ==> (used[v] <==> Kept(a, l, r, v))
    requires Surrounded(a, l, r, perm[..], Others(a, b, l, r), 0, 0)
    modifies perm
    ensures Surrounded(a, l, r, perm[..], Others(a, b, l, r), |Others(a, b, l, r)|, end)
  {
    var i, j: nat := 0, 0;
    ghost var done: nat := 0;
    while i < |a|
      invariant 0 <= i <= |a| && done == |Others(a, b[..i], l, r)|
      invariant Surrounded(a, l, r, perm[..], Others(a, b, l, r), done, j)
    {
      j, done := TakeOther(a, b, l, r, perm, used[b[i]], i, j, done);
      i := i + 1;
    }
    assert b[..|a|] == b;
    end := j;
  }

  method OX1(a: seq<int>, b: seq<int>, l: nat, r: nat) returns (p: seq<int>)
    requires Parents(a, b, l, r)
    ensures Ordered(a, b, l, r, p) && IsPerm(p)
  {
    var n := |a|;
    var perm := new int[n](i => -1);
    var used := new bool[n](i => false);
    CopySegment(a, l, r, perm, used);
    OthersCount(a, b, l, r);
    ghost var end := PutOthers(a, b, l, r, perm, used);
    p := perm[..];
    AroundIsOrdered(a, b, l, r, p);
    OrderedIsPerm(a, b, l, r, p);
  }
}
