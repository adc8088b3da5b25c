/** The order in which the cells of a bag are rebuilt: every cell after all the cells it refers to. */
module BagTopology {
  import opened Permutations

  /** For each cell the cells it refers to, all of them existing. */
  ghost predicate Graph(refs: seq<seq<nat>>) {
    forall i: nat, v: nat :: i < |refs| && v in refs[i] ==> v < |refs|
  }

  /** Cells refer only to cells of lower rank. */
  ghost predicate Ranked(refs: seq<seq<nat>>, rank: seq<nat>) {
    && |rank| == |refs|
    && forall i: nat, v: nat :: i < |refs| && v in refs[i] ==> v < |refs| && rank[v] < rank[i]
  }

  ghost predicate Acyclic(refs: seq<seq<nat>>) {
    exists rank :: Ranked(refs, rank)
  }

  /** No cell twice, and each only after all it refers to. */
  ghost predicate Topological(refs: seq<seq<nat>>, order: seq<nat>) {
    && Distinct(order)
    && (forall p :: 0 <= p < |order| ==> order[p] < |refs|)
    && (forall p, v :: 0 <= p < |order| && v in refs[order[p]] ==> v in order[..p])
  }

  /** Nothing can be added: every cell left out refers to one left out. */
  ghost predicate Exhausted(refs: seq<seq<nat>>, order: seq<nat>) {
    forall i :: 0 <= i < |refs| && i !in order ==> exists v :: v in refs[i] && v !in order
  }

  // ---------------------------------------------------------------- complete orders

  /** The order is complete exactly when the graph has no cycle. */
  lemma CompleteIffAcyclic(refs: seq<seq<nat>>, order: seq<nat>)
    requires Graph(refs) && Topological(refs, order) && Exhausted(refs, order)
    ensures |order| == |refs| <==> Acyclic(refs)
    ensures |order| == |refs| <==> forall i :: 0 <= i < |refs| ==> i in order
  {
    OrderSize(refs, order);
    if |order| == |refs| {
      OrderRanks(refs, order);
    }
    if Acyclic(refs) {
      var rank :| Ranked(refs, rank);
      forall i | 0 <= i < |refs|
        ensures i in order
      {
        RankedIsEmitted(refs, rank, order, i);
      }
    }
  }

  lemma OrderSize(refs: seq<seq<nat>>, order: seq<nat>)
    requires Topological(refs, order)
    ensures |order| <= |refs|
    ensures |order| == |refs| <==> forall i :: 0 <= i < |refs| ==> i in order
  {
    var s: seq<int> := order;
    DistinctSize(s);
    assert forall v :: v in Elements(s) ==> v in order;
    SubsetSize(Elements(s), Upto(|refs|));
    if forall i :: 0 <= i < |refs| ==> i in order {
      forall i | i in Upto(|refs|)
        ensures i in Elements(s)
      {
        assert i in order;
      }
      SubsetSize(Upto(|refs|), Elements(s));
    }
  }

  function Place(order: seq<nat>, i: nat): (p: nat)
    requires i in order
    ensures p < |order| && order[p] == i
  {
    if order[|order| - 1] == i then |order| - 1 else Place(order[..|order| - 1], i)
  }

  lemma OrderRanks(refs: seq<seq<nat>>, order: seq<nat>)
    requires Graph(refs) && Topological(refs, order) && forall i :: 0 <= i < |refs| ==> i in order
    ensures Acyclic(refs)
  {
    var rank := seq(|refs|, i requires 0 <= i < |refs| => Place(order, i));
    forall i, v | 0 <= i < |refs| && v in refs[i]
      ensures v < |refs| && rank[v] < rank[i]
    {
      var p := Place(order, i);
      assert v in order[..p];
      var q :| 0 <= q < p && order[q] == v;
      assert q == Place(order, v);
    }
    assert Ranked(refs, rank);
  }

  lemma {:induction false} RankedIsEmitted(refs: seq<seq<nat>>, rank: seq<nat>, order: seq<nat>, i: nat)
    requires Ranked(refs, rank) && Exhausted(refs, order) && i < |refs|
    ensures i in order
    decreases rank[i]
  {
    if i !in order {
      var v :| v in refs[i] && v !in order;
      RankedIsEmitted(refs, rank, order, v);
      assert false;
    }
  }

  // ---------------------------------------------------------------- counting

  /** How many of the references are still to be met, repeated ones counted again. */
  function Pending(r: seq<nat>, done: set<nat>): nat {
    if r == [] then 0 else Pending(r[1..], done) + if r[0] in done then 0 else 1
  }

  lemma {:induction false} PendingWithout(r: seq<nat>, done: set<nat>, v: nat)
    requires v !in done
    ensures Pending(r, done) == Pending(r, done + {v}) + multiset(r)[v]
  {
    if r != [] {
      PendingWithout(r[1..], done, v);
      assert r == [r[0]] + r[1..];
    }
  }

  lemma {:induction false} PendingZero(r: seq<nat>, done: set<nat>)
    ensures Pending(r, done) == 0 <==> forall v :: v in r ==> v in done
  {
    if r != [] {
      PendingZero(r[1..], done);
      assert r == [r[0]] + r[1..];
    }
  }

  lemma {:induction false} PendingNothing(r: seq<nat>)
    ensures Pending(r, {}) == |r|
  {
    if r != [] {
      PendingNothing(r[1..]);
    }
  }

  // ---------------------------------------------------------------- the algorithm

  /** rev lists for each cell the cells that refer to it, once for each reference. */
  ghost predicate Reversed(refs: seq<seq<nat>>, rev: seq<seq<nat>>) {
    && |rev| == |refs|
    && (forall v, i :: 0 <= v < |rev| && 0 <= i < |refs| ==> multiset(rev[v])[i] == multiset(refs[i])[v])
    && (forall v, i :: 0 <= v < |rev| && i in rev[v] ==> i < |refs|)
  }

  /** What is left of each degree after order, with the referrers rest of its last cell still to be told. */
  ghost predicate Degrees(refs: seq<seq<nat>>, degree: seq<nat>, order: seq<nat>, rest: seq<nat>) {
    && |degree| == |refs|
    && forall i :: 0 <= i < |refs| ==> degree[i] == Pending(refs[i], Elements(order)) + multiset(rest)[i]
  }

  /** Emitted or queued are exactly the cells without pending references. */
  ghost predicate Queued(degree: seq<nat>, all: seq<nat>) {
    && Distinct(all)
    && (forall p :: 0 <= p < |all| ==> all[p] < |degree|)
    && forall i :: 0 <= i < |degree| ==> (i in all <==> degree[i] == 0)
  }

  method TellReferrers(refs: seq<seq<nat>>, degree: array<nat>, order: seq<nat>, queue0: seq<nat>, referrers: seq<nat>)
    returns (queue: seq<nat>)
    requires Degrees(refs, degree[..], order, referrers) && Queued(degree[..], order + queue0)
    requires forall i :: i in referrers ==> i < |refs|
    modifies degree
    ensures Degrees(refs, degree[..], order, []) && Queued(degree[..], order + queue)
  {
    queue := queue0;
    var m := 0;
    assert referrers[0..] == referrers;
    while m < |referrers|
      invariant 0 <= m <= |referrers| && degree.Length == |refs|
      invariant Degrees(refs, degree[..], order, referrers[m..]) && Queued(degree[..], order + queue)
    {
      var i := referrers[m];
      assert i in referrers && referrers[m..] == [i] + referrers[m + 1..];
      assert degree[i] == degree[..][i] && degree[i] > 0;
      ghost var before := degree[..];
      degree[i] := degree[i] - 1;
      assert degree[..] == before[i := before[i] - 1];
      if degree[i] == 0 {
        QueuedOneMore(before, degree[..], order + queue, i);
        assert order + queue + [i] == order + (queue + [i]);
        queue := queue + [i];
      }
      m := m + 1;
    }
    assert referrers[m..] == [];
  }

  lemma QueuedOneMore(before: seq<nat>, after: seq<nat>, all: seq<nat>, i: nat)
    requires Queued(before, all) && i < |before| && before[i] == 1 && after == before[i := 0]
    ensures Queued(after, all + [i])
  {
    assert i !in all;
  }

  /** Emitting the first cell of the queue. */
  lemma Emitted(refs: seq<seq<nat>>, rev: seq<seq<nat>>, degree: seq<nat>, order: seq<nat>, idx: nat)
    requires Degrees(refs, degree, order, []) && Reversed(refs, rev) && idx < |refs| && idx !in order
    ensures Degrees(refs, degree, order + [idx], rev[idx])
  {
    assert Elements(order + [idx]) == Elements(order) + {idx};
    forall i | 0 <= i < |refs|
      ensures degree[i] == Pending(refs[i], Elements(order + [idx])) + multiset(rev[idx])[i]
    {
      PendingWithout(refs[i], Elements(order), idx);
    }
  }

  lemma TopologicalOneMore(refs: seq<seq<nat>>, degree: seq<nat>, order: seq<nat>, idx: nat)
    requires Degrees(refs, degree, order, []) && Topological(refs, order) && idx < |refs| && degree[idx] == 0
    requires idx !in order
    ensures Topological(refs, order + [idx])
  {
    PendingZero(refs[idx], Elements(order));
    var more := order + [idx];
    forall p, v | 0 <= p < |more| && v in refs[more[p]]
      ensures v in more[..p]
    {
      assert p < |order| ==> more[..p] == order[..p];
      assert p == |order| ==> more[..p] == order;
    }
  }

  lemma NothingPending(refs: seq<seq<nat>>, degree: seq<nat>, order: seq<nat>)
    requires Degrees(refs, degree, order, []) && Queued(degree, order)
    ensures Exhausted(refs, order)
  {
    forall i | 0 <= i < |refs| && i !in order
      ensures exists v :: v in refs[i] && v !in order
    {
      PendingZero(refs[i], Elements(order));
    }
  }

  /** How often i has been listed for v when the first k references of idx have been gone through. */
  ghost function Listed(refs: seq<seq<nat>>, v: nat, i: nat, idx: nat, k: nat): nat
    requires i < |refs| && (i == idx ==> k <= |refs[i]|)
  {
    if i < idx then multiset(refs[i])[v] else if i == idx then multiset(refs[i][..k])[v] else 0
  }

  ghost predicate ListedSoFar(refs: seq<seq<nat>>, rev: seq<seq<nat>>, idx: nat, k: nat) {
    && |rev| == |refs| && (idx < |refs| ==> k <= |refs[idx]|)
    && (forall v, i :: 0 <= v < |rev| && 0 <= i < |refs| ==> multiset(rev[v])[i] == Listed(refs, v, i, idx, k))
    && (forall v, i :: 0 <= v < |rev| && i in rev[v] ==> i < |refs|)
  }

  lemma NextReference(refs: seq<seq<nat>>, rev: seq<seq<nat>>, idx: nat, k: nat)
    requires ListedSoFar(refs, rev, idx, k) && idx < |refs| && k < |refs[idx]| && refs[idx][k] < |rev|
    ensures ListedSoFar(refs, rev[refs[idx][k] := rev[refs[idx][k]] + [idx]], idx, k + 1)
  {
    assert refs[idx][..k + 1] == refs[idx][..k] + [refs[idx][k]];
  }

  lemma NextCell(refs: seq<seq<nat>>, rev: seq<seq<nat>>, idx: nat)
    requires idx < |refs| && ListedSoFar(refs, rev, idx, |refs[idx]|)
    ensures ListedSoFar(refs, rev, idx + 1, 0)
  {
    assert refs[idx][..|refs[idx]|] == refs[idx];
    forall v, i | 0 <= v < |rev| && 0 <= i < |refs|
      ensures multiset(rev[v])[i] == Listed(refs, v, i, idx + 1, 0)
    {
      if i == idx + 1 {
        assert refs[i][..0] == [];
        assert multiset(refs[i][..0])[v] == 0;
      }
      assert Listed(refs, v, i, idx, |refs[idx]|) == Listed(refs, v, i, idx + 1, 0);
    }
  }

  /** Builds the reversed graph and counts the references of each cell. */
  method ReverseGraph(refs: seq<seq<nat>>) returns (rev: array<seq<nat>>, degree: array<nat>)
    requires Graph(refs)
    ensures fresh(rev) && fresh(degree) && rev.Length == degree.Length == |refs|
    ensures Reversed(refs, rev[..]) && Degrees(refs, degree[..], [], [])
  {
    var n := |refs|;
    rev := new seq<nat>[n](i => []);
    degree := new nat[n](i => 0);
    var idx := 0;
    assert n > 0 ==> refs[0][..0] == [];
    while idx < n
      invariant 0 <= idx <= n && ListedSoFar(refs, rev[..], idx, 0)
      invariant forall i :: 0 <= i < n ==> degree[i] == if i < idx then |refs[i]| else 0
    {
      var k := 0;
      while k < |refs[idx]|
        invariant 0 <= k <= |refs[idx]| && ListedSoFar(refs, rev[..], idx, k)
        invariant forall i :: 0 <= i < n ==> degree[i] == if i < idx then |refs[i]| else if i == idx then k else 0
      {
        var v := refs[idx][k];
        assert v in refs[idx];
        NextReference(refs, rev[..], idx, k);
        ghost var before := rev[..];
        rev[v] := rev[v] + [idx];
        assert rev[..] == before[v := before[v] + [idx]];
        degree[idx] := degree[idx] + 1;
        k := k + 1;
      }
      NextCell(refs, rev[..], idx);
      idx := idx + 1;
    }
    forall i | 0 <= i < n
      ensures degree[i] == Pending(refs[i], Elements<nat>([]))
    {
      assert Elements<nat>([]) == {};
      PendingNothing(refs[i]);
    }
  }

  /** Kahn's algorithm with a queue. */
  method TopolOrder(refs: seq<seq<nat>>) returns (order: seq<nat>)
    requires Graph(refs)
    ensures Topological(refs, order) && Exhausted(refs, order)
    ensures |order| == |refs| <==> Acyclic(refs)
  {
    var n := |refs|;
    var rev, degree := ReverseGraph(refs);
    var queue := Roots(degree);
    order := [];
    assert order + queue == queue;
    while queue != []
      invariant degree.Length == n && Reversed(refs, rev[..]) && Topological(refs, order)
      invariant Degrees(refs, degree[..], order, []) && Queued(degree[..], order + queue)
      decreases n - |order|
    {
      var idx := queue[0];
      assert (order + queue)[|order|] == idx && idx in order + queue;
      OrderBound(refs, order, queue, degree[..]);
      Emitted(refs, rev[..], degree[..], order, idx);
      TopologicalOneMore(refs, degree[..], order, idx);
      assert order + queue == order + [idx] + queue[1..];
      order := order + [idx];
      queue := TellReferrers(refs, degree, order, queue[1..], rev[idx]);
    }
    assert order + queue == order;
    NothingPending(refs, degree[..], order);
    CompleteIffAcyclic(refs, order);
  }

  lemma OrderBound(refs: seq<seq<nat>>, order: seq<nat>, queue: seq<nat>, degree: seq<nat>)
    requires Queued(degree, order + queue) && |degree| == |refs| && queue != []
    ensures queue[0] !in order && |order| < |refs| && queue[0] < |refs| && degree[queue[0]] == 0
  {
    var all := order + queue;
    assert all[|order|] == queue[0] && queue[0] in all;
    assert forall p :: 0 <= p < |order| ==> all[p] == order[p];
    var s: seq<int> := all;
    Pigeonhole(s, 0, |refs|);
  }

  method Roots(degree: array<nat>) returns (queue: seq<nat>)
    ensures Queued(degree[..], queue)
  {
    queue := [];
    var idx := 0;
    while idx < degree.Length
      invariant 0 <= idx <= degree.Length
      invariant forall p :: 0 <= p < |queue| ==> queue[p] < idx
      invariant Distinct(queue)
      invariant forall i :: 0 <= i < idx ==> (i in queue <==> degree[i] == 0)
    {
      if degree[idx] == 0 {
        queue := queue + [idx];
      }
      idx := idx + 1;
    }
  }
}
