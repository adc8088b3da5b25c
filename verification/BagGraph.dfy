/** Cells as trees, bags of cells as numbered lists of them, and renumbering. */
module BagGraph {
  import opened Bytes
  import opened Permutations
  import opened BagTopology

  /** A cell with its contents and the cells it refers to. */
  datatype Cell = Cell(special: bool, level: nat, bits: seq<bit>, refs: seq<Cell>)

  /** A cell of a bag refers to others by number. */
  datatype CellInfo = CellInfo(special: bool, level: nat, bits: seq<bit>, refs: seq<nat>)

  function Refs(cells: seq<CellInfo>): (r: seq<seq<nat>>)
    ensures |r| == |cells| && forall i :: 0 <= i < |cells| ==> r[i] == cells[i].refs
  {
    seq(|cells|, i requires 0 <= i < |cells| => cells[i].refs)
  }

  /** The cell that number i stands for. */
  function Unfold(cells: seq<CellInfo>, rank: seq<nat>, i: nat): Cell
    requires Ranked(Refs(cells), rank) && i < |cells|
    decreases rank[i]
  {
    var c := cells[i];
    assert forall j :: 0 <= j < |c.refs| ==> c.refs[j] in Refs(cells)[i];
    Cell(c.special, c.level, c.bits,
         seq(|c.refs|, j requires 0 <= j < |c.refs| && c.refs[j] < |cells| && rank[c.refs[j]] < rank[i]
                       => Unfold(cells, rank, c.refs[j])))
  }

  function WithRefs(c: CellInfo, perm: seq<nat>): CellInfo
    requires IsPerm(perm) && forall v :: v in c.refs ==> v < |perm|
  {
    assert forall j :: 0 <= j < |c.refs| ==> c.refs[j] in c.refs;
    c.(refs := seq(|c.refs|, j requires 0 <= j < |c.refs| && c.refs[j] < |perm| => perm[c.refs[j]]))
  }

  /** out holds the same cells, the one numbered i at perm[i]. */
  ghost predicate Renumbered(cells: seq<CellInfo>, perm: seq<nat>, out: seq<CellInfo>) {
    && IsPerm(perm) && |perm| == |cells| == |out| && Graph(Refs(cells))
    && forall i :: 0 <= i < |cells| ==> Moved(cells, perm, out, i)
  }

  ghost predicate Moved(cells: seq<CellInfo>, perm: seq<nat>, out: seq<CellInfo>, i: nat)
    requires IsPerm(perm) && |perm| == |cells| == |out| && i < |cells|
  {
    && (forall v :: v in cells[i].refs ==> v < |perm|)
    && out[perm[i]] == WithRefs(cells[i], perm)
  }

  /** Renumbering does not change what the cells stand for. */
  lemma {:induction false} RenumberedUnfold(cells: seq<CellInfo>, rank: seq<nat>, perm: seq<nat>, out: seq<CellInfo>,
                                            rank1: seq<nat>, i: nat)
    requires Renumbered(cells, perm, out) && Ranked(Refs(cells), rank) && Ranked(Refs(out), rank1) && i < |cells|
    ensures Unfold(out, rank1, perm[i]) == Unfold(cells, rank, i)
    decreases rank[i]
  {
    assert Moved(cells, perm, out, i);
    var c, d := cells[i], out[perm[i]];
    var u, w := Unfold(cells, rank, i).refs, Unfold(out, rank1, perm[i]).refs;
    forall j | 0 <= j < |c.refs|
      ensures u[j] == w[j]
    {
      assert c.refs[j] in Refs(cells)[i];
      RenumberedUnfold(cells, rank, perm, out, rank1, c.refs[j]);
    }
    assert u == w;
  }

  lemma RenumberedRanked(cells: seq<CellInfo>, rank: seq<nat>, perm: seq<nat>, out: seq<CellInfo>)
    returns (rank1: seq<nat>)
    requires Renumbered(cells, perm, out) && Ranked(Refs(cells), rank)
    ensures Ranked(Refs(out), rank1)
  {
    rank1 := seq(|out|, k requires 0 <= k < |out| => rank[Origin(perm, k)]);
    var refs := Refs(out);
    forall k: nat, v: nat {:trigger v in refs[k]} | k < |refs| && v in refs[k]
      ensures v < |refs| && rank1[v] < rank1[k]
    {
      ReferenceDrops(cells, rank, perm, out, k, v);
    }
  }

  lemma ReferenceDrops(cells: seq<CellInfo>, rank: seq<nat>, perm: seq<nat>, out: seq<CellInfo>, k: nat, v: nat)
    requires Renumbered(cells, perm, out) && Ranked(Refs(cells), rank) && k < |out| && v in out[k].refs
    ensures v < |out| && rank[Origin(perm, v)] < rank[Origin(perm, k)]
  {
    var i := Origin(perm, k);
    assert Moved(cells, perm, out, i);
    var j :| 0 <= j < |out[k].refs| && out[k].refs[j] == v;
    var u := cells[i].refs[j];
    assert u in Refs(cells)[i] && v == perm[u] && Origin(perm, v) == u;
  }

  /** The number that perm sends to k. */
  function Origin(perm: seq<nat>, k: nat): (i: nat)
    requires IsPerm(perm) && k < |perm|
    ensures i < |perm| && perm[i] == k
  {
    PermContains(perm, k);
    var i :| 0 <= i < |perm| && perm[i] == k;
    i
  }

  /** Where each reference goes is all that renumbering needs to keep: the number of them stays. */
  lemma RenumberedKeepsSize(cells: seq<CellInfo>, perm: seq<nat>, out: seq<CellInfo>, k: nat)
    requires Renumbered(cells, perm, out) && k < |out|
    ensures
      var c := cells[Origin(perm, k)];
      out[k].special == c.special && out[k].level == c.level && out[k].bits == c.bits && |out[k].refs| == |c.refs|
    ensures forall v :: v in out[k].refs ==> v < |out|
  {
    var i := Origin(perm, k);
    assert Moved(cells, perm, out, i);
    forall v | v in out[k].refs
      ensures v < |out|
    {
      var j :| 0 <= j < |out[k].refs| && out[k].refs[j] == v;
      assert cells[i].refs[j] in cells[i].refs;
    }
  }

  /** Renumbers the cells and the root in place; without a gene they keep their numbers. */
  method Permute(list: array<CellInfo>, root: nat, gene: seq<nat>) returns (perm: seq<nat>, newRoot: nat)
    requires Graph(Refs(list[..])) && root < list.Length
    requires gene == [] || (IsPerm(gene) && |gene| == list.Length)
    modifies list
    ensures Renumbered(old(list[..]), perm, list[..]) && newRoot == perm[root]
    ensures perm == if gene == [] then seq(list.Length, i => i) else gene
  {
    var n := list.Length;
    ghost var cells := list[..];
    perm := seq(n, i => i);
    if gene != [] {
      perm := gene;
    }
    RedirectRefs(list, perm);
    SortByIndex(list, perm);
    forall i | 0 <= i < n
      ensures Moved(cells, perm, list[..], i)
    {
      assert Refs(cells)[i] == cells[i].refs;
    }
    newRoot := perm[root];
  }

  method RedirectRefs(list: array<CellInfo>, perm: seq<nat>)
    requires IsPerm(perm) && |perm| == list.Length && Graph(Refs(list[..]))
    modifies list
    ensures forall i :: 0 <= i < list.Length ==> (forall v :: v in old(list[i]).refs ==> v < |perm|)
                                                 && list[i] == WithRefs(old(list[i]), perm)
  {
    ghost var cells := list[..];
    assert forall i :: 0 <= i < |cells| ==> Refs(cells)[i] == cells[i].refs;
    var i := 0;
    while i < list.Length
      invariant 0 <= i <= list.Length
      invariant forall k :: 0 <= k < list.Length ==> forall v :: v in cells[k].refs ==> v < |perm|
      invariant forall k :: 0 <= k < i ==> list[k] == WithRefs(cells[k], perm)
      invariant forall k :: i <= k < list.Length ==> list[k] == cells[k]
    {
      var refs := list[i].refs;
      var j := 0;
      while j < |refs|
        invariant 0 <= j <= |refs| == |cells[i].refs|
        invariant forall k :: 0 <= k < j ==> cells[i].refs[k] < |perm| && refs[k] == perm[cells[i].refs[k]]
        invariant forall k :: j <= k < |refs| ==> refs[k] == cells[i].refs[k]
      {
        assert refs[j] in cells[i].refs;
        refs := refs[j := perm[refs[j]]];
        j := j + 1;
      }
      list[i] := list[i].(refs := refs);
      assert list[i] == WithRefs(cells[i], perm);
      i := i + 1;
    }
  }

  /** Sorting by the new numbers, which are 0..n-1, puts each cell at its own. */
  method SortByIndex(list: array<CellInfo>, perm: seq<nat>)
    requires IsPerm(perm) && |perm| == list.Length
    modifies list
    ensures forall i :: 0 <= i < list.Length ==> list[perm[i]] == old(list[i])
  {
    var cells := list[..];
    var i := 0;
    while i < list.Length
      invariant 0 <= i <= list.Length
      invariant forall k :: 0 <= k < i ==> list[perm[k]] == cells[k]
    {
      list[perm[i]] := cells[i];
      i := i + 1;
    }
  }

  // ---------------------------------------------------------------- rebuilding in order

  /** The cells built in the given order, each from those built before. */
  function Built(cells: seq<CellInfo>, order: seq<nat>): (b: seq<Cell>)
    requires Topological(Refs(cells), order)
    ensures |b| == |order|
  {
    if order == [] then []
    else
      var m := |order| - 1;
      TopologicalPrefix(Refs(cells), order, m);
      var b := Built(cells, order[..m]);
      b + [Assemble(cells[order[m]], order[..m], b)]
  }

  lemma TopologicalPrefix(refs: seq<seq<nat>>, order: seq<nat>, m: nat)
    requires Topological(refs, order) && m <= |order|
    ensures Topological(refs, order[..m])
    ensures m < |order| ==> forall v :: v in refs[order[m]] ==> v in order[..m]
  {
    forall p, v | 0 <= p < m && v in refs[order[..m][p]]
      ensures v in order[..m][..p]
    {
      assert order[..m][..p] == order[..p];
    }
  }

  function Assemble(c: CellInfo, order: seq<nat>, b: seq<Cell>): Cell
    requires |b| == |order| && forall v :: v in c.refs ==> v in order
  {
    Cell(c.special, c.level, c.bits,
         seq(|c.refs|, j requires 0 <= j < |c.refs| => assert c.refs[j] in c.refs; b[Place(order, c.refs[j])]))
  }

  /** Every cell that is built is the one its number stands for. */
  lemma {:induction false} BuiltIsUnfold(cells: seq<CellInfo>, rank: seq<nat>, order: seq<nat>, p: nat)
    requires Topological(Refs(cells), order) && Ranked(Refs(cells), rank) && p < |order|
    ensures Built(cells, order)[p] == Unfold(cells, rank, order[p])
    decreases |order|
  {
    var m := |order| - 1;
    TopologicalPrefix(Refs(cells), order, m);
    if p < m {
      BuiltIsUnfold(cells, rank, order[..m], p);
    } else {
      var c := cells[order[m]];
      var u, w := Unfold(cells, rank, order[m]).refs, Assemble(c, order[..m], Built(cells, order[..m])).refs;
      forall j | 0 <= j < |c.refs|
        ensures u[j] == w[j]
      {
        assert c.refs[j] in Refs(cells)[order[m]];
        BuiltIsUnfold(cells, rank, order[..m], Place(order[..m], c.refs[j]));
      }
      assert u == w;
    }
  }
}
