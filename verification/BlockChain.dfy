/** The blocks of a buffer shuffled by threads that share a chain of slots: always what one thread puts out. */
module BlockChain {
  import opened BitBlocks
  import opened BitFast
  import opened BitShuffle
  import opened IoChain

  /** Given the place of block i, w takes the block and puts out what it is shuffled, or unshuffled, to. */
  ghost predicate DoesBlock(w: Work, forward: bool, x: Buffer, i: nat, block: nat, elem: nat) {
    var p, b := i * block * elem, block * elem;
    && p + b <= |x| && w(p).0 == b
    && if forward then Shuffled(x[p..p + b], w(p).1, block, elem) else Shuffled(w(p).1, x[p..p + b], block, elem)
  }

  ghost predicate DoesBlocks(w: Work, forward: bool, x: Buffer, n: nat, block: nat, elem: nat) {
    forall i :: 0 <= i < n ==> DoesBlock(w, forward, x, i, block, elem)
  }

  /** One block more behind what has been put out. */
  lemma OneBlockMore(w: Work, forward: bool, x: Buffer, done: Buffer, m: nat, p: nat, block: nat, elem: nat)
    requires p == m * block * elem && DoesBlock(w, forward, x, m, block, elem)
    requires Done(forward, x[..p], done, Same(block, m), elem)
    ensures Done(forward, x[..p + block * elem], done + w(p).1, Same(block, m + 1), elem)
  {
    var q := p + block * elem;
    SameTotal(block, m);
    SameBack(block, m);
    DoneBehind(forward, x[..p], done, Same(block, m), x[p..q], w(p).1, block, elem);
    assert x[..p] + x[p..q] == x[..q];
  }

  /** One block after the other. */
  lemma {:induction false} SequentialBlocks(w: Work, forward: bool, x: Buffer, n: nat, block: nat, elem: nat)
    requires DoesBlocks(w, forward, x, n, block, elem) && n * block * elem <= |x|
    ensures InAt(w, n) == OutAt(w, n) == |Sequential(w, n)| == n * block * elem
    ensures Done(forward, x[..n * block * elem], Sequential(w, n), Same(block, n), elem)
  {
    if n == 0 {
      assert x[..0] == [];
    } else {
      var m := n - 1;
      NextBlock(m, n, block, elem);
      SequentialBlocks(w, forward, x, m, block, elem);
      assert DoesBlock(w, forward, x, m, block, elem);
      OneBlockMore(w, forward, x, Sequential(w, m), m, m * block * elem, block, elem);
    }
  }

  /** What a buffer is shuffled to is determined block by block. */
  lemma {:induction false} PiecesDetermined(x: Buffer, a: Buffer, b: Buffer, sizes: seq<nat>, elem: nat)
    requires Pieces(x, a, sizes, elem) && Pieces(x, b, sizes, elem)
    ensures a == b
    decreases |sizes|
  {
    if sizes != [] {
      var n := sizes[0] * elem;
      ShuffledDetermined(x[..n], a[..n], b[..n], sizes[0], elem);
      PiecesDetermined(x[n..], a[n..], b[n..], sizes[1..], elem);
      assert a == a[..n] + a[n..] && b == b[..n] + b[n..];
    }
  }

  lemma DoneDetermined(forward: bool, x: Buffer, a: Buffer, b: Buffer, sizes: seq<nat>, elem: nat)
    requires Done(forward, x, a, sizes, elem) && Done(forward, x, b, sizes, elem)
    ensures a == b
  {
    if forward {
      PiecesDetermined(x, a, b, sizes, elem);
    } else {
      PiecesInjective(a, b, x, sizes, elem);
    }
  }

  lemma DoneTogether(forward: bool, a: Buffer, b: Buffer, s: seq<nat>, x: Buffer, y: Buffer, t: seq<nat>, elem: nat)
    requires Done(forward, a, b, s, elem) && |a| == Total(s) * elem && Done(forward, x, y, t, elem) && |a| == |b|
    ensures Done(forward, a + x, b + y, s + t, elem)
  {
    if forward {
      PiecesBehind(a, b, s, x, y, t, elem);
    } else {
      PiecesBehind(b, a, s, y, x, t, elem);
    }
  }

  /** Two parts done are what the whole is done to. */
  lemma DoneInParts(forward: bool, x: Buffer, y: Buffer, head: Buffer, a: Buffer, s: seq<nat>, tail: Buffer, z: Buffer,
                    t: seq<nat>, sizes: seq<nat>, elem: nat)
    requires x == head + tail && sizes == s + t && |head| == |a| == Total(s) * elem
    requires Done(forward, head, a, s, elem) && Done(forward, tail, z, t, elem) && Done(forward, x, y, sizes, elem)
    ensures a + z == y
  {
    DoneTogether(forward, head, a, s, tail, z, t, elem);
    DoneDetermined(forward, x, y, a + z, sizes, elem);
  }

  /** n full blocks one after the other, and z behind them. */
  lemma SequentialIsBlocked(w: Work, forward: bool, x: Buffer, y: Buffer, z: Buffer, n: nat, rest: seq<nat>,
                            sizes: seq<nat>,
                            block: nat, elem: nat, p: nat)
    requires DoesBlocks(w, forward, x, n, block, elem) && p == n * block * elem <= |x| && sizes == Same(block, n) + rest
    requires Done(forward, x, y, sizes, elem) && Done(forward, x[p..], z, rest, elem)
    ensures OutAt(w, n) == p && Sequential(w, n) + z == y
  {
    SequentialBlocks(w, forward, x, n, block, elem);
    SameTotal(block, n);
    assert x == x[..p] + x[p..];
    DoneInParts(forward, x, y, x[..p], Sequential(w, n), Same(block, n), x[p..], z, rest, sizes, elem);
  }

  /**
   The parallel loop over the full blocks, followed by the last block and the tail: however the threads are
   interleaved, once nothing can go on the buffer is what the loop of one thread puts out.
   */
  lemma EveryRunIsBlocked(s: State, w: Work, forward: bool, x: Buffer, y: Buffer, z: Buffer, size: nat, block: nat,
                          elem: nat,
                          p: nat, schedule: seq<nat>)
    requires block > 0 && DoesBlocks(w, forward, x, size / block, block, elem)
    requires p == size / block * block * elem <= |x|
    requires Done(forward, x, y, Sizes(size, block), elem) && Done(forward, x[p..], z, LastBlock(size % block), elem)
    requires Init(s, w, size / block) && s.threads != [] && CanRun(s, w, schedule)
    ensures Shape(RunOf(s, w, schedule))
    ensures var e := RunOf(s, w, schedule); !CanStep(e) ==> p <= |e.out| && e.out[..p] + z == y
  {
    EveryRunIsSequential(s, w, size / block, schedule);
    SizesAre(size, block);
    SequentialIsBlocked(w, forward, x, y, z, size / block, LastBlock(size % block), Sizes(size, block), block, elem, p);
  }

  // ---------------------------------------------------------------- there is such work for every buffer

  lemma FirstPiece(x: Buffer, y: Buffer, block: nat, n: nat, t: seq<nat>, elem: nat, b: nat)
    requires Pieces(x, y, Same(block, n) + t, elem) && n > 0 && b == block * elem
    ensures |x| == |y| && b <= |x| && Shuffled(x[..b], y[..b], block, elem)
    ensures Pieces(x[b..], y[b..], Same(block, n - 1) + t, elem)
  {
    var sizes := Same(block, n) + t;
    assert sizes[0] == block && sizes[1..] == Same(block, n - 1) + t;
  }

  lemma SliceBehind(x: Buffer, b: nat, p: nat)
    requires b <= p && p + b <= |x|
    ensures x[b..][p - b..p] == x[p..p + b]
  {
  }

  /** Where block i begins when each has b bytes. */
  function Start(i: nat, b: nat): nat { if i == 0 then 0 else b + Start(i - 1, b) }

  lemma {:induction false} StartIs(i: nat, block: nat, elem: nat)
    ensures Start(i, block * elem) == i * block * elem
  {
    if i > 0 {
      StartIs(i - 1, block, elem);
      Spread((i - 1) * block, block, elem);
      assert i * block == (i - 1) * block + block;
    }
  }

  lemma {:induction false} PieceAt(x: Buffer, y: Buffer, block: nat, n: nat, t: seq<nat>, elem: nat, i: nat, p: nat,
                                   b: nat)
    requires Pieces(x, y, Same(block, n) + t, elem) && i < n && p == Start(i, b) && b == block * elem
    ensures |x| == |y| && p + b <= |x| && Shuffled(x[p..p + b], y[p..p + b], block, elem)
    decreases n
  {
    FirstPiece(x, y, block, n, t, elem, b);
    if i > 0 {
      PieceAt(x[b..], y[b..], block, n - 1, t, elem, i - 1, p - b, b);
      SliceBehind(x, b, p);
      SliceBehind(y, b, p);
    }
  }

  lemma DoneAt(forward: bool, x: Buffer, y: Buffer, size: nat, block: nat, elem: nat, i: nat, p: nat, b: nat)
    requires block > 0 && Done(forward, x, y, Sizes(size, block), elem)
    requires i < size / block && p == Start(i, b) && b == block * elem
    ensures |x| == |y| && p + b <= |x|
    ensures if forward then Shuffled(x[p..p + b], y[p..p + b], block, elem) else Shuffled(y[p..p + b], x[p..p + b], block, elem)
  {
    SizesAre(size, block);
    if forward {
      PieceAt(x, y, block, size / block, LastBlock(size % block), elem, i, p, b);
    } else {
      PieceAt(y, x, block, size / block, LastBlock(size % block), elem, i, p, b);
    }
  }

  /** Work cut out of what the loop of one thread puts out. */
  function CutWork(y: Buffer, b: nat): Work { (p: nat) => (b, if p + b <= |y| then y[p..p + b] else []) }

  lemma CutDoesBlock(forward: bool, x: Buffer, y: Buffer, size: nat, block: nat, elem: nat, i: nat, p: nat, b: nat)
    requires block > 0 && Done(forward, x, y, Sizes(size, block), elem)
    requires i < size / block && p == i * block * elem && b == block * elem
    ensures DoesBlock(CutWork(y, b), forward, x, i, block, elem)
  {
    StartIs(i, block, elem);
    DoneAt(forward, x, y, size, block, elem, i, p, b);
    assert CutWork(y, b)(p) == (b, y[p..p + b]);
  }

  lemma CutDoesBlocks(forward: bool, x: Buffer, y: Buffer, size: nat, block: nat, elem: nat)
    requires block > 0 && Done(forward, x, y, Sizes(size, block), elem)
    ensures DoesBlocks(CutWork(y, block * elem), forward, x, size / block, block, elem)
  {
    forall i | 0 <= i < size / block
      ensures DoesBlock(CutWork(y, block * elem), forward, x, i, block, elem)
    {
      CutDoesBlock(forward, x, y, size, block, elem, i, i * block * elem, block * elem);
    }
  }
}
