/** Bit shuffling of whole buffers: blocks of one size, a smaller last block, and a copied tail. */
module BitBlocks {
  import opened Sequences
  import opened Bytes
  import opened Results
  import opened BitShuffle

  const TARGET_BLOCK_BYTES := 8192
  const MIN_BLOCK := 128
  const BLOCK_MULT := 8
  const NOT_A_MULTIPLE := -81

  function DefaultBlockSize(elem: nat): (b: nat)
    requires elem >= 1
    ensures b % BLOCK_MULT == 0 && b >= MIN_BLOCK
    ensures b > MIN_BLOCK ==> b * elem <= TARGET_BLOCK_BYTES
    ensures (b + BLOCK_MULT) * elem > TARGET_BLOCK_BYTES
  {
    var b := TARGET_BLOCK_BYTES / elem / BLOCK_MULT * BLOCK_MULT;
    Rounded(TARGET_BLOCK_BYTES, elem, b);
    RowsApart(b + BLOCK_MULT, MIN_BLOCK + BLOCK_MULT, elem);
    if b > MIN_BLOCK then b else MIN_BLOCK
  }

  /** The greatest number of groups of eight whose elements fit. */
  lemma Rounded(target: nat, elem: nat, b: nat)
    requires elem >= 1 && b == target / elem / BLOCK_MULT * BLOCK_MULT
    ensures b * elem <= target < (b + BLOCK_MULT) * elem
  {
    var q, r := target / elem, target % elem;
    RowsApart(b, q, elem);
    RowsApart(q, b + BLOCK_MULT, elem);
    assert target == q * elem + r;
  }

  /** The block sizes, in elements, that a buffer is cut into; less than eight elements are left over. */
  function Sizes(size: nat, block: nat): (s: seq<nat>)
    requires block > 0
    ensures forall n :: n in s ==> block % BLOCK_MULT == 0 ==> n % BLOCK_MULT == 0
    decreases size
  {
    if size >= block then [block] + Sizes(size - block, block)
    else LastBlock(size)
  }

  /** The whole groups of eight of what is left behind the full blocks. */
  function LastBlock(rest: nat): (s: seq<nat>)
    ensures forall n :: n in s ==> n % BLOCK_MULT == 0
  {
    var last := rest - rest % BLOCK_MULT;
    if last > 0 then [last] else []
  }

  /** Block by block y is what x is shuffled to; behind the blocks they are the same. */
  ghost predicate Pieces(x: Buffer, y: Buffer, sizes: seq<nat>, elem: nat)
    decreases |sizes|
  {
    && |x| == |y|
    && if sizes == [] then x == y
       else
         var n := sizes[0] * elem;
         n <= |x| && Shuffled(x[..n], y[..n], sizes[0], elem) && Pieces(x[n..], y[n..], sizes[1..], elem)
  }

  /** Unshuffling block by block what has been shuffled block by block gives it back. */
  lemma {:induction false} PiecesInjective(x: Buffer, z: Buffer, y: Buffer, sizes: seq<nat>, elem: nat)
    requires Pieces(x, y, sizes, elem) && Pieces(z, y, sizes, elem)
    ensures x == z
    decreases |sizes|
  {
    if sizes != [] {
      var n := sizes[0] * elem;
      ShuffledInjective(x[..n], z[..n], y[..n], sizes[0], elem);
      PiecesInjective(x[n..], z[n..], y[n..], sizes[1..], elem);
      assert x == x[..n] + x[n..] && z == z[..n] + z[n..];
    }
  }

  /** One block in front of pieces. */
  lemma PiecesFront(a: Buffer, b: Buffer, x: Buffer, y: Buffer, size: nat, sizes: seq<nat>, elem: nat)
    requires |a| == |b| == size * elem && Shuffled(a, b, size, elem) && Pieces(x, y, sizes, elem)
    ensures Pieces(a + x, b + y, [size] + sizes, elem)
  {
    var n := |a|;
    assert (a + x)[..n] == a && (a + x)[n..] == x && (b + y)[..n] == b && (b + y)[n..] == y;
    assert ([size] + sizes)[1..] == sizes;
  }

  /** Pieces behind pieces that leave nothing over. */
  lemma {:induction false} PiecesBehind(a: Buffer, b: Buffer, s: seq<nat>, x: Buffer, y: Buffer, t: seq<nat>, elem: nat)
    requires Pieces(a, b, s, elem) && Pieces(x, y, t, elem) && |a| == Total(s) * elem
    ensures Pieces(a + x, b + y, s + t, elem)
    decreases |s|
  {
    if s == [] {
      assert a == [] && b == [] && a + x == x && b + y == y && s + t == t;
    } else {
      var n := s[0] * elem;
      TotalSplits(s, elem);
      PiecesBehind(a[n..], b[n..], s[1..], x, y, t, elem);
      PiecesFront(a[..n], b[..n], a[n..] + x, b[n..] + y, s[0], s[1..] + t, elem);
      assert a + x == a[..n] + (a[n..] + x) && b + y == b[..n] + (b[n..] + y) && s + t == [s[0]] + (s[1..] + t);
    }
  }

  function Total(s: seq<nat>): nat { if s == [] then 0 else s[0] + Total(s[1..]) }

  lemma TotalSplits(s: seq<nat>, elem: nat)
    requires s != []
    ensures Total(s) * elem == s[0] * elem + Total(s[1..]) * elem
  {
    Spread(s[0], Total(s[1..]), elem);
  }

  lemma Spread(a: nat, b: nat, c: nat)
    ensures (a + b) * c == a * c + b * c
  {
  }

  /** n blocks of the full size. */
  function Same(block: nat, n: nat): seq<nat> { if n == 0 then [] else [block] + Same(block, n - 1) }

  lemma {:induction false} SameTotal(block: nat, n: nat)
    ensures Total(Same(block, n)) == n * block
  {
    if n > 0 {
      SameTotal(block, n - 1);
      assert ([block] + Same(block, n - 1))[1..] == Same(block, n - 1);
    }
  }

  lemma {:induction false} TotalAppend(s: seq<nat>, n: nat)
    ensures Total(s + [n]) == Total(s) + n
  {
    if s != [] {
      assert (s + [n])[1..] == s[1..] + [n];
      TotalAppend(s[1..], n);
    }
  }

  lemma {:induction false} SameBack(block: nat, n: nat)
    ensures Same(block, n + 1) == Same(block, n) + [block]
  {
    if n > 0 {
      SameBack(block, n - 1);
    }
  }

  lemma {:induction false} SizesAre(size: nat, block: nat)
    requires block > 0
    ensures Sizes(size, block) == Same(block, size / block) + LastBlock(size % block)
    decreases size
  {
    if size >= block {
      SizesAre(size - block, block);
      OneBlockLess(size, block);
      Grouped([block], Same(block, size / block - 1), LastBlock(size % block));
    } else {
      RemainderIs(size, block, 0, size);
    }
  }

  lemma OneBlockLess(size: nat, block: nat)
    requires size >= block > 0
    ensures (size - block) / block == size / block - 1 && (size - block) % block == size % block && size / block >= 1
  {
    RowsApart(size / block, 1, block);
    assert (size / block - 1) * block == size / block * block - block;
    RemainderIs(size - block, block, size / block - 1, size % block);
  }

  /** A block in either direction. */
  method OneBlock(forward: bool, x: Buffer, size: nat, elem: nat) returns (y: Buffer)
    requires size % BLOCK_MULT == 0 && |x| == size * elem
    ensures if forward then Shuffled(x, y, size, elem) else Shuffled(y, x, size, elem)
  {
    if forward {
      y := TransBitElem(x, size, elem);
    } else {
      y := UntransBitElem(x, size, elem);
    }
  }

  /** The pieces in either direction. */
  ghost predicate Done(forward: bool, x: Buffer, y: Buffer, sizes: seq<nat>, elem: nat) {
    if forward then Pieces(x, y, sizes, elem) else Pieces(y, x, sizes, elem)
  }

  lemma DoneBehind(forward: bool, a: Buffer, b: Buffer, s: seq<nat>, x: Buffer, y: Buffer, size: nat, elem: nat)
    requires Done(forward, a, b, s, elem) && |a| == Total(s) * elem && |x| == |y| == size * elem
    requires if forward then Shuffled(x, y, size, elem) else Shuffled(y, x, size, elem)
    ensures Done(forward, a + x, b + y, s + [size], elem)
  {
    assert x + [] == x && y + [] == y && [size] + [] == [size];
    if forward {
      PiecesFront(x, y, [], [], size, [], elem);
      PiecesBehind(a, b, s, x, y, [size], elem);
    } else {
      PiecesFront(y, x, [], [], size, [], elem);
      PiecesBehind(b, a, s, y, x, [size], elem);
    }
  }

  /** All blocks of the full size. */
  method FullBlocks(forward: bool, x: Buffer, elem: nat, block: nat, n: nat) returns (y: Buffer)
    requires block % BLOCK_MULT == 0 && |x| == n * block * elem
    ensures Done(forward, x, y, Same(block, n), elem)
  {
    y := [];
    var ii := 0;
    while ii < n
      invariant 0 <= ii <= n && ii * block * elem <= |x|
      invariant Done(forward, x[..ii * block * elem], y, Same(block, ii), elem)
    {
      var p := ii * block * elem;
      NextBlock(ii, n, block, elem);
      SameTotal(block, ii);
      SameBack(block, ii);
      var piece := OneBlock(forward, x[p..p + block * elem], block, elem);
      DoneBehind(forward, x[..p], y, Same(block, ii), x[p..p + block * elem], piece, block, elem);
      assert x[..p] + x[p..p + block * elem] == x[..p + block * elem];
      y := y + piece;
      ii := ii + 1;
    }
    assert x[..n * block * elem] == x;
  }

  lemma NextBlock(ii: nat, n: nat, block: nat, elem: nat)
    requires ii < n
    ensures (ii + 1) * block * elem == ii * block * elem + block * elem <= n * block * elem
  {
    assert (ii + 1) * block == ii * block + block;
    RowsApart(ii + 1, n, block);
    RowsApart((ii + 1) * block, n * block, elem);
  }

  /** n full blocks, a block of last elements if there are any, and the rest as it is. */
  method Pieced(forward: bool, x: Buffer, size: nat, elem: nat, block: nat, n: nat, last: nat) returns (y: Buffer)
    requires |x| == size * elem && block % BLOCK_MULT == 0 && last % BLOCK_MULT == 0 && n * block + last <= size
    ensures Done(forward, x, y, Same(block, n) + if last > 0 then [last] else [], elem)
  {
    var p, q := n * block * elem, n * block * elem + last * elem;
    CutPlaces(size, elem, n * block, last);
    y := FullBlocks(forward, x[..p], elem, block, n);
    ghost var sizes := Same(block, n);
    SameTotal(block, n);
    if last > 0 {
      var piece := OneBlock(forward, x[p..q], last, elem);
      DoneBehind(forward, x[..p], y, sizes, x[p..q], piece, last, elem);
      assert x[..p] + x[p..q] == x[..q];
      TotalAppend(sizes, last);
      sizes := sizes + [last];
      y := y + piece;
    } else {
      assert sizes + [] == sizes;
    }
    TailCopied(forward, x, y, sizes, q, elem);
    y := y + x[q..];
  }

  lemma CutPlaces(size: nat, elem: nat, full: nat, last: nat)
    requires full + last <= size
    ensures full * elem <= full * elem + last * elem == (full + last) * elem <= size * elem
    ensures last == 0 ==> last * elem == 0
  {
    RowsApart(full + last, size, elem);
    Spread(full, last, elem);
  }

  lemma WholeGroups(rest: nat, last: nat)
    requires last == rest - rest % BLOCK_MULT
    ensures last <= rest && last % BLOCK_MULT == 0 && LastBlock(rest) == if last > 0 then [last] else []
  {
  }

  lemma Quotient(size: nat, block: nat, n: nat, rest: nat)
    requires block > 0 && n == size / block && rest == size % block
    ensures n * block + rest == size
  {
  }

  /** Blocks, last block and tail; a block size that is not a multiple of eight is an error. */
  method Blocked(forward: bool, x: Buffer, size: nat, elem: nat, blockSize: nat) returns (r: Result<Buffer, int>)
    requires elem >= 1 && |x| == size * elem
    ensures
      var block := if blockSize == 0 then DefaultBlockSize(elem) else blockSize;
      if block % BLOCK_MULT != 0 then r == Err(NOT_A_MULTIPLE)
      else r.Ok? && Done(forward, x, r.value, Sizes(size, block), elem)
  {
    var block := blockSize;
    if block == 0 {
      block := DefaultBlockSize(elem);
    }
    if block % BLOCK_MULT != 0 {
      return Err(NOT_A_MULTIPLE);
    }
    var n, rest := size / block, size % block;
    var last := rest - rest % BLOCK_MULT;
    SizesAre(size, block);
    Quotient(size, block, n, rest);
    WholeGroups(rest, last);
    var y := Pieced(forward, x, size, elem, block, n, last);
    r := Ok(y);
  }

  lemma TailCopied(forward: bool, x: Buffer, y: Buffer, sizes: seq<nat>, q: nat, elem: nat)
    requires q <= |x| && Done(forward, x[..q], y, sizes, elem) && q == Total(sizes) * elem
    ensures Done(forward, x, y + x[q..], sizes, elem)
  {
    var tail := x[q..];
    assert x == x[..q] + tail && sizes + [] == sizes;
    if forward {
      PiecesBehind(x[..q], y, sizes, tail, tail, [], elem);
    } else {
      PiecesBehind(y, x[..q], sizes, tail, tail, [], elem);
    }
  }

  /** Unshuffling undoes shuffling for every size, whatever block size that is a multiple of eight is used. */
  method ThereAndBack(x: Buffer, size: nat, elem: nat, blockSize: nat) returns (y: Buffer, z: Buffer)
    requires elem >= 1 && |x| == size * elem && blockSize % BLOCK_MULT == 0
    ensures |y| == |x| && z == x
  {
    var a := Blocked(true, x, size, elem, blockSize);
    y := a.value;
    var b := Blocked(false, y, size, elem, blockSize);
    z := b.value;
    PiecesInjective(x, z, y, Sizes(size, if blockSize == 0 then DefaultBlockSize(elem) else blockSize), elem);
  }
}
