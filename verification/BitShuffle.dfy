/** Bit shuffling: where every bit goes, the loops that move it, and blocks with a copied tail. */
module BitShuffle {
  import opened Bytes
  import opened BitTranspose

  type Buffer = seq<Octet>

  // ---------------------------------------------------------------- rows and columns in one buffer

  function At(row: nat, col: nat, width: nat): nat { row * width + col }

  lemma AtRange(row: nat, col: nat, rows: nat, width: nat)
    requires row < rows && col < width
    ensures At(row, col, width) < rows * width
  {
    assert (rows - 1 - row) * width >= 0;
  }

  lemma RowsApart(r: nat, r2: nat, width: nat)
    ensures r <= r2 ==> r * width <= r2 * width
    ensures r < r2 ==> r * width + width <= r2 * width
  {
    if r < r2 {
      NextMultiple(r, r2, width);
    }
  }

  lemma AtInjective(r: nat, c: nat, r2: nat, c2: nat, width: nat)
    requires c < width && c2 < width && At(r, c, width) == At(r2, c2, width)
    ensures r == r2 && c == c2
  {
    RowsApart(r, r2, width);
    RowsApart(r2, r, width);
  }

  /** Every place of the buffer is in some row and column. */
  lemma PlaceOf(p: nat, rows: nat, width: nat) returns (r: nat, c: nat)
    requires p < rows * width
    ensures r < rows && c < width && p == At(r, c, width)
  {
    NoWidth(rows, width);
    r, c := p / width, p % width;
    RowsApart(rows, r, width);
  }

  lemma NoWidth(rows: nat, width: nat)
    ensures width == 0 ==> rows * width == 0
  {
  }

  /** Rows of rows. */
  lemma AtNested(a: nat, b: nat, c: nat, n: nat, w: nat)
    ensures At(At(a, b, n), c, w) == At(a, At(b, c, w), n * w)
  {
    assert (a * n + b) * w == a * (n * w) + b * w;
  }

  // ---------------------------------------------------------------- the three steps

  /** Bytes of elements become rows of bytes. */
  ghost predicate ByteRows(x: Buffer, y: Buffer, size: nat, elem: nat) {
    && |x| == |y| == size * elem
    && forall i, j :: 0 <= i < size && 0 <= j < elem ==> ByteMoved(x, y, size, elem, i, j)
  }

  ghost predicate ByteMoved(x: Buffer, y: Buffer, size: nat, elem: nat, i: nat, j: nat)
    requires |x| == |y| == size * elem && i < size && j < elem
  {
    AtRange(i, j, size, elem);
    AtRange(j, i, elem, size);
    assert elem * size == size * elem;
    y[At(j, i, size)] == x[At(i, j, elem)]
  }

  /** What has been moved before stays. */
  ghost predicate NoneUndone(x: Buffer, before: Buffer, after: Buffer, size: nat, elem: nat)
    requires |x| == |before| == |after| == size * elem
  {
    forall i, j :: 0 <= i < size && 0 <= j < elem && ByteMoved(x, before, size, elem, i, j)
                   ==> ByteMoved(x, after, size, elem, i, j)
  }

  method TransByteElem(x: Buffer, size: nat, elem: nat) returns (y: array<Octet>)
    requires |x| == size * elem
    ensures fresh(y) && ByteRows(x, y[..], size, elem)
  {
    y := new Octet[size * elem];
    TransByteElemRemainder(x, y, size, elem, 0);
  }

  /** Elements from start on are moved; those moved before stay. */
  method TransByteElemRemainder(x: Buffer, y: array<Octet>, size: nat, elem: nat, start: nat)
    requires |x| == y.Length == size * elem && start % 8 == 0 && start <= size
    modifies y
    ensures forall i, j :: start <= i < size && 0 <= j < elem ==> ByteMoved(x, y[..], size, elem, i, j)
    ensures NoneUndone(x, old(y[..]), y[..], size, elem)
  {
    var ii := start;
    while ii + 7 < size
      invariant ii % 8 == 0 && start <= ii <= size
      invariant forall i, j :: start <= i < ii && 0 <= j < elem ==> ByteMoved(x, y[..], size, elem, i, j)
      invariant NoneUndone(x, old(y[..]), y[..], size, elem)
    {
      MoveEightElements(x, y, size, elem, ii);
      ii := ii + 8;
    }
    ghost var eights := y[..];
    MoveRest(x, y, size, elem, size - size % 8);
    assert forall i, j :: start <= i < ii && 0 <= j < elem ==> ByteMoved(x, eights, size, elem, i, j);
  }

  /** The last elements, fewer than eight. */
  method MoveRest(x: Buffer, y: array<Octet>, size: nat, elem: nat, from: nat)
    requires |x| == y.Length == size * elem && from <= size
    modifies y
    ensures forall i, j :: from <= i < size && 0 <= j < elem ==> ByteMoved(x, y[..], size, elem, i, j)
    ensures NoneUndone(x, old(y[..]), y[..], size, elem)
  {
    var ii := from;
    while ii < size
      invariant from <= ii <= size
      invariant forall i, j :: from <= i < ii && 0 <= j < elem ==> ByteMoved(x, y[..], size, elem, i, j)
      invariant NoneUndone(x, old(y[..]), y[..], size, elem)
    {
      MoveElement(x, y, size, elem, ii);
      ii := ii + 1;
    }
  }

  method MoveEightElements(x: Buffer, y: array<Octet>, size: nat, elem: nat, ii: nat)
    requires |x| == y.Length == size * elem && ii + 7 < size
    modifies y
    ensures forall i, j :: ii <= i < ii + 8 && 0 <= j < elem ==> ByteMoved(x, y[..], size, elem, i, j)
    ensures NoneUndone(x, old(y[..]), y[..], size, elem)
  {
    var jj := 0;
    while jj < elem
      invariant 0 <= jj <= elem
      invariant forall i, j :: ii <= i < ii + 8 && 0 <= j < jj ==> ByteMoved(x, y[..], size, elem, i, j)
      invariant NoneUndone(x, old(y[..]), y[..], size, elem)
    {
      var kk := 0;
      while kk < 8
        invariant 0 <= kk <= 8
        invariant forall i, j :: ii <= i < ii + 8 && 0 <= j < jj ==> ByteMoved(x, y[..], size, elem, i, j)
        invariant forall i :: ii <= i < ii + kk ==> ByteMoved(x, y[..], size, elem, i, jj)
        invariant NoneUndone(x, old(y[..]), y[..], size, elem)
      {
        MoveByte(x, y, size, elem, ii + kk, jj);
        kk := kk + 1;
      }
      jj := jj + 1;
    }
  }

  method MoveElement(x: Buffer, y: array<Octet>, size: nat, elem: nat, ii: nat)
    requires |x| == y.Length == size * elem && ii < size
    modifies y
    ensures forall j :: 0 <= j < elem ==> ByteMoved(x, y[..], size, elem, ii, j)
    ensures NoneUndone(x, old(y[..]), y[..], size, elem)
  {
    var jj := 0;
    while jj < elem
      invariant 0 <= jj <= elem
      invariant forall j :: 0 <= j < jj ==> ByteMoved(x, y[..], size, elem, ii, j)
      invariant NoneUndone(x, old(y[..]), y[..], size, elem)
    {
      MoveByte(x, y, size, elem, ii, jj);
      jj := jj + 1;
    }
  }

  /** One assignment; all that has been moved before stays. */
  method MoveByte(x: Buffer, y: array<Octet>, size: nat, elem: nat, i: nat, j: nat)
    requires |x| == y.Length == size * elem && i < size && j < elem
    modifies y
    ensures ByteMoved(x, y[..], size, elem, i, j) && NoneUndone(x, old(y[..]), y[..], size, elem)
  {
    AtRange(i, j, size, elem);
    AtRange(j, i, elem, size);
    assert elem * size == size * elem;
    y[j * size + i] := x[i * elem + j];
    BytePut(x, old(y[..]), y[..], size, elem, i, j);
  }

  lemma BytePut(x: Buffer, before: Buffer, after: Buffer, size: nat, elem: nat, i: nat, j: nat)
    requires |x| == |before| == |after| == size * elem && i < size && j < elem
    requires At(j, i, size) < |x| && At(i, j, elem) < |x| && after == before[At(j, i, size) := x[At(i, j, elem)]]
    ensures ByteMoved(x, after, size, elem, i, j) && NoneUndone(x, before, after, size, elem)
  {
    forall i2, j2 | 0 <= i2 < size && 0 <= j2 < elem && ByteMoved(x, before, size, elem, i2, j2)
      ensures ByteMoved(x, after, size, elem, i2, j2)
    {
      AtRange(j2, i2, elem, size);
      if At(j2, i2, size) == At(j, i, size) {
        AtInjective(j2, i2, j, i, size);
      }
    }
  }

  /** Bit k of byte 8q + b becomes bit b of byte q in row k. */
  ghost predicate BitRows(y: Buffer, z: Buffer, n: nat) {
    && |y| == |z| == 8 * n
    && forall q :: 0 <= q < n ==> GroupTurned(y, z, n, q)
  }

  ghost predicate GroupTurned(y: Buffer, z: Buffer, n: nat, q: nat)
    requires |y| == |z| == 8 * n && q < n
  {
    forall k, b :: 0 <= k < 8 && 0 <= b < 8 ==> BitMoved(y, z, n, q, k, b)
  }

  ghost predicate BitMoved(y: Buffer, z: Buffer, n: nat, q: nat, k: nat, b: nat)
    requires |y| == |z| == 8 * n && q < n && k < 8 && b < 8
  {
    AtRange(k, q, 8, n);
    Bit(z[At(k, q, n)], b) == Bit(y[8 * q + b], k)
  }

  /** What has been turned before stays. */
  ghost predicate NoneUnturned(y: Buffer, before: Buffer, after: Buffer, n: nat)
    requires |y| == |before| == |after| == 8 * n
  {
    forall q :: 0 <= q < n && GroupTurned(y, before, n, q) ==> GroupTurned(y, after, n, q)
  }

  method TransBitByte(y: Buffer, n: nat) returns (z: array<Octet>)
    requires |y| == 8 * n
    ensures fresh(z) && BitRows(y, z[..], n)
  {
    z := new Octet[8 * n];
    TransBitByteRemainder(y, z, n, 0);
  }

  /** Groups of eight bytes from start on are turned; those turned before stay. */
  method TransBitByteRemainder(y: Buffer, z: array<Octet>, n: nat, start: nat)
    requires |y| == z.Length == 8 * n && start <= n
    modifies z
    ensures forall q :: start <= q < n ==> GroupTurned(y, z[..], n, q)
    ensures NoneUnturned(y, old(z[..]), z[..], n)
  {
    var ii := start;
    while ii < n
      invariant start <= ii <= n
      invariant forall q :: start <= q < ii ==> GroupTurned(y, z[..], n, q)
      invariant NoneUnturned(y, old(z[..]), z[..], n)
    {
      TurnGroup(y, z, n, ii);
      ii := ii + 1;
    }
  }

  method TurnGroup(y: Buffer, z: array<Octet>, n: nat, i: nat)
    requires |y| == z.Length == 8 * n && i < n
    modifies z
    ensures GroupTurned(y, z[..], n, i) && NoneUnturned(y, old(z[..]), z[..], n)
  {
    var x := Trans8x8(WordOf(y[8 * i..8 * i + 8]));
    PutBytes(z, n, i, x);
    GroupPut(y, z[..], n, i, x);
    forall q | 0 <= q < n && q != i && GroupTurned(y, old(z[..]), n, q)
      ensures GroupTurned(y, z[..], n, q)
    {
      GroupStays(y, old(z[..]), z[..], n, q);
    }
  }

  lemma GroupStays(y: Buffer, before: Buffer, after: Buffer, n: nat, q: nat)
    requires |y| == |before| == |after| == 8 * n && q < n && GroupTurned(y, before, n, q)
    requires forall p :: 0 <= p < 8 * n && p % n == q ==> after[p] == before[p]
    ensures GroupTurned(y, after, n, q)
  {
    forall k, b | 0 <= k < 8 && 0 <= b < 8
      ensures BitMoved(y, after, n, q, k, b)
    {
      assert BitMoved(y, before, n, q, k, b);
      AtRange(k, q, 8, n);
      ColumnOf(k, q, n);
    }
  }

  lemma ColumnOf(k: nat, q: nat, n: nat)
    requires q < n
    ensures At(k, q, n) % n == q
  {
    var p := At(k, q, n);
    AtInjective(k, q, p / n, p % n, n);
  }

  /** Byte k of the word goes to row k. */
  method PutBytes(z: array<Octet>, n: nat, q: nat, x: Word)
    requires z.Length == 8 * n && q < n
    modifies z
    ensures forall k :: 0 <= k < 8 ==> At(k, q, n) < 8 * n && z[At(k, q, n)] == ByteOf(x, k)
    ensures forall p :: 0 <= p < 8 * n && p % n != q ==> z[p] == old(z[p])
  {
    var kk := 0;
    while kk < 8
      invariant 0 <= kk <= 8
      invariant forall k :: 0 <= k < kk ==> At(k, q, n) < 8 * n && z[At(k, q, n)] == ByteOf(x, k)
      invariant forall p :: 0 <= p < 8 * n && p % n != q ==> z[p] == old(z[p])
    {
      AtRange(kk, q, 8, n);
      ColumnOf(kk, q, n);
      forall k | 0 <= k < kk
        ensures At(k, q, n) != At(kk, q, n)
      {
        if At(k, q, n) == At(kk, q, n) {
          AtInjective(k, q, kk, q, n);
        }
      }
      z[kk * n + q] := ByteOf(x, kk);
      kk := kk + 1;
    }
  }

  lemma GroupPut(y: Buffer, z: Buffer, n: nat, q: nat, x: Word)
    requires |y| == |z| == 8 * n && q < n && x == Trans8x8(WordOf(y[8 * q..8 * q + 8]))
    requires forall k :: 0 <= k < 8 ==> At(k, q, n) < 8 * n && z[At(k, q, n)] == ByteOf(x, k)
    ensures GroupTurned(y, z, n, q)
  {
    var s := y[8 * q..8 * q + 8];
    WordBytes(s);
    forall k, b | 0 <= k < 8 && 0 <= b < 8
      ensures BitMoved(y, z, n, q, k, b)
    {
      TurnsBits(WordOf(s), k, b);
      assert ByteOf(WordOf(s), b) == s[b] == y[8 * q + b];
    }
  }

  /** Chunks of w bytes that lie in lda rows of ldb become ldb rows of lda. */
  ghost predicate ChunksTransposed(x: Buffer, y: Buffer, lda: nat, ldb: nat, w: nat) {
    && |x| == |y| == lda * ldb * w
    && forall a, b :: 0 <= a < lda && 0 <= b < ldb ==> ChunkMoved(x, y, lda, ldb, w, a, b)
  }

  ghost predicate ChunkMoved(x: Buffer, y: Buffer, lda: nat, ldb: nat, w: nat, a: nat, b: nat)
    requires |x| == |y| == lda * ldb * w && a < lda && b < ldb
  {
    ChunkRange(a, b, lda, ldb, w);
    var p, q := At(a, b, ldb) * w, At(b, a, lda) * w;
    y[q..q + w] == x[p..p + w]
  }

  lemma ChunkRange(a: nat, b: nat, lda: nat, ldb: nat, w: nat)
    requires a < lda && b < ldb
    ensures At(a, b, ldb) * w + w <= lda * ldb * w && At(b, a, lda) * w + w <= lda * ldb * w
  {
    AtRange(a, b, lda, ldb);
    AtRange(b, a, ldb, lda);
    assert lda * ldb == ldb * lda;
    RowsApart(At(a, b, ldb), lda * ldb, w);
    RowsApart(At(b, a, lda), lda * ldb, w);
  }

  /** A chunk keeps away from the others. */
  lemma ChunksApart(a: nat, b: nat, a2: nat, b2: nat, lda: nat, w: nat)
    requires a < lda && a2 < lda && (a != a2 || b != b2)
    ensures
      var q, q2 := At(b, a, lda) * w, At(b2, a2, lda) * w;
      q + w <= q2 || q2 + w <= q
  {
    if At(b, a, lda) == At(b2, a2, lda) {
      AtInjective(b, a, b2, a2, lda);
    }
    RowsApart(At(b, a, lda), At(b2, a2, lda), w);
    RowsApart(At(b2, a2, lda), At(b, a, lda), w);
  }

  method TransElem(x: Buffer, lda: nat, ldb: nat, w: nat) returns (y: array<Octet>)
    requires |x| == lda * ldb * w
    ensures fresh(y) && ChunksTransposed(x, y[..], lda, ldb, w)
  {
    y := new Octet[lda * ldb * w];
    var ii := 0;
    while ii < lda
      invariant 0 <= ii <= lda && y.Length == |x|
      invariant forall a, b :: 0 <= a < ii && 0 <= b < ldb ==> ChunkMoved(x, y[..], lda, ldb, w, a, b)
    {
      var jj := 0;
      while jj < ldb
        invariant 0 <= jj <= ldb && y.Length == |x|
        invariant forall a, b :: 0 <= a < ii && 0 <= b < ldb ==> ChunkMoved(x, y[..], lda, ldb, w, a, b)
        invariant forall b :: 0 <= b < jj ==> ChunkMoved(x, y[..], lda, ldb, w, ii, b)
      {
        MoveChunk(x, y, lda, ldb, w, ii, jj);
        jj := jj + 1;
      }
      ii := ii + 1;
    }
  }

  method MoveChunk(x: Buffer, y: array<Octet>, lda: nat, ldb: nat, w: nat, a: nat, b: nat)
    requires |x| == y.Length == lda * ldb * w && a < lda && b < ldb
    modifies y
    ensures ChunkMoved(x, y[..], lda, ldb, w, a, b)
    ensures forall a2, b2 :: 0 <= a2 < lda && 0 <= b2 < ldb && ChunkMoved(x, old(y[..]), lda, ldb, w, a2, b2)
              ==> ChunkMoved(x, y[..], lda, ldb, w, a2, b2)
  {
    ChunkRange(a, b, lda, ldb, w);
    ghost var before := y[..];
    CopyBytes(x, At(a, b, ldb) * w, y, At(b, a, lda) * w, w);
    forall a2, b2 | 0 <= a2 < lda && 0 <= b2 < ldb && ChunkMoved(x, before, lda, ldb, w, a2, b2)
      ensures ChunkMoved(x, y[..], lda, ldb, w, a2, b2)
    {
      if a2 != a || b2 != b {
        ChunkStays(x, before, y[..], lda, ldb, w, a, b, a2, b2, At(b, a, lda) * w);
      }
    }
  }

  lemma ChunkStays(x: Buffer, before: Buffer, after: Buffer, lda: nat, ldb: nat, w: nat, a: nat, b: nat, a2: nat,
                   b2: nat,
                   q: nat)
    requires |x| == |before| == |after| == lda * ldb * w && a < lda && b < ldb && a2 < lda && b2 < ldb
    requires (a2 != a || b2 != b) && ChunkMoved(x, before, lda, ldb, w, a2, b2)
    requires q == At(b, a, lda) * w && forall k :: 0 <= k < |after| && !(q <= k < q + w) ==> after[k] == before[k]
    ensures ChunkMoved(x, after, lda, ldb, w, a2, b2)
  {
    ChunkRange(a2, b2, lda, ldb, w);
    ChunksApart(a, b, a2, b2, lda, w);
    SliceStays(before, after, q, At(b2, a2, lda) * w, w);
  }

  lemma SliceStays(before: Buffer, after: Buffer, q: nat, q2: nat, w: nat)
    requires |before| == |after| && q2 + w <= |after| && (q + w <= q2 || q2 + w <= q)
    requires forall k :: 0 <= k < |after| && !(q <= k < q + w) ==> after[k] == before[k]
    ensures after[q2..q2 + w] == before[q2..q2 + w]
  {
  }

  method CopyBytes(x: Buffer, p: nat, y: array<Octet>, q: nat, n: nat)
    requires p + n <= |x| && q + n <= y.Length
    modifies y
    ensures y[..][q..q + n] == x[p..p + n]
    ensures forall k :: 0 <= k < y.Length && !(q <= k < q + n) ==> y[k] == old(y[k])
  {
    var i := 0;
    while i < n
      invariant 0 <= i <= n && y[..][q..q + i] == x[p..p + i]
      invariant forall k :: 0 <= k < y.Length && !(q <= k < q + n) ==> y[k] == old(y[k])
    {
      ghost var before := y[..];
      y[q + i] := x[p + i];
      assert y[..][q..q + i] == before[q..q + i];
      i := i + 1;
      assert y[..][q..q + i] == y[..][q..q + i - 1] + [x[p + i - 1]];
    }
  }

  // ---------------------------------------------------------------- the shuffle

  /** Bit i of row 8j + k is bit k of byte j of element i. */
  ghost predicate Shuffled(x: Buffer, out: Buffer, size: nat, elem: nat) {
    && size % 8 == 0 && |x| == |out| == size * elem
    && forall i, j, k :: 0 <= i < size && 0 <= j < elem && 0 <= k < 8 ==> BitShuffled(x, out, size, elem, i, j, k)
  }

  /** Where row 8j + k has bit i. */
  lemma RowRange(size: nat, elem: nat, i: nat, j: nat, k: nat)
    requires size % 8 == 0 && i < size && j < elem && k < 8
    ensures At(8 * j + k, i / 8, size / 8) < size * elem && At(i, j, elem) < size * elem
  {
    AtRange(8 * j + k, i / 8, 8 * elem, size / 8);
    AtRange(i, j, size, elem);
    EightRows(size, elem);
  }

  lemma EightRows(size: nat, elem: nat)
    requires size % 8 == 0
    ensures 8 * elem * (size / 8) == size * elem == elem * size
  {
    var r := size / 8;
    assert size == 8 * r;
  }

  ghost predicate BitShuffled(x: Buffer, out: Buffer, size: nat, elem: nat, i: nat, j: nat, k: nat)
    requires size % 8 == 0 && |x| == |out| == size * elem && i < size && j < elem && k < 8
  {
    RowRange(size, elem, i, j, k);
    Bit(out[At(8 * j + k, i / 8, size / 8)], i % 8) == Bit(x[At(i, j, elem)], k)
  }

  method TransBitElem(x: Buffer, size: nat, elem: nat) returns (out: Buffer)
    requires size % 8 == 0 && |x| == size * elem
    ensures Shuffled(x, out, size, elem)
  {
    EightRows(size, elem);
    var n := elem * (size / 8);
    RowsOfEight(size, elem);
    var y := TransByteElem(x, size, elem);
    var z := TransBitByte(y[..], n);
    var o := TransElem(z[..], 8, elem, size / 8);
    out := o[..];
    forall i, j, k | 0 <= i < size && 0 <= j < elem && 0 <= k < 8
      ensures BitShuffled(x, out, size, elem, i, j, k)
    {
      BitFollowed(x, y[..], z[..], out, size, elem, n, i, j, k);
    }
  }

  lemma RowsOfEight(size: nat, elem: nat)
    requires size % 8 == 0
    ensures size * elem == 8 * (elem * (size / 8)) == 8 * elem * (size / 8)
  {
    EightRows(size, elem);
  }

  /** A bit through the three steps. */
  lemma BitFollowed(x: Buffer, y: Buffer, z: Buffer, out: Buffer, size: nat, elem: nat, n: nat, i: nat, j: nat, k: nat)
    requires size % 8 == 0 && n == elem * (size / 8) && |x| == size * elem == 8 * n
    requires ByteRows(x, y, size, elem) && BitRows(y, z, n) && ChunksTransposed(z, out, 8, elem, size / 8)
    requires i < size && j < elem && k < 8
    ensures BitShuffled(x, out, size, elem, i, j, k)
  {
    var q, b := At(j, i / 8, size / 8), i % 8;
    AtRange(j, i / 8, elem, size / 8);
    ByteFollowed(x, y, size, elem, i, j);
    assert GroupTurned(y, z, n, q) && BitMoved(y, z, n, q, k, b);
    ChunkFollowed(z, out, elem, size / 8, n, k, j, i / 8);
    RowRange(size, elem, i, j, k);
    AtRange(k, q, 8, n);
  }

  lemma ByteFollowed(x: Buffer, y: Buffer, size: nat, elem: nat, i: nat, j: nat)
    requires size % 8 == 0 && ByteRows(x, y, size, elem) && i < size && j < elem
    ensures
      var p := 8 * At(j, i / 8, size / 8) + i % 8;
      p < |y| && At(i, j, elem) < |x| && y[p] == x[At(i, j, elem)]
  {
    assert ByteMoved(x, y, size, elem, i, j);
    AtRange(i, j, size, elem);
    AtRange(j, i, elem, size);
    assert elem * size == size * elem;
    Columns(size, i, j);
  }

  /** Byte c of the chunk of r bytes that goes from row k, column j to row j, column k. */
  lemma ChunkFollowed(z: Buffer, out: Buffer, elem: nat, r: nat, n: nat, k: nat, j: nat, c: nat)
    requires n == elem * r && ChunksTransposed(z, out, 8, elem, r) && k < 8 && j < elem && c < r
    ensures At(8 * j + k, c, r) < |out| && At(k, At(j, c, r), n) < |z|
    ensures out[At(8 * j + k, c, r)] == z[At(k, At(j, c, r), n)]
  {
    assert ChunkMoved(z, out, 8, elem, r, k, j);
    AtNested(k, j, c, elem, r);
    ChunkRange(k, j, 8, elem, r);
    SliceEntry(z, out, At(k, j, elem) * r, At(j, k, 8) * r, r, c);
  }

  lemma SliceEntry(z: Buffer, out: Buffer, p: nat, o: nat, w: nat, c: nat)
    requires c < w && p + w <= |z| && o + w <= |out| && out[o..o + w] == z[p..p + w]
    ensures out[o + c] == z[p + c]
  {
    assert out[o..o + w][c] == z[p..p + w][c];
  }

  lemma Columns(size: nat, i: nat, j: nat)
    requires size % 8 == 0
    ensures At(j, i, size) == 8 * At(j, i / 8, size / 8) + i % 8
  {
    var r := size / 8;
    assert j * size == 8 * (j * r);
  }

  /** What is shuffled to given data is determined by them. */
  lemma ShuffledInjective(x: Buffer, y: Buffer, out: Buffer, size: nat, elem: nat)
    requires Shuffled(x, out, size, elem) && Shuffled(y, out, size, elem)
    ensures x == y
  {
    forall p | 0 <= p < |x|
      ensures x[p] == y[p]
    {
      var i, j := PlaceOf(p, size, elem);
      forall k | 0 <= k < 8
        ensures Bit(x[p], k) == Bit(y[p], k)
      {
        assert BitShuffled(x, out, size, elem, i, j, k) && BitShuffled(y, out, size, elem, i, j, k);
      }
      SameBits(x[p], y[p]);
    }
  }

  // ---------------------------------------------------------------- the way back

  /** Rows of r bytes, eight for each byte of an element, become groups of eight bytes. */
  ghost predicate RowsToGroups(s: Buffer, t: Buffer, r: nat, elem: nat) {
    && |s| == |t| == r * (8 * elem)
    && forall g, m :: 0 <= g < r && 0 <= m < 8 * elem ==> RowByteMoved(s, t, r, elem, g, m)
  }

  ghost predicate RowByteMoved(s: Buffer, t: Buffer, r: nat, elem: nat, g: nat, m: nat)
    requires |s| == |t| == r * (8 * elem) && g < r && m < 8 * elem
  {
    AtRange(g, m, r, 8 * elem);
    AtRange(m, g, 8 * elem, r);
    assert 8 * elem * r == r * (8 * elem);
    t[At(g, m, 8 * elem)] == s[At(m, g, r)]
  }

  method TransByteBitrow(s: Buffer, r: nat, elem: nat) returns (t: array<Octet>)
    requires |s| == r * (8 * elem)
    ensures fresh(t) && RowsToGroups(s, t[..], r, elem)
  {
    t := new Octet[r * (8 * elem)];
    var jj := 0;
    while jj < elem
      invariant 0 <= jj <= elem && t.Length == |s|
      invariant forall g, m :: 0 <= g < r && 0 <= m < 8 * jj ==> RowByteMoved(s, t[..], r, elem, g, m)
    {
      var ii := 0;
      while ii < r
        invariant 0 <= ii <= r && t.Length == |s|
        invariant forall g, m :: 0 <= g < r && 0 <= m < 8 * jj ==> RowByteMoved(s, t[..], r, elem, g, m)
        invariant forall g, m :: 0 <= g < ii && 8 * jj <= m < 8 * jj + 8 ==> RowByteMoved(s, t[..], r, elem, g, m)
      {
        var kk := 0;
        while kk < 8
          invariant 0 <= kk <= 8 && t.Length == |s|
          invariant forall g, m :: 0 <= g < r && 0 <= m < 8 * jj ==> RowByteMoved(s, t[..], r, elem, g, m)
          invariant forall g, m :: 0 <= g < ii && 8 * jj <= m < 8 * jj + 8 ==> RowByteMoved(s, t[..], r, elem, g, m)
          invariant forall m :: 8 * jj <= m < 8 * jj + kk ==> RowByteMoved(s, t[..], r, elem, ii, m)
        {
          MoveRowByte(s, t, r, elem, ii, jj, kk);
          kk := kk + 1;
        }
        ii := ii + 1;
      }
      jj := jj + 1;
    }
  }

  method MoveRowByte(s: Buffer, t: array<Octet>, r: nat, elem: nat, g: nat, jj: nat, kk: nat)
    requires |s| == t.Length == r * (8 * elem) && g < r && jj < elem && kk < 8
    modifies t
    ensures RowByteMoved(s, t[..], r, elem, g, jj * 8 + kk)
    ensures forall g2, m2 :: 0 <= g2 < r && 0 <= m2 < 8 * elem && RowByteMoved(s, old(t[..]), r, elem, g2, m2)
              ==> RowByteMoved(s, t[..], r, elem, g2, m2)
  {
    var m := jj * 8 + kk;
    AtRange(g, m, r, 8 * elem);
    AtRange(m, g, 8 * elem, r);
    assert 8 * elem * r == r * (8 * elem);
    ghost var before := t[..];
    assert At(g, m, 8 * elem) == g * (8 * elem) + jj * 8 + kk;
    t[g * (8 * elem) + jj * 8 + kk] := s[(jj * 8 + kk) * r + g];
    assert t[..] == before[At(g, m, 8 * elem) := s[At(m, g, r)]];
    forall g2, m2 | 0 <= g2 < r && 0 <= m2 < 8 * elem && RowByteMoved(s, before, r, elem, g2, m2)
      ensures RowByteMoved(s, t[..], r, elem, g2, m2)
    {
      AtRange(g2, m2, r, 8 * elem);
      if At(g2, m2, 8 * elem) == At(g, m, 8 * elem) {
        AtInjective(g2, m2, g, m, 8 * elem);
      }
    }
  }

  /** In each group of eight elements, byte 8j + b of the group gives bit b of byte j of every element. */
  ghost predicate GroupsUnshuffled(t: Buffer, x: Buffer, r: nat, elem: nat) {
    && |t| == |x| == r * (8 * elem)
    && forall g, j :: 0 <= g < r && 0 <= j < elem ==> EightUnshuffled(t, x, r, elem, g, j)
  }

  ghost predicate EightUnshuffled(t: Buffer, x: Buffer, r: nat, elem: nat, g: nat, j: nat)
    requires |t| == |x| == r * (8 * elem) && g < r && j < elem
  {
    forall k, b :: 0 <= k < 8 && 0 <= b < 8 ==> BitBack(t, x, r, elem, g, j, k, b)
  }

  ghost predicate BitBack(t: Buffer, x: Buffer, r: nat, elem: nat, g: nat, j: nat, k: nat, b: nat)
    requires |t| == |x| == r * (8 * elem) && g < r && j < elem && k < 8 && b < 8
  {
    ElementRange(r, elem, g, j, k);
    AtRange(g, 8 * j + b, r, 8 * elem);
    Bit(x[At(8 * g + k, j, elem)], b) == Bit(t[At(g, 8 * j + b, 8 * elem)], k)
  }

  lemma ElementRange(r: nat, elem: nat, g: nat, j: nat, k: nat)
    requires g < r && j < elem && k < 8
    ensures At(8 * g + k, j, elem) < r * (8 * elem)
  {
    AtRange(8 * g + k, j, 8 * r, elem);
    assert 8 * r * elem == r * (8 * elem);
  }

  method ShuffleBitEightelem(t: Buffer, r: nat, elem: nat) returns (x: array<Octet>)
    requires |t| == r * (8 * elem)
    ensures fresh(x) && GroupsUnshuffled(t, x[..], r, elem)
  {
    x := new Octet[r * (8 * elem)];
    var j := 0;
    while j < elem
      invariant 0 <= j <= elem && x.Length == |t|
      invariant forall g, i :: 0 <= g < r && 0 <= i < j ==> EightUnshuffled(t, x[..], r, elem, g, i)
    {
      var g := 0;
      while g < r
        invariant 0 <= g <= r && x.Length == |t|
        invariant forall h, i :: 0 <= h < r && 0 <= i < j ==> EightUnshuffled(t, x[..], r, elem, h, i)
        invariant forall h :: 0 <= h < g ==> EightUnshuffled(t, x[..], r, elem, h, j)
      {
        UnshuffleEight(t, x, r, elem, g, j);
        g := g + 1;
      }
      j := j + 1;
    }
  }

  method UnshuffleEight(t: Buffer, x: array<Octet>, r: nat, elem: nat, g: nat, j: nat)
    requires |t| == x.Length == r * (8 * elem) && g < r && j < elem
    modifies x
    ensures EightUnshuffled(t, x[..], r, elem, g, j)
    ensures forall h, i :: 0 <= h < r && 0 <= i < elem && EightUnshuffled(t, old(x[..]), r, elem, h, i)
              ==> EightUnshuffled(t, x[..], r, elem, h, i)
  {
    AtRange(g, 8 * j + 7, r, 8 * elem);
    var at := g * (8 * elem) + 8 * j;
    assert at + 7 == At(g, 8 * j + 7, 8 * elem);
    ghost var before := x[..];
    var word := Trans8x8(WordOf(t[at..at + 8]));
    PutElements(x, r, elem, g, j, word);
    EightPut(t, x[..], r, elem, g, j, at, word);
    forall h, i | 0 <= h < r && 0 <= i < elem && (h != g || i != j) && EightUnshuffled(t, before, r, elem, h, i)
      ensures EightUnshuffled(t, x[..], r, elem, h, i)
    {
      EightStays(t, before, x[..], r, elem, h, i, g, j);
    }
  }

  /** The place belongs to byte j of one of the elements of group g. */
  predicate InEight(p: nat, elem: nat, g: nat, j: nat)
    requires elem > 0
  {
    p / elem / 8 == g && p % elem == j
  }

  /** Byte j of element k of group g. */
  function PlaceIn(g: nat, k: nat, j: nat, elem: nat): nat { At(8 * g + k, j, elem) }

  lemma EightOf(elem: nat, g: nat, j: nat, k: nat)
    requires j < elem && k < 8
    ensures InEight(PlaceIn(g, k, j, elem), elem, g, j)
  {
    var p := PlaceIn(g, k, j, elem);
    AtInjective(8 * g + k, j, p / elem, p % elem, elem);
  }

  method PutElements(x: array<Octet>, r: nat, elem: nat, g: nat, j: nat, word: Word)
    requires x.Length == r * (8 * elem) && g < r && j < elem
    modifies x
    ensures forall k :: 0 <= k < 8 ==> PlaceIn(g, k, j, elem) < x.Length && x[PlaceIn(g, k, j, elem)] == ByteOf(word, k)
    ensures forall p :: 0 <= p < x.Length && !InEight(p, elem, g, j) ==> x[p] == old(x[p])
  {
    var kk := 0;
    while kk < 8
      invariant 0 <= kk <= 8
      invariant forall k :: 0 <= k < kk ==> PlaceIn(g, k, j, elem) < x.Length && x[PlaceIn(g, k, j, elem)] == ByteOf(word, k)
      invariant forall p :: 0 <= p < x.Length && !InEight(p, elem, g, j) ==> x[p] == old(x[p])
    {
      ElementRange(r, elem, g, j, kk);
      EightOf(elem, g, j, kk);
      forall k | 0 <= k < kk
        ensures PlaceIn(g, k, j, elem) != PlaceIn(g, kk, j, elem)
      {
        if PlaceIn(g, k, j, elem) == PlaceIn(g, kk, j, elem) {
          AtInjective(8 * g + k, j, 8 * g + kk, j, elem);
        }
      }
      x[PlaceIn(g, kk, j, elem)] := ByteOf(word, kk);
      kk := kk + 1;
    }
  }

  lemma EightPut(t: Buffer, x: Buffer, r: nat, elem: nat, g: nat, j: nat, at: nat, word: Word)
    requires |t| == |x| == r * (8 * elem) && g < r && j < elem && at == g * (8 * elem) + 8 * j && at + 8 <= |t|
    requires word == Trans8x8(WordOf(t[at..at + 8]))
    requires forall k :: 0 <= k < 8 ==> PlaceIn(g, k, j, elem) < |x| && x[PlaceIn(g, k, j, elem)] == ByteOf(word, k)
    ensures EightUnshuffled(t, x, r, elem, g, j)
  {
    var s := t[at..at + 8];
    WordBytes(s);
    forall k, b | 0 <= k < 8 && 0 <= b < 8
      ensures BitBack(t, x, r, elem, g, j, k, b)
    {
      TurnsBits(WordOf(s), k, b);
      assert ByteOf(WordOf(s), b) == s[b] == t[at + b];
      assert At(g, 8 * j + b, 8 * elem) == at + b;
    }
  }

  lemma EightStays(t: Buffer, before: Buffer, after: Buffer, r: nat, elem: nat, h: nat, i: nat, g: nat, j: nat)
    requires |t| == |before| == |after| == r * (8 * elem) && h < r && i < elem && g < r && j < elem && (h != g || i != j)
    requires EightUnshuffled(t, before, r, elem, h, i)
    requires forall p :: 0 <= p < |after| && !InEight(p, elem, g, j) ==> after[p] == before[p]
    ensures EightUnshuffled(t, after, r, elem, h, i)
  {
    forall k, b | 0 <= k < 8 && 0 <= b < 8
      ensures BitBack(t, after, r, elem, h, i, k, b)
    {
      assert BitBack(t, before, r, elem, h, i, k, b);
      ElementRange(r, elem, h, i, k);
      EightOf(elem, h, i, k);
    }
  }

  /** The result is what has been shuffled to s. */
  method UntransBitElem(s: Buffer, size: nat, elem: nat) returns (x: Buffer)
    requires size % 8 == 0 && |s| == size * elem
    ensures Shuffled(x, s, size, elem)
  {
    var r := size / 8;
    assert size * elem == r * (8 * elem) by { assert size == 8 * r; }
    var t := TransByteBitrow(s, r, elem);
    var a := ShuffleBitEightelem(t[..], r, elem);
    x := a[..];
    forall i, j, k | 0 <= i < size && 0 <= j < elem && 0 <= k < 8
      ensures BitShuffled(x, s, size, elem, i, j, k)
    {
      BitReturned(s, t[..], x, size, elem, r, i, j, k);
    }
  }

  lemma BitReturned(s: Buffer, t: Buffer, x: Buffer, size: nat, elem: nat, r: nat, i: nat, j: nat, k: nat)
    requires size % 8 == 0 && r == size / 8 && |s| == size * elem == r * (8 * elem)
    requires RowsToGroups(s, t, r, elem) && GroupsUnshuffled(t, x, r, elem)
    requires i < size && j < elem && k < 8
    ensures BitShuffled(x, s, size, elem, i, j, k)
  {
    RowRange(size, elem, i, j, k);
    RowReturned(s, t, r, elem, i / 8, 8 * j + k);
    GroupReturned(t, x, r, elem, i / 8, i % 8, j, k);
  }

  lemma RowReturned(s: Buffer, t: Buffer, r: nat, elem: nat, g: nat, m: nat)
    requires RowsToGroups(s, t, r, elem) && g < r && m < 8 * elem
    ensures At(g, m, 8 * elem) < |t| && At(m, g, r) < |s| && t[At(g, m, 8 * elem)] == s[At(m, g, r)]
  {
    AtRange(g, m, r, 8 * elem);
    AtRange(m, g, 8 * elem, r);
    assert 8 * elem * r == r * (8 * elem);
    assert RowByteMoved(s, t, r, elem, g, m);
  }

  lemma GroupReturned(t: Buffer, x: Buffer, r: nat, elem: nat, g: nat, e: nat, j: nat, k: nat)
    requires GroupsUnshuffled(t, x, r, elem) && g < r && e < 8 && j < elem && k < 8
    ensures At(8 * g + e, j, elem) < |x| && At(g, 8 * j + k, 8 * elem) < |t|
    ensures Bit(x[At(8 * g + e, j, elem)], k) == Bit(t[At(g, 8 * j + k, 8 * elem)], e)
  {
    ElementRange(r, elem, g, j, e);
    AtRange(g, 8 * j + k, r, 8 * elem);
    assert EightUnshuffled(t, x, r, elem, g, j) && BitBack(t, x, r, elem, g, j, e, k);
  }
}
