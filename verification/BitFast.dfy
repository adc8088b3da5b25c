/** Shuffling with sixteen-byte registers: other ways to the rows and columns of the plain form. */
module BitFast {
  import opened BitShuffle
  import opened BitTranspose
  import opened BitVectors

  // ---------------------------------------------------------------- bytes of elements of 2, 4 and 8 bytes

  ghost predicate MovedBelow(x: Buffer, y: Buffer, size: nat, w: nat, n: nat)
    requires |x| == |y| == size * w && n <= size
  {
    forall i, j :: 0 <= i < n && 0 <= j < w ==> ByteMoved(x, y, size, w, i, j)
  }

  /** The chunk of sixteen elements from element ii on. */
  ghost predicate ChunkTurned(x: Buffer, rows: seq<Vector>, size: nat, w: nat, ii: nat)
    requires |x| == size * w
  {
    && ii + 16 <= size && w * ii + 16 * w <= |x|
    && Turned(rows, x[w * ii..w * ii + 16 * w], w)
  }

  lemma PlaceInChunk(c: Buffer, row: Vector, w: nat, j: nat, p: nat)
    requires p < 16 && Holds(row, c, Spread(j, w, 16))
    ensures j + w * p < |c| && row[p] == c[j + w * p]
  {
    assert Has(row, c, Spread(j, w, 16), p);
  }

  lemma RowEntry(x: Buffer, row: Vector, size: nat, w: nat, ii: nat, j: nat, p: nat)
    requires |x| == size * w && ii + 16 <= size && j < w && w * ii + 16 * w <= |x| && p < 16
    requires Holds(row, x[w * ii..w * ii + 16 * w], Spread(j, w, 16))
    ensures At(j, ii + p, size) < |x| && At(ii + p, j, w) < |x| && row[p] == x[At(ii + p, j, w)]
  {
    AtRange(ii + p, j, size, w);
    AtRange(j, ii + p, w, size);
    Turned2(w, size);
    PlaceInChunk(x[w * ii..w * ii + 16 * w], row, w, j, p);
    InChunk(w, ii, p, j);
    SliceAt(x, w * ii, 16 * w, j + w * p);
  }

  lemma Turned2(a: nat, b: nat)
    ensures a * b == b * a
  {
  }

  lemma InChunk(w: nat, ii: nat, p: nat, j: nat)
    ensures At(ii + p, j, w) == w * ii + (j + w * p)
  {
  }

  lemma SliceAt(x: Buffer, o: nat, n: nat, k: nat)
    requires o + n <= |x| && k < n
    ensures x[o..o + n][k] == x[o + k]
  {
  }

  method StoreRow(x: Buffer, y: array<Octet>, size: nat, w: nat, ii: nat, j: nat, row: Vector)
    requires |x| == y.Length == size * w && ii + 16 <= size && j < w && w * ii + 16 * w <= |x|
    requires Holds(row, x[w * ii..w * ii + 16 * w], Spread(j, w, 16))
    modifies y
    ensures forall i :: ii <= i < ii + 16 ==> ByteMoved(x, y[..], size, w, i, j)
    ensures NoneUndone(x, old(y[..]), y[..], size, w)
  {
    var p := 0;
    while p < 16
      invariant 0 <= p <= 16
      invariant forall i :: ii <= i < ii + p ==> ByteMoved(x, y[..], size, w, i, j)
      invariant NoneUndone(x, old(y[..]), y[..], size, w)
    {
      ghost var before := y[..];
      RowEntry(x, row, size, w, ii, j, p);
      y[j * size + ii + p] := row[p];
      BytePut(x, before, y[..], size, w, ii + p, j);
      p := p + 1;
    }
  }

  method StoreRows(x: Buffer, y: array<Octet>, size: nat, w: nat, ii: nat, rows: seq<Vector>)
    requires |x| == y.Length == size * w && ChunkTurned(x, rows, size, w, ii) && MovedBelow(x, y[..], size, w, ii)
    modifies y
    ensures MovedBelow(x, y[..], size, w, ii + 16)
  {
    ghost var before := y[..];
    var jj := 0;
    while jj < w
      invariant 0 <= jj <= w
      invariant forall i, j :: ii <= i < ii + 16 && 0 <= j < jj ==> ByteMoved(x, y[..], size, w, i, j)
      invariant NoneUndone(x, before, y[..], size, w)
    {
      StoreRow(x, y, size, w, ii, jj, rows[jj]);
      jj := jj + 1;
    }
    assert forall i, j :: 0 <= i < ii && 0 <= j < w ==> ByteMoved(x, before, size, w, i, j);
  }

  /** The elements after the last whole chunk. */
  method TransRest(x: Buffer, y: array<Octet>, size: nat, w: nat, ii: nat)
    requires |x| == y.Length == size * w && ii % 16 == 0 && ii <= size < ii + 16 && MovedBelow(x, y[..], size, w, ii)
    modifies y
    ensures ByteRows(x, y[..], size, w)
  {
    ghost var before := y[..];
    assert size - size % 16 == ii;
    TransByteElemRemainder(x, y, size, w, size - size % 16);
    assert forall i, j :: 0 <= i < ii && 0 <= j < w ==> ByteMoved(x, before, size, w, i, j);
  }

  method TransByteElem16(x: Buffer, size: nat) returns (y: array<Octet>)
    requires |x| == size * 2
    ensures fresh(y) && ByteRows(x, y[..], size, 2)
  {
    y := new Octet[size * 2];
    var ii := 0;
    while ii + 15 < size
      invariant 0 <= ii <= size && ii % 16 == 0 && MovedBelow(x, y[..], size, 2, ii)
    {
      var rows := Turn16(x[2 * ii..2 * ii + 16 * 2]);
      StoreRows(x, y, size, 2, ii, rows);
      ii := ii + 16;
    }
    TransRest(x, y, size, 2, ii);
  }

  method TransByteElem32(x: Buffer, size: nat) returns (y: array<Octet>)
    requires |x| == size * 4
    ensures fresh(y) && ByteRows(x, y[..], size, 4)
  {
    y := new Octet[size * 4];
    var ii := 0;
    while ii + 15 < size
      invariant 0 <= ii <= size && ii % 16 == 0 && MovedBelow(x, y[..], size, 4, ii)
    {
      var rows := Turn32(x[4 * ii..4 * ii + 16 * 4]);
      StoreRows(x, y, size, 4, ii, rows);
      ii := ii + 16;
    }
    TransRest(x, y, size, 4, ii);
  }

  method TransByteElem64(x: Buffer, size: nat) returns (y: array<Octet>)
    requires |x| == size * 8
    ensures fresh(y) && ByteRows(x, y[..], size, 8)
  {
    y := new Octet[size * 8];
    var ii := 0;
    while ii + 15 < size
      invariant 0 <= ii <= size && ii % 16 == 0 && MovedBelow(x, y[..], size, 8, ii)
    {
      var rows := Turn64(x[8 * ii..8 * ii + 16 * 8]);
      StoreRows(x, y, size, 8, ii, rows);
      ii := ii + 16;
    }
    TransRest(x, y, size, 8, ii);
  }

  // ---------------------------------------------------------------- bytes of longer elements

  ghost predicate NoChunkUndone(x: Buffer, before: Buffer, after: Buffer, lda: nat, ldb: nat, w: nat)
    requires |x| == |before| == |after| == lda * ldb * w
  {
    forall a, b :: 0 <= a < lda && 0 <= b < ldb && ChunkMoved(x, before, lda, ldb, w, a, b)
                   ==> ChunkMoved(x, after, lda, ldb, w, a, b)
  }

  /** Chunks as elements of a machine type, eight rows at a time. */
  method TransElemType(x: Buffer, lda: nat, ldb: nat, w: nat) returns (y: array<Octet>)
    requires |x| == lda * ldb * w
    ensures fresh(y) && ChunksTransposed(x, y[..], lda, ldb, w)
  {
    y := new Octet[lda * ldb * w];
    var ii := 0;
    while ii + 7 < lda
      invariant 0 <= ii <= lda && ii % 8 == 0 && y.Length == |x|
      invariant forall a, b :: 0 <= a < ii && 0 <= b < ldb ==> ChunkMoved(x, y[..], lda, ldb, w, a, b)
    {
      MoveEightRows(x, y, lda, ldb, w, ii);
      ii := ii + 8;
    }
    assert ii == lda - lda % 8;
    ii := lda - lda % 8;
    while ii < lda
      invariant 0 <= ii <= lda && y.Length == |x|
      invariant forall a, b :: 0 <= a < ii && 0 <= b < ldb ==> ChunkMoved(x, y[..], lda, ldb, w, a, b)
    {
      MoveRow(x, y, lda, ldb, w, ii);
      ii := ii + 1;
    }
  }

  method MoveEightRows(x: Buffer, y: array<Octet>, lda: nat, ldb: nat, w: nat, ii: nat)
    requires |x| == y.Length == lda * ldb * w && ii + 7 < lda
    modifies y
    ensures forall a, b :: ii <= a < ii + 8 && 0 <= b < ldb ==> ChunkMoved(x, y[..], lda, ldb, w, a, b)
    ensures NoChunkUndone(x, old(y[..]), y[..], lda, ldb, w)
  {
    var jj := 0;
    while jj < ldb
      invariant 0 <= jj <= ldb
      invariant forall a, b :: ii <= a < ii + 8 && 0 <= b < jj ==> ChunkMoved(x, y[..], lda, ldb, w, a, b)
      invariant NoChunkUndone(x, old(y[..]), y[..], lda, ldb, w)
    {
      var kk := 0;
      while kk < 8
        invariant 0 <= kk <= 8
        invariant forall a, b :: ii <= a < ii + 8 && 0 <= b < jj ==> ChunkMoved(x, y[..], lda, ldb, w, a, b)
        invariant forall a :: ii <= a < ii + kk ==> ChunkMoved(x, y[..], lda, ldb, w, a, jj)
        invariant NoChunkUndone(x, old(y[..]), y[..], lda, ldb, w)
      {
        MoveChunk(x, y, lda, ldb, w, ii + kk, jj);
        kk := kk + 1;
      }
      jj := jj + 1;
    }
  }

  method MoveRow(x: Buffer, y: array<Octet>, lda: nat, ldb: nat, w: nat, ii: nat)
    requires |x| == y.Length == lda * ldb * w && ii < lda
    modifies y
    ensures forall b :: 0 <= b < ldb ==> ChunkMoved(x, y[..], lda, ldb, w, ii, b)
    ensures NoChunkUndone(x, old(y[..]), y[..], lda, ldb, w)
  {
    var jj := 0;
    while jj < ldb
      invariant 0 <= jj <= ldb
      invariant forall b :: 0 <= b < jj ==> ChunkMoved(x, y[..], lda, ldb, w, ii, b)
      invariant NoChunkUndone(x, old(y[..]), y[..], lda, ldb, w)
    {
      MoveChunk(x, y, lda, ldb, w, ii, jj);
      jj := jj + 1;
    }
  }

  lemma ChunkEntry(x: Buffer, y: Buffer, lda: nat, ldb: nat, w: nat, a: nat, b: nat, c: nat)
    requires ChunksTransposed(x, y, lda, ldb, w) && a < lda && b < ldb && c < w
    ensures At(At(a, b, ldb), c, w) < |x| && At(At(b, a, lda), c, w) < |y|
    ensures y[At(At(b, a, lda), c, w)] == x[At(At(a, b, ldb), c, w)]
  {
    assert ChunkMoved(x, y, lda, ldb, w, a, b);
    ChunkRange(a, b, lda, ldb, w);
    SliceEntry(x, y, At(a, b, ldb) * w, At(b, a, lda) * w, w, c);
  }

  /** Elements of n chunks: the chunks apart, then the bytes of chunks, then the rows of each chunk together. */
  lemma Hierarchical(x: Buffer, y: Buffer, z: Buffer, out: Buffer, size: nat, n: nat, w: nat)
    requires ChunksTransposed(x, y, size, n, w) && ByteRows(y, z, size * n, w) && ChunksTransposed(z, out, w, n, size)
    ensures ByteRows(x, out, size, n * w)
  {
    Products(size, n, w);
    forall i, j | 0 <= i < size && 0 <= j < n * w
      ensures ByteMoved(x, out, size, n * w, i, j)
    {
      var c, b := PlaceOf(j, n, w);
      ThroughChunks(x, y, z, out, size, n, w, i, c, b);
    }
  }

  lemma Products(size: nat, n: nat, w: nat)
    ensures size * n * w == size * (n * w) == w * n * size
  {
  }

  lemma ThroughChunks(x: Buffer, y: Buffer, z: Buffer, out: Buffer, size: nat, n: nat, w: nat, i: nat, c: nat, b: nat)
    requires ChunksTransposed(x, y, size, n, w) && ByteRows(y, z, size * n, w) && ChunksTransposed(z, out, w, n, size)
    requires i < size && c < n && b < w && At(c, b, w) < n * w && |x| == |out| == size * (n * w)
    ensures ByteMoved(x, out, size, n * w, i, At(c, b, w))
  {
    ChunkEntry(x, y, size, n, w, i, c, b);
    ChunkEntry(z, out, w, n, size, b, c, i);
    AtRange(c, i, n, size);
    assert n * size == size * n;
    assert ByteMoved(y, z, size * n, w, At(c, i, size), b);
    AtNested(b, c, i, n, size);
    AtNested(i, c, b, n, w);
  }

  method TransByteElemFast(x: Buffer, size: nat, elem: nat) returns (y: array<Octet>)
    requires |x| == size * elem
    ensures fresh(y) && ByteRows(x, y[..], size, elem)
  {
    if elem == 1 {
      y := new Octet[size](k requires 0 <= k < |x| => x[k]);
      assert forall i, j :: 0 <= i < size && 0 <= j < 1 ==> ByteMoved(x, y[..], size, 1, i, j);
    } else if elem == 2 {
      y := TransByteElem16(x, size);
    } else if elem == 4 {
      y := TransByteElem32(x, size);
    } else if elem == 8 {
      y := TransByteElem64(x, size);
    } else if elem % 4 != 0 {
      y := TransByteElem(x, size, elem);
    } else if elem % 8 == 0 {
      var n := elem / 8;
      Products(size, n, 8);
      var a := TransElemType(x, size, n, 8);
      var b := TransByteElem64(a[..], size * n);
      y := TransElem(b[..], 8, n, size);
      Hierarchical(x, a[..], b[..], y[..], size, n, 8);
    } else {
      var n := elem / 4;
      Products(size, n, 4);
      var a := TransElemType(x, size, n, 4);
      var b := TransByteElem32(a[..], size * n);
      y := TransElem(b[..], 4, n, size);
      Hierarchical(x, a[..], b[..], y[..], size, n, 4);
    }
  }

  // ---------------------------------------------------------------- bits of sixteen bytes at once

  /** After k shifts the upper bits of a byte are its lower ones. */
  ghost predicate ShiftedBy(v: Vector, s: Vector, k: nat) {
    forall p, b :: 0 <= p < 16 && k <= b < 8 ==> Bit(s[p], b) == Bit(v[p], b - k)
  }

  lemma OneMoreShift(v: Vector, s: Vector, k: nat)
    requires ShiftedBy(v, s, k)
    ensures ShiftedBy(v, ShiftLanes(s), k + 1)
  {
    forall p, b | 0 <= p < 16 && k + 1 <= b < 8
      ensures Bit(ShiftLanes(s)[p], b) == Bit(v[p], b - (k + 1))
    {
      ShiftedUp(s, p, b);
    }
  }

  /** Row k has its bits of group q. */
  ghost predicate RowOfGroup(y: Buffer, z: Buffer, n: nat, q: nat, k: nat)
    requires |y| == |z| == 8 * n && q < n && k < 8
  {
    forall b :: 0 <= b < 8 ==> BitMoved(y, z, n, q, k, b)
  }

  /** The two bytes have bit k of the sixteen bytes from group q on. */
  ghost predicate MaskOf(y: Buffer, bt: (Octet, Octet), n: nat, q: nat, k: nat)
    requires |y| == 8 * n && q + 1 < n && k < 8
  {
    forall b :: 0 <= b < 8 ==> MaskBit(y, bt, n, q, k, b)
  }

  ghost predicate MaskBit(y: Buffer, bt: (Octet, Octet), n: nat, q: nat, k: nat, b: nat)
    requires |y| == 8 * n && q + 1 < n && k < 8 && b < 8
  {
    Bit(bt.0, b) == Bit(y[8 * q + b], k) && Bit(bt.1, b) == Bit(y[8 * (q + 1) + b], k)
  }

  lemma MaskShifted(y: Buffer, s: Vector, bt: (Octet, Octet), n: nat, q: nat, k: nat)
    requires |y| == 8 * n && q + 1 < n && k < 8 && ShiftedBy(Load(y, 8 * q), s, k) && TopBits(s, bt)
    ensures MaskOf(y, bt, n, q, 7 - k)
  {
    var row := 7 - k;
    forall b | 0 <= b < 8
      ensures MaskBit(y, bt, n, q, row, b)
    {
      MaskBitShifted(y, s, bt, n, q, k, b);
    }
  }

  lemma MaskBitShifted(y: Buffer, s: Vector, bt: (Octet, Octet), n: nat, q: nat, k: nat, b: nat)
    requires |y| == 8 * n && q + 1 < n && k < 8 && b < 8 && ShiftedBy(Load(y, 8 * q), s, k) && TopBits(s, bt)
    ensures MaskBit(y, bt, n, q, 7 - k, b)
  {
    ShiftedTop(y, 8 * q, s, k, b);
    ShiftedTop(y, 8 * q, s, k, 8 + b);
  }

  lemma ShiftedTop(y: Buffer, at: nat, s: Vector, k: nat, p: nat)
    requires at + 16 <= |y| && ShiftedBy(Load(y, at), s, k) && k < 8 && p < 16
    ensures Bit(s[p], 7) == Bit(y[at + p], 7 - k)
  {
    SliceAt(y, at, 16, p);
    assert Bit(s[p], 7) == Bit(Load(y, at)[p], 7 - k);
  }

  method StoreMask(y: Buffer, z: array<Octet>, n: nat, q: nat, k: nat, bt: (Octet, Octet))
    requires |y| == z.Length == 8 * n && q + 1 < n && k < 8 && MaskOf(y, bt, n, q, k)
    modifies z
    ensures RowOfGroup(y, z[..], n, q, k) && RowOfGroup(y, z[..], n, q + 1, k)
    ensures forall r, g :: 0 <= r < 8 && r != k && 0 <= g < n && RowOfGroup(y, old(z[..]), n, g, r)
              ==> RowOfGroup(y, z[..], n, g, r)
    ensures forall p :: 0 <= p < 8 * n && p % n != q && p % n != q + 1 ==> z[p] == old(z[p])
  {
    AtRange(k, q, 8, n);
    AtRange(k, q + 1, 8, n);
    ColumnOf(k, q, n);
    ColumnOf(k, q + 1, n);
    ghost var before := z[..];
    var at := k * n + q;
    z[at] := bt.0;
    z[at + 1] := bt.1;
    MaskRows(y, bt, n, q, k);
    RowStored(y, z[..], n, q, k, bt.0);
    RowStored(y, z[..], n, q + 1, k, bt.1);
    forall r, g | 0 <= r < 8 && r != k && 0 <= g < n && RowOfGroup(y, before, n, g, r)
      ensures RowOfGroup(y, z[..], n, g, r)
    {
      OtherRowStays(y, before, z[..], n, k, q, g, r);
    }
  }

  lemma MaskRows(y: Buffer, bt: (Octet, Octet), n: nat, q: nat, k: nat)
    requires |y| == 8 * n && q + 1 < n && k < 8 && MaskOf(y, bt, n, q, k)
    ensures forall b :: 0 <= b < 8 ==> Bit(bt.0, b) == Bit(y[8 * q + b], k)
    ensures forall b :: 0 <= b < 8 ==> Bit(bt.1, b) == Bit(y[8 * (q + 1) + b], k)
  {
    forall b | 0 <= b < 8
      ensures Bit(bt.0, b) == Bit(y[8 * q + b], k) && Bit(bt.1, b) == Bit(y[8 * (q + 1) + b], k)
    {
      assert MaskBit(y, bt, n, q, k, b);
    }
  }

  lemma RowStored(y: Buffer, z: Buffer, n: nat, q: nat, k: nat, x: Octet)
    requires |y| == |z| == 8 * n && q < n && k < 8 && At(k, q, n) < |z| && z[At(k, q, n)] == x
    requires forall b :: 0 <= b < 8 ==> Bit(x, b) == Bit(y[8 * q + b], k)
    ensures RowOfGroup(y, z, n, q, k)
  {
  }

  lemma OtherRowStays(y: Buffer, before: Buffer, after: Buffer, n: nat, k: nat, q: nat, g: nat, r: nat)
    requires |y| == |before| == |after| == 8 * n && q + 1 < n && k < 8 && r < 8 && r != k && g < n
    requires forall p :: 0 <= p < 8 * n && p != At(k, q, n) && p != At(k, q + 1, n) ==> after[p] == before[p]
    requires RowOfGroup(y, before, n, g, r)
    ensures RowOfGroup(y, after, n, g, r)
  {
    AtRange(r, g, 8, n);
    if At(r, g, n) == At(k, q, n) {
      AtInjective(r, g, k, q, n);
    }
    if At(r, g, n) == At(k, q + 1, n) {
      AtInjective(r, g, k, q + 1, n);
    }
    forall b | 0 <= b < 8
      ensures BitMoved(y, after, n, g, r, b)
    {
      assert BitMoved(y, before, n, g, r, b);
    }
  }

  ghost predicate RowOfPair(y: Buffer, z: Buffer, n: nat, q: nat, k: nat)
    requires |y| == |z| == 8 * n && q + 1 < n && k < 8
  {
    RowOfGroup(y, z, n, q, k) && RowOfGroup(y, z, n, q + 1, k)
  }

  /** The row of the top bits. */
  method TurnRow(y: Buffer, z: array<Octet>, n: nat, q: nat, kk: nat, xmm: Vector)
    requires |y| == z.Length == 8 * n && q + 1 < n && kk < 8 && ShiftedBy(Load(y, 8 * q), xmm, kk)
    requires forall k :: 8 - kk <= k < 8 ==> RowOfPair(y, z[..], n, q, k)
    modifies z
    ensures forall k :: 7 - kk <= k < 8 ==> RowOfPair(y, z[..], n, q, k)
    ensures forall p :: 0 <= p < 8 * n && p % n != q && p % n != q + 1 ==> z[p] == old(z[p])
  {
    ghost var before := z[..];
    MaskHasTopBits(xmm);
    var bt := MoveMask(xmm);
    MaskShifted(y, xmm, bt, n, q, kk);
    StoreMask(y, z, n, q, 7 - kk, bt);
    forall k | 8 - kk <= k < 8
      ensures RowOfPair(y, z[..], n, q, k)
    {
      assert RowOfPair(y, before, n, q, k);
    }
  }

  /** Two groups of eight bytes. */
  method TurnPair(y: Buffer, z: array<Octet>, n: nat, q: nat)
    requires |y| == z.Length == 8 * n && q + 1 < n
    modifies z
    ensures GroupTurned(y, z[..], n, q) && GroupTurned(y, z[..], n, q + 1)
    ensures NoneUnturned(y, old(z[..]), z[..], n)
  {
    var xmm := Load(y, 8 * q);
    var kk := 0;
    while kk < 8
      invariant 0 <= kk <= 8 && ShiftedBy(Load(y, 8 * q), xmm, kk)
      invariant forall k :: 8 - kk <= k < 8 ==> RowOfPair(y, z[..], n, q, k)
      invariant forall p :: 0 <= p < 8 * n && p % n != q && p % n != q + 1 ==> z[p] == old(z[p])
    {
      TurnRow(y, z, n, q, kk, xmm);
      OneMoreShift(Load(y, 8 * q), xmm, kk);
      xmm := ShiftLanes(xmm);
      kk := kk + 1;
    }
    PairDone(y, old(z[..]), z[..], n, q);
  }

  lemma RowsDone(y: Buffer, z: Buffer, n: nat, q: nat)
    requires |y| == |z| == 8 * n && q < n && forall k :: 0 <= k < 8 ==> RowOfGroup(y, z, n, q, k)
    ensures GroupTurned(y, z, n, q)
  {
    forall k, b | 0 <= k < 8 && 0 <= b < 8
      ensures BitMoved(y, z, n, q, k, b)
    {
      assert RowOfGroup(y, z, n, q, k);
    }
  }

  lemma PairDone(y: Buffer, before: Buffer, after: Buffer, n: nat, q: nat)
    requires |y| == |before| == |after| == 8 * n && q + 1 < n
    requires forall k :: 0 <= k < 8 ==> RowOfPair(y, after, n, q, k)
    requires forall p :: 0 <= p < 8 * n && p % n != q && p % n != q + 1 ==> after[p] == before[p]
    ensures GroupTurned(y, after, n, q) && GroupTurned(y, after, n, q + 1) && NoneUnturned(y, before, after, n)
  {
    forall k | 0 <= k < 8
      ensures RowOfGroup(y, after, n, q, k)
    {
      assert RowOfPair(y, after, n, q, k);
    }
    var next := q + 1;
    forall k | 0 <= k < 8
      ensures RowOfGroup(y, after, n, next, k)
    {
      assert RowOfPair(y, after, n, q, k);
    }
    RowsDone(y, after, n, q);
    RowsDone(y, after, n, next);
    forall g | 0 <= g < n && g != q && g != q + 1 && GroupTurned(y, before, n, g)
      ensures GroupTurned(y, after, n, g)
    {
      GroupStays(y, before, after, n, g);
    }
  }

  method TransBitByteFast(y: Buffer, n: nat) returns (z: array<Octet>)
    requires |y| == 8 * n
    ensures fresh(z) && BitRows(y, z[..], n)
  {
    z := new Octet[8 * n];
    var ii := 0;
    while ii + 15 < 8 * n
      invariant 0 <= ii <= 8 * n && ii % 16 == 0
      invariant forall q :: 0 <= q < ii / 8 ==> GroupTurned(y, z[..], n, q)
    {
      ghost var before := z[..];
      TurnPair(y, z, n, ii / 8);
      assert forall q :: 0 <= q < ii / 8 ==> GroupTurned(y, before, n, q);
      ii := ii + 16;
    }
    ghost var pairs := z[..];
    var start := 8 * n - 8 * n % 16;
    assert start == ii;
    TransBitByteRemainder(y, z, n, start / 8);
    assert forall q :: 0 <= q < ii / 8 ==> GroupTurned(y, pairs, n, q);
  }

  // ---------------------------------------------------------------- the shuffle

  /** The same bits in the same places as the plain form. */
  method TransBitElemFast(x: Buffer, size: nat, elem: nat) returns (out: Buffer)
    requires size % 8 == 0 && |x| == size * elem
    ensures Shuffled(x, out, size, elem)
  {
    var n := elem * (size / 8);
    RowsOfEight(size, elem);
    var y := TransByteElemFast(x, size, elem);
    var z := TransBitByteFast(y[..], n);
    var o := TransElem(z[..], 8, elem, size / 8);
    out := o[..];
    forall i, j, k | 0 <= i < size && 0 <= j < elem && 0 <= k < 8
      ensures BitShuffled(x, out, size, elem, i, j, k)
    {
      BitFollowed(x, y[..], z[..], out, size, elem, n, i, j, k);
    }
  }

  /** Where a place of the shuffled data gets its bits from. */
  lemma RowBits(p: nat, size: nat, elem: nat) returns (g: nat, j: nat, k: nat)
    requires size % 8 == 0 && p < size * elem
    ensures g < size / 8 && j < elem && k < 8 && p == At(8 * j + k, g, size / 8)
  {
    RowsOfEight(size, elem);
    var m: nat;
    m, g := PlaceOf(p, 8 * elem, size / 8);
    j, k := m / 8, m % 8;
  }

  /** Data have one shuffled form: whatever way it is reached, the bytes are the same. */
  lemma ShuffledDetermined(x: Buffer, a: Buffer, b: Buffer, size: nat, elem: nat)
    requires Shuffled(x, a, size, elem) && Shuffled(x, b, size, elem)
    ensures a == b
  {
    forall p | 0 <= p < |a|
      ensures a[p] == b[p]
    {
      var g, j, k := RowBits(p, size, elem);
      forall e | 0 <= e < 8
        ensures Bit(a[p], e) == Bit(b[p], e)
      {
        assert BitShuffled(x, a, size, elem, 8 * g + e, j, k) && BitShuffled(x, b, size, elem, 8 * g + e, j, k);
      }
      SameBits(a[p], b[p]);
    }
  }
}
