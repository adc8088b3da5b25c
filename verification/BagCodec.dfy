/** Writing and reading bags of cells as the program does it, with running offsets, a queue and an index map. */
module BagCodec {
  import opened Sequences
  import opened Bytes
  import opened Results
  import opened Permutations
  import opened BagTopology
  import opened BagGraph
  import opened BagBits
  import opened BagFormat

  // ---------------------------------------------------------------- writing

  /** The bytes that hold the cell count, and the bytes that hold the size of the cells. */
  method ComputeSizes(cellCount: nat, dataBytes: nat, refs: nat) returns (refSize: nat, offsetSize: nat, size: nat)
    requires 0 < cellCount < TWO31
    ensures refSize == ByteSize(cellCount) && size == dataBytes + refs * refSize && offsetSize == ByteSize(size)
  {
    refSize := LeastSize(cellCount);
    size := dataBytes + refs * refSize;
    offsetSize := LeastSize(size);
  }

  method LeastSize(v: nat) returns (k: nat)
    ensures k == ByteSize(v)
  {
    k := 0;
    var p := 1;
    while v >= p
      invariant p == Pow256(k) && k <= ByteSize(v)
      decreases ByteSize(v) - k
    {
      ByteSizeIs(v, k);
      k := k + 1;
      p := 256 * p;
    }
    ByteSizeIs(v, k);
  }

  method StoreUint(out: seq<byte>, v: nat, n: nat) returns (res: seq<byte>)
    ensures res == out + BigEndian(v, n)
  {
    var tail: seq<byte>, rest := [], v;
    var k := n;
    while k > 0
      invariant 0 <= k <= n && BigEndian(rest, k) + tail == BigEndian(v, n)
    {
      tail := [rest % 256] + tail;
      rest := rest / 256;
      k := k - 1;
    }
    assert BigEndian(rest, 0) + tail == tail;
    res := out + tail;
  }

  /** The references of one cell, counted from the end of the list. */
  method StoreRefs(out: seq<byte>, c: CellInfo, n: nat, refSize: nat, ghost w: CellInfo) returns (res: seq<byte>)
    requires |w.refs| == |c.refs| && forall j :: 0 <= j < |c.refs| ==> c.refs[j] < n && w.refs[j] == n - 1 - c.refs[j]
    ensures res == out + RefBytes(w.refs, refSize)
  {
    res := out;
    var j := 0;
    assert w.refs[0..] == w.refs;
    while j < |c.refs|
      invariant 0 <= j <= |c.refs| && res + RefBytes(w.refs[j..], refSize) == out + RefBytes(w.refs, refSize)
    {
      ghost var before := res;
      assert w.refs[j..][0] == w.refs[j] && w.refs[j..][1..] == w.refs[j + 1..];
      res := StoreUint(res, n - 1 - c.refs[j], refSize);
      assert before + (BigEndian(w.refs[j], refSize) + RefBytes(w.refs[j + 1..], refSize)) == res + RefBytes(w.refs[j + 1..], refSize);
      j := j + 1;
    }
  }

  method StoreMeta(out: seq<byte>, c: CellInfo, n: nat, refSize: nat, ghost w: CellInfo) returns (res: seq<byte>)
    requires Fits(c) && w == c.(refs := w.refs)
    requires |w.refs| == |c.refs| && forall j :: 0 <= j < |c.refs| ==> c.refs[j] < n && w.refs[j] == n - 1 - c.refs[j]
    ensures res == out + MetaBytes(w, refSize)
  {
    res := out + [D1(c)] + [D2(c)];
    res := StoreRefs(res, c, n, refSize, w);
    assert out + [D1(c)] + [D2(c)] == out + [D1(w), D2(w)];
    Grouped(out, [D1(w), D2(w)], RefBytes(w.refs, refSize));
  }

  method StoreMetas(out: seq<byte>, cells: seq<CellInfo>, refSize: nat) returns (res: seq<byte>)
    requires AllFit(cells) && Graph(Refs(cells))
    ensures AllFit(Flipped(cells)) && res == out + AllMetas(Flipped(cells), refSize)
  {
    FlippedFits(cells);
    ghost var w := Flipped(cells);
    var n := |cells|;
    res := out;
    var i := 0;
    assert w[0..] == w;
    while i < n
      invariant 0 <= i <= n && AllFit(w[i..])
      invariant res + AllMetas(w[i..], refSize) == out + AllMetas(w, refSize)
    {
      FlippedAt(cells, i);
      assert cells[n - 1 - i] in cells && w[i] in w;
      assert w[i..][0] == w[i] && w[i..][1..] == w[i + 1..];
      Grouped(res, MetaBytes(w[i], refSize), AllMetas(w[i + 1..], refSize));
      res := StoreMeta(res, cells[n - 1 - i], n, refSize, w[i]);
      i := i + 1;
    }
  }

  method StoreData(out: seq<byte>, cells: seq<CellInfo>) returns (res: seq<byte>)
    requires Graph(Refs(cells))
    ensures res == out + AllData(Flipped(cells))
  {
    ghost var w := Flipped(cells);
    var n := |cells|;
    forall k | 0 <= k < n
      ensures w[k].bits == cells[n - 1 - k].bits
    {
      FlippedAt(cells, k);
    }
    res := AppendData(out, cells, w);
  }

  /** The data of the cells, from the last to the first. */
  method AppendData(out: seq<byte>, cells: seq<CellInfo>, ghost w: seq<CellInfo>) returns (res: seq<byte>)
    requires |w| == |cells| && forall k :: 0 <= k < |w| ==> w[k].bits == cells[|cells| - 1 - k].bits
    ensures res == out + AllData(w)
  {
    res := out;
    var i := 0;
    assert w[0..] == w;
    while i < |cells|
      invariant 0 <= i <= |cells| && res + AllData(w[i..]) == out + AllData(w)
    {
      assert w[i..][0] == w[i] && w[i..][1..] == w[i + 1..];
      var p := Packed(cells[|cells| - 1 - i].bits);
      Grouped(res, p, AllData(w[i + 1..]));
      res := res + p;
      i := i + 1;
    }
  }

  method StoreHeader(n: nat, root: nat, refSize: nat, offsetSize: nat, size: nat) returns (out: seq<byte>)
    requires 1 <= refSize <= 4 && 1 <= offsetSize <= 8
    ensures out == HeaderStart(n, refSize, offsetSize, size) + BigEndian(root, refSize)
  {
    out := [0xb5, 0xee, 0x9c, 0x72] + [refSize] + [offsetSize];
    ghost var front := out;
    out := StoreUint(out, n, refSize);
    out := StoreUint(out, 1, refSize);
    out := StoreUint(out, 0, refSize);
    out := StoreUint(out, size, offsetSize);
    InOrder(front, BigEndian(n, refSize), BigEndian(1, refSize), BigEndian(0, refSize), BigEndian(size, offsetSize));
    out := StoreUint(out, root, refSize);
  }

  lemma InOrder(f: seq<byte>, a: seq<byte>, b: seq<byte>, c: seq<byte>, d: seq<byte>)
    ensures f + a + b + c + d == Concat([f, a, b, c, d])
  {
    ConcatFive(f, a, b, c, d);
  }

  /** Metadata first, data afterwards. */
  method Serialize(cells: seq<CellInfo>, root: nat) returns (out: seq<byte>)
    requires root < |cells| < TWO31 && AllFit(cells) && Graph(Refs(cells))
    ensures out == Serialized(cells, root)
  {
    var refSize, offsetSize, size := SizesOf(cells);
    out := WriteSized(cells, root, refSize, offsetSize, size);
  }

  method WriteSized(cells: seq<CellInfo>, root: nat, refSize: nat, offsetSize: nat, size: nat) returns (out: seq<byte>)
    requires root < |cells| < TWO31 && AllFit(cells) && Graph(Refs(cells))
    requires refSize == ByteSize(|cells|) && offsetSize == ByteSize(size) && size == AreaBytes(cells)
    ensures out == Serialized(cells, root)
  {
    SizesInRange(cells);
    ghost var w := FlippedCells(cells);
    out := WriteAll(cells, |cells| - 1 - root, refSize, offsetSize, size, w);
    SerializedIs(cells, root, w, refSize, offsetSize, size);
  }

  method SizesOf(cells: seq<CellInfo>) returns (refSize: nat, offsetSize: nat, size: nat)
    requires 0 < |cells| < TWO31
    ensures refSize == ByteSize(|cells|) && offsetSize == ByteSize(AreaBytes(cells)) && size == AreaBytes(cells)
  {
    refSize, offsetSize, size := ComputeSizes(|cells|, DataBytes(cells), RefCount(cells));
  }

  method WriteAll(cells: seq<CellInfo>, root: nat, refSize: nat, offsetSize: nat, size: nat, ghost w: seq<CellInfo>)
    returns (out: seq<byte>)
    requires AllFit(cells) && Graph(Refs(cells)) && w == Flipped(cells) && AllFit(w) && |w| == |cells|
    requires 1 <= refSize <= 4 && 1 <= offsetSize <= 8
    ensures out == Written(w, root, refSize, offsetSize, size)
  {
    var header := StoreHeader(|cells|, root, refSize, offsetSize, size);
    out := StoreCells(header, cells, refSize, w);
    InWriting(w, root, refSize, offsetSize, size, header, out);
  }

  /** The metadata of all cells and then their data. */
  method StoreCells(out: seq<byte>, cells: seq<CellInfo>, refSize: nat, ghost w: seq<CellInfo>) returns (res: seq<byte>)
    requires AllFit(cells) && Graph(Refs(cells)) && w == Flipped(cells) && AllFit(w)
    ensures res == out + AllMetas(w, refSize) + AllData(w)
  {
    res := StoreMetas(out, cells, refSize);
    res := StoreData(res, cells);
  }

  /** Header, metadata and data are what is written. */
  lemma InWriting(w: seq<CellInfo>, root: nat, rs: nat, os: nat, size: nat, header: seq<byte>, out: seq<byte>)
    requires 1 <= rs <= 4 && 1 <= os <= 8 && AllFit(w)
    requires header == HeaderStart(|w|, rs, os, size) + BigEndian(root, rs)
    requires out == header + AllMetas(w, rs) + AllData(w)
    ensures out == Written(w, root, rs, os, size)
  {
    Grouped(header, AllMetas(w, rs), AllData(w));
    WrittenIs(w, root, rs, os, size);
  }

  // ---------------------------------------------------------------- reading

  method ReadInt(s: seq<byte>) returns (v: nat)
    ensures v == Value(s)
  {
    v := 0;
    var i := 0;
    assert s[..0] == [];
    while i < |s|
      invariant 0 <= i <= |s| && v == Value(s[..i])
    {
      ValuePrefix(s, i);
      v := v * 256 + s[i];
      i := i + 1;
    }
    assert s[..i] == s;
  }

  /** The cells one after the other, moving along the slice. */
  method ReadMetas(parse: MetaParser, s: seq<byte>, count: nat) returns (r: Result<(seq<Meta>, nat), Error>)
    ensures r == ParseMetas(parse, s, count)
  {
    var metas: seq<Meta>, cur: nat := [], 0;
    var i := 0;
    assert s[0..] == s;
    ShiftedNothing(ParseMetas(parse, s, count));
    while i < count
      invariant 0 <= i <= count && cur <= |s|
      invariant ParseMetas(parse, s, count) == Shifted(metas, cur, ParseMetas(parse, s[cur..], count - i))
    {
      var m := parse(s[cur..]);
      ShiftedOnce(parse, metas, cur, s[cur..], count - i);
      if m.Err? {
        return Err(m.error);
      }
      if m.value.1 > |s| - cur {
        return Err(InvalidCell);
      }
      assert s[cur..][m.value.1..] == s[cur + m.value.1..];
      metas := metas + [m.value.0];
      cur := cur + m.value.1;
      i := i + 1;
    }
    assert metas + [] == metas;
    return Ok((metas, cur));
  }

  lemma ShiftedOnce(parse: MetaParser, metas: seq<Meta>, cur: nat, t: seq<byte>, count: nat)
    requires count > 0
    ensures Shifted(metas, cur, ParseMetas(parse, t, count))
         == match parse(t)
            case Err(e) => Err(e)
            case Ok((m, end)) =>
              if end > |t| then Err(InvalidCell)
              else Shifted(metas + [m], cur + end, ParseMetas(parse, t[end..], count - 1))
  {
    var m := parse(t);
    if m.Ok? && m.value.1 <= |t| {
      var rest := ParseMetas(parse, t[m.value.1..], count - 1);
      assert rest.Ok? ==> metas + ([m.value.0] + rest.value.0) == metas + [m.value.0] + rest.value.0;
    }
  }

  lemma ShiftedNothing(r: Result<(seq<Meta>, nat), Error>)
    ensures Shifted([], 0, r) == r
  {
    if r.Ok? {
      assert [] + r.value.0 == r.value.0;
    }
  }

  function Shifted(metas: seq<Meta>, cur: nat, r: Result<(seq<Meta>, nat), Error>): Result<(seq<Meta>, nat), Error> {
    match r
    case Err(e) => Err(e)
    case Ok((ms, used)) => Ok((metas + ms, cur + used))
  }

  /** The pieces from cell i on, when the data before them ends at at. */
  function CutFrom(metas: seq<Meta>, data: seq<byte>, i: nat, at: nat): seq<Piece>
    requires i <= |metas|
  {
    if at <= |data| then Cut(metas[i..], data[at..]) else AllOutside(|metas| - i)
  }

  lemma CutStep(metas: seq<Meta>, data: seq<byte>, i: nat, at: nat)
    requires i < |metas|
    ensures
      var end := at + DataLen(metas[i]);
      CutFrom(metas, data, i, at) == [if end <= |data| then Piece(data[at..end]) else Outside] + CutFrom(metas, data, i + 1, end)
  {
    var len := DataLen(metas[i]);
    assert metas[i..][1..] == metas[i + 1..];
    if at + len <= |data| {
      assert data[at..][..len] == data[at..at + len] && data[at..][len..] == data[at + len..];
    } else {
      assert AllOutside(|metas| - i) == [Outside] + AllOutside(|metas| - i - 1);
    }
  }

  /** The data intervals from running offsets. */
  method CutData(metas: seq<Meta>, data: seq<byte>) returns (ps: seq<Piece>)
    ensures ps == Cut(metas, data)
  {
    ps := [];
    var at: nat, i := 0, 0;
    assert metas[0..] == metas && data[0..] == data;
    ghost var all := CutFrom(metas, data, 0, 0);
    while i < |metas|
      invariant 0 <= i <= |metas| && all == ps + CutFrom(metas, data, i, at)
    {
      CutStep(metas, data, i, at);
      var end := at + DataLen(metas[i]);
      var piece := if end <= |data| then Piece(data[at..end]) else Outside;
      PieceMoved(ps, piece, CutFrom(metas, data, i + 1, end));
      ps := ps + [piece];
      at := end;
      i := i + 1;
    }
  }

  lemma PieceMoved(a: seq<Piece>, p: Piece, b: seq<Piece>)
    ensures a + ([p] + b) == a + [p] + b
  {
  }

  /** Builds the cells along the order; places tells where in the list a cell has been put. */
  method BuildCells(f: Front, order: seq<nat>) returns (r: Result<seq<Cell>, Error>)
    requires FrontOk(f) && Topological(MetaRefs(f.metas), order)
    ensures r == RootsBuilt(f, order)
  {
    var n := |f.metas|;
    var places := new int[n](i => -1);
    var list: seq<Cell> := [];
    var p := 0;
    assert order[..0] == [];
    while p < |order|
      invariant 0 <= p <= |order| && Topological(MetaRefs(f.metas), order[..p])
      invariant BuildAlong(f, order[..p]) == Ok(list)
      invariant PlacesAre(places[..], order[..p], n)
    {
      var idx := order[p];
      TopologicalPrefix(MetaRefs(f.metas), order, p);
      TopologicalPrefix(MetaRefs(f.metas), order, p + 1);
      assert order[..p + 1][..p] == order[..p] && order[..p + 1][p] == idx;
      var c := CellOf(f, idx);
      if c.Err? {
        FailsLater(f, order, p);
        return Err(c.error);
      }
      var cell := AssembleCell(c.value, order[..p], list, places[..]);
      PlacesMore(places[..], order[..p], n, idx);
      ghost var before := places[..];
      places[idx] := |list|;
      assert places[..] == before[idx := |order[..p]|];
      assert order[..p] + [idx] == order[..p + 1];
      list := list + [cell];
      p := p + 1;
    }
    assert order[..p] == order;
    r := TakeRoots(f.roots, order, list, places[..]);
  }

  /** The cells of the roots, where places tells. */
  method TakeRoots(roots: seq<nat>, ghost order: seq<nat>, list: seq<Cell>, places: seq<int>)
    returns (r: Result<seq<Cell>, Error>)
    requires |list| == |order| && PlacesAre(places, order, |places|) && forall v :: v in roots ==> v < |places|
    ensures r == PickRoots(roots, order, list)
  {
    var cells: seq<Cell> := [];
    var i := 0;
    assert roots[0..] == roots;
    BehindNothing(PickRoots(roots, order, list));
    while i < |roots|
      invariant 0 <= i <= |roots|
      invariant PickRoots(roots, order, list) == Behind(cells, PickRoots(roots[i..], order, list))
    {
      assert roots[i..][0] == roots[i] && roots[i..][1..] == roots[i + 1..] && roots[i] in roots;
      if places[roots[i]] == -1 {
        return Err(OutOfBounds);
      }
      BehindOneMore(cells, list[places[roots[i]]], PickRoots(roots[i + 1..], order, list));
      cells := cells + [list[places[roots[i]]]];
      i := i + 1;
    }
    assert Behind(cells, PickRoots([], order, list)) == Ok(cells + []) && cells + [] == cells;
    return Ok(cells);
  }

  /** places[i] is where i comes in the order, or -1. */
  ghost predicate PlacesAre(places: seq<int>, order: seq<nat>, n: nat) {
    && |places| == n && (forall p :: 0 <= p < |order| ==> order[p] < n)
    && forall i: nat :: i < n ==> places[i] == if i in order then Place(order, i) else -1
  }

  lemma PlacesMore(places: seq<int>, order: seq<nat>, n: nat, idx: nat)
    requires PlacesAre(places, order, n) && idx < n && idx !in order
    ensures PlacesAre(places[idx := |order|], order + [idx], n)
  {
    var more := order + [idx];
    forall i: nat | i < n
      ensures places[idx := |order|][i] == if i in more then Place(more, i) else -1
    {
      assert more[..|more| - 1] == order;
    }
  }

  /** A cell that is invalid ends the reading, whatever comes behind it. */
  lemma {:induction false} FailsLater(f: Front, order: seq<nat>, p: nat)
    requires FrontOk(f) && Topological(MetaRefs(f.metas), order) && p < |order|
    requires Topological(MetaRefs(f.metas), order[..p]) && BuildAlong(f, order[..p]).Ok? && CellOf(f, order[p]).Err?
    ensures BuildAlong(f, order) == Err(CellOf(f, order[p]).error)
    decreases |order|
  {
    var m := |order| - 1;
    TopologicalPrefix(MetaRefs(f.metas), order, m);
    if p < m {
      assert order[..m][..p] == order[..p];
      FailsLater(f, order[..m], p);
    }
  }

  method AssembleCell(c: CellInfo, ghost order: seq<nat>, list: seq<Cell>, places: seq<int>) returns (cell: Cell)
    requires |list| == |order| && PlacesAre(places, order, |places|) && forall v :: v in c.refs ==> v in order
    ensures cell == Assemble(c, order, list)
  {
    var refs: seq<Cell> := [];
    var k := 0;
    while k < |c.refs|
      invariant 0 <= k <= |c.refs| && |refs| == k
      invariant forall j :: 0 <= j < k ==> c.refs[j] in order && refs[j] == list[Place(order, c.refs[j])]
    {
      assert c.refs[k] in c.refs;
      refs := refs + [list[places[c.refs[k]]]];
      k := k + 1;
    }
    cell := Cell(c.special, c.level, c.bits, refs);
  }

  /** Reads a bag, builds its cells in topological order, and returns the roots. */
  method Deserialize(s: seq<byte>, maxRoots: nat) returns (r: Result<seq<Cell>, Error>, ghost order: seq<nat>)
    ensures match ReadFront(s, maxRoots)
            case Err(e) => r == Err(e)
            case Ok(f) =>
              && Topological(MetaRefs(f.metas), order) && Exhausted(MetaRefs(f.metas), order)
              && (|order| == |f.metas| <==> Acyclic(MetaRefs(f.metas)))
              && r == RootsBuilt(f, order)
  {
    order := [];
    var f := ReadFrontBytes(s, maxRoots);
    if f.Err? {
      return Err(f.error), [];
    }
    GraphOfFront(f.value);
    var o := TopolOrder(MetaRefs(f.value.metas));
    r := BuildCells(f.value, o);
    order := o;
  }

  lemma GraphOfFront(f: Front)
    requires FrontOk(f)
    ensures Graph(MetaRefs(f.metas))
  {
    var refs := MetaRefs(f.metas);
    forall i: nat, v: nat {:trigger v in refs[i]} | i < |refs| && v in refs[i]
      ensures v < |refs|
    {
      var k :| 0 <= k < |refs[i]| && refs[i][k] == v;
      assert f.metas[i].refs[k] == v;
    }
  }

  method ReadFrontBytes(s: seq<byte>, maxRoots: nat) returns (r: Result<Front, Error>)
    ensures r == ReadFront(s, maxRoots)
  {
    var h := ParseHeader(s);
    if h.Invalid? {
      return Err(InvalidHeader);
    }
    if h.Short? {
      return Err(NotEnough(h.need));
    }
    var info := h.info;
    if info.totalSize > |s| {
      return Err(NotEnough(info.totalSize));
    }
    if info.rootCount > maxRoots {
      return Err(TooManyRoots);
    }
    if info.hasIndex || info.hasCrc || info.hasCache {
      return Err(Foreign);
    }
    r := ReadInsideBytes(s, info);
  }

  method ReadInsideBytes(s: seq<byte>, info: Info) returns (r: Result<Front, Error>)
    ensures r == ReadInside(s, info)
  {
    var rootsEnd := info.rootsOffset + info.rootCount * info.refSize;
    if rootsEnd > |s| || info.dataOffset + info.dataSize > |s| {
      return Err(OutOfBounds);
    }
    var roots := ReadRootBytes(s[info.rootsOffset..rootsEnd], info.rootCount, info.refSize, info.cellCount);
    if roots.Err? {
      return Err(roots.error);
    }
    r := ReadAreaBytes(s[info.dataOffset..info.dataOffset + info.dataSize], info.cellCount, info.refSize, roots.value);
  }

  method ReadRootBytes(s: seq<byte>, count: nat, refSize: nat, n: nat) returns (r: Result<seq<nat>, Error>)
    requires count * refSize == |s|
    ensures r == ReadRoots(s, count, refSize, n)
  {
    var roots: seq<nat> := [];
    var i, rest := 0, s;
    BehindNothing(ReadRoots(s, count, refSize, n));
    while i < count
      invariant 0 <= i <= count && |rest| == (count - i) * refSize
      invariant ReadRoots(s, count, refSize, n) == Behind(roots, ReadRoots(rest, count - i, refSize, n))
    {
      RefFits(count - i, refSize);
      var v := ReadInt(rest[..refSize]);
      var root := ToInt(v);
      if root < 0 || root >= n {
        return Err(InvalidRoot);
      }
      BehindOneMore(roots, root, ReadRoots(rest[refSize..], count - i - 1, refSize, n));
      roots, rest := roots + [root], rest[refSize..];
      i := i + 1;
    }
    assert roots + [] == roots;
    return Ok(roots);
  }

  method ReadAreaBytes(area: seq<byte>, cellCount: nat, refSize: nat, roots: seq<nat>) returns (r: Result<Front, Error>)
    ensures r == ReadArea(area, cellCount, refSize, roots)
  {
    var metas := ReadMetas(MetaReader(refSize), area, cellCount);
    if metas.Err? {
      return Err(metas.error);
    }
    var pieces := CutData(metas.value.0, area[metas.value.1..]);
    var f := Front(metas.value.0, pieces, roots);
    return if FrontOk(f) then Ok(f) else Err(OutOfBounds);
  }

  // ---------------------------------------------------------------- end to end

  /** A bag written and read back is the cell its root stands for. */
  method WriteAndRead(cells: seq<CellInfo>, root: nat, ghost rank: seq<nat>)
    returns (out: seq<byte>, r: Result<seq<Cell>, Error>)
    requires Storable(cells, root) && Ranked(Refs(cells), rank)
    ensures r == Ok([Unfold(cells, rank, root)])
  {
    out := Serialize(cells, root);
    ghost var order;
    r, order := Deserialize(out, 1);
    ghost var w, root1, f := WrittenIsRead(cells, root, out);
    RootIsUnfold(cells, rank, root, w, root1, f, order);
  }

  lemma WrittenIsRead(cells: seq<CellInfo>, root: nat, s: seq<byte>) returns (w: seq<CellInfo>, root1: nat, f: Front)
    requires Storable(cells, root) && s == Serialized(cells, root)
    ensures w == Flipped(cells) && AllFit(w) && root1 == |cells| - 1 - root && f == FrontOf(w, root1)
    ensures ReadFront(s, 1) == Ok(f) && MetaRefs(f.metas) == Refs(w)
  {
    assert s == Serialized(cells, root) + [];
    w, root1, f := SerializedRead(cells, root, [], 1, s);
  }

  /** A bag permuted by any gene, written and read back is the cell it was made from. */
  method PermuteAndBack(list: array<CellInfo>, root: nat, gene: seq<nat>, ghost rank: seq<nat>)
    returns (out: seq<byte>, r: Result<seq<Cell>, Error>)
    requires Storable(list[..], root) && Ranked(Refs(list[..]), rank)
    requires gene == [] || (IsPerm(gene) && |gene| == list.Length)
    modifies list
    ensures r == Ok([Unfold(old(list[..]), rank, root)])
  {
    ghost var cells := list[..];
    var perm, root1 := Permute(list, root, gene);
    StorableKept(cells, perm, list[..], root);
    ghost var rank1 := RenumberedRanked(cells, rank, perm, list[..]);
    RenumberedUnfold(cells, rank, perm, list[..], rank1, root);
    out, r := WriteAndRead(list[..], root1, rank1);
  }

  /** Renumbering keeps what writing needs. */
  lemma StorableKept(cells: seq<CellInfo>, perm: seq<nat>, w: seq<CellInfo>, root: nat)
    requires Storable(cells, root) && Renumbered(cells, perm, w)
    ensures Storable(w, perm[root])
  {
    forall c | c in w
      ensures Fits(c) && forall v :: v in c.refs ==> v < |w|
    {
      var k :| 0 <= k < |w| && w[k] == c;
      RenumberedKeepsSize(cells, perm, w, k);
      assert cells[Origin(perm, k)] in cells;
    }
    forall i: nat, v: nat {:trigger v in Refs(w)[i]} | i < |w| && v in Refs(w)[i]
      ensures v < |w|
    {
      assert w[i] in w;
    }
    forall k: nat | k < |w| && k != perm[root]
      ensures Referred(w, k)
    {
      var i := Origin(perm, k);
      assert Referred(cells, i);
      var j :| 0 <= j < |cells| && i in cells[j].refs;
      var m :| 0 <= m < |cells[j].refs| && cells[j].refs[m] == i;
      assert Moved(cells, perm, w, j);
      assert w[perm[j]].refs[m] == k;
    }
  }
}
