/**
 The split bag-of-cells format on values: header, then the metadata of all cells, then the data of all
 cells; what a reader makes of any bytes, and that it recovers the cells that were written.
 */
module BagFormat {
  import opened Sequences
  import opened Bytes
  import opened Results
  import opened Permutations
  import opened BagTopology
  import opened BagGraph
  import opened BagBits

  // ---------------------------------------------------------------- integers of given width

  function BigEndian(v: nat, n: nat): (s: seq<byte>)
    ensures |s| == n
    decreases n, v
  {
    if n == 0 then [] else BigEndian(v / 256, n - 1) + [v % 256]
  }

  function Pow256(n: nat): (p: nat)
    ensures p > 0
  {
    if n == 0 then 1 else 256 * Pow256(n - 1)
  }

  lemma {:induction false} BigEndianValue(v: nat, n: nat)
    requires v < Pow256(n)
    ensures Value(BigEndian(v, n)) == v
    decreases n
  {
    if n > 0 {
      BigEndianValue(v / 256, n - 1);
      ValueAppend(BigEndian(v / 256, n - 1), v % 256);
    }
  }

  /** The least number of bytes that holds v. */
  function ByteSize(v: nat): nat { if v == 0 then 0 else 1 + ByteSize(v / 256) }

  lemma {:induction false} ByteSizeIs(v: nat, k: nat)
    ensures v < Pow256(k) <==> ByteSize(v) <= k
    decreases k
  {
    if v > 0 && k > 0 {
      ByteSizeIs(v / 256, k - 1);
    }
  }

  /** A 32-bit number read into a signed int. */
  function ToInt(v: nat): int { if v < TWO31 then v else v - TWO32 }

  // ---------------------------------------------------------------- the header

  const GENERIC := 0xb5ee9c72
  const INDEXED := 0x68ff65f3
  const INDEXED_CRC := 0xacc3a728

  datatype Info = Info(refSize: nat, offsetSize: nat, cellCount: nat, rootCount: nat, rootsOffset: nat, dataOffset: nat,
                       dataSize: nat, totalSize: nat, hasIndex: bool, hasCrc: bool, hasCache: bool)

  /** A header that is no header, one that needs more bytes, or one that is complete. */
  datatype HeaderResult = Invalid | Short(need: nat) | Complete(info: Info)

  function ParseHeader(s: seq<byte>): HeaderResult {
    var sz := if |s| < 0xffff then |s| else 0xffff;
    if sz < 4 then Short(10)
    else
      var magic := Value(s[..4]);
      if magic != GENERIC && magic != INDEXED && magic != INDEXED_CRC then Invalid
      else if sz < 5 then Short(10)
      else
        var generic, flags := magic == GENERIC, s[4];
        var hasIndex := !generic || flags / 128 % 2 == 1;
        var hasCrc := if generic then flags / 64 % 2 == 1 else magic == INDEXED_CRC;
        var hasCache := generic && flags / 32 % 2 == 1;
        var refSize := flags % 8;
        if hasCache && !hasIndex then Invalid
        else if refSize > 4 || refSize < 1 then Invalid
        else if sz < 6 then Short(7 + 3 * refSize)
        else if s[5] > 8 || s[5] < 1 then Invalid
        else ParseCounts(s[6..], sz - 6, generic, hasIndex, hasCrc, hasCache, refSize, s[5])
  }

  function ParseCounts(s: seq<byte>, sz: nat, generic: bool, hasIndex: bool, hasCrc: bool, hasCache: bool, refSize: nat,
                       offsetSize: nat): HeaderResult
    requires sz <= |s| && refSize >= 1
  {
    var rootsOffset := 6 + 3 * refSize + offsetSize;
    if sz < refSize then Short(rootsOffset)
    else
      var cellCount := ToInt(Value(s[..refSize]));
      if cellCount <= 0 then Invalid
      else if sz < 2 * refSize then Short(rootsOffset)
      else
        var rootCount := ToInt(Value(s[refSize..2 * refSize]));
        if rootCount <= 0 then Invalid
        else if !generic && rootCount != 1 then Invalid
        else
          var indexOffset := rootsOffset + if generic then Times(rootCount, refSize) else 0;
          var dataOffset := indexOffset + if hasIndex then Times(cellCount, offsetSize) else 0;
          if sz < 3 * refSize then Short(rootsOffset)
          else
            var absentCount := ToInt(Value(s[2 * refSize..3 * refSize]));
            if absentCount < 0 || absentCount > cellCount then Invalid
            else if sz < 3 * refSize + offsetSize then Short(rootsOffset)
            else
              var dataSize := Value(s[3 * refSize..3 * refSize + offsetSize]);
              if !SizesFit(dataSize, cellCount, refSize) then Invalid
              else
                Complete(Info(refSize, offsetSize, cellCount, rootCount, rootsOffset, dataOffset, dataSize,
                              dataOffset + dataSize + if hasCrc then 4 else 0, hasIndex, hasCrc, hasCache))
  }

  function Times(a: nat, b: nat): nat { a * b }

  /** The bounds on the size of the cells, both from the number of cells. */
  predicate SizesFit(dataSize: nat, cellCount: nat, refSize: nat) {
    && dataSize <= cellCount * 1024
    && dataSize <= 0x100_0000_0000
    && dataSize + refSize >= cellCount * (2 + refSize)
  }

  // ---------------------------------------------------------------- reading

  datatype Error = InvalidHeader | NotEnough(need: nat) | TooManyRoots | InvalidRoot | InvalidCell | OverlongData
                 | OutOfBounds    // where the source reads outside a vector
                 | Foreign        // index, checksum, cache bits or stored hashes

  /** d2 counts the whole bytes of data twice, and once more when the last byte is not full. */
  datatype Meta = Meta(special: bool, level: nat, d2: byte, refs: seq<nat>)

  function DataLen(m: Meta): nat { m.d2 / 2 + m.d2 % 2 }

  predicate WithTag(m: Meta) { m.d2 % 2 == 1 }

  function ReadRefs(s: seq<byte>, k: nat, refSize: nat): (r: seq<nat>)
    requires k * refSize <= |s|
    ensures |r| == k
    decreases k
  {
    if k == 0 then []
    else
      RefFits(k, refSize);
      [Value(s[..refSize])] + ReadRefs(s[refSize..], k - 1, refSize)
  }

  lemma RefFits(k: nat, refSize: nat)
    requires k > 0
    ensures (k - 1) * refSize == k * refSize - refSize && refSize <= k * refSize
  {
  }

  /** The metadata of a cell in front of s, and its length. */
  function ParseMeta(s: seq<byte>, refSize: nat): (r: Result<(Meta, nat), Error>)
    ensures r.Ok? ==> r.value.1 <= |s|
  {
    if |s| < 2 then Err(InvalidCell)
    else
      var count, d2 := s[0] % 8, s[1];
      if count > 4 then Err(InvalidCell)
      else if s[0] / 16 % 2 == 1 then Err(Foreign)
      else
        var end := 2 + count * refSize;
        if |s| < end then Err(InvalidCell)
        else
          Ok((Meta(s[0] / 8 % 2 == 1, s[0] / 32, d2, ReadRefs(s[2..], count, refSize)), end))
  }

  /** A way to read the metadata of one cell. */
  type MetaParser = seq<byte> -> Result<(Meta, nat), Error>

  function ParseMetas(parse: MetaParser, s: seq<byte>, count: nat): (r: Result<(seq<Meta>, nat), Error>)
    ensures r.Ok? ==> r.value.1 <= |s| && |r.value.0| == count
    decreases count
  {
    if count == 0 then Ok(([], 0))
    else
      match parse(s)
      case Err(e) => Err(e)
      case Ok((m, end)) =>
        if end > |s| then Err(InvalidCell)
        else
          match ParseMetas(parse, s[end..], count - 1)
          case Err(e) => Err(e)
          case Ok((ms, used)) => Ok(([m] + ms, end + used))
  }

  function MetaReader(refSize: nat): MetaParser { s => ParseMeta(s, refSize) }

  /** The data of one cell, or that it lies outside. */
  datatype Piece = Outside | Piece(bytes: seq<byte>)

  /** Cuts the data into the pieces of the cells, one after the other. */
  function Cut(metas: seq<Meta>, data: seq<byte>): (ps: seq<Piece>)
    ensures |ps| == |metas|
  {
    if metas == [] then []
    else if DataLen(metas[0]) > |data| then [Outside] + AllOutside(|metas| - 1)
    else [Piece(data[..DataLen(metas[0])])] + Cut(metas[1..], data[DataLen(metas[0])..])
  }

  function AllOutside(n: nat): (ps: seq<Piece>)
    ensures |ps| == n
  {
    seq(n, i => Outside)
  }

  /** What has been read before the cells are built. */
  datatype Front = Front(metas: seq<Meta>, pieces: seq<Piece>, roots: seq<nat>)

  function MetaRefs(metas: seq<Meta>): (r: seq<seq<nat>>)
    ensures |r| == |metas| && forall i :: 0 <= i < |metas| ==> r[i] == metas[i].refs
  {
    seq(|metas|, i requires 0 <= i < |metas| => metas[i].refs)
  }

  predicate FrontOk(f: Front) {
    && |f.metas| == |f.pieces| && (forall v :: v in f.roots ==> v < |f.metas|)
    && forall i, k :: 0 <= i < |f.metas| && 0 <= k < |f.metas[i].refs| ==> f.metas[i].refs[k] < |f.metas|
  }

  /** The indices of k roots among n cells, up to the first that is out of range. */
  function ReadRoots(s: seq<byte>, k: nat, refSize: nat, n: nat): (r: Result<seq<nat>, Error>)
    requires k * refSize <= |s|
    ensures r.Ok? ==> |r.value| == k && forall v :: v in r.value ==> v < n
    decreases k
  {
    if k == 0 then Ok([])
    else
      RefFits(k, refSize);
      var root := ToInt(Value(s[..refSize]));
      if root < 0 || root >= n then Err(InvalidRoot)
      else
        match ReadRoots(s[refSize..], k - 1, refSize, n)
        case Err(e) => Err(e)
        case Ok(more) => Ok([root as nat] + more)
  }

  /** What the header lets be read, of len bytes. */
  function Admitted(h: HeaderResult, len: nat, maxRoots: nat): Result<Info, Error> {
    match h
    case Invalid => Err(InvalidHeader)
    case Short(n) => Err(NotEnough(n))
    case Complete(info) =>
      if info.totalSize > len then Err(NotEnough(info.totalSize))
      else if info.rootCount > maxRoots then Err(TooManyRoots)
      else if info.hasIndex || info.hasCrc || info.hasCache then Err(Foreign)
      else Ok(info)
  }

  /** Goes on reading s behind its header. */
  function ReadInside(s: seq<byte>, info: Info): (r: Result<Front, Error>)
    ensures r.Ok? ==> FrontOk(r.value)
  {
    var rootsEnd := info.rootsOffset + Times(info.rootCount, info.refSize);
    if rootsEnd > |s| || info.dataOffset + info.dataSize > |s| then Err(OutOfBounds)
    else
      match ReadRoots(s[info.rootsOffset..rootsEnd], info.rootCount, info.refSize, info.cellCount)
      case Err(e) => Err(e)
      case Ok(roots) => ReadArea(s[info.dataOffset..info.dataOffset + info.dataSize], info.cellCount, info.refSize, roots)
  }

  function ReadArea(area: seq<byte>, cellCount: nat, refSize: nat, roots: seq<nat>): (r: Result<Front, Error>)
    ensures r.Ok? ==> FrontOk(r.value)
  {
    match ParseMetas(MetaReader(refSize), area, cellCount)
    case Err(e) => Err(e)
    case Ok((metas, used)) =>
      var f := Front(metas, Cut(metas, area[used..]), roots);
      if FrontOk(f) then Ok(f) else Err(OutOfBounds)
  }

  function ReadFront(s: seq<byte>, maxRoots: nat): (r: Result<Front, Error>)
    ensures r.Ok? ==> FrontOk(r.value)
  {
    match Admitted(ParseHeader(s), |s|, maxRoots)
    case Err(e) => Err(e)
    case Ok(info) => ReadInside(s, info)
  }

  function ReadCell(m: Meta, p: Piece): (r: Result<CellInfo, Error>)
    ensures r.Ok? ==> r.value.refs == m.refs
  {
    if p.Outside? || (WithTag(m) && p.bytes == []) then Err(OutOfBounds)
    else
      match Unpacked(p.bytes, WithTag(m))
      case Err(_) => Err(OverlongData)
      case Ok(bits) => Ok(CellInfo(m.special, m.level, bits, m.refs))
  }

  function CellOf(f: Front, i: nat): (r: Result<CellInfo, Error>)
    requires i < |f.metas| == |f.pieces|
    ensures r.Ok? ==> r.value.refs == f.metas[i].refs
  {
    ReadCell(f.metas[i], f.pieces[i])
  }

  /** The cells built along the order, up to the first that is invalid. */
  function BuildAlong(f: Front, order: seq<nat>): (r: Result<seq<Cell>, Error>)
    requires FrontOk(f) && Topological(MetaRefs(f.metas), order)
    ensures r.Ok? ==> |r.value| == |order|
  {
    if order == [] then Ok([])
    else
      var m := |order| - 1;
      TopologicalPrefix(MetaRefs(f.metas), order, m);
      match BuildAlong(f, order[..m])
      case Err(e) => Err(e)
      case Ok(b) =>
        match CellOf(f, order[m])
        case Err(e) => Err(e)
        case Ok(c) =>
          Ok(b + [Assemble(c, order[..m], b)])
  }

  /** The root cells; if a cycle kept one from being built, the source reads outside its vector. */
  function RootsBuilt(f: Front, order: seq<nat>): Result<seq<Cell>, Error>
    requires FrontOk(f) && Topological(MetaRefs(f.metas), order)
  {
    match BuildAlong(f, order)
    case Err(e) => Err(e)
    case Ok(b) => PickRoots(f.roots, order, b)
  }

  function PickRoots(roots: seq<nat>, order: seq<nat>, b: seq<Cell>): Result<seq<Cell>, Error>
    requires |b| == |order|
  {
    if roots == [] then Ok([])
    else if roots[0] !in order then Err(OutOfBounds)
    else
      match PickRoots(roots[1..], order, b)
      case Err(e) => Err(e)
      case Ok(more) => Ok([b[Place(order, roots[0])]] + more)
  }

  // ---------------------------------------------------------------- writing

  /** What a cell can hold. */
  predicate Fits(c: CellInfo) { |c.refs| <= 4 && c.level <= 7 && |c.bits| <= 1023 }

  function D1(c: CellInfo): byte
    requires Fits(c)
  {
    |c.refs| + (if c.special then 8 else 0) + 32 * c.level
  }

  function D2(c: CellInfo): byte
    requires Fits(c)
  {
    |c.bits| / 8 * 2 + if |c.bits| % 8 != 0 then 1 else 0
  }

  function RefBytes(refs: seq<nat>, refSize: nat): (s: seq<byte>)
    ensures |s| == |refs| * refSize
  {
    if refs == [] then []
    else
      RefFits(|refs|, refSize);
      BigEndian(refs[0], refSize) + RefBytes(refs[1..], refSize)
  }

  function MetaBytes(c: CellInfo, refSize: nat): seq<byte>
    requires Fits(c)
  {
    [D1(c), D2(c)] + RefBytes(c.refs, refSize)
  }

  predicate RefsBelow(c: CellInfo, n: nat) { forall v :: v in c.refs ==> v < n }

  ghost predicate AllBelow(cells: seq<CellInfo>, n: nat) { forall c :: c in cells ==> RefsBelow(c, n) }

  ghost predicate AllFit(cells: seq<CellInfo>) { forall c :: c in cells ==> Fits(c) }

  function AllMetas(cells: seq<CellInfo>, refSize: nat): seq<byte>
    requires AllFit(cells)
  {
    if cells == [] then [] else MetaBytes(cells[0], refSize) + AllMetas(cells[1..], refSize)
  }

  function AllData(cells: seq<CellInfo>): seq<byte> {
    if cells == [] then [] else Packed(cells[0].bits) + AllData(cells[1..])
  }

  /** The bytes of all cells without their references, and the number of references. */
  function DataBytes(cells: seq<CellInfo>): nat {
    if cells == [] then 0 else 2 + (|cells[0].bits| + 7) / 8 + DataBytes(cells[1..])
  }

  function RefCount(cells: seq<CellInfo>): nat {
    if cells == [] then 0 else |cells[0].refs| + RefCount(cells[1..])
  }

  lemma {:induction false} AreaSize(cells: seq<CellInfo>, refSize: nat)
    requires AllFit(cells)
    ensures |AllMetas(cells, refSize)| + |AllData(cells)| == DataBytes(cells) + RefCount(cells) * refSize
    ensures 2 * |cells| <= DataBytes(cells) <= 130 * |cells| && RefCount(cells) <= 4 * |cells|
  {
    if cells != [] {
      assert cells[0] in cells && Fits(cells[0]);
      AreaSize(cells[1..], refSize);
      assert (|cells[0].refs| + RefCount(cells[1..])) * refSize == |cells[0].refs| * refSize + RefCount(cells[1..]) * refSize;
    }
  }

  /** Strings of bytes one behind the other. */
  function Concat(parts: seq<seq<byte>>): seq<byte> {
    if parts == [] then [] else parts[0] + Concat(parts[1..])
  }

  lemma ConcatTwo(a: seq<byte>, b: seq<byte>)
    ensures Concat([a, b]) == a + b
  {
    assert [a, b][1..] == [b] && [b][1..] == [];
    assert Concat([b]) == b + Concat([]) == b;
  }

  lemma ConcatMore(a: seq<byte>, parts: seq<seq<byte>>)
    ensures Concat([a] + parts) == a + Concat(parts)
  {
    assert ([a] + parts)[1..] == parts;
  }

  lemma ConcatFive(a: seq<byte>, b: seq<byte>, c: seq<byte>, d: seq<byte>, e: seq<byte>)
    ensures Concat([a, b, c, d, e]) == a + (b + (c + (d + e)))
  {
    ConcatTwo(d, e);
    ConcatMore(c, [d, e]);
    ConcatMore(b, [c] + [d, e]);
    ConcatMore(a, [b] + ([c] + [d, e]));
    assert [a, b, c, d, e] == [a] + ([b] + ([c] + [d, e]));
  }

  /** Magic number, and the sizes of references and offsets. */
  function HeaderFront(refSize: nat, offsetSize: nat): (s: seq<byte>)
    requires 1 <= refSize <= 4 && 1 <= offsetSize <= 8
    ensures |s| == 6
  {
    [0xb5, 0xee, 0x9c, 0x72] + [refSize] + [offsetSize]
  }

  /** The header up to the root. */
  function HeaderStart(n: nat, refSize: nat, offsetSize: nat, dataSize: nat): (s: seq<byte>)
    requires 1 <= refSize <= 4 && 1 <= offsetSize <= 8
    ensures |s| == 6 + 3 * refSize + offsetSize
  {
    ConcatFive(HeaderFront(refSize, offsetSize), BigEndian(n, refSize), BigEndian(1, refSize), BigEndian(0, refSize),
               BigEndian(dataSize, offsetSize));
    Concat([HeaderFront(refSize, offsetSize), BigEndian(n, refSize), BigEndian(1, refSize), BigEndian(0, refSize),
            BigEndian(dataSize, offsetSize)])
  }

  /** The number of cells fits an int, each cell can be stored, and every cell but the root is referred to. */
  ghost predicate Storable(cells: seq<CellInfo>, root: nat) {
    && root < |cells| < TWO31 && AllFit(cells) && Graph(Refs(cells))
    && forall i :: 0 <= i < |cells| && i != root ==> Referred(cells, i)
  }

  ghost predicate Referred(cells: seq<CellInfo>, i: nat) {
    exists k :: 0 <= k < |cells| && i in cells[k].refs
  }

  function AreaBytes(cells: seq<CellInfo>): nat { DataBytes(cells) + RefCount(cells) * ByteSize(|cells|) }

  lemma SizesInRange(cells: seq<CellInfo>)
    requires 0 < |cells| < TWO31 && AllFit(cells)
    ensures 1 <= ByteSize(|cells|) <= 4 && 1 <= ByteSize(AreaBytes(cells)) <= 8
    ensures 2 <= AreaBytes(cells) <= 146 * |cells|
  {
    var n, rs := |cells|, ByteSize(|cells|);
    assert Pow256(4) == TWO32;
    assert Pow256(8) == TWO32 * TWO32 by { Pow256Eight(); }
    ByteSizeIs(n, 4);
    AreaSize(cells, rs);
    TimesAtMost(RefCount(cells), rs, 4);
    ByteSizeIs(AreaBytes(cells), 8);
  }

  lemma Pow256Eight()
    ensures Pow256(8) == TWO32 * TWO32
  {
    assert Pow256(5) == 256 * TWO32;
    assert Pow256(6) == 256 * Pow256(5);
    assert Pow256(7) == 256 * Pow256(6);
  }

  lemma TimesAtMost(a: nat, b: nat, c: nat)
    requires b <= c
    ensures 0 <= a * b <= a * c
  {
    assert a * (c - b) >= 0;
  }

  /** The list as it is written: last cell first, and references to match. */
  function Flip(n: nat): (p: seq<nat>)
    ensures |p| == n && forall i :: 0 <= i < n ==> p[i] == n - 1 - i
  {
    seq(n, i requires 0 <= i < n => n - 1 - i)
  }

  lemma FlipIsPerm(n: nat)
    ensures IsPerm(Flip(n))
  {
  }

  lemma AllRefsBelow(cells: seq<CellInfo>)
    requires Graph(Refs(cells))
    ensures forall i :: 0 <= i < |cells| ==> RefsBelow(cells[i], |cells|)
  {
    forall i | 0 <= i < |cells|
      ensures RefsBelow(cells[i], |cells|)
    {
      assert Refs(cells)[i] == cells[i].refs;
    }
  }

  function FlippedCell(c: CellInfo, n: nat): CellInfo
    requires RefsBelow(c, n)
  {
    FlipIsPerm(n);
    WithRefs(c, Flip(n))
  }

  function Flipped(cells: seq<CellInfo>): (r: seq<CellInfo>)
    requires Graph(Refs(cells))
    ensures |r| == |cells|
  {
    AllRefsBelow(cells);
    seq(|cells|, k requires 0 <= k < |cells| && RefsBelow(cells[|cells| - 1 - k], |cells|)
                 => FlippedCell(cells[|cells| - 1 - k], |cells|))
  }

  lemma FlippedAt(cells: seq<CellInfo>, k: nat)
    requires Graph(Refs(cells)) && k < |cells|
    ensures
      var c, w := cells[|cells| - 1 - k], Flipped(cells)[k];
      && w == c.(refs := w.refs) && |w.refs| == |c.refs|
      && forall j :: 0 <= j < |c.refs| ==> c.refs[j] < |cells| && w.refs[j] == |cells| - 1 - c.refs[j]
  {
    var c := cells[|cells| - 1 - k];
    AllRefsBelow(cells);
    assert RefsBelow(c, |cells|) && Flipped(cells)[k] == FlippedCell(c, |cells|);
    FlippedCellAt(c, |cells|);
  }

  lemma FlippedCellAt(c: CellInfo, n: nat)
    requires RefsBelow(c, n)
    ensures
      var w := FlippedCell(c, n);
      && w == c.(refs := w.refs) && |w.refs| == |c.refs|
      && forall j :: 0 <= j < |c.refs| ==> c.refs[j] < n && w.refs[j] == n - 1 - c.refs[j]
  {
    assert forall j :: 0 <= j < |c.refs| ==> c.refs[j] in c.refs;
  }

  lemma FlippedFits(cells: seq<CellInfo>)
    requires Graph(Refs(cells)) && AllFit(cells)
    ensures AllFit(Flipped(cells))
    ensures AllBelow(Flipped(cells), |cells|)
  {
    var w := Flipped(cells);
    forall c | c in w
      ensures Fits(c) && RefsBelow(c, |cells|)
    {
      var k :| 0 <= k < |w| && w[k] == c;
      FlippedAt(cells, k);
      assert cells[|cells| - 1 - k] in cells;
    }
  }

  predicate SameSizes(a: CellInfo, b: CellInfo) { |a.bits| == |b.bits| && |a.refs| == |b.refs| }

  lemma {:induction false} LastSizes(cells: seq<CellInfo>)
    requires cells != []
    ensures
      var m := |cells| - 1;
      && DataBytes(cells) == DataBytes(cells[..m]) + 2 + (|cells[m].bits| + 7) / 8
      && RefCount(cells) == RefCount(cells[..m]) + |cells[m].refs|
    decreases |cells|
  {
    var m := |cells| - 1;
    if m > 0 {
      LastSizes(cells[1..]);
      assert cells[1..][..m - 1] == cells[..m][1..];
    } else {
      assert cells[1..] == [] && cells[..m] == [];
    }
  }

  lemma {:induction false} BackwardSizes(cells: seq<CellInfo>, w: seq<CellInfo>)
    requires |w| == |cells| && forall k :: 0 <= k < |w| ==> SameSizes(w[k], cells[|cells| - 1 - k])
    ensures DataBytes(w) == DataBytes(cells) && RefCount(w) == RefCount(cells)
    decreases |cells|
  {
    if cells != [] {
      var m := |cells| - 1;
      LastSizes(cells);
      assert SameSizes(w[0], cells[m]);
      forall k | 0 <= k < m
        ensures SameSizes(w[1..][k], cells[..m][m - 1 - k])
      {
        assert SameSizes(w[k + 1], cells[m - (k + 1)]);
      }
      BackwardSizes(cells[..m], w[1..]);
    }
  }

  lemma FlippedSizes(cells: seq<CellInfo>)
    requires Graph(Refs(cells))
    ensures AreaBytes(Flipped(cells)) == AreaBytes(cells)
  {
    var w := Flipped(cells);
    forall k | 0 <= k < |w|
      ensures SameSizes(w[k], cells[|cells| - 1 - k])
    {
      FlippedAt(cells, k);
    }
    BackwardSizes(cells, w);
  }

  function Serialized(cells: seq<CellInfo>, root: nat): seq<byte>
    requires root < |cells| < TWO31 && AllFit(cells) && Graph(Refs(cells))
  {
    SizesInRange(cells);
    FlippedFits(cells);
    var refSize, w := ByteSize(|cells|), Flipped(cells);
    Written(w, |cells| - 1 - root, refSize, ByteSize(AreaBytes(cells)), AreaBytes(cells))
  }

  /** Header, metadata and data of the cells w in the order they are written. */
  function Written(w: seq<CellInfo>, root: nat, refSize: nat, offsetSize: nat, size: nat): seq<byte>
    requires 1 <= refSize <= 4 && 1 <= offsetSize <= 8 && AllFit(w)
  {
    Concat([HeaderStart(|w|, refSize, offsetSize, size), BigEndian(root, refSize), AllMetas(w, refSize), AllData(w), []])
  }

  lemma WrittenIs(w: seq<CellInfo>, root: nat, rs: nat, os: nat, size: nat)
    requires 1 <= rs <= 4 && 1 <= os <= 8 && AllFit(w)
    ensures Written(w, root, rs, os, size) == HeaderStart(|w|, rs, os, size) + BigEndian(root, rs) + (AllMetas(w, rs) + AllData(w))
  {
    var h, r, m, d := HeaderStart(|w|, rs, os, size), BigEndian(root, rs), AllMetas(w, rs), AllData(w);
    ConcatFive(h, r, m, d, []);
    assert h + (r + (m + (d + []))) == h + r + (m + d);
  }

  // ---------------------------------------------------------------- the header is read back

  lemma {:induction false} SetAtMost(s: seq<nat>)
    ensures |Elements(s)| <= |s|
  {
    if s != [] {
      var m := |s| - 1;
      SetAtMost(s[..m]);
      assert s == s[..m] + [s[m]];
      assert Elements(s) == Elements(s[..m]) + {s[m]};
    }
  }

  function AllRefs(cells: seq<CellInfo>): (r: seq<nat>)
    ensures |r| == RefCount(cells)
  {
    if cells == [] then [] else cells[0].refs + AllRefs(cells[1..])
  }

  lemma {:induction false} AllRefsContains(cells: seq<CellInfo>, k: nat, v: nat)
    requires k < |cells| && v in cells[k].refs
    ensures v in AllRefs(cells)
  {
    if k > 0 {
      AllRefsContains(cells[1..], k - 1, v);
    }
  }

  /** Each cell but the root is referred to, so there is at most one cell more than references. */
  lemma EnoughRefs(cells: seq<CellInfo>, root: nat)
    requires Storable(cells, root)
    ensures RefCount(cells) >= |cells| - 1
  {
    var s := AllRefs(cells);
    var others := Upto(|cells|) - {root};
    forall i | i in others
      ensures i in Elements(s)
    {
      assert Referred(cells, i);
      var k :| 0 <= k < |cells| && i in cells[k].refs;
      AllRefsContains(cells, k, i);
    }
    SetAtMost(s);
    SubsetSize(others, Elements(s));
  }

  lemma SizesPass(cells: seq<CellInfo>, root: nat)
    requires Storable(cells, root)
    ensures SizesFit(AreaBytes(cells), |cells|, ByteSize(|cells|))
  {
    SizesInRange(cells);
    EnoughRefs(cells, root);
    AreaSize(cells, ByteSize(|cells|));
    AreaFits(DataBytes(cells), RefCount(cells), |cells|, ByteSize(|cells|), AreaBytes(cells));
  }

  lemma AreaFits(data: nat, refs: nat, n: nat, rs: nat, area: nat)
    requires data >= 2 * n && refs + 1 >= n && area == data + refs * rs && n < TWO31 && area <= 146 * n
    ensures SizesFit(area, n, rs)
  {
    AreaAtLeast(data, refs, n, rs);
  }

  lemma AreaAtLeast(data: nat, refs: nat, n: nat, rs: nat)
    requires data >= 2 * n && refs + 1 >= n
    ensures data + refs * rs + rs >= n * (2 + rs)
  {
    ProductGrows(n, refs + 1, rs);
    assert n * (2 + rs) == 2 * n + n * rs;
    assert (refs + 1) * rs == refs * rs + rs;
  }

  lemma ProductGrows(a: nat, b: nat, c: nat)
    requires a <= b
    ensures a * c <= b * c
  {
  }

  lemma CountsParsed(s: seq<byte>, n: nat, rs: nat, os: nat, dataSize: nat, sz: nat)
    requires 1 <= rs <= 4 && 1 <= os <= 8 && 0 < n < TWO31 && n < Pow256(rs) && dataSize < Pow256(os)
    requires |s| >= sz >= 3 * rs + os && SizesFit(dataSize, n, rs)
    requires s[..rs] == BigEndian(n, rs) && s[rs..2 * rs] == BigEndian(1, rs) && s[2 * rs..3 * rs] == BigEndian(0, rs)
    requires s[3 * rs..3 * rs + os] == BigEndian(dataSize, os)
    ensures ParseCounts(s, sz, true, false, false, false, rs, os)
         == Complete(InfoOf(n, rs, os, dataSize))
  {
    BigEndianValue(n, rs);
    BigEndianValue(1, rs);
    BigEndianValue(0, rs);
    BigEndianValue(dataSize, os);
  }

  lemma MagicIs(s: seq<byte>)
    requires |s| >= 4 && s[..4] == [0xb5, 0xee, 0x9c, 0x72]
    ensures Value(s[..4]) == GENERIC
  {
    var m: seq<byte> := [0xb5, 0xee, 0x9c, 0x72];
    ValuePrefix(m, 0);
    ValuePrefix(m, 1);
    ValuePrefix(m, 2);
    ValuePrefix(m, 3);
    assert m[..4] == m && m[..0] == [];
  }

  function HeaderSize(rs: nat, os: nat): nat { 6 + 4 * rs + os }

  /** The header that has been written passes all the checks of the parser. */
  lemma HeaderParsed(n: nat, rs: nat, os: nat, dataSize: nat, z: seq<byte>, s: seq<byte>)
    requires 1 <= rs <= 4 && 1 <= os <= 8 && 0 < n < TWO31 && n < Pow256(rs) && dataSize < Pow256(os)
    requires SizesFit(dataSize, n, rs)
    requires s == HeaderStart(n, rs, os, dataSize) + z
    ensures ParseHeader(s) == Complete(InfoOf(n, rs, os, dataSize))
  {
    var t := HeaderSplits(n, rs, os, dataSize, z);
    FrontParsed(s, rs, os, t);
    CountsParsed(t, n, rs, os, dataSize, (if |s| < 0xffff then |s| else 0xffff) - 6);
  }

  /** The numbers behind the first six bytes. */
  lemma HeaderSplits(n: nat, rs: nat, os: nat, dataSize: nat, z: seq<byte>) returns (t: seq<byte>)
    requires 1 <= rs <= 4 && 1 <= os <= 8
    ensures HeaderStart(n, rs, os, dataSize) + z == HeaderFront(rs, os) + t && |t| >= 3 * rs + os
    ensures t[..rs] == BigEndian(n, rs) && t[rs..2 * rs] == BigEndian(1, rs) && t[2 * rs..3 * rs] == BigEndian(0, rs)
    ensures t[3 * rs..3 * rs + os] == BigEndian(dataSize, os)
  {
    var a, b, c, d := BigEndian(n, rs), BigEndian(1, rs), BigEndian(0, rs), BigEndian(dataSize, os);
    ConcatFive(HeaderFront(rs, os), a, b, c, d);
    InTurn(a, b, c, d, z);
    Grouped(HeaderFront(rs, os), a + (b + (c + d)), z);
    t := a + (b + (c + d)) + z;
  }

  function InfoOf(n: nat, rs: nat, os: nat, dataSize: nat): Info {
    Info(rs, os, n, 1, 6 + 3 * rs + os, HeaderSize(rs, os), dataSize, HeaderSize(rs, os) + dataSize, false, false, false)
  }

  lemma FrontParsed(s: seq<byte>, rs: byte, os: byte, t: seq<byte>)
    requires 1 <= rs <= 4 && 1 <= os <= 8 && s == HeaderFront(rs, os) + t
    ensures ParseHeader(s) == ParseCounts(t, (if |s| < 0xffff then |s| else 0xffff) - 6, true, false, false, false, rs, os)
  {
    assert s[..4] == [0xb5, 0xee, 0x9c, 0x72] && s[4] == rs && s[5] == os && s[6..] == t;
    MagicIs(s);
    NoFlags(rs);
  }

  lemma NoFlags(rs: byte)
    requires 1 <= rs <= 4
    ensures rs / 128 % 2 == rs / 64 % 2 == rs / 32 % 2 == 0 && rs % 8 == rs
  {
  }

  lemma InTurn(a: seq<byte>, b: seq<byte>, c: seq<byte>, d: seq<byte>, z: seq<byte>)
    ensures
      var t := a + (b + (c + d)) + z;
      var i, j, k := |a|, |a| + |b|, |a| + |b| + |c|;
      t[..i] == a && t[i..j] == b && t[j..k] == c && t[k..k + |d|] == d && t[k + |d|..] == z
  {
  }

  // ---------------------------------------------------------------- the cells are read back

  function MetaOf(c: CellInfo): Meta
    requires Fits(c)
  {
    Meta(c.special, c.level, D2(c), c.refs)
  }

  function MetasOf(cells: seq<CellInfo>): (r: seq<Meta>)
    requires AllFit(cells)
    ensures |r| == |cells| && forall i :: 0 <= i < |cells| ==> r[i] == MetaOf(cells[i])
  {
    if cells == [] then [] else [MetaOf(cells[0])] + MetasOf(cells[1..])
  }

  lemma {:induction false} RefsParsed(refs: seq<nat>, rs: nat, z: seq<byte>)
    requires forall v :: v in refs ==> v < Pow256(rs)
    ensures |refs| * rs <= |RefBytes(refs, rs) + z|
    ensures ReadRefs(RefBytes(refs, rs) + z, |refs|, rs) == refs
    decreases |refs|
  {
    if refs != [] {
      RefFits(|refs|, rs);
      assert refs[0] in refs && forall v :: v in refs[1..] ==> v in refs;
      BigEndianValue(refs[0], rs);
      RefsParsed(refs[1..], rs, z);
      FirstOfThree(BigEndian(refs[0], rs), RefBytes(refs[1..], rs), z, RefBytes(refs, rs) + z);
    }
  }

  lemma FirstOfThree(a: seq<byte>, b: seq<byte>, z: seq<byte>, s: seq<byte>)
    requires s == a + b + z
    ensures s[..|a|] == a && s[|a|..] == b + z
  {
  }

  lemma D1Parts(c: CellInfo)
    requires Fits(c)
    ensures D1(c) % 8 == |c.refs| && D1(c) / 16 % 2 == 0 && (D1(c) / 8 % 2 == 1 <==> c.special) && D1(c) / 32 == c.level
    ensures D2(c) / 2 + D2(c) % 2 == (|c.bits| + 7) / 8 && (D2(c) % 2 == 1 <==> |c.bits| % 8 != 0)
  {
    FieldsOfByte(|c.refs|, if c.special then 1 else 0, c.level);
    TwiceAndOdd(|c.bits| / 8, |c.bits| % 8);
  }

  lemma FieldsOfByte(refs: nat, special: bit, level: nat)
    requires refs <= 4
    ensures
      var d := refs + 8 * special + 32 * level;
      d % 8 == refs && d / 16 % 2 == 0 && d / 8 % 2 == special && d / 32 == level
  {
    var d := refs + 8 * special + 32 * level;
    RemainderIs(d, 8, special + 4 * level, refs);
    RemainderIs(special + 4 * level, 2, 2 * level, special);
    RemainderIs(d, 16, 2 * level, refs + 8 * special);
    RemainderIs(2 * level, 2, level, 0);
    RemainderIs(d, 32, level, refs + 8 * special);
  }

  lemma TwiceAndOdd(q: nat, r: nat)
    requires r < 8
    ensures
      var d := q * 2 + if r != 0 then 1 else 0;
      d / 2 + d % 2 == (8 * q + r + 7) / 8 && (d % 2 == 1 <==> r != 0)
  {
  }

  lemma MetaParsed(c: CellInfo, rs: nat, z: seq<byte>)
    requires Fits(c) && RefsBelow(c, Pow256(rs))
    ensures ParseMeta(MetaBytes(c, rs) + z, rs) == Ok((MetaOf(c), |MetaBytes(c, rs)|))
  {
    var s := MetaBytes(c, rs) + z;
    D1Parts(c);
    RefsParsed(c.refs, rs, z);
    TwoInFront(D1(c), D2(c), RefBytes(c.refs, rs), z);
    ParsedAs(s, rs, MetaOf(c), |MetaBytes(c, rs)|);
  }

  lemma TwoInFront(a: byte, b: byte, r: seq<byte>, z: seq<byte>)
    ensures var s := [a, b] + r + z; s[0] == a && s[1] == b && s[2..] == r + z
  {
  }

  /** What the two bytes and the references say. */
  lemma ParsedAs(s: seq<byte>, rs: nat, m: Meta, end: nat)
    requires |s| >= 2 && s[0] % 8 == |m.refs| <= 4 && s[0] / 16 % 2 == 0 && (s[0] / 8 % 2 == 1 <==> m.special)
    requires s[0] / 32 == m.level && s[1] == m.d2 && end == 2 + |m.refs| * rs <= |s|
    requires |m.refs| * rs <= |s[2..]| && ReadRefs(s[2..], |m.refs|, rs) == m.refs
    ensures ParseMeta(s, rs) == Ok((m, end))
  {
  }

  /** The parser gives back the metadata of every cell it is put in front of. */
  ghost predicate ReadsBack(parse: MetaParser, rs: nat) {
    forall c: CellInfo, z: seq<byte> {:trigger MetaBytes(c, rs) + z} ::
      Fits(c) && RefsBelow(c, Pow256(rs)) ==> parse(MetaBytes(c, rs) + z) == Ok((MetaOf(c), |MetaBytes(c, rs)|))
  }

  lemma ReaderReadsBack(rs: nat)
    ensures ReadsBack(MetaReader(rs), rs)
  {
    forall c: CellInfo, z: seq<byte> | Fits(c) && RefsBelow(c, Pow256(rs))
      ensures MetaReader(rs)(MetaBytes(c, rs) + z) == Ok((MetaOf(c), |MetaBytes(c, rs)|))
    {
      MetaParsed(c, rs, z);
    }
  }

  lemma {:induction false} MetasParsed(parse: MetaParser, cells: seq<CellInfo>, rs: nat, z: seq<byte>)
    requires ReadsBack(parse, rs) && AllFit(cells) && AllBelow(cells, Pow256(rs))
    ensures ParseMetas(parse, AllMetas(cells, rs) + z, |cells|) == Ok((MetasOf(cells), |AllMetas(cells, rs)|))
    decreases |cells|
  {
    if cells != [] {
      var c, rest := cells[0], AllMetas(cells[1..], rs) + z;
      assert c in cells;
      var b := MetaBytes(c, rs);
      Grouped(b, AllMetas(cells[1..], rs), z);
      assert parse(b + rest) == Ok((MetaOf(c), |b|));
      MetasParsed(parse, cells[1..], rs, z);
      MetaInFront(parse, b, rest, MetaOf(c), |cells|, MetasOf(cells[1..]), |AllMetas(cells[1..], rs)|);
    }
  }

  lemma MetaInFront(parse: MetaParser, b: seq<byte>, rest: seq<byte>, m: Meta, n: nat, ms: seq<Meta>, used: nat)
    requires n > 0 && parse(b + rest) == Ok((m, |b|)) && ParseMetas(parse, rest, n - 1) == Ok((ms, used))
    ensures ParseMetas(parse, b + rest, n) == Ok(([m] + ms, |b| + used))
  {
    assert (b + rest)[|b|..] == rest;
  }

  function PieceOf(c: CellInfo): Piece { Piece(Packed(c.bits)) }

  function PiecesOf(cells: seq<CellInfo>): seq<Piece> { Each(PieceOf, cells) }

  lemma PackedLength(c: CellInfo)
    requires Fits(c)
    ensures DataLen(MetaOf(c)) == |Packed(c.bits)|
  {
    D1Parts(c);
  }

  lemma {:induction false} DataCut(cells: seq<CellInfo>, z: seq<byte>)
    requires AllFit(cells)
    ensures Cut(MetasOf(cells), AllData(cells) + z) == PiecesOf(cells)
    decreases |cells|
  {
    if cells != [] {
      var p, rest := Packed(cells[0].bits), AllData(cells[1..]) + z;
      assert cells[0] in cells;
      PackedLength(cells[0]);
      Grouped(p, AllData(cells[1..]), z);
      assert MetasOf(cells)[1..] == MetasOf(cells[1..]);
      CutOne(MetasOf(cells), p, rest);
      EachFirst(PieceOf, cells);
      DataCut(cells[1..], z);
    }
  }

  lemma CutOne(metas: seq<Meta>, p: seq<byte>, rest: seq<byte>)
    requires metas != [] && DataLen(metas[0]) == |p|
    ensures Cut(metas, p + rest) == [Piece(p)] + Cut(metas[1..], rest)
  {
    assert (p + rest)[..|p|] == p && (p + rest)[|p|..] == rest;
  }

  /** Each cell comes back with its contents and references. */
  lemma CellParsed(c: CellInfo)
    requires Fits(c)
    ensures ReadCell(MetaOf(c), PieceOf(c)) == Ok(c)
  {
    D1Parts(c);
    UnpackedPacked(c.bits);
  }

  /** What is built along any order is what the cells stand for. */
  lemma {:induction false} BuildsCells(cells: seq<CellInfo>, f: Front, order: seq<nat>)
    requires FrontOk(f) && |f.metas| == |cells| && forall i :: 0 <= i < |cells| ==> CellOf(f, i) == Ok(cells[i])
    requires Topological(MetaRefs(f.metas), order)
    ensures Topological(Refs(cells), order) && BuildAlong(f, order) == Ok(Built(cells, order))
    decreases |order|
  {
    forall i | 0 <= i < |cells|
      ensures MetaRefs(f.metas)[i] == Refs(cells)[i]
    {
      assert CellOf(f, i) == Ok(cells[i]);
    }
    assert MetaRefs(f.metas) == Refs(cells);
    if order != [] {
      var m := |order| - 1;
      TopologicalPrefix(MetaRefs(f.metas), order, m);
      BuildsCells(cells, f, order[..m]);
      assert CellOf(f, order[m]) == Ok(cells[order[m]]);
    }
  }

  // ---------------------------------------------------------------- the whole bag

  /** Flipping the list is one more renumbering. */
  lemma FlippedIsRenumbered(cells: seq<CellInfo>)
    requires Graph(Refs(cells))
    ensures Renumbered(cells, Flip(|cells|), Flipped(cells))
  {
    FlipIsPerm(|cells|);
    forall i | 0 <= i < |cells|
      ensures Moved(cells, Flip(|cells|), Flipped(cells), i)
    {
      assert Refs(cells)[i] == cells[i].refs;
      assert RefsBelow(cells[i], |cells|);
      assert Flipped(cells)[|cells| - 1 - i] == FlippedCell(cells[i], |cells|);
    }
  }

  /** The front of a bag that holds the cells w as written. */
  function FrontOf(w: seq<CellInfo>, root: nat): Front
    requires AllFit(w)
  {
    Front(MetasOf(w), PiecesOf(w), [root])
  }

  lemma FrontOfOk(w: seq<CellInfo>, root: nat)
    requires AllFit(w) && root < |w| && AllBelow(w, |w|)
    ensures FrontOk(FrontOf(w, root))
  {
    var f := FrontOf(w, root);
    forall i, k | 0 <= i < |f.metas| && 0 <= k < |f.metas[i].refs|
      ensures f.metas[i].refs[k] < |f.metas|
    {
      assert w[i] in w && w[i].refs[k] in w[i].refs && RefsBelow(w[i], |w|);
    }
  }

  lemma FrontCells(w: seq<CellInfo>, root: nat)
    requires AllFit(w)
    ensures forall i :: 0 <= i < |w| ==> CellOf(FrontOf(w, root), i) == Ok(w[i])
  {
    forall i | 0 <= i < |w|
      ensures CellOf(FrontOf(w, root), i) == Ok(w[i])
    {
      assert w[i] in w;
      CellParsed(w[i]);
    }
  }

  /** The area behind the header gives back metadata and pieces. */
  lemma AreaParsed(w: seq<CellInfo>, rs: nat)
    requires AllFit(w) && AllBelow(w, Pow256(rs))
    ensures
      var area := AllMetas(w, rs) + AllData(w);
      && ParseMetas(MetaReader(rs), area, |w|) == Ok((MetasOf(w), |AllMetas(w, rs)|))
      && Cut(MetasOf(w), area[|AllMetas(w, rs)|..]) == FrontOf(w, 0).pieces
  {
    ReaderReadsBack(rs);
    MetasParsed(MetaReader(rs), w, rs, AllData(w));
    DataCut(w, []);
    var area := AllMetas(w, rs) + AllData(w);
    assert area[|AllMetas(w, rs)|..] == AllData(w) + [];
  }

  lemma Parts(h: seq<byte>, r: seq<byte>, area: seq<byte>, z: seq<byte>)
    ensures
      var s, at := h + r + area + z, |h| + |r|;
      s == h + (r + area + z) && s[|h|..at] == r && s[at..at + |area|] == area
  {
  }

  lemma AreaRead(w: seq<CellInfo>, root: nat, rs: nat)
    requires AllFit(w) && root < |w| && AllBelow(w, |w|)
    requires |w| < Pow256(rs)
    ensures ReadArea(AllMetas(w, rs) + AllData(w), |w|, rs, [root]) == Ok(FrontOf(w, root))
  {
    AreaParsed(w, rs);
    FrontOfOk(w, root);
  }

  /** Where the header says that root and area are. */
  lemma WhereWritten(h: seq<byte>, n: nat, root: nat, rs: nat, os: nat, area: seq<byte>, z: seq<byte>, s: seq<byte>)
    returns (info: Info)
    requires 1 <= rs <= 4 && 1 <= os <= 8 && root < n < TWO31 && n < Pow256(rs)
    requires |h| + rs == HeaderSize(rs, os) && s == h + BigEndian(root, rs) + area + z
    ensures info == InfoOf(n, rs, os, |area|) && info.refSize == rs && info.cellCount == n && info.rootCount == 1
    ensures info.totalSize <= |s| && !info.hasIndex && !info.hasCrc && !info.hasCache
    ensures info.rootsOffset + rs <= |s| && info.dataOffset + info.dataSize <= |s|
    ensures Value(s[info.rootsOffset..info.rootsOffset + rs]) == root
    ensures s[info.dataOffset..info.dataOffset + info.dataSize] == area
  {
    info := InfoOf(n, rs, os, |area|);
    Parts(h, BigEndian(root, rs), area, z);
    BigEndianValue(root, rs);
  }

  /** A complete header with one root whose fields are all inside. */
  lemma InsideIs(s: seq<byte>, info: Info, root: nat, area: seq<byte>)
    requires info.rootCount == 1
    requires info.rootsOffset + info.refSize <= |s| && info.dataOffset + info.dataSize <= |s|
    requires Value(s[info.rootsOffset..info.rootsOffset + info.refSize]) == root < info.cellCount < TWO31
    requires s[info.dataOffset..info.dataOffset + info.dataSize] == area
    ensures ReadInside(s, info) == ReadArea(area, info.cellCount, info.refSize, [root])
  {
    OneRoot(s[info.rootsOffset..info.rootsOffset + info.refSize], info.rootCount, info.refSize, info.cellCount, root);
  }

  lemma OneRoot(s: seq<byte>, k: nat, refSize: nat, n: nat, root: nat)
    requires k == 1 && |s| == refSize && Value(s) == root < n < TWO31
    ensures Times(k, refSize) == refSize && ReadRoots(s, k, refSize, n) == Ok([root])
  {
    assert s[..refSize] == s && [root] + [] == [root];
  }

  /** Behind the header everything that has been written is read, whatever follows it. */
  lemma WrittenInside(n: nat, w: seq<CellInfo>, root: nat, rs: nat, os: nat, size: nat, z: seq<byte>, s: seq<byte>)
    returns (info: Info)
    requires 1 <= rs <= 4 && 1 <= os <= 8 && n == |w| && root < n < TWO31 && n < Pow256(rs)
    requires AllFit(w) && AllBelow(w, n)
    requires size == |AllMetas(w, rs) + AllData(w)| && s == Written(w, root, rs, os, size) + z
    ensures info == InfoOf(n, rs, os, size) && info.totalSize <= |s|
    ensures ReadInside(s, info) == Ok(FrontOf(w, root))
  {
    WrittenIs(w, root, rs, os, size);
    info := WhereWritten(HeaderStart(n, rs, os, size), n, root, rs, os, AllMetas(w, rs) + AllData(w), z, s);
    InsideIs(s, info, root, AllMetas(w, rs) + AllData(w));
    AreaRead(w, root, rs);
  }

  /** The sizes a bag is written with. */
  lemma WrittenWith(cells: seq<CellInfo>, root: nat)
    returns (n: nat, w: seq<CellInfo>, root1: nat, rs: nat, os: nat, size: nat)
    requires root < |cells| < TWO31 && AllFit(cells) && Graph(Refs(cells))
    ensures w == Flipped(cells) && root1 == |cells| - 1 - root && size == AreaBytes(cells) && rs == ByteSize(|cells|)
    ensures 1 <= rs <= 4 && 1 <= os <= 8 && AllFit(w) && AllBelow(w, n) && root1 < n == |w| == |cells| && n < Pow256(rs)
    ensures size < Pow256(os) && size == |AllMetas(w, rs) + AllData(w)| && os == ByteSize(size)
    ensures Serialized(cells, root) == Written(w, root1, rs, os, size)
  {
    n, root1 := |cells|, |cells| - 1 - root;
    w := FlippedCells(cells);
    rs, os, size := ByteSize(|cells|), ByteSize(AreaBytes(cells)), AreaBytes(cells);
    SizesInRange(cells);
    SerializedSizes(cells);
    SerializedIs(cells, root, w, rs, os, size);
  }

  lemma FlippedCells(cells: seq<CellInfo>) returns (w: seq<CellInfo>)
    requires Graph(Refs(cells)) && AllFit(cells)
    ensures w == Flipped(cells) && AllFit(w) && AllBelow(w, |cells|) && |w| == |cells|
  {
    w := Flipped(cells);
    FlippedFits(cells);
  }

  lemma SerializedIs(cells: seq<CellInfo>, root: nat, w: seq<CellInfo>, rs: nat, os: nat, size: nat)
    requires root < |cells| < TWO31 && AllFit(cells) && Graph(Refs(cells)) && w == Flipped(cells) && AllFit(w)
    requires size == AreaBytes(cells) && rs == ByteSize(|cells|) && os == ByteSize(size) && 1 <= rs <= 4 && 1 <= os <= 8
    ensures Serialized(cells, root) == Written(w, |cells| - 1 - root, rs, os, size)
  {
  }

  lemma WrittenHeader(w: seq<CellInfo>, root: nat, rs: nat, os: nat, size: nat, z: seq<byte>, s: seq<byte>)
    requires 1 <= rs <= 4 && 1 <= os <= 8 && AllFit(w) && 0 < |w| < TWO31 && |w| < Pow256(rs)
    requires size < Pow256(os) && SizesFit(size, |w|, rs) && s == Written(w, root, rs, os, size) + z
    ensures ParseHeader(s) == Complete(InfoOf(|w|, rs, os, size))
  {
    var h, r, area := HeaderStart(|w|, rs, os, size), BigEndian(root, rs), AllMetas(w, rs) + AllData(w);
    WrittenIs(w, root, rs, os, size);
    Parts(h, r, area, z);
    HeaderParsed(|w|, rs, os, size, r + area + z, s);
  }

  lemma SerializedSizes(cells: seq<CellInfo>)
    requires 0 < |cells| < TWO31 && AllFit(cells) && Graph(Refs(cells))
    ensures AllFit(Flipped(cells))
    ensures |AllMetas(Flipped(cells), ByteSize(|cells|)) + AllData(Flipped(cells))| == AreaBytes(cells)
    ensures |cells| < Pow256(ByteSize(|cells|)) && AreaBytes(cells) < Pow256(ByteSize(AreaBytes(cells)))
  {
    FlippedFits(cells);
    FlippedSizes(cells);
    AreaSize(Flipped(cells), ByteSize(|cells|));
    ByteSizeIs(|cells|, ByteSize(|cells|));
    ByteSizeIs(AreaBytes(cells), ByteSize(AreaBytes(cells)));
  }

  /** A written bag is read back as the cells written. */
  lemma SerializedRead(cells: seq<CellInfo>, root: nat, z: seq<byte>, maxRoots: nat, s: seq<byte>)
    returns (w: seq<CellInfo>, root1: nat, f: Front)
    requires Storable(cells, root) && maxRoots >= 1 && s == Serialized(cells, root) + z
    ensures w == Flipped(cells) && AllFit(w) && root1 == |cells| - 1 - root && f == FrontOf(w, root1)
    ensures ReadFront(s, maxRoots) == Ok(f)
  {
    SizesPass(cells, root);
    w, root1, f := SizedRead(cells, root, z, maxRoots, s);
  }

  lemma SizedRead(cells: seq<CellInfo>, root: nat, z: seq<byte>, maxRoots: nat, s: seq<byte>)
    returns (w: seq<CellInfo>, root1: nat, f: Front)
    requires root < |cells| < TWO31 && AllFit(cells) && Graph(Refs(cells)) && maxRoots >= 1
    requires SizesFit(AreaBytes(cells), |cells|, ByteSize(|cells|)) && s == Serialized(cells, root) + z
    ensures w == Flipped(cells) && AllFit(w) && root1 == |cells| - 1 - root && f == FrontOf(w, root1)
    ensures ReadFront(s, maxRoots) == Ok(f)
  {
    var n, rs, os, size;
    n, w, root1, rs, os, size := WrittenWith(cells, root);
    f := FrontOf(w, root1);
    WrittenRead(n, w, root1, rs, os, size, z, maxRoots, s);
  }

  lemma WrittenRead(n: nat, w: seq<CellInfo>, root: nat, rs: nat, os: nat, size: nat, z: seq<byte>, maxRoots: nat,
                    s: seq<byte>)
    requires 1 <= rs <= 4 && 1 <= os <= 8 && AllFit(w) && AllBelow(w, n) && root < n == |w| < TWO31 && n < Pow256(rs)
    requires size < Pow256(os) && SizesFit(size, n, rs) && s == Written(w, root, rs, os, size) + z && maxRoots >= 1
    requires size == |AllMetas(w, rs) + AllData(w)|
    ensures ReadFront(s, maxRoots) == Ok(FrontOf(w, root))
  {
    WrittenHeader(w, root, rs, os, size, z, s);
    var info := WrittenInside(n, w, root, rs, os, size, z, s);
    InfoAdmitted(n, rs, os, size, info, |s|, maxRoots);
    FrontRead(s, maxRoots, info, FrontOf(w, root));
  }

  lemma InfoAdmitted(n: nat, rs: nat, os: nat, size: nat, info: Info, len: nat, maxRoots: nat)
    requires info == InfoOf(n, rs, os, size) && info.totalSize <= len && maxRoots >= 1
    ensures Admitted(Complete(info), len, maxRoots) == Ok(info)
  {
  }

  lemma FrontRead(s: seq<byte>, maxRoots: nat, info: Info, f: Front)
    requires ParseHeader(s) == Complete(info) && Admitted(Complete(info), |s|, maxRoots) == Ok(info)
    requires ReadInside(s, info) == Ok(f)
    ensures ReadFront(s, maxRoots) == Ok(f)
  {
  }

  lemma RootOfFront(w: seq<CellInfo>, rank: seq<nat>, root: nat, order: seq<nat>)
    requires root < |w| && AllFit(w) && AllBelow(w, |w|) && Ranked(Refs(w), rank)
    requires Topological(Refs(w), order) && Exhausted(Refs(w), order)
    ensures FrontOk(FrontOf(w, root)) && MetaRefs(FrontOf(w, root).metas) == Refs(w)
    ensures RootsBuilt(FrontOf(w, root), order) == Ok([Unfold(w, rank, root)])
  {
    var f := FrontOf(w, root);
    FrontOfOk(w, root);
    FrontCells(w, root);
    assert MetaRefs(f.metas) == Refs(w);
    BuildsCells(w, f, order);
    RankedIsEmitted(Refs(w), rank, order, root);
    BuiltIsUnfold(w, rank, order, Place(order, root));
    PickOne(root, order, Built(w, order));
  }

  lemma PickOne(root: nat, order: seq<nat>, b: seq<Cell>)
    requires |b| == |order| && root in order
    ensures PickRoots([root], order, b) == Ok([b[Place(order, root)]])
  {
    var c := b[Place(order, root)];
    assert [root][1..] == [] && [c] + [] == [c];
  }

  /** The root built from renumbered cells. */
  lemma RootOfRenumbered(cells: seq<CellInfo>, rank: seq<nat>, perm: seq<nat>, w: seq<CellInfo>, root: nat, root1: nat,
                         order: seq<nat>)
    requires Renumbered(cells, perm, w) && Ranked(Refs(cells), rank) && root < |cells| && root1 == perm[root]
    requires AllFit(w) && AllBelow(w, |w|) && Topological(Refs(w), order) && Exhausted(Refs(w), order)
    ensures FrontOk(FrontOf(w, root1)) && MetaRefs(FrontOf(w, root1).metas) == Refs(w)
    ensures RootsBuilt(FrontOf(w, root1), order) == Ok([Unfold(cells, rank, root)])
  {
    var rank1 := RenumberedRanked(cells, rank, perm, w);
    RootOfFront(w, rank1, root1, order);
    RenumberedUnfold(cells, rank, perm, w, rank1, root);
  }

  lemma FlippedBoth(cells: seq<CellInfo>, root: nat, w: seq<CellInfo>) returns (perm: seq<nat>, root1: nat)
    requires AllFit(cells) && Graph(Refs(cells)) && w == Flipped(cells) && root < |cells|
    ensures AllFit(w) && AllBelow(w, |w|) && Renumbered(cells, perm, w) && root1 == perm[root] == |cells| - 1 - root
  {
    FlippedFits(cells);
    FlippedIsRenumbered(cells);
    perm, root1 := Flip(|cells|), |cells| - 1 - root;
  }

  /** The root built from the cells as they are written. */
  lemma RootIsUnfold(cells: seq<CellInfo>, rank: seq<nat>, root: nat, w: seq<CellInfo>, root1: nat, f: Front,
                     order: seq<nat>)
    requires root < |cells| && AllFit(cells) && Graph(Refs(cells)) && Ranked(Refs(cells), rank) && w == Flipped(cells)
    requires AllFit(w) && root1 == |cells| - 1 - root && f == FrontOf(w, root1)
    requires Topological(Refs(w), order) && Exhausted(Refs(w), order)
    ensures FrontOk(f) && MetaRefs(f.metas) == Refs(w) && RootsBuilt(f, order) == Ok([Unfold(cells, rank, root)])
  {
    var perm, root2 := FlippedBoth(cells, root, w);
    RootOfRenumbered(cells, rank, perm, w, root, root1, order);
  }

  /**
   Round trip: whatever complete topological order the reader works in, it rebuilds the cell that the root
   stands for.
   */
  lemma RoundTrip(cells: seq<CellInfo>, rank: seq<nat>, root: nat, z: seq<byte>, maxRoots: nat, order: seq<nat>,
                  s: seq<byte>)
    requires Storable(cells, root) && Ranked(Refs(cells), rank) && maxRoots >= 1 && s == Serialized(cells, root) + z
    requires Topological(Refs(Flipped(cells)), order) && Exhausted(Refs(Flipped(cells)), order)
    ensures
      match ReadFront(s, maxRoots)
      case Ok(f) => MetaRefs(f.metas) == Refs(Flipped(cells)) && RootsBuilt(f, order) == Ok([Unfold(cells, rank, root)])
      case Err(_) => false
  {
    var w, root1, f := SerializedRead(cells, root, z, maxRoots, s);
    RootIsUnfold(cells, rank, root, w, root1, f, order);
  }
}
