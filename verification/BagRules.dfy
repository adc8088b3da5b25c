/** The bytes of a written bag in numbers, place by place. */
module BagRules {
  import opened Bytes
  import opened BagTopology
  import opened BagGraph
  import opened BagBits
  import opened BagFormat

  /** n bytes of s from place at on are the number v, the high byte first. */
  predicate Holds(s: seq<byte>, at: nat, n: nat, v: nat) { at + n <= |s| && Value(s[at..at + n]) == v }

  lemma HoldsBehind(a: seq<byte>, v: nat, n: nat, z: seq<byte>, s: seq<byte>)
    requires v < Pow256(n) && s == a + BigEndian(v, n) + z
    ensures Holds(s, |a|, n, v)
  {
    BigEndianValue(v, n);
    assert s[|a|..|a| + n] == BigEndian(v, n);
  }

  lemma OneFits(n: nat)
    requires n >= 1
    ensures 1 < Pow256(n)
  {
    assert Pow256(n) == 256 * Pow256(n - 1);
  }

  /**
   Magic number; at 4 the size of references, at 5 that of offsets, each as small as it can be; then the number of
   cells, one root, no absent cells, the number of bytes of the cells, and the place of the root.
   */
  lemma SerializedInNumbers(cells: seq<CellInfo>, root: nat) returns (rs: nat, os: nat, size: nat)
    requires root < |cells| < TWO31 && AllFit(cells) && Graph(Refs(cells))
    ensures IsHeader(Serialized(cells, root), |cells|, rs, os, size, |cells| - 1 - root)
  {
    var n, w, root1;
    n, w, root1, rs, os, size := WrittenWith(cells, root);
    LeastIs(rs, n);
    LeastIs(os, size);
    WrittenInNumbers(n, w, root1, rs, os, size, Serialized(cells, root));
  }

  lemma LeastIs(k: nat, v: nat)
    requires k == ByteSize(v) && k >= 1
    ensures Least(k, v)
  {
    ByteSizeIs(v, k);
    ByteSizeIs(v, k - 1);
  }

  predicate IsHeader(s: seq<byte>, n: nat, rs: nat, os: nat, size: nat, root: nat) {
    && |s| == 6 + 4 * rs + os + size
    && s[0] == 0xb5 && s[1] == 0xee && s[2] == 0x9c && s[3] == 0x72 && s[4] as int == rs && s[5] as int == os
    && Least(rs, n) && Least(os, size)
    && Holds(s, 6, rs, n) && Holds(s, 6 + rs, rs, 1) && Holds(s, 6 + 2 * rs, rs, 0)
    && Holds(s, 6 + 3 * rs, os, size) && Holds(s, 6 + 3 * rs + os, rs, root)
  }

  /** n is the least number of bytes that holds v. */
  predicate Least(n: nat, v: nat) { n >= 1 && v < Pow256(n) && Pow256(n - 1) <= v }

  lemma WrittenInNumbers(n: nat, w: seq<CellInfo>, root: nat, rs: nat, os: nat, size: nat, s: seq<byte>)
    requires 1 <= rs <= 4 && 1 <= os <= 8 && AllFit(w) && root < n == |w| && Least(rs, n) && Least(os, size)
    requires size == |AllMetas(w, rs) + AllData(w)| && s == Written(w, root, rs, os, size)
    ensures IsHeader(s, n, rs, os, size, root)
  {
    var a, b, c, d := HeaderFront(rs, os), BigEndian(n, rs), BigEndian(1, rs), BigEndian(0, rs);
    var e, r, area := BigEndian(size, os), BigEndian(root, rs), AllMetas(w, rs) + AllData(w);
    WrittenParts(w, root, rs, os, size, a, b, c, d, e, s);
    FiveNumbers(a, b, c, d, e, r, area, s);
    assert a[0] == 0xb5 && a[1] == 0xee && a[2] == 0x9c && a[3] == 0x72 && a[4] as int == rs && a[5] as int == os;
    PartsHold(a, b, c, d, e, r, area, n, rs, os, size, root, s);
  }

  lemma WrittenParts(w: seq<CellInfo>, root: nat, rs: nat, os: nat, size: nat, a: seq<byte>, b: seq<byte>, c: seq<byte>,
                     d: seq<byte>, e: seq<byte>, s: seq<byte>)
    requires 1 <= rs <= 4 && 1 <= os <= 8 && AllFit(w) && s == Written(w, root, rs, os, size)
    requires a == HeaderFront(rs, os) && b == BigEndian(|w|, rs) && c == BigEndian(1, rs) && d == BigEndian(0, rs)
    requires e == BigEndian(size, os)
    ensures s == a + (b + (c + (d + e))) + BigEndian(root, rs) + (AllMetas(w, rs) + AllData(w))
  {
    WrittenIs(w, root, rs, os, size);
    ConcatFive(a, b, c, d, e);
  }

  lemma PartsHold(a: seq<byte>, b: seq<byte>, c: seq<byte>, d: seq<byte>, e: seq<byte>, r: seq<byte>, z: seq<byte>,
                  n: nat, rs: nat, os: nat, size: nat, root: nat, s: seq<byte>)
    requires b == BigEndian(n, rs) && c == BigEndian(1, rs) && d == BigEndian(0, rs) && e == BigEndian(size, os)
    requires r == BigEndian(root, rs) && root < n && Least(rs, n) && Least(os, size) && |a| == 6 && a <= s
    requires s == a + b + (c + d + e + r + z) && s == a + b + c + (d + e + r + z) && s == a + b + c + d + (e + r + z)
    requires s == a + b + c + d + e + (r + z) && s == a + b + c + d + e + r + z
    ensures Holds(s, 6, rs, n) && Holds(s, 6 + rs, rs, 1) && Holds(s, 6 + 2 * rs, rs, 0)
    ensures Holds(s, 6 + 3 * rs, os, size) && Holds(s, 6 + 3 * rs + os, rs, root)
  {
    OneFits(rs);
    HoldsBehind(a, n, rs, c + d + e + r + z, s);
    HoldsBehind(a + b, 1, rs, d + e + r + z, s);
    HoldsBehind(a + b + c, 0, rs, e + r + z, s);
    HoldsBehind(a + b + c + d, size, os, r + z, s);
    HoldsBehind(a + b + c + d + e, root, rs, z, s);
  }

  lemma FiveNumbers(a: seq<byte>, b: seq<byte>, c: seq<byte>, d: seq<byte>, e: seq<byte>, r: seq<byte>, z: seq<byte>,
                    s: seq<byte>)
    requires s == a + (b + (c + (d + e))) + r + z
    ensures s == a + b + (c + d + e + r + z) && s == a + b + c + (d + e + r + z) && s == a + b + c + d + (e + r + z)
    ensures s == a + b + c + d + e + (r + z) && s == a + b + c + d + e + r + z && a <= s
  {
  }

  // ---------------------------------------------------------------- the cells

  /** What f makes of each cell, one behind the other. */
  function All(f: CellInfo -> seq<byte>, w: seq<CellInfo>): (r: seq<byte>) {
    if w == [] then [] else f(w[0]) + All(f, w[1..])
  }

  function MetaMaker(rs: nat): CellInfo -> seq<byte> { (c: CellInfo) => if Fits(c) then MetaBytes(c, rs) else [] }

  function DataMaker(): CellInfo -> seq<byte> { (c: CellInfo) => Packed(c.bits) }

  lemma {:induction false} MetasMade(w: seq<CellInfo>, rs: nat)
    requires AllFit(w)
    ensures All(MetaMaker(rs), w) == AllMetas(w, rs)
  {
    if w != [] {
      assert w[0] in w;
      MetasMade(w[1..], rs);
    }
  }

  lemma {:induction false} DataMade(w: seq<CellInfo>)
    ensures All(DataMaker(), w) == AllData(w)
  {
    if w != [] {
      DataMade(w[1..]);
    }
  }

  /**
   Behind the header h stand the cells in the order w, in which the last one of the list comes first and references
   count from the end: first the metadata of all, then the data of all.
   */
  lemma SerializedInOrder(cells: seq<CellInfo>, root: nat)
    returns (w: seq<CellInfo>, rs: nat, os: nat, h: seq<byte>, m: seq<byte>, d: seq<byte>,
             meta: CellInfo -> seq<byte>, data: CellInfo -> seq<byte>)
    requires root < |cells| < TWO31 && AllFit(cells) && Graph(Refs(cells))
    ensures meta == MetaMaker(rs) && data == DataMaker() && m == All(meta, w) && d == All(data, w)
    ensures |w| == |cells| && AllFit(w) && AllBackward(cells, w)
    ensures
      var s := Serialized(cells, root);
      s == h + (m + d) && |h| == 6 + 4 * rs + os && |s| >= 6 && s[4] as int == rs && s[5] as int == os
  {
    var n, root1, size;
    n, w, root1, rs, os, size := WrittenWith(cells, root);
    LeastIs(rs, n);
    LeastIs(os, size);
    WrittenInNumbers(n, w, root1, rs, os, size, Serialized(cells, root));
    h, m, d, meta, data := AreaParts(w, root1, rs, os, size, Serialized(cells, root));
    CellsBackward(cells, w);
  }

  lemma CellsBackward(cells: seq<CellInfo>, w: seq<CellInfo>)
    requires Graph(Refs(cells)) && w == Flipped(cells)
    ensures AllBackward(cells, w)
  {
    forall i: nat | i < |cells|
      ensures Backward(cells, w, i)
    {
      FlippedAt(cells, i);
    }
  }

  ghost predicate AllBackward(cells: seq<CellInfo>, w: seq<CellInfo>) {
    forall i: nat :: i < |cells| ==> Backward(cells, w, i)
  }

  /** Place i of w has the cell that many from the end, its references turned round as well. */
  predicate Backward(cells: seq<CellInfo>, w: seq<CellInfo>, i: nat) {
    i < |cells| == |w|
    && var c := cells[|cells| - 1 - i];
       w[i] == c.(refs := w[i].refs) && |w[i].refs| == |c.refs|
       && forall j :: 0 <= j < |c.refs| ==> w[i].refs[j] + c.refs[j] == |cells| - 1
  }

  lemma AreaParts(w: seq<CellInfo>, root: nat, rs: nat, os: nat, size: nat, s: seq<byte>)
    returns (h: seq<byte>, m: seq<byte>, d: seq<byte>, f: CellInfo -> seq<byte>, g: CellInfo -> seq<byte>)
    requires 1 <= rs <= 4 && 1 <= os <= 8 && AllFit(w) && s == Written(w, root, rs, os, size)
    ensures f == MetaMaker(rs) && g == DataMaker() && m == All(f, w) && d == All(g, w)
    ensures |h| == 6 + 4 * rs + os && s == h + (m + d)
  {
    f, g, h := MetaMaker(rs), DataMaker(), HeaderStart(|w|, rs, os, size) + BigEndian(root, rs);
    WrittenIs(w, root, rs, os, size);
    MetasMade(w, rs);
    DataMade(w);
    m, d := AllMetas(w, rs), AllData(w);
  }

  /**
   A cell: three numbers in its first byte, its length in the second, in half bytes and odd when the last byte is not
   full, and its references.
   */
  lemma MetaInNumbers(c: CellInfo, rs: nat)
    requires Fits(c) && rs <= 4
    ensures
      var s := MetaBytes(c, rs);
      && |s| == 2 + |c.refs| * rs
      && s[0] % 8 == |c.refs| && (s[0] / 8 % 2 == 1 <==> c.special) && s[0] / 16 % 2 == 0 && s[0] / 32 == c.level
      && s[1] as int == |c.bits| / 8 + (|c.bits| + 7) / 8
      && forall k: nat :: k < |c.refs| && c.refs[k] < Pow256(rs) ==> Holds(s, RefAt(rs, k), rs, c.refs[k])
  {
    var s := MetaBytes(c, rs);
    forall k: nat | k < |c.refs| && c.refs[k] < Pow256(rs)
      ensures Holds(s, RefAt(rs, k), rs, c.refs[k])
    {
      RefsHold([D1(c), D2(c)], c.refs, rs, k, s);
    }
    FirstNumber(|c.refs|, if c.special then 1 else 0, c.level);
  }

  function RefAt(rs: nat, k: nat): nat { 2 + k * rs }

  lemma FirstNumber(refs: nat, special: nat, level: nat)
    requires refs <= 4 && special <= 1 && level <= 7
    ensures
      var d := refs + 8 * special + 32 * level;
      d % 8 == refs && d / 8 % 2 == special && d / 16 % 2 == 0 && d / 32 == level
  {
  }

  lemma {:induction false} RefsHold(a: seq<byte>, refs: seq<nat>, rs: nat, k: nat, s: seq<byte>)
    requires k < |refs| && refs[k] < Pow256(rs) && s == a + RefBytes(refs, rs)
    ensures Holds(s, |a| + k * rs, rs, refs[k])
    decreases |refs|
  {
    var b, rest := BigEndian(refs[0], rs), RefBytes(refs[1..], rs);
    assert s == a + b + rest;
    if k == 0 {
      HoldsBehind(a, refs[0], rs, rest, s);
    } else {
      RefsHold(a + b, refs[1..], rs, k - 1, s);
      OneMore(k - 1, rs);
    }
  }

  lemma OneMore(k: nat, n: nat)
    ensures (k + 1) * n == n + k * n
  {
  }

  /** The data, eight bits a byte and the first one highest; then a one, if the last byte is not full, and zeros. */
  lemma PackedInNumbers(bits: seq<bit>, k: nat, j: nat)
    requires k < |Packed(bits)| && j < 8
    ensures
      var b, at := Packed(bits)[k] / Pow2(7 - j) % 2, 8 * k + j;
      b == if at < |bits| then bits[at] else if at == |bits| then 1 else 0
  {
    var t := Tagged(bits);
    Bytes8At(t, k);
    BitOfValue(t[8 * k..8 * k + 8], 7 - j);
    TaggedAt(bits, 8 * k + j);
  }

  lemma TaggedAt(bits: seq<bit>, at: nat)
    requires at < |Tagged(bits)|
    ensures Tagged(bits)[at] == if at < |bits| then bits[at] else if at == |bits| then 1 else 0
  {
    if |bits| % 8 != 0 {
      ZerosAre(7 - |bits| % 8);
    }
  }

  lemma {:induction false} ZerosAre(n: nat)
    ensures forall k :: 0 <= k < n ==> ZeroBits(n)[k] == 0
  {
    if n > 0 {
      ZerosAre(n - 1);
    }
  }

  lemma {:induction false} Bytes8At(t: seq<bit>, k: nat)
    requires |t| % 8 == 0 && k < |t| / 8
    ensures Bytes8(t)[k] as int == BitsValue(t[8 * k..8 * k + 8])
    decreases k
  {
    var first, rest := FirstByteOf(t);
    if k > 0 {
      Bytes8At(rest, k - 1);
      SliceLater(t, 8 * k);
    }
  }

  lemma FirstByteOf(t: seq<bit>) returns (b: byte, rest: seq<bit>)
    requires |t| % 8 == 0 && |t| > 0
    ensures b as int == BitsValue(t[..8]) && rest == t[8..] && Bytes8(t) == [b] + Bytes8(rest)
  {
    b, rest := Bytes8(t)[0], t[8..];
  }

  lemma SliceLater(t: seq<bit>, at: nat)
    requires 8 <= at && at + 8 <= |t|
    ensures t[8..][at - 8..at] == t[at..at + 8]
  {
  }

  lemma {:induction false} BitOfValue(b: seq<bit>, e: nat)
    requires e < |b|
    ensures BitsValue(b) / Pow2(e) % 2 == b[|b| - 1 - e]
    decreases e
  {
    var front, last, x := FrontAndLast(b);
    if e == 0 {
      LastBit(BitsValue(b), x, last);
    } else {
      BitOfValue(front, e - 1);
      HalfFirst(x, last, Pow2(e - 1), BitsValue(b), Pow2(e));
    }
  }

  lemma FrontAndLast(b: seq<bit>) returns (front: seq<bit>, last: bit, x: nat)
    requires b != []
    ensures b == front + [last] && x == BitsValue(front) && BitsValue(b) == 2 * x + last
  {
    front, last := b[..|b| - 1], b[|b| - 1];
    x := BitsValue(front);
  }

  lemma LastBit(v: nat, x: nat, last: bit)
    requires v == 2 * x + last
    ensures v / Pow2(0) % 2 == last
  {
    assert Pow2(0) == 1;
  }

  lemma HalfFirst(x: nat, b: bit, p: nat, v: nat, q: nat)
    requires p > 0 && v == 2 * x + b && q == 2 * p
    ensures v / q == x / p
  {
    var k, r := x / p, x % p;
    assert v == k * q + (2 * r + b) by { assert 2 * (k * p) == k * (2 * p); }
    RemainderIs(v, q, k, 2 * r + b);
  }
}
