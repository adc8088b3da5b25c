/** Sixteen-byte registers: the unpack networks that turn chunks of sixteen elements, and the mask of top bits. */
module BitVectors {
  import opened Bytes
  import opened BitTranspose

  /** A register, its lowest byte first. */
  type Vector = v: seq<Octet> | |v| == 16 witness seq(16, i => 0)

  function Load(s: seq<Octet>, at: nat): (v: Vector)
    requires at + 16 <= |s|
  {
    s[at..at + 16]
  }

  predicate LaneWidth(g: nat) { g == 1 || g == 4 || g == 8 }

  predicate HalfStart(from: nat) { from == 0 || from == 8 }

  /** Lanes of g bytes of a and b in turn, from byte `from` of both on. */
  function Unpack(a: Vector, b: Vector, g: nat, from: nat): (v: Vector)
    requires LaneWidth(g) && HalfStart(from)
  {
    seq(16, p requires 0 <= p < 16 => if FromFirst(g, p) then a[Place(g, from, p)] else b[Place(g, from, p)])
  }

  predicate FromFirst(g: nat, p: nat)
    requires g > 0
  {
    p / g % 2 == 0
  }

  function Place(g: nat, from: nat, p: nat): (q: nat)
    requires LaneWidth(g) && HalfStart(from) && p < 16
    ensures q < 16
  {
    from + p / g / 2 * g + p % g
  }

  function UnpackLo8(a: Vector, b: Vector): Vector { Unpack(a, b, 1, 0) }

  function UnpackHi8(a: Vector, b: Vector): Vector { Unpack(a, b, 1, 8) }

  function UnpackLo32(a: Vector, b: Vector): Vector { Unpack(a, b, 4, 0) }

  function UnpackHi32(a: Vector, b: Vector): Vector { Unpack(a, b, 4, 8) }

  function UnpackLo64(a: Vector, b: Vector): Vector { Unpack(a, b, 8, 0) }

  function UnpackHi64(a: Vector, b: Vector): Vector { Unpack(a, b, 8, 8) }

  // ---------------------------------------------------------------- which bytes of the chunk a register has

  /** Every `step`-th byte from `start` on, `count` of them, then those one further, and so on. */
  datatype Spread = Spread(start: nat, step: nat, count: nat) {
    function At(p: nat): nat
      requires count > 0
    {
      start + step * (p % count) + p / count
    }
  }

  /** Byte p of the register is byte f.At(p) of the chunk. */
  ghost predicate Holds(v: Vector, c: seq<Octet>, f: Spread) {
    f.count > 0 && forall p :: 0 <= p < 16 ==> Has(v, c, f, p)
  }

  ghost predicate Has(v: Vector, c: seq<Octet>, f: Spread, p: nat)
    requires p < 16 && f.count > 0
  {
    f.At(p) < |c| && v[p] == c[f.At(p)]
  }

  lemma Loaded(c: seq<Octet>, at: nat, step: nat)
    requires at + 16 <= |c|
    ensures Holds(Load(c, at), c, Spread(at, step, 1))
  {
    assert step * 0 == 0;
  }

  lemma Unpacked(a: Vector, b: Vector, c: seq<Octet>, g: nat, from: nat, f: Spread, h: Spread, r: Spread)
    requires LaneWidth(g) && HalfStart(from) && Holds(a, c, f) && Holds(b, c, h) && r.count > 0
    requires forall p :: 0 <= p < 16 ==> r.At(p) == (if FromFirst(g, p) then f else h).At(Place(g, from, p))
    ensures Holds(Unpack(a, b, g, from), c, r)
  {
    forall p | 0 <= p < 16
      ensures Has(Unpack(a, b, g, from), c, r, p)
    {
      var q := Place(g, from, p);
      assert Has(a, c, f, q) && Has(b, c, h, q);
    }
  }

  predicate Splits(m: nat) { m == 1 || m == 2 || m == 4 || m == 8 }

  /** Bytes of two registers in turn: half the step, twice the count. */
  predicate Halves(f: Spread, h: Spread, lo: Spread, hi: Spread) {
    && Splits(f.count) && f.step == h.step == 2 * lo.step && h.start == f.start + lo.step
    && lo == Spread(f.start, lo.step, 2 * f.count) && hi == Spread(f.start + 8 / f.count, lo.step, 2 * f.count)
    && h.count == f.count
  }

  lemma Interleaved(a: Vector, b: Vector, c: seq<Octet>, f: Spread, h: Spread, lo: Spread, hi: Spread)
    requires Halves(f, h, lo, hi) && Holds(a, c, f) && Holds(b, c, h)
    ensures Holds(UnpackLo8(a, b), c, lo) && Holds(UnpackHi8(a, b), c, hi)
  {
    InterleavedFrom(a, b, c, f, h, lo.step, 0);
    InterleavedFrom(a, b, c, f, h, lo.step, 8);
  }

  lemma InterleavedFrom(a: Vector, b: Vector, c: seq<Octet>, f: Spread, h: Spread, d: nat, from: nat)
    requires Splits(f.count) && HalfStart(from) && Holds(a, c, f) && Holds(b, c, h)
    requires f.step == 2 * d && h == Spread(f.start + d, 2 * d, f.count)
    ensures Holds(Unpack(a, b, 1, from), c, Spread(f.start + from / f.count, d, 2 * f.count))
  {
    var r := Spread(f.start + from / f.count, d, 2 * f.count);
    forall p | 0 <= p < 16
      ensures r.At(p) == (if FromFirst(1, p) then f else h).At(Place(1, from, p))
    {
      EitherPlace(f, h, r, d, from, p);
    }
    Unpacked(a, b, c, 1, from, f, h, r);
  }

  lemma EitherPlace(f: Spread, h: Spread, r: Spread, d: nat, from: nat, p: nat)
    requires Splits(f.count) && HalfStart(from) && f.step == 2 * d && h == Spread(f.start + d, 2 * d, f.count)
    requires r == Spread(f.start + from / f.count, d, 2 * f.count) && p < 16
    ensures r.At(p) == (if FromFirst(1, p) then f else h).At(Place(1, from, p))
  {
    EitherByte(f.start, d, f.count, from, p);
    SingleBytes(from, p);
  }

  lemma EitherByte(start: nat, d: nat, m: nat, from: nat, p: nat)
    requires Splits(m) && HalfStart(from)
    ensures start + from / m + d * (p % (2 * m)) + p / (2 * m)
         == (if p % 2 == 0 then start else start + d) + 2 * d * ((from + p / 2) % m) + (from + p / 2) / m
  {
    Halved(p, m);
    PastHalf(p / 2, m, from);
    Doubled(d, p / 2 % m, p % 2);
  }

  lemma SingleBytes(from: nat, p: nat)
    requires p < 16 && HalfStart(from)
    ensures Place(1, from, p) == from + p / 2 && (FromFirst(1, p) <==> p % 2 == 0)
  {
  }

  lemma Halved(p: nat, m: nat)
    requires m > 0
    ensures p % (2 * m) == 2 * (p / 2 % m) + p % 2 && p / (2 * m) == p / 2 / m
  {
    var q := p / 2 / m;
    assert q * (2 * m) == 2 * (q * m);
    RemainderIs(p, 2 * m, q, 2 * (p / 2 % m) + p % 2);
  }

  lemma PastHalf(q: nat, m: nat, from: nat)
    requires Splits(m) && HalfStart(from)
    ensures (from + q) % m == q % m && (from + q) / m == from / m + q / m
  {
    var k := WholeLanes(m, from);
    RemainderIs(from, m, k, 0);
    PastLanes(q, m, k);
  }

  lemma WholeLanes(m: nat, from: nat) returns (k: nat)
    requires Splits(m) && HalfStart(from)
    ensures k * m == from
  {
    k := if from == 0 then 0 else if m == 1 then 8 else if m == 2 then 4 else if m == 4 then 2 else 1;
  }

  lemma PastLanes(q: nat, m: nat, k: nat)
    requires m > 0
    ensures (k * m + q) % m == q % m && (k * m + q) / m == k + q / m
  {
    assert (k + q / m) * m == k * m + q / m * m;
    RemainderIs(k * m + q, m, k + q / m, q % m);
  }

  lemma Doubled(d: nat, a: nat, b: nat)
    ensures d * (2 * a + b) == 2 * d * a + d * b
    ensures b == 0 ==> d * b == 0
    ensures b == 1 ==> d * b == d
  {
  }

  /** Lanes of `count` bytes of two registers: the same step, twice the count. */
  predicate Joins(f: Spread, h: Spread, lo: Spread, hi: Spread) {
    && (f.count == 4 || f.count == 8) && h == Spread(f.start + f.step * f.count, f.step, f.count)
    && lo == Spread(f.start, f.step, 2 * f.count) && hi == Spread(f.start + 8 / f.count, f.step, 2 * f.count)
  }

  lemma Joined(a: Vector, b: Vector, c: seq<Octet>, f: Spread, h: Spread, lo: Spread, hi: Spread)
    requires Joins(f, h, lo, hi) && Holds(a, c, f) && Holds(b, c, h)
    ensures Holds(Unpack(a, b, f.count, 0), c, lo) && Holds(Unpack(a, b, f.count, 8), c, hi)
  {
    JoinedFrom(a, b, c, f, h, 0);
    JoinedFrom(a, b, c, f, h, 8);
  }

  lemma JoinedFrom(a: Vector, b: Vector, c: seq<Octet>, f: Spread, h: Spread, from: nat)
    requires (f.count == 4 || f.count == 8) && HalfStart(from) && Holds(a, c, f) && Holds(b, c, h)
    requires h == Spread(f.start + f.step * f.count, f.step, f.count)
    ensures Holds(Unpack(a, b, f.count, from), c, Spread(f.start + from / f.count, f.step, 2 * f.count))
  {
    var m := f.count;
    var r := Spread(f.start + from / m, f.step, 2 * m);
    forall p | 0 <= p < 16
      ensures r.At(p) == (if FromFirst(m, p) then f else h).At(Place(m, from, p))
    {
      EitherLane(f, h, r, from, p);
    }
    Unpacked(a, b, c, m, from, f, h, r);
  }

  lemma EitherLane(f: Spread, h: Spread, r: Spread, from: nat, p: nat)
    requires (f.count == 4 || f.count == 8) && HalfStart(from) && p < 16
    requires h == Spread(f.start + f.step * f.count, f.step, f.count)
    requires r == Spread(f.start + from / f.count, f.step, 2 * f.count)
    ensures r.At(p) == (if FromFirst(f.count, p) then f else h).At(Place(f.count, from, p))
  {
    var m := f.count;
    Lanes(p, m, from, Place(m, from, p));
    LaneStep(f.step, m, p % m);
  }

  lemma LaneStep(d: nat, m: nat, k: nat)
    ensures d * (m + k) == d * m + d * k
  {
  }

  lemma Lanes(p: nat, m: nat, from: nat, q: nat)
    requires (m == 4 || m == 8) && p < 16 && HalfStart(from) && q == from + p / m / 2 * m + p % m
    ensures q % m == p % m && q / m == from / m + p / (2 * m)
    ensures p % (2 * m) == if p / m % 2 == 0 then p % m else m + p % m
  {
    LanePairs(p, m);
    PastLanes(p % m, m, p / m / 2);
    SmallRemainder(p % m, m);
    PastHalf(p / m / 2 * m + p % m, m, from);
  }

  lemma LanePairs(p: nat, m: nat)
    requires m > 0
    ensures p / (2 * m) == p / m / 2
    ensures p % (2 * m) == if p / m % 2 == 0 then p % m else m + p % m
  {
    var l := p / m;
    assert l / 2 * (2 * m) + l % 2 * m == l * m;
    assert l % 2 == 1 ==> l % 2 * m == m;
    RemainderIs(p, 2 * m, l / 2, l % 2 * m + p % m);
  }

  lemma SmallRemainder(r: nat, m: nat)
    requires r < m
    ensures r % m == r && r / m == 0
  {
    RemainderIs(r, m, 0, r);
  }

  // ---------------------------------------------------------------- the networks

  /** Register j has byte j of every one of the sixteen elements. */
  ghost predicate Turned(rows: seq<Vector>, c: seq<Octet>, w: nat) {
    |rows| == w && forall j :: 0 <= j < w ==> Holds(rows[j], c, Spread(j, w, 16))
  }

  /** Sixteen elements of two bytes. */
  method Turn16(c: seq<Octet>) returns (rows: seq<Vector>)
    requires |c| == 16 * 2
    ensures Turned(rows, c, 2)
  {
    var a0, b0 := Load(c, 0), Load(c, 16);
    Loaded(c, 0, 32);
    Loaded(c, 16, 32);
    Interleaved(a0, b0, c, Spread(0, 32, 1), Spread(16, 32, 1), Spread(0, 16, 2), Spread(8, 16, 2));
    var a1, b1 := UnpackLo8(a0, b0), UnpackHi8(a0, b0);
    Interleaved(a1, b1, c, Spread(0, 16, 2), Spread(8, 16, 2), Spread(0, 8, 4), Spread(4, 8, 4));
    a0, b0 := UnpackLo8(a1, b1), UnpackHi8(a1, b1);
    Interleaved(a0, b0, c, Spread(0, 8, 4), Spread(4, 8, 4), Spread(0, 4, 8), Spread(2, 4, 8));
    a1, b1 := UnpackLo8(a0, b0), UnpackHi8(a0, b0);
    Interleaved(a1, b1, c, Spread(0, 4, 8), Spread(2, 4, 8), Spread(0, 2, 16), Spread(1, 2, 16));
    a0, b0 := UnpackLo8(a1, b1), UnpackHi8(a1, b1);
    rows := [a0, b0];
  }

  /** Sixteen elements of four bytes. */
  method Turn32(c: seq<Octet>) returns (rows: seq<Vector>)
    requires |c| == 16 * 4
    ensures Turned(rows, c, 4)
  {
    var a0, b0, c0, d0 := Load(c, 0), Load(c, 16), Load(c, 32), Load(c, 48);
    Loaded(c, 0, 32);
    Loaded(c, 16, 32);
    Loaded(c, 32, 32);
    Loaded(c, 48, 32);
    Interleaved(a0, b0, c, Spread(0, 32, 1), Spread(16, 32, 1), Spread(0, 16, 2), Spread(8, 16, 2));
    Interleaved(c0, d0, c, Spread(32, 32, 1), Spread(48, 32, 1), Spread(32, 16, 2), Spread(40, 16, 2));
    var a1, b1 := UnpackLo8(a0, b0), UnpackHi8(a0, b0);
    var c1, d1 := UnpackLo8(c0, d0), UnpackHi8(c0, d0);
    Interleaved(a1, b1, c, Spread(0, 16, 2), Spread(8, 16, 2), Spread(0, 8, 4), Spread(4, 8, 4));
    Interleaved(c1, d1, c, Spread(32, 16, 2), Spread(40, 16, 2), Spread(32, 8, 4), Spread(36, 8, 4));
    a0, b0 := UnpackLo8(a1, b1), UnpackHi8(a1, b1);
    c0, d0 := UnpackLo8(c1, d1), UnpackHi8(c1, d1);
    Interleaved(a0, b0, c, Spread(0, 8, 4), Spread(4, 8, 4), Spread(0, 4, 8), Spread(2, 4, 8));
    Interleaved(c0, d0, c, Spread(32, 8, 4), Spread(36, 8, 4), Spread(32, 4, 8), Spread(34, 4, 8));
    a1, b1 := UnpackLo8(a0, b0), UnpackHi8(a0, b0);
    c1, d1 := UnpackLo8(c0, d0), UnpackHi8(c0, d0);
    Joined(a1, c1, c, Spread(0, 4, 8), Spread(32, 4, 8), Spread(0, 4, 16), Spread(1, 4, 16));
    Joined(b1, d1, c, Spread(2, 4, 8), Spread(34, 4, 8), Spread(2, 4, 16), Spread(3, 4, 16));
    a0, b0 := UnpackLo64(a1, c1), UnpackHi64(a1, c1);
    c0, d0 := UnpackLo64(b1, d1), UnpackHi64(b1, d1);
    rows := [a0, b0, c0, d0];
  }

  /** Sixteen elements of eight bytes. */
  method Turn64(c: seq<Octet>) returns (rows: seq<Vector>)
    requires |c| == 16 * 8
    ensures Turned(rows, c, 8)
  {
    var a0, b0, c0, d0, e0, f0, g0, h0 := Load(c, 0), Load(c, 16), Load(c, 32), Load(c, 48), Load(c, 64), Load(c, 80), Load(c, 96), Load(c, 112);
    Loaded(c, 0, 32);
    Loaded(c, 16, 32);
    Loaded(c, 32, 32);
    Loaded(c, 48, 32);
    Loaded(c, 64, 32);
    Loaded(c, 80, 32);
    Loaded(c, 96, 32);
    Loaded(c, 112, 32);
    Interleaved(a0, b0, c, Spread(0, 32, 1), Spread(16, 32, 1), Spread(0, 16, 2), Spread(8, 16, 2));
    Interleaved(c0, d0, c, Spread(32, 32, 1), Spread(48, 32, 1), Spread(32, 16, 2), Spread(40, 16, 2));
    Interleaved(e0, f0, c, Spread(64, 32, 1), Spread(80, 32, 1), Spread(64, 16, 2), Spread(72, 16, 2));
    Interleaved(g0, h0, c, Spread(96, 32, 1), Spread(112, 32, 1), Spread(96, 16, 2), Spread(104, 16, 2));
    var a1, b1 := UnpackLo8(a0, b0), UnpackHi8(a0, b0);
    var c1, d1 := UnpackLo8(c0, d0), UnpackHi8(c0, d0);
    var e1, f1 := UnpackLo8(e0, f0), UnpackHi8(e0, f0);
    var g1, h1 := UnpackLo8(g0, h0), UnpackHi8(g0, h0);
    Interleaved(a1, b1, c, Spread(0, 16, 2), Spread(8, 16, 2), Spread(0, 8, 4), Spread(4, 8, 4));
    Interleaved(c1, d1, c, Spread(32, 16, 2), Spread(40, 16, 2), Spread(32, 8, 4), Spread(36, 8, 4));
    Interleaved(e1, f1, c, Spread(64, 16, 2), Spread(72, 16, 2), Spread(64, 8, 4), Spread(68, 8, 4));
    Interleaved(g1, h1, c, Spread(96, 16, 2), Spread(104, 16, 2), Spread(96, 8, 4), Spread(100, 8, 4));
    a0, b0 := UnpackLo8(a1, b1), UnpackHi8(a1, b1);
    c0, d0 := UnpackLo8(c1, d1), UnpackHi8(c1, d1);
    e0, f0 := UnpackLo8(e1, f1), UnpackHi8(e1, f1);
    g0, h0 := UnpackLo8(g1, h1), UnpackHi8(g1, h1);
    Joined(a0, c0, c, Spread(0, 8, 4), Spread(32, 8, 4), Spread(0, 8, 8), Spread(2, 8, 8));
    Joined(b0, d0, c, Spread(4, 8, 4), Spread(36, 8, 4), Spread(4, 8, 8), Spread(6, 8, 8));
    Joined(e0, g0, c, Spread(64, 8, 4), Spread(96, 8, 4), Spread(64, 8, 8), Spread(66, 8, 8));
    Joined(f0, h0, c, Spread(68, 8, 4), Spread(100, 8, 4), Spread(68, 8, 8), Spread(70, 8, 8));
    a1, b1 := UnpackLo32(a0, c0), UnpackHi32(a0, c0);
    c1, d1 := UnpackLo32(b0, d0), UnpackHi32(b0, d0);
    e1, f1 := UnpackLo32(e0, g0), UnpackHi32(e0, g0);
    g1, h1 := UnpackLo32(f0, h0), UnpackHi32(f0, h0);
    Joined(a1, e1, c, Spread(0, 8, 8), Spread(64, 8, 8), Spread(0, 8, 16), Spread(1, 8, 16));
    Joined(b1, f1, c, Spread(2, 8, 8), Spread(66, 8, 8), Spread(2, 8, 16), Spread(3, 8, 16));
    Joined(c1, g1, c, Spread(4, 8, 8), Spread(68, 8, 8), Spread(4, 8, 16), Spread(5, 8, 16));
    Joined(d1, h1, c, Spread(6, 8, 8), Spread(70, 8, 8), Spread(6, 8, 16), Spread(7, 8, 16));
    a0, b0 := UnpackLo64(a1, e1), UnpackHi64(a1, e1);
    c0, d0 := UnpackLo64(b1, f1), UnpackHi64(b1, f1);
    e0, f0 := UnpackLo64(c1, g1), UnpackHi64(c1, g1);
    g0, h0 := UnpackLo64(d1, h1), UnpackHi64(d1, h1);
    rows := [a0, b0, c0, d0, e0, f0, g0, h0];
  }

  // ---------------------------------------------------------------- top bits

  /** Eight of the sixteen top bits, bit b from byte from + b. */
  function MaskByte(v: Vector, from: nat): Octet
    requires from + 8 <= 16
  {
    (if Bit(v[from], 7) then 0x01 else 0) | (if Bit(v[from + 1], 7) then 0x02 else 0)
    | (if Bit(v[from + 2], 7) then 0x04 else 0) | (if Bit(v[from + 3], 7) then 0x08 else 0)
    | (if Bit(v[from + 4], 7) then 0x10 else 0) | (if Bit(v[from + 5], 7) then 0x20 else 0)
    | (if Bit(v[from + 6], 7) then 0x40 else 0) | (if Bit(v[from + 7], 7) then 0x80 else 0)
  }

  /** The mask as the two bytes in which it is stored. */
  function MoveMask(v: Vector): (Octet, Octet) { (MaskByte(v, 0), MaskByte(v, 8)) }

  /** Shifted left by one, with the top bit of the byte below. */
  function ShiftByte(x: Octet, below: Octet): Octet { (x << 1) | (below >> 7) }

  /** Each pair of bytes is shifted left by one as one number, the lower byte first. */
  function ShiftLanes(v: Vector): (s: Vector) {
    seq(16, p requires 0 <= p < 16 => ShiftByte(v[p], if p % 2 == 0 then 0 else v[p - 1]))
  }

  lemma MaskBits(v: Vector, from: nat, b: nat)
    requires from + 8 <= 16 && b < 8
    ensures Bit(MaskByte(v, from), b) == Bit(v[from + b], 7)
  {
    match b { case 0 => case 1 => case 2 => case 3 => case 4 => case 5 => case 6 => case _ => }
  }

  /** The two bytes have the top bits. */
  ghost predicate TopBits(v: Vector, bt: (Octet, Octet)) {
    forall b :: 0 <= b < 8 ==> Bit(bt.0, b) == Bit(v[b], 7) && Bit(bt.1, b) == Bit(v[8 + b], 7)
  }

  lemma MaskHasTopBits(v: Vector)
    ensures TopBits(v, MoveMask(v))
  {
    forall b | 0 <= b < 8
      ensures Bit(MoveMask(v).0, b) == Bit(v[b], 7) && Bit(MoveMask(v).1, b) == Bit(v[8 + b], 7)
    {
      MaskBits(v, 0, b);
      MaskBits(v, 8, b);
    }
  }

  lemma ShiftedUp(v: Vector, p: nat, b: nat)
    requires p < 16 && 0 < b < 8
    ensures Bit(ShiftLanes(v)[p], b) == Bit(v[p], b - 1)
  {
    ByteShifted(v[p], if p % 2 == 0 then 0 else v[p - 1], b);
  }

  lemma ByteShifted(x: Octet, below: Octet, b: nat)
    requires 0 < b < 8
    ensures Bit(ShiftByte(x, below), b) == Bit(x, b - 1)
  {
    match b { case 1 => case 2 => case 3 => case 4 => case 5 => case 6 => case _ => }
  }
}
