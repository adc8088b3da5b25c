/**
 The carry-less arithmetic coder of ZPAQ on values: coding intervals, the bytes a segment is coded to,
 decoding, and the proofs that decoding inverts coding and that no run of four coded bytes is zero.
 */
module ZpaqCoder {
  import opened Bytes

  // ---------------------------------------------------------------- intervals

  /** A bit, and the probability that it is 1 in units of 1/65536. */
  datatype Sym = Sym(y: bit, p: Prob)

  type Prob = x: int | 0 <= x < 65536

  datatype Interval = Interval(low: nat, high: nat)

  const FULL := Interval(1, 0xFFFF_FFFF)

  predicate Shape(i: Interval) { 1 <= i.low <= i.high < TWO32 }

  /** The leading byte is not settled: this holds whenever a bit is about to be coded. */
  predicate Open(i: Interval) { Shape(i) && i.low / TWO24 != i.high / TWO24 }

  function Width(i: Interval): int { i.high - i.low }

  function Mid(i: Interval, p: Prob): (m: nat)
    requires Shape(i)
    ensures i.low <= m <= i.high && (i.low < i.high ==> m < i.high)
  {
    ShareIsLess(i.high - i.low, p);
    i.low + (i.high - i.low) * p / 65536
  }

  lemma ShareIsLess(w: nat, p: Prob)
    ensures 0 <= w * p / 65536 <= w && (w > 0 ==> w * p / 65536 < w)
  {
    MoreTimes(w, p);
  }

  lemma MoreTimes(w: nat, p: Prob)
    ensures 0 <= w * p <= w * 65535
  {
  }

  function Pick(i: Interval, s: Sym): (r: Interval)
    requires Open(i)
    ensures Shape(r) && i.low <= r.low && r.high <= i.high && Width(r) < Width(i)
  {
    var mid := Mid(i, s.p);
    if s.y == 1 then Interval(i.low, mid) else Interval(mid + 1, i.high)
  }

  /** Drops the leading byte, which both ends share; low is kept off zero. */
  function Shift(i: Interval): (r: Interval)
    requires Shape(i) && !Open(i)
    ensures Shape(r) && 256 * Width(i) + 254 <= Width(r) <= 256 * Width(i) + 255
  {
    var low := i.low * 256 % TWO32;
    Interval(if low == 0 then 1 else low, i.high * 256 % TWO32 + 255)
  }

  function Norm(i: Interval): (r: Interval)
    requires Shape(i)
    ensures Open(r)
    decreases TWO32 - Width(i)
  {
    if Open(i) then i else Norm(Shift(i))
  }

  /** The bytes that are settled in i. */
  function Leading(i: Interval): seq<byte>
    requires Shape(i)
    decreases TWO32 - Width(i)
  {
    if Open(i) then [] else [i.high / TWO24] + Leading(Shift(i))
  }

  // ---------------------------------------------------------------- runs of symbols

  function Codes(i: Interval, syms: seq<Sym>): seq<byte>
    requires Open(i)
    decreases |syms|
  {
    if syms == [] then [] else Leading(Pick(i, syms[0])) + Codes(Norm(Pick(i, syms[0])), syms[1..])
  }

  function EndOf(i: Interval, syms: seq<Sym>): (r: Interval)
    requires Open(i)
    ensures Open(r)
    decreases |syms|
  {
    if syms == [] then i else EndOf(Norm(Pick(i, syms[0])), syms[1..])
  }

  lemma {:induction false} CodesAppend(i: Interval, a: seq<Sym>, b: seq<Sym>)
    requires Open(i)
    ensures Codes(i, a + b) == Codes(i, a) + Codes(EndOf(i, a), b)
    ensures EndOf(i, a + b) == EndOf(EndOf(i, a), b)
    decreases |a|
  {
    if a == [] {
      assert a + b == b;
    } else {
      assert (a + b)[0] == a[0] && (a + b)[1..] == a[1..] + b;
      CodesAppend(Norm(Pick(i, a[0])), a[1..], b);
    }
  }

  lemma CodesOneMore(i: Interval, syms: seq<Sym>, s: Sym)
    requires Open(i)
    ensures Codes(i, syms + [s]) == Codes(i, syms) + Leading(Pick(EndOf(i, syms), s))
    ensures EndOf(i, syms + [s]) == Norm(Pick(EndOf(i, syms), s))
  {
    CodesAppend(i, syms, [s]);
    var e := EndOf(i, syms);
    assert [s][1..] == [];
    assert Codes(e, [s]) == Leading(Pick(e, s)) + Codes(Norm(Pick(e, s)), []);
  }

  // ---------------------------------------------------------------- windows of four bytes

  /** The 32-bit word of four bytes. */
  function Word(a: nat, b: nat, c: nat, d: nat): nat { ((a * 256 + b) * 256 + c) * 256 + d }

  function Window(s: seq<byte>): nat
    requires |s| >= 4
  {
    Value(s[..4])
  }

  lemma WindowIs(s: seq<byte>)
    requires |s| >= 4
    ensures Window(s) == Word(s[0], s[1], s[2], s[3])
  {
    assert s[..0] == [] && Value(s[..0]) == 0;
    ValuePrefix(s, 0);
    ValuePrefix(s, 1);
    ValuePrefix(s, 2);
    ValuePrefix(s, 3);
  }

  lemma WordBytes(a: byte, b: byte, c: byte, d: byte, e: byte)
    ensures Word(a, b, c, d) / TWO24 == a
    ensures Word(a, b, c, d) * 256 % TWO32 + e == Word(b, c, d, e)
  {
  }

  predicate Within(i: Interval, v: nat) { i.low <= v <= i.high }

  ghost predicate NoZeroWindow(s: seq<byte>) {
    forall k :: 0 <= k <= |s| - 4 ==> Window(s[k..]) > 0
  }

  lemma WindowStep(b: byte, s: seq<byte>)
    requires |s| >= 4
    ensures Window([b] + s) == b * TWO24 + Window(s) / 256
    ensures Window(s) == Window([b] + s) * 256 % TWO32 + s[3]
  {
    WindowIs(s);
    WindowIs([b] + s);
    WordBytes(b, s[0], s[1], s[2], s[3]);
  }

  /** If the bytes after the leading byte lie in the shifted interval, then with it they lie in the interval. */
  lemma ShiftBack(i: Interval, s: seq<byte>)
    requires Shape(i) && !Open(i) && |s| >= 4 && Within(Shift(i), Window(s))
    ensures Within(i, Window([i.high / TWO24] + s))
  {
    WindowStep(i.high / TWO24, s);
    var top := i.high / TWO24;
    assert i.low == top * TWO24 + i.low % TWO24 && i.high == top * TWO24 + i.high % TWO24;
    assert i.low * 256 % TWO32 == i.low % TWO24 * 256 by { RemainderIs(i.low * 256, TWO32, top, i.low % TWO24 * 256); }
    assert i.high * 256 % TWO32 == i.high % TWO24 * 256 by { RemainderIs(i.high * 256, TWO32, top, i.high % TWO24 * 256); }
  }

  lemma NonZeroOneMore(b: byte, s: seq<byte>)
    requires |s| >= 4 && NoZeroWindow(s) && Window([b] + s) > 0
    ensures NoZeroWindow([b] + s)
  {
    forall k | 0 <= k <= |s| - 3
      ensures Window(([b] + s)[k..]) > 0
    {
      if k == 0 {
        assert ([b] + s)[0..] == [b] + s;
      } else {
        assert ([b] + s)[k..] == s[k - 1..];
      }
    }
  }

  lemma {:induction false} SettledWindows(i: Interval, s: seq<byte>)
    requires Shape(i) && |s| >= 4 && Within(Norm(i), Window(s)) && NoZeroWindow(s)
    ensures Within(i, Window(Leading(i) + s)) && NoZeroWindow(Leading(i) + s)
    decreases TWO32 - Width(i)
  {
    if Open(i) {
      assert Leading(i) + s == s;
    } else {
      SettledWindows(Shift(i), s);
      var rest := Leading(Shift(i)) + s;
      assert Leading(i) + s == [i.high / TWO24] + rest;
      ShiftBack(i, rest);
      NonZeroOneMore(i.high / TWO24, rest);
    }
  }

  // ---------------------------------------------------------------- the end of a segment

  /** Coded with probability 0 of being what it is. */
  const END := Sym(1, 0)

  function Digits4(x: nat): (s: seq<byte>)
    requires x < TWO32
    ensures |s| == 4 && Word(s[0], s[1], s[2], s[3]) == x
  {
    [x / 256 / 256 / 256, x / 256 / 256 % 256, x / 256 % 256, x % 256]
  }

  /** A shift of an interval whose ends share their leading byte. */
  lemma ShiftWords(i: Interval, h: seq<byte>, l: seq<byte>)
    requires Shape(i) && |h| == |l| == 4 && h[0] == l[0] && i.high == Window(h) && i.low == Window(l)
    ensures !Open(i) && i.high / TWO24 == h[0]
    ensures Shift(i).high == Window(h[1..] + [255])
    ensures Shift(i).low == Window(l[1..] + [0]) || Shift(i).low == Window(l[1..] + [1])
    ensures Leading(i) == [h[0]] + Leading(Shift(i))
  {
    WindowIs(h);
    WindowIs(l);
    WindowIs(h[1..] + [255]);
    WindowIs(l[1..] + [0]);
    WindowIs(l[1..] + [1]);
    WordBytes(h[0], h[1], h[2], h[3], 255);
    WordBytes(l[0], l[1], l[2], l[3], 0);
    WordBytes(l[0], l[1], l[2], l[3], 1);
  }

  /** The low end behind a shift, whether or not it has been bumped off zero. */
  function Shifted(i: Interval, l: seq<byte>): (r: seq<byte>)
    requires |l| == 4
    ensures |r| == 4 && r[..3] == l[1..] && r[3] <= 1
  {
    l[1..] + [if Shape(i) && !Open(i) && Shift(i).low == Window(l[1..] + [0]) then 0 else 1]
  }

  /** Coding the end mark leaves an interval of width 0, so exactly its four bytes are written. */
  lemma EndFlushes(i: Interval)
    requires Open(i)
    ensures Leading(Pick(i, END)) == Digits4(i.low)
  {
    var i0, h0 := Pick(i, END), Digits4(i.low);
    WindowIs(h0);
    ShiftWords(i0, h0, h0);
    var i1, h1, l1 := Shift(i0), h0[1..] + [255], Shifted(i0, h0);
    ShiftWords(i1, h1, l1);
    var i2, h2, l2 := Shift(i1), h1[1..] + [255], Shifted(i1, l1);
    ShiftWords(i2, h2, l2);
    var i3, h3, l3 := Shift(i2), h2[1..] + [255], Shifted(i2, l2);
    ShiftWords(i3, h3, l3);
    var i4, l4 := Shift(i3), Shifted(i3, l3);
    WindowIs(l4);
    WordBytes(l4[0], l4[1], l4[2], l4[3], 0);
    assert Leading(i4) == [];
  }

  lemma EndInside(i: Interval)
    requires Open(i)
    ensures var s := Codes(i, [END]); s == Digits4(i.low) && Within(i, Window(s)) && NoZeroWindow(s)
  {
    CodesOneMore(i, [], END);
    EndFlushes(i);
    assert [] + [END] == [END];
    assert Digits4(i.low)[0..] == Digits4(i.low);
    WindowIs(Digits4(i.low));
  }

  /**
   The point every later byte narrows down to: the next four bytes, read as a number, lie in the
   interval; and no four bytes in a row are zero, because low never is.
   */
  lemma {:induction false} CodesStayInside(i: Interval, syms: seq<Sym>)
    requires Open(i)
    ensures
      var s := Codes(i, syms + [END]);
      |s| >= 4 && Within(i, Window(s)) && NoZeroWindow(s)
    decreases |syms|
  {
    if syms == [] {
      assert syms + [END] == [END];
      EndInside(i);
    } else {
      var j := Pick(i, syms[0]);
      CodesStayInside(Norm(j), syms[1..]);
      assert (syms + [END])[1..] == syms[1..] + [END];
      SettledWindows(j, Codes(Norm(j), syms[1..] + [END]));
    }
  }
}
