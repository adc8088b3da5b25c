/** Passing over a segment without decoding it: the search for four zero bytes ends where decoding ends. */
module ZpaqSkip {
  import opened Bytes
  import opened ZpaqCoder
  import opened ZpaqDecoding
  import opened ZpaqSegments

  /** Reads up to the first byte that is not zero. */
  function SkipZeros(d: DecState): (r: DecState)
    requires DecShape(d)
    ensures DecShape(r) && r.src == d.src
    decreases |d.src| - d.pos, if d.curr == 0 then 1 else 0
  {
    if d.curr == 0 then SkipZeros(Take(d)) else d
  }

  /** Reads until the last four bytes are zero. */
  function SkipData(d: DecState): (r: DecState)
    requires DecShape(d)
    ensures DecShape(r) && r.src == d.src
    decreases |d.src| - d.pos
  {
    if d.curr == 0 || d.pos == |d.src| then d else SkipData(Take(d))
  }

  /** The next byte other than zero, or -1, and the position behind it. */
  function SkipMark(src: seq<byte>, pos: nat): (r: (int, nat))
    requires pos <= |src|
    ensures r.1 <= |src|
    decreases |src| - pos
  {
    if pos == |src| then (-1, pos)
    else if src[pos] == 0 then SkipMark(src, pos + 1)
    else (src[pos], pos + 1)
  }

  /** The byte behind the segment, and the position behind that. */
  function Skip(d: DecState): (int, nat)
    requires DecShape(d)
  {
    var d1 := SkipData(SkipZeros(d));
    SkipMark(d1.src, d1.pos)
  }

  // ---------------------------------------------------------------- where skipping stops

  /** curr shows the first four bytes of t, and the rest of t is still to be read. */
  ghost predicate Shows(d: DecState, t: seq<byte>) {
    DecShape(d) && |t| >= 4 && d.curr == Window(t) && d.src[d.pos..] == t[4..]
  }

  lemma TakeShows(d: DecState, t: seq<byte>)
    requires Shows(d, t) && |t| > 4
    ensures d.pos < |d.src| && Shows(Take(d), t[1..]) && Take(d).src == d.src && Take(d).pos == d.pos + 1
  {
    assert t[..4][..4] == t[..4];
    TakeOne(d, t[..4]);
    assert d.src[d.pos] == t[4];
    assert t[..4][1..] + [t[4]] == t[1..][..4] == (t[..4][1..] + [t[4]])[..4];
    assert d.src[d.pos + 1..] == d.src[d.pos..][1..] == t[1..][4..];
  }

  /** What follows the four zeros begins with a byte other than zero. */
  predicate Marks(z: seq<byte>) { z != [] && z[0] != 0 }

  const FOUR_ZEROS: seq<byte> := [0, 0, 0, 0]

  predicate Zeros(q: seq<byte>) { forall k :: 0 <= k < |q| ==> q[k] == 0 }

  lemma {:induction false} MarkFound(src: seq<byte>, pos: nat, q: seq<byte>, z: seq<byte>)
    requires pos <= |src| && src[pos..] == q + z && Zeros(q) && Marks(z)
    ensures SkipMark(src, pos) == (z[0] as int, |src| - |z| + 1)
    decreases |q|
  {
    var s := src[pos..];
    assert src[pos] == s[0];
    if q != [] {
      assert src[pos + 1..] == s[1..] == q[1..] + z;
      MarkFound(src, pos + 1, q[1..], z);
    }
  }

  /** Among the zeros: those of q are still to be read. */
  lemma {:induction false} AmongZeros(d: DecState, a: seq<byte>, q: seq<byte>, z: seq<byte>)
    requires |a| == 4 && |q| <= 4 && Shows(d, a + (q + z)) && Zeros(q) && Zeros(a[|q|..]) && Marks(z)
    ensures SkipMark(d.src, SkipData(d).pos) == (z[0] as int, |d.src| - |z| + 1)
    decreases |q|
  {
    FourAndRest(a, q + z);
    if q == [] {
      ZeroWindow(a);
    }
    if d.curr == 0 {
      MarkFound(d.src, d.pos, q, z);
    } else {
      TakeShows(d, a + (q + z));
      ZeroMoves(a, q, z);
      AmongZeros(Take(d), a[1..] + [0], q[1..], z);
    }
  }

  lemma FourAndRest(a: seq<byte>, r: seq<byte>)
    requires |a| == 4
    ensures (a + r)[..4] == a && (a + r)[4..] == r && Window(a + r) == Window(a)
  {
    assert a[..4] == a;
    WindowIs(a);
    WindowIs(a + r);
  }

  lemma ZeroWindow(a: seq<byte>)
    requires |a| == 4 && Zeros(a[0..])
    ensures Window(a) == 0
  {
    assert a[0..] == a;
    WindowIs(a);
  }

  /** The next zero moves into the window. */
  lemma ZeroMoves(a: seq<byte>, q: seq<byte>, z: seq<byte>)
    requires |a| == 4 && 0 < |q| <= 4 && Zeros(q) && Zeros(a[|q|..])
    ensures (a + (q + z))[1..] == a[1..] + [0] + (q[1..] + z) && Zeros(q[1..]) && Zeros((a[1..] + [0])[|q| - 1..])
  {
    assert (a[1..] + [0])[|q| - 1..] == a[|q|..] + [0];
  }

  lemma FirstWindow(s: seq<byte>)
    requires |s| >= 4 && NoZeroWindow(s)
    ensures Window(s) > 0
    ensures |s| > 4 ==> NoZeroWindow(s[1..])
  {
    assert s[0..] == s && Window(s[0..]) > 0;
    WindowIs(s);
    if |s| > 4 {
      forall k | 0 <= k <= |s[1..]| - 4
        ensures Window(s[1..][k..]) > 0
      {
        assert s[1..][k..] == s[k + 1..];
      }
    }
  }

  /** Bytes without a zero window in front of four zeros: the zeros are found, no earlier. */
  lemma {:induction false} ZerosFound(d: DecState, s: seq<byte>, z: seq<byte>)
    requires |s| >= 4 && NoZeroWindow(s) && Shows(d, s + (FOUR_ZEROS + z)) && Marks(z)
    ensures SkipMark(d.src, SkipData(d).pos) == (z[0] as int, |d.src| - |z| + 1)
    decreases |s|
  {
    var zz := FOUR_ZEROS + z;
    if |s| == 4 {
      AmongZeros(d, s, FOUR_ZEROS, z);
    } else {
      FirstWindow(s);
      assert (s + zz)[..4] == s[..4];
      TakeShows(d, s + zz);
      assert (s + zz)[1..] == s[1..] + zz;
      ZerosFound(Take(d), s[1..], z);
    }
  }

  lemma BehindFour(s: seq<byte>, n: nat, zz: seq<byte>)
    requires n < |s|
    ensures
      var w := [0, 0, 0] + s[n..];
      w + zz == [0, 0, 0] + (s[n..] + zz) && (w + zz)[4..] == s[n + 1..] + zz
  {
  }

  lemma FewZeros(s: seq<byte>, n: nat)
    requires n < |s| && |s| >= 4 && NoZeroWindow(s) && forall k :: 0 <= k <= n ==> s[k] == 0
    ensures n < 3
  {
    FirstWindow(s);
    WindowIs(s);
  }

  /** A leading zero of a segment is taken like the zeros in front of it. */
  lemma {:induction false} LeadingZeros(d: DecState, n: nat, s: seq<byte>, z: seq<byte>)
    requires n < |s| && |s| >= 4 && NoZeroWindow(s) && forall k :: 0 <= k < n ==> s[k] == 0
    requires DecShape(d) && d.curr == 0 && d.src[d.pos..] == s[n..] + (FOUR_ZEROS + z) && Marks(z)
    ensures Skip(d) == (z[0] as int, |d.src| - |z| + 1)
    decreases |s| - n
  {
    var zz := FOUR_ZEROS + z;
    var d1 := Take(d);
    var w := [0, 0, 0] + s[n..];
    ZeroTaken(d, s[n..] + zz);
    BehindFour(s, n, zz);
    assert Skip(d) == Skip(d1);
    if s[n] == 0 {
      FewZeros(s, n);
      LeadingZeros(d1, n + 1, s, z);
    } else {
      ZerosPrepended(s, n);
      ZerosFound(d1, w, z);
    }
  }

  /** The first byte behind zeros. */
  lemma ZeroTaken(d: DecState, r: seq<byte>)
    requires DecShape(d) && d.curr == 0 && r != [] && d.src[d.pos..] == r
    ensures Shows(Take(d), [0, 0, 0] + r) && Take(d).curr == r[0] && Take(d).src == d.src
  {
    var v: seq<byte> := [0, 0, 0, 0];
    WindowIs(v);
    assert v[..4] == v && (v + r)[..4] == v && (v + r)[4..] == r;
    TakeShows(d, v + r);
    assert (v + r)[1..] == [0, 0, 0] + r;
    var u: seq<byte> := [0, 0, 0, r[0]];
    WindowIs(u);
    assert ([0, 0, 0] + r)[..4] == u == u[..4];
  }

  lemma ZerosPrepended(s: seq<byte>, n: nat)
    requires n < |s| && NoZeroWindow(s) && s[n] != 0
    ensures NoZeroWindow([0, 0, 0] + s[n..])
  {
    var w := [0, 0, 0] + s[n..];
    forall k | 0 <= k <= |w| - 4
      ensures Window(w[k..]) > 0
    {
      if k < 4 {
        WindowIs(w[k..]);
        assert w[k..][3 - k] == s[n];
      } else {
        assert w[k..] == s[n + k - 3..];
      }
    }
  }

  /** Wherever in a segment skipping begins, it ends at the byte behind the four zeros. */
  lemma SkipFromInside(d: Dec, syms: seq<Sym>, z: seq<byte>)
    requires Marks(z) && Before(d, syms, [0, 0, 0, 0] + z)
    ensures Skip(d) == (z[0] as int, |d.src| - |z| + 1)
  {
    var s := Codes(d.i, syms + [END]);
    CodesStayInside(d.i, syms);
    BeforeNotZero(d, syms, [0, 0, 0, 0] + z);
    var t := s + (FOUR_ZEROS + z);
    WindowIs(t);
    assert d.src[d.pos..] == d.src[d.pos - 4..][4..] == t[4..];
    ZerosFound(d, s, z);
  }

  lemma SkipFromStart(d: Dec, syms: seq<Sym>, z: seq<byte>)
    requires Marks(z) && d.curr == 0 && d.src[d.pos..] == Codes(d.i, syms + [END]) + ([0, 0, 0, 0] + z)
    ensures Skip(d) == (z[0] as int, |d.src| - |z| + 1)
  {
    var s := Codes(d.i, syms + [END]);
    CodesStayInside(d.i, syms);
    assert s[0..] == s;
    LeadingZeros(d, 0, s, z);
  }

  /** Skipping a segment and decoding it, with a decoder that answers as coded, lead to the same marker byte. */
  lemma SkipAgreesWithDecoding(get: BitReader, predict: Predictor, d: Dec, seen: seq<bit>, data: seq<byte>,
                               z: seq<byte>)
    requires Progresses(get) && Answers(get) && Marks(z) && d.curr == 0
    requires d.src[d.pos..] == Segment(predict, d.i, seen, data) + ([0, 0, 0, 0] + z)
    ensures DecSegment(get, predict, d, seen, []).Ok?
    ensures
      var d1 := DecSegment(get, predict, d, seen, []).value.1;
      d1.pos < |d1.src| && Skip(d) == (d1.src[d1.pos] as int, d1.pos + 1)
  {
    AnswersSegment(get, predict, d, seen, data, z);
    SkipFromStart(d, DataSyms(predict, seen, data), z);
    var at := |d.src| - |z|;
    assert d.src[at] == d.src[at..][0];
  }
}
