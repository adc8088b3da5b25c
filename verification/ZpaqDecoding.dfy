/** Decoding bits with the ZPAQ arithmetic decoder, and that it answers with the symbols that were coded. */
module ZpaqDecoding {
  import opened Bytes
  import opened Results
  import opened ZpaqCoder

  // ---------------------------------------------------------------- the decoder

  datatype Error = Corrupted | UnexpectedEof | DecodingEndOfStream

  datatype DecState = DecState(i: Interval, curr: nat, src: seq<byte>, pos: nat)

  predicate DecShape(d: DecState) { Shape(d.i) && d.curr < TWO32 && d.pos <= |d.src| }

  predicate DecReady(d: DecState) { DecShape(d) && Open(d.i) }

  type Dec = d: DecState | DecReady(d) witness DecState(FULL, 0, [], 0)

  /** Appends the next byte to curr, or all one bits at the end of input. */
  function Take(d: DecState): (r: DecState)
    requires DecShape(d)
    ensures DecShape(r) && r.i == d.i && r.src == d.src && r.pos >= d.pos
  {
    if d.pos == |d.src| then d.(curr := 0xFFFF_FFFF)
    else d.(curr := d.curr * 256 % TWO32 + d.src[d.pos], pos := d.pos + 1)
  }

  function Refill(d: DecState): (r: Result<DecState, Error>)
    requires DecShape(d)
    ensures r.Ok? ==> DecReady(r.value) && r.value.src == d.src && r.value.i == Norm(d.i)
    ensures r.Ok? ==> if Open(d.i) then r.value == d else r.value.pos > d.pos
    decreases TWO32 - Width(d.i)
  {
    if Open(d.i) then Ok(d)
    else if d.pos == |d.src| then Err(UnexpectedEof)
    else Refill(Take(d.(i := Shift(d.i))))
  }

  /** Decoding goes forward: it reads on, or at least narrows the interval. */
  predicate Forward(d: DecState, r: DecState) {
    r.src == d.src && (d.pos < r.pos || (d.pos == r.pos && Width(r.i) < Width(d.i)))
  }

  function DecBit(d: Dec, p: Prob): (r: Result<(bit, Dec), Error>)
    ensures r.Ok? ==> Forward(d, r.value.1)
  {
    if !Within(d.i, d.curr) then Err(Corrupted)
    else
      var y := if d.curr <= Mid(d.i, p) then 1 else 0;
      match Refill(d.(i := Pick(d.i, Sym(y, p))))
      case Err(e) => Err(e)
      case Ok(d1) => Ok((y, d1))
  }

  /** A way to answer for one bit; bytes and segments are decoded over any of these. */
  type BitReader = (Dec, Prob) -> Result<(bit, Dec), Error>

  function TakeMany(d: DecState, n: nat): (r: DecState)
    requires DecShape(d)
    ensures DecShape(r) && r.i == d.i && r.src == d.src && r.pos >= d.pos
    decreases n, |d.src|
  {
    if n == 0 then d else Take(TakeMany(d, n - 1))
  }

  /** A segment begins with curr 0; then its first four bytes are taken. */
  function Load(d: Dec): (r: Dec)
    ensures r.i == d.i && r.src == d.src && r.pos >= d.pos
  {
    if d.curr == 0 then TakeMany(d, 4) else d
  }


  // ---------------------------------------------------------------- decoding what was coded

  /** The last four bytes read and all that follow are s. */
  ghost predicate At(d: DecState, s: seq<byte>) {
    DecReady(d) && 4 <= d.pos && |s| >= 4 && d.src[d.pos - 4..] == s && d.curr == Window(s)
  }

  lemma TakeNext(d: DecState, b: byte, s: seq<byte>)
    requires DecShape(d) && 4 <= d.pos && |s| >= 4 && d.src[d.pos - 4..] == [b] + s && d.curr == Window([b] + s)
    ensures d.pos < |d.src| && Take(d).src[Take(d).pos - 4..] == s && Take(d).curr == Window(s)
  {
    WindowStep(b, s);
    assert d.src[d.pos - 3..] == d.src[d.pos - 4..][1..] == s;
    assert d.src[d.pos] == s[3];
  }

  lemma {:induction false} RefillReads(d: DecState, s: seq<byte>)
    requires DecShape(d) && 4 <= d.pos && |s| >= 4
    requires d.src[d.pos - 4..] == Leading(d.i) + s && d.curr == Window(Leading(d.i) + s)
    ensures Refill(d).Ok? && At(Refill(d).value, s)
    decreases TWO32 - Width(d.i)
  {
    if Open(d.i) {
      assert Leading(d.i) + s == s;
    } else {
      var d1 := d.(i := Shift(d.i));
      assert Leading(d.i) + s == [d.i.high / TWO24] + (Leading(d1.i) + s);
      TakeNext(d1, d.i.high / TWO24, Leading(d1.i) + s);
      RefillReads(Take(d1), s);
    }
  }

  /** A bit is decoded as it was coded. */
  lemma BitDecodes(d: Dec, sym: Sym, s: seq<byte>)
    requires |s| >= 4 && At(d, Leading(Pick(d.i, sym)) + s) && Within(Pick(d.i, sym), d.curr)
    ensures DecBit(d, sym.p).Ok?
    ensures var (y, d1) := DecBit(d, sym.p).value; y == sym.y && At(d1, s) && d1.i == Norm(Pick(d.i, sym))
  {
    RefillReads(d.(i := Pick(d.i, sym)), s);
  }

  /** The decoder stands in front of the symbols syms of a segment, with z after the segment. */
  ghost predicate Before(d: Dec, syms: seq<Sym>, z: seq<byte>) {
    At(d, Codes(d.i, syms + [END]) + z)
  }

  lemma FrontOfWindow(s: seq<byte>, z: seq<byte>)
    requires |s| >= 4
    ensures Window(s + z) == Window(s)
  {
    assert (s + z)[..4] == s[..4];
  }

  lemma FirstDecodes(d: Dec, sym: Sym, rest: seq<Sym>, z: seq<byte>)
    requires Before(d, [sym] + rest, z)
    ensures DecBit(d, sym.p).Ok?
    ensures var (y, d1) := DecBit(d, sym.p).value; y == sym.y && d1.i == Norm(Pick(d.i, sym)) && Before(d1, rest, z)
  {
    var j := Pick(d.i, sym);
    var s := Codes(Norm(j), rest + [END]);
    CodesStayInside(Norm(j), rest);
    SettledWindows(j, s);
    assert [sym] + rest + [END] == [sym] + (rest + [END]);
    assert ([sym] + (rest + [END]))[1..] == rest + [END];
    assert Codes(d.i, [sym] + rest + [END]) + z == Leading(j) + (s + z);
    FrontOfWindow(Leading(j) + s, z);
    BitDecodes(d, sym, s + z);
  }

  /** At the end mark the four bytes behind the segment come into view. */
  lemma EndDecodes(d: Dec, z: seq<byte>)
    requires Before(d, [], z) && |z| >= 4
    ensures DecBit(d, 0).Ok?
    ensures var (y, d1) := DecBit(d, 0).value; y == 1 && d1.i == Norm(Pick(d.i, END)) && At(d1, z)
  {
    EndInside(d.i);
    EndFlushes(d.i);
    assert [] + [END] == [END];
    var s := Codes(d.i, [END]);
    FrontOfWindow(s, z);
    WindowIs(s);
    assert s == Leading(Pick(d.i, END));
    BitDecodes(d, END, z);
  }

  /** Inside a segment curr is never 0, so its four first bytes are not loaded again. */
  lemma BeforeNotZero(d: Dec, syms: seq<Sym>, z: seq<byte>)
    requires Before(d, syms, z)
    ensures d.curr != 0
  {
    CodesStayInside(d.i, syms);
    FrontOfWindow(Codes(d.i, syms + [END]), z);
  }

  // ---------------------------------------------------------------- runs of symbols

  /** Asked with the probabilities of syms in turn, the reader answers with their bits; curr is never 0 meanwhile. */
  predicate Reads(get: BitReader, d: Dec, syms: seq<Sym>)
    decreases |syms|
  {
    syms == []
    || (d.curr != 0 && get(d, syms[0].p).Ok? && get(d, syms[0].p).value.0 == syms[0].y
        && Reads(get, get(d, syms[0].p).value.1, syms[1..]))
  }

  function Past(get: BitReader, d: Dec, syms: seq<Sym>): Dec
    requires Reads(get, d, syms)
    decreases |syms|
  {
    if syms == [] then d else Past(get, get(d, syms[0].p).value.1, syms[1..])
  }

  lemma {:induction false} ReadsAppend(get: BitReader, d: Dec, a: seq<Sym>, b: seq<Sym>)
    requires Reads(get, d, a + b)
    ensures Reads(get, d, a) && Reads(get, Past(get, d, a), b)
    ensures Past(get, d, a + b) == Past(get, Past(get, d, a), b)
    decreases |a|
  {
    if a == [] {
      assert a + b == b;
    } else {
      assert (a + b)[0] == a[0] && (a + b)[1..] == a[1..] + b;
      ReadsAppend(get, get(d, a[0].p).value.1, a[1..], b);
    }
  }

  /** The reader answers with the first of the coded symbols, and stands in front of the next. */
  ghost predicate AnswersFirst(get: BitReader, d: Dec, sym: Sym, syms: seq<Sym>, z: seq<byte>) {
    && d.curr != 0 && get(d, sym.p).Ok? && get(d, sym.p).value.0 == sym.y
    && get(d, sym.p).value.1.i == Norm(Pick(d.i, sym)) && get(d, sym.p).value.1.src == d.src
    && if syms == [] then At(get(d, sym.p).value.1, z) else Before(get(d, sym.p).value.1, syms[1..], z)
  }

  function FirstOf(syms: seq<Sym>): Sym { if syms == [] then END else syms[0] }

  ghost predicate Answers(get: BitReader) {
    forall d: Dec, syms: seq<Sym>, z: seq<byte> {:trigger Before(d, syms, z)} ::
      Before(d, syms, z) && |z| >= 4 ==> AnswersFirst(get, d, FirstOf(syms), syms, z)
  }

  lemma FirstAnswered(d: Dec, syms: seq<Sym>, z: seq<byte>)
    requires Before(d, syms, z) && |z| >= 4
    ensures AnswersFirst(DecBit, d, FirstOf(syms), syms, z)
  {
    BeforeNotZero(d, syms, z);
    if syms == [] {
      EndDecodes(d, z);
    } else {
      assert syms == [syms[0]] + syms[1..];
      FirstDecodes(d, syms[0], syms[1..], z);
    }
  }

  lemma ArithmeticDecoderAnswers()
    ensures Answers(DecBit)
  {
    forall d: Dec, syms: seq<Sym>, z: seq<byte> | Before(d, syms, z) && |z| >= 4
      ensures AnswersFirst(DecBit, d, FirstOf(syms), syms, z)
    {
      FirstAnswered(d, syms, z);
    }
  }

  /** A whole segment is decoded, its end mark included, and the decoder ends where the encoder does. */
  lemma {:induction false} CodedReads(get: BitReader, d: Dec, syms: seq<Sym>, z: seq<byte>)
    requires Answers(get) && Before(d, syms, z) && |z| >= 4
    ensures
      var all := syms + [END];
      && Reads(get, d, all)
      && At(Past(get, d, all), z) && Past(get, d, all).i == EndOf(d.i, all) && Past(get, d, all).src == d.src
    decreases |syms|
  {
    var all := syms + [END];
    var d1 := get(d, all[0].p).value.1;
    if syms == [] {
      assert all[1..] == [];
    } else {
      CodedReads(get, d1, syms[1..], z);
      assert all[1..] == syms[1..] + [END];
    }
  }

  lemma TakeOne(d: DecState, v: seq<byte>)
    requires DecShape(d) && d.pos < |d.src| && |v| == 4 && d.curr == Window(v)
    ensures Take(d).curr == Window(v[1..] + [d.src[d.pos]])
  {
    var w := v[1..] + [d.src[d.pos]];
    WindowIs(v);
    WindowIs(w);
    WordBytes(v[0], v[1], v[2], v[3], d.src[d.pos]);
  }

  lemma SlideOne(v: seq<byte>, s: seq<byte>, b: byte, n: nat)
    requires |v| == 4 && |s| == n - 1
    ensures (v + s + [b])[n..] == (v + s)[n - 1..][1..] + [b]
  {
  }

  lemma {:induction false} TakeWindow(d: DecState, v: seq<byte>, n: nat)
    requires DecShape(d) && |v| == 4 && d.curr == Window(v) && d.pos + n <= |d.src|
    ensures TakeMany(d, n).pos == d.pos + n
    ensures TakeMany(d, n).curr == Window((v + d.src[d.pos..d.pos + n])[n..])
  {
    var u := v + d.src[d.pos..d.pos + n];
    if n == 0 {
      assert u[0..] == v;
    } else {
      var t := v + d.src[d.pos..d.pos + n - 1];
      TakeWindow(d, v, n - 1);
      TakeOne(TakeMany(d, n - 1), t[n - 1..]);
      SlideOne(v, d.src[d.pos..d.pos + n - 1], d.src[d.pos + n - 1], n);
      assert u == t + [d.src[d.pos + n - 1]];
    }
  }

  lemma ZeroWindow()
    ensures Window([0, 0, 0, 0]) == 0
  {
    WindowIs([0, 0, 0, 0]);
  }

  /** The first four bytes of a segment are loaded because curr is 0 there. */
  lemma LoadReads(d: Dec, s: seq<byte>)
    requires d.curr == 0 && |s| >= 4 && d.src[d.pos..] == s
    ensures At(Load(d), s) && Load(d).src == d.src
  {
    TakenFromZero(d, s, 4);
  }

  lemma TakenFromZero(d: Dec, s: seq<byte>, n: nat)
    requires n == 4 && d.curr == 0 && |s| >= 4 && d.src[d.pos..] == s
    ensures TakeMany(d, n).curr == Window(s) && TakeMany(d, n).pos == d.pos + n
  {
    var v: seq<byte> := [0, 0, 0, 0];
    var w := d.src[d.pos..d.pos + n];
    ZeroWindow();
    TakeWindow(d, v, n);
    assert (v + w)[n..] == w && w == s[..4] && w[..4] == w;
  }
}
