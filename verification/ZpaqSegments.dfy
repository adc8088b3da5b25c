/** Whole segments coded with a predictor: decoding, and the round trip over the segments of a block. */
module ZpaqSegments {
  import opened Bytes
  import opened Bits
  import opened Results
  import opened ZpaqCoder
  import opened ZpaqDecoding

  // ---------------------------------------------------------------- what is coded

  /** A 15-bit prediction for every history of bits since the block began. */
  type Predictor = seq<bit> -> Guess

  type Guess = x: int | 0 <= x < 32768

  function Odd(g: Guess): Prob { 2 * g + 1 }

  function BitsOf(c: nat, n: nat): seq<bit>
    decreases n, c
  {
    if n == 0 then [] else [BitAt(c, n - 1)] + BitsOf(c, n - 1)
  }

  /** The low n bits of c from the top, each with its prediction. */
  function BitSyms(predict: Predictor, seen: seq<bit>, c: nat, n: nat): seq<Sym>
    decreases n, |seen|
  {
    if n == 0 then []
    else [Sym(BitAt(c, n - 1), Odd(predict(seen)))] + BitSyms(predict, seen + [BitAt(c, n - 1)], c, n - 1)
  }

  /** Coded in front of every byte, with probability 1 of being what it is. */
  const MORE := Sym(0, 0)

  function ByteSyms(predict: Predictor, seen: seq<bit>, c: byte): seq<Sym> {
    [MORE] + BitSyms(predict, seen, c, 8)
  }

  /** The symbols of a segment up to its end mark. */
  function DataSyms(predict: Predictor, seen: seq<bit>, data: seq<byte>): seq<Sym>
    decreases |data|
  {
    if data == [] then []
    else ByteSyms(predict, seen, data[0])
         + DataSyms(predict, seen + BitsOf(data[0], 8), data[1..])
  }

  function SeenAfter(seen: seq<bit>, data: seq<byte>): seq<bit>
    decreases |data|
  {
    if data == [] then seen else SeenAfter(seen + BitsOf(data[0], 8), data[1..])
  }

  /** Everything up to and including the bytes that the end mark settles. */
  function Segment(predict: Predictor, i: Interval, seen: seq<bit>, data: seq<byte>): seq<byte>
    requires Open(i)
  {
    Codes(i, DataSyms(predict, seen, data) + [END])
  }

  function AfterSegment(predict: Predictor, i: Interval, seen: seq<bit>, data: seq<byte>): (r: Interval)
    requires Open(i)
    ensures Open(r)
  {
    EndOf(i, DataSyms(predict, seen, data) + [END])
  }

  // ---------------------------------------------------------------- decoding

  /** Every bit read moves the decoder on. */
  ghost predicate Progresses(get: BitReader) {
    forall d: Dec, p: Prob {:trigger get(d, p)} :: get(d, p).Ok? ==> Forward(d, get(d, p).value.1)
  }

  /** Bits below the leading 1 of c until there are eight. */
  function DecBits(get: BitReader, predict: Predictor, d: Dec, seen: seq<bit>, c: nat): (r: Result<(nat, Dec,
                   seq<bit>), Error>)
    requires 1 <= c < 512 && Progresses(get)
    ensures r.Ok? ==> 256 <= r.value.0 < 512 && (r.value.1 == d || Forward(d, r.value.1))
    decreases 512 - c
  {
    if c >= 256 then Ok((c, d, seen))
    else
      match get(d, Odd(predict(seen)))
      case Err(e) => Err(e)
      case Ok((y, d1)) => DecBits(get, predict, d1, seen + [y], 2 * c + y)
  }

  datatype Item = End | Byte(b: byte)

  /** The next byte of the segment, or its end. */
  function DecItem(get: BitReader, predict: Predictor, d: Dec, seen: seq<bit>): (r: Result<(Item, Dec, seq<bit>),
                   Error>)
    requires Progresses(get)
    ensures r.Ok? ==> Forward(d, r.value.1)
  {
    match get(Load(d), 0)
    case Err(e) => Err(e)
    case Ok((y, d1)) =>
      if y == 1 then
        if d1.curr != 0 then Err(DecodingEndOfStream) else Ok((End, d1, seen))
      else
        match DecBits(get, predict, d1, seen, 1)
        case Err(e) => Err(e)
        case Ok((c, d2, seen2)) => Ok((Byte(c - 256), d2, seen2))
  }

  /** A way to read items. */
  type ItemReader = (Dec, seq<bit>) -> Result<(Item, Dec, seq<bit>), Error>

  ghost predicate Steps(next: ItemReader) {
    forall d: Dec, seen: seq<bit> {:trigger next(d, seen)} :: next(d, seen).Ok? ==> Forward(d, next(d, seen).value.1)
  }

  function ItemsOf(get: BitReader, predict: Predictor): (next: ItemReader)
    requires Progresses(get)
    ensures Steps(next)
  {
    (d, seen) => DecItem(get, predict, d, seen)
  }

  function DecItems(next: ItemReader, d: Dec, seen: seq<bit>, got: seq<byte>)
    : (r: Result<(seq<byte>, Dec, seq<bit>), Error>)
    requires Steps(next)
    ensures r.Ok? ==> r.value.1.src == d.src
    decreases |d.src| - d.pos, Width(d.i)
  {
    match next(d, seen)
    case Err(e) => Err(e)
    case Ok((End, d1, seen1)) => Ok((got, d1, seen1))
    case Ok((Byte(b), d1, seen1)) => DecItems(next, d1, seen1, got + [b])
  }

  function DecSegment(get: BitReader, predict: Predictor, d: Dec, seen: seq<bit>, got: seq<byte>)
    : (r: Result<(seq<byte>, Dec, seq<bit>), Error>)
    requires Progresses(get)
    ensures r.Ok? ==> r.value.1.src == d.src
  {
    DecItems(ItemsOf(get, predict), d, seen, got)
  }

  // ---------------------------------------------------------------- decoding what was coded

  /** c is a node with n levels below it, the last of them 256..511. */
  predicate Above(c: nat, n: nat)
    decreases n
  {
    if n == 0 then 256 <= c < 512 else 1 <= c < 256 && Above(2 * c, n - 1) && Above(2 * c + 1, n - 1)
  }

  lemma {:induction false} RangeAbove(c: nat, n: nat, p: nat)
    requires p * Pow2(n) == 256 && p <= c < 2 * p
    ensures Above(c, n)
    decreases n
  {
    if n > 0 {
      var q := Pow2(n - 1);
      assert p * (2 * q) == 2 * p * q;
      assert 2 * p <= 2 * p * q;
      RangeAbove(2 * c, n - 1, 2 * p);
      RangeAbove(2 * c + 1, n - 1, 2 * p);
    }
  }

  lemma {:induction false} BitsDecode(get: BitReader, predict: Predictor, d: Dec, seen: seq<bit>, c: nat, v: nat,
                                      n: nat)
    requires Progresses(get) && Reads(get, d, BitSyms(predict, seen, v, n)) && Above(c, n)
    ensures DecBits(get, predict, d, seen, c)
         == Ok((NodeBelow(c, v, n), Past(get, d, BitSyms(predict, seen, v, n)), seen + BitsOf(v, n)))
    decreases n
  {
    if n == 0 {
      assert seen + BitsOf(v, n) == seen;
    } else {
      var y := BitAt(v, n - 1);
      BitsDecode(get, predict, get(d, Odd(predict(seen))).value.1, seen + [y], 2 * c + y, v, n - 1);
      assert seen + [y] + BitsOf(v, n - 1) == seen + BitsOf(v, n);
    }
  }

  lemma ByteDecodes(get: BitReader, predict: Predictor, d: Dec, seen: seq<bit>, b: byte)
    requires Progresses(get) && Reads(get, d, ByteSyms(predict, seen, b))
    ensures DecItem(get, predict, d, seen) == Ok((Byte(b), Past(get, d, ByteSyms(predict, seen, b)), seen + BitsOf(b, 8)))
  {
    assert ByteSyms(predict, seen, b)[1..] == BitSyms(predict, seen, b, 8);
    EightBitsDecode(get, predict, get(d, 0).value.1, seen, b, 8);
  }

  lemma EightBitsDecode(get: BitReader, predict: Predictor, d: Dec, seen: seq<bit>, b: byte, n: nat)
    requires Progresses(get) && n == 8 && Reads(get, d, BitSyms(predict, seen, b, n))
    ensures DecBits(get, predict, d, seen, 1) == Ok((256 + b, Past(get, d, BitSyms(predict, seen, b, n)), seen + BitsOf(b, n)))
  {
    SmallPowers();
    NodeOfPrefix(b, n);
    RangeAbove(1, n, 1);
    BitsDecode(get, predict, d, seen, 1, b, n);
  }

  /** The first byte of a segment, and where its decoding leads. */
  lemma FirstByteDecodes(get: BitReader, predict: Predictor, d: Dec, seen: seq<bit>, data: seq<byte>)
    returns (seen1: seq<bit>, d1: Dec)
    requires Progresses(get) && data != [] && Reads(get, d, DataSyms(predict, seen, data) + [END])
    ensures DecItem(get, predict, d, seen) == Ok((Byte(data[0]), d1, seen1))
    ensures Reads(get, d1, DataSyms(predict, seen1, data[1..]) + [END])
    ensures Past(get, d1, DataSyms(predict, seen1, data[1..]) + [END]) == Past(get, d, DataSyms(predict, seen, data) + [END])
    ensures SeenAfter(seen1, data[1..]) == SeenAfter(seen, data)
  {
    var first := ByteSyms(predict, seen, data[0]);
    seen1 := seen + BitsOf(data[0], 8);
    var rest := DataSyms(predict, seen1, data[1..]) + [END];
    assert DataSyms(predict, seen, data) + [END] == first + rest;
    ReadsAppend(get, d, first, rest);
    d1 := Past(get, d, first);
    ByteDecodes(get, predict, d, seen, data[0]);
  }

  lemma EndDecodes(get: BitReader, predict: Predictor, d: Dec, seen: seq<bit>)
    requires Progresses(get) && Reads(get, d, [END]) && Past(get, d, [END]).curr == 0
    ensures DecItem(get, predict, d, seen) == Ok((End, Past(get, d, [END]), seen))
  {
    assert [END][1..] == [];
  }

  /** The items are the bytes of data and then the end, where the decoder is at last. */
  predicate Gives(next: ItemReader, d: Dec, seen: seq<bit>, data: seq<byte>, last: (Dec, seq<bit>))
    decreases |data|
  {
    if data == [] then next(d, seen) == Ok((End, last.0, last.1))
    else
      && next(d, seen).Ok? && next(d, seen).value.0 == Byte(data[0])
      && Gives(next, next(d, seen).value.1, next(d, seen).value.2, data[1..], last)
  }

  lemma {:induction false} ItemsDecode(next: ItemReader, d: Dec, seen: seq<bit>, data: seq<byte>, last: (Dec, seq<bit>),
                                       got: seq<byte>)
    requires Steps(next) && Gives(next, d, seen, data, last)
    ensures DecItems(next, d, seen, got) == Ok((got + data, last.0, last.1))
    decreases |data|
  {
    if data == [] {
      assert got + data == got;
    } else {
      ItemsDecode(next, next(d, seen).value.1, next(d, seen).value.2, data[1..], last, got + [data[0]]);
      assert got + [data[0]] + data[1..] == got + data;
    }
  }

  lemma {:induction false} SegmentGives(get: BitReader, predict: Predictor, d: Dec, seen: seq<bit>, data: seq<byte>)
    requires Progresses(get) && Reads(get, d, DataSyms(predict, seen, data) + [END])
    requires Past(get, d, DataSyms(predict, seen, data) + [END]).curr == 0
    ensures Gives(ItemsOf(get, predict), d, seen, data, (Past(get, d, DataSyms(predict, seen, data) + [END]), SeenAfter(seen, data)))
    decreases |data|
  {
    if data == [] {
      assert DataSyms(predict, seen, data) + [END] == [END];
      EndDecodes(get, predict, d, seen);
    } else {
      var seen1, d1 := FirstByteDecodes(get, predict, d, seen, data);
      SegmentGives(get, predict, d1, seen1, data[1..]);
    }
  }

  lemma SegmentDecodes(get: BitReader, predict: Predictor, d: Dec, seen: seq<bit>, data: seq<byte>, got: seq<byte>)
    requires Progresses(get) && Reads(get, d, DataSyms(predict, seen, data) + [END])
    requires Past(get, d, DataSyms(predict, seen, data) + [END]).curr == 0
    ensures DecSegment(get, predict, d, seen, got)
         == Ok((got + data, Past(get, d, DataSyms(predict, seen, data) + [END]), SeenAfter(seen, data)))
  {
    var last := (Past(get, d, DataSyms(predict, seen, data) + [END]), SeenAfter(seen, data));
    SegmentGives(get, predict, d, seen, data);
    ItemsDecode(ItemsOf(get, predict), d, seen, data, last, got);
  }

  lemma LoadedSegment(get: BitReader, predict: Predictor, d: Dec, seen: seq<bit>)
    requires Progresses(get) && d.curr == 0 && Load(d).curr != 0
    ensures DecSegment(get, predict, d, seen, []) == DecSegment(get, predict, Load(d), seen, [])
  {
    SameItems(ItemsOf(get, predict), d, Load(d), seen);
  }

  lemma SameItems(next: ItemReader, d: Dec, d1: Dec, seen: seq<bit>)
    requires Steps(next) && next(d, seen) == next(d1, seen)
    ensures DecItems(next, d, seen, []) == DecItems(next, d1, seen, [])
  {
  }

  lemma ArithmeticDecoderProgresses()
    ensures Progresses(DecBit)
  {
  }

  /**
   A segment is decoded to what was coded. Afterwards the decoder is where the encoder is, with curr 0
   and the input at what follows the four zero bytes: the state in which a segment begins.
   */
  lemma SegmentRoundTrip(predict: Predictor, d: Dec, seen: seq<bit>, data: seq<byte>, z: seq<byte>)
    requires d.curr == 0
    requires d.src[d.pos..] == Segment(predict, d.i, seen, data) + ([0, 0, 0, 0] + z)
    ensures Progresses(DecBit)
    ensures DecSegment(DecBit, predict, d, seen, [])
         == Ok((data, DecState(AfterSegment(predict, d.i, seen, data), 0, d.src, |d.src| - |z|), SeenAfter(seen, data)))
    ensures d.src[|d.src| - |z|..] == z
  {
    ArithmeticDecoderProgresses();
    ArithmeticDecoderAnswers();
    AnswersSegment(DecBit, predict, d, seen, data, z);
  }

  lemma AnswersSegment(get: BitReader, predict: Predictor, d: Dec, seen: seq<bit>, data: seq<byte>, z: seq<byte>)
    requires Progresses(get) && Answers(get)
    requires d.curr == 0 && d.src[d.pos..] == Segment(predict, d.i, seen, data) + ([0, 0, 0, 0] + z)
    ensures DecSegment(get, predict, d, seen, [])
         == Ok((data, DecState(AfterSegment(predict, d.i, seen, data), 0, d.src, |d.src| - |z|), SeenAfter(seen, data)))
    ensures d.src[|d.src| - |z|..] == z
  {
    var syms := DataSyms(predict, seen, data);
    SymbolsRead(get, d, syms, z);
    LoadedSegment(get, predict, d, seen);
    SegmentDecodes(get, predict, Load(d), seen, data, []);
    assert [] + data == data;
  }

  lemma SymbolsRead(get: BitReader, d: Dec, syms: seq<Sym>, z: seq<byte>)
    requires Answers(get) && d.curr == 0 && d.src[d.pos..] == Codes(d.i, syms + [END]) + ([0, 0, 0, 0] + z)
    ensures Load(d).curr != 0 && Reads(get, Load(d), syms + [END])
    ensures Past(get, Load(d), syms + [END]) == DecState(EndOf(d.i, syms + [END]), 0, d.src, |d.src| - |z|)
    ensures d.src[|d.src| - |z|..] == z
  {
    StartsSegment(d, syms, [0, 0, 0, 0] + z);
    CodedReads(get, Load(d), syms, [0, 0, 0, 0] + z);
    AtZeros(Past(get, Load(d), syms + [END]), z);
  }

  lemma StartsSegment(d: Dec, syms: seq<Sym>, z: seq<byte>)
    requires d.curr == 0 && d.src[d.pos..] == Codes(d.i, syms + [END]) + z
    ensures Before(Load(d), syms, z) && Load(d).curr != 0 && Load(d).i == d.i && Load(d).src == d.src
  {
    CodesStayInside(d.i, syms);
    LoadReads(d, Codes(d.i, syms + [END]) + z);
    BeforeNotZero(Load(d), syms, z);
  }

  lemma AtZeros(d: Dec, z: seq<byte>)
    requires At(d, [0, 0, 0, 0] + z)
    ensures d.curr == 0 && d.pos == |d.src| - |z| && d.src[d.pos..] == z
  {
    var s := d.src[d.pos - 4..];
    WindowIs([0, 0, 0, 0] + z);
    assert |s| == 4 + |z|;
    assert d.src[d.pos..] == s[4..];
  }

  // ---------------------------------------------------------------- several segments of a block

  /** Segments, each with the bytes between its zeros and the next one: end marker and segment header. */
  datatype Part = Part(data: seq<byte>, gap: seq<byte>)

  function Stream(predict: Predictor, i: Interval, seen: seq<bit>, parts: seq<Part>): seq<byte>
    requires Open(i)
    decreases |parts|
  {
    if parts == [] then []
    else
      var data := parts[0].data;
      Segment(predict, i, seen, data)
      + ([0, 0, 0, 0] + (parts[0].gap + Stream(predict, AfterSegment(predict, i, seen, data), SeenAfter(seen, data), parts[1..])))
  }

  /** A way to read segments. */
  type SegmentReader = (Dec, seq<bit>) -> Result<(seq<byte>, Dec, seq<bit>), Error>

  function SegmentsOf(get: BitReader, predict: Predictor): SegmentReader
    requires Progresses(get)
  {
    (d, seen) => DecSegment(get, predict, d, seen, [])
  }

  /** Decodes one segment after the other, passing over the bytes between them. */
  function DecParts(next: SegmentReader, d: Dec, seen: seq<bit>, gaps: seq<nat>): Result<seq<seq<byte>>, Error>
    decreases |gaps|
  {
    if gaps == [] then Ok([])
    else
      match next(d, seen)
      case Err(e) => Err(e)
      case Ok((out, d1, seen1)) =>
        if d1.pos + gaps[0] > |d1.src| then Err(UnexpectedEof)
        else
          match DecParts(next, d1.(pos := d1.pos + gaps[0]), seen1, gaps[1..])
          case Err(e) => Err(e)
          case Ok(outs) => Ok([out] + outs)
  }

  function DecBlock(get: BitReader, predict: Predictor, d: Dec, seen: seq<bit>,
                    gaps: seq<nat>): Result<seq<seq<byte>>, Error>
    requires Progresses(get)
  {
    DecParts(SegmentsOf(get, predict), d, seen, gaps)
  }

  function Gaps(parts: seq<Part>): seq<nat> {
    if parts == [] then [] else [|parts[0].gap|] + Gaps(parts[1..])
  }

  function Contents(parts: seq<Part>): seq<seq<byte>> {
    if parts == [] then [] else [parts[0].data] + Contents(parts[1..])
  }

  /** Interval and predictor are carried from segment to segment alike on both sides. */
  lemma Nested(a: seq<byte>, b: seq<byte>, c: seq<byte>, d: seq<byte>, e: seq<byte>)
    ensures a + (b + (c + d)) + e == a + (b + (c + (d + e)))
  {
  }

  lemma GapPassed(src: seq<byte>, at: nat, gap: seq<byte>, more: seq<byte>)
    requires at <= |src| && src[at..] == gap + more
    ensures at + |gap| <= |src| && src[at + |gap|..] == more
  {
    assert src[at + |gap|..] == src[at..][|gap|..];
  }

  /** The first segment of a block, and where the next one begins. */
  lemma PartDecodes(get: BitReader, predict: Predictor, d: Dec, seen: seq<bit>, parts: seq<Part>, z: seq<byte>)
    returns (d0: Dec, d1: Dec, seen1: seq<bit>)
    requires Progresses(get) && Answers(get) && parts != []
    requires d.curr == 0 && d.src[d.pos..] == Stream(predict, d.i, seen, parts) + z
    ensures DecSegment(get, predict, d, seen, []) == Ok((parts[0].data, d0, seen1))
    ensures d0.pos + |parts[0].gap| <= |d0.src| && d1 == d0.(pos := d0.pos + |parts[0].gap|)
    ensures d1.curr == 0 && d1.src[d1.pos..] == Stream(predict, d1.i, seen1, parts[1..]) + z
  {
    var data, gap := parts[0].data, parts[0].gap;
    var i1 := AfterSegment(predict, d.i, seen, data);
    seen1 := SeenAfter(seen, data);
    var more := Stream(predict, i1, seen1, parts[1..]) + z;
    Nested(Segment(predict, d.i, seen, data), [0, 0, 0, 0], gap, Stream(predict, i1, seen1, parts[1..]), z);
    AnswersSegment(get, predict, d, seen, data, gap + more);
    var at := |d.src| - |gap + more|;
    GapPassed(d.src, at, gap, more);
    d0, d1 := DecState(i1, 0, d.src, at), DecState(i1, 0, d.src, at + |gap|);
  }

  /** One segment read, and then the others. */
  lemma OnePartMore(next: SegmentReader, d: Dec, seen: seq<bit>, data: seq<byte>, d0: Dec, seen1: seq<bit>, gap: nat,
                    d1: Dec, gaps: seq<nat>, outs: seq<seq<byte>>)
    requires next(d, seen) == Ok((data, d0, seen1)) && d0.pos + gap <= |d0.src| && d1 == d0.(pos := d0.pos + gap)
    requires DecParts(next, d1, seen1, gaps) == Ok(outs)
    ensures DecParts(next, d, seen, [gap] + gaps) == Ok([data] + outs)
  {
    assert ([gap] + gaps)[1..] == gaps;
  }

  lemma {:induction false} BlockDecodes(get: BitReader, predict: Predictor, d: Dec, seen: seq<bit>, parts: seq<Part>,
                                        z: seq<byte>)
    requires Progresses(get) && Answers(get)
    requires d.curr == 0 && d.src[d.pos..] == Stream(predict, d.i, seen, parts) + z
    ensures DecParts(SegmentsOf(get, predict), d, seen, Gaps(parts)) == Ok(Contents(parts))
    decreases |parts|
  {
    if parts != [] {
      var d0, d1, seen1 := PartDecodes(get, predict, d, seen, parts, z);
      BlockDecodes(get, predict, d1, seen1, parts[1..], z);
      OnePartMore(SegmentsOf(get, predict), d, seen, parts[0].data, d0, seen1, |parts[0].gap|, d1, Gaps(parts[1..]),
                  Contents(parts[1..]));
    }
  }

  lemma BlockRoundTrip(predict: Predictor, d: Dec, seen: seq<bit>, parts: seq<Part>, z: seq<byte>)
    requires d.curr == 0 && d.src[d.pos..] == Stream(predict, d.i, seen, parts) + z
    ensures Progresses(DecBit) && DecBlock(DecBit, predict, d, seen, Gaps(parts)) == Ok(Contents(parts))
  {
    ArithmeticDecoderProgresses();
    ArithmeticDecoderAnswers();
    BlockDecodes(DecBit, predict, d, seen, parts, z);
  }
}
