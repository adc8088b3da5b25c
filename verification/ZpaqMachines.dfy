/** The arithmetic encoder and decoder as they run, fields updated in place. */
module ZpaqMachines {
  import opened Sequences
  import opened Bytes
  import opened Bits
  import opened Results
  import opened ZpaqCoder
  import opened ZpaqDecoding
  import opened ZpaqSegments
  import opened ZpaqSkip
  import ZpaqRules

  method SplitRange(low: nat, high: nat, p: Prob) returns (mid: nat)
    requires Open(Interval(low, high))
    ensures mid == Mid(Interval(low, high), p)
  {
    var w := high - low;
    mid := low + w * p / 65536;
  }

  class Encoder {
    var low: nat
    var high: nat
    /** What has gone to the writer. */
    var out: seq<byte>
    /** The predictor, and the bits it has been updated with. */
    const predict: Predictor
    var seen: seq<bit>

    function Current(): Interval
      reads this
    {
      Interval(low, high)
    }

    ghost predicate Valid()
      reads this
    {
      Open(Current())
    }

    constructor (predict: Predictor)
      ensures Valid() && Current() == FULL && out == [] && seen == [] && this.predict == predict
    {
      low, high, out, seen := 1, 0xFFFF_FFFF, [], [];
      this.predict := predict;
    }

    /** Low and high are now those of the part that belongs to y: for a 1 so many 65536ths as p says, rounded down. */
    ghost predicate Narrowed(low0: nat, high0: nat, y: bit, p: Prob)
      reads this
    {
      if y == 1 then low == low0 && (high - low) * 65536 <= (high0 - low0) * p < (high - low + 1) * 65536
      else high == high0 && (low - 1 - low0) * 65536 <= (high0 - low0) * p < (low - low0) * 65536
    }

    method Keep(y: bit, p: Prob)
      requires Valid()
      modifies this`low, this`high
      ensures Current() == Pick(old(Current()), Sym(y, p)) && Narrowed(old(low), old(high), y, p)
    {
      ZpaqRules.ShareOfOne(Current(), p);
      var mid := SplitRange(low, high, p);
      if y == 1 {
        high := mid;
      } else {
        low := mid + 1;
      }
    }

    method Encode(y: bit, p: Prob)
      requires Valid()
      modifies this
      ensures Valid() && seen == old(seen)
      ensures Current() == EndOf(old(Current()), [Sym(y, p)]) && out == old(out) + Codes(old(Current()), [Sym(y, p)])
      ensures |out| == |old(out)| ==> Narrowed(old(low), old(high), y, p)
    {
      OneSymbol(Current(), Sym(y, p));
      Keep(y, p);
      ShiftOut();
    }

    static lemma OneSymbol(i: Interval, s: Sym)
      requires Open(i)
      ensures EndOf(i, [s]) == Norm(Pick(i, s)) && Codes(i, [s]) == Leading(Pick(i, s))
    {
      CodesOneMore(i, [], s);
      assert [] + [s] == [s];
    }

    /** Writes the leading bytes that both ends share. */
    method ShiftOut()
      requires Shape(Current())
      modifies this
      ensures Valid() && seen == old(seen) && Current() == Norm(old(Current()))
      ensures out == old(out) + Leading(old(Current()))
      ensures |out| == |old(out)| ==> low == old(low) && high == old(high)
    {
      while high / TWO24 == low / TWO24
        invariant Shape(Current()) && seen == old(seen)
        invariant |out| > |old(out)| || (low == old(low) && high == old(high) && out == old(out))
        invariant Norm(Current()) == Norm(old(Current()))
        invariant out + Leading(Current()) == old(out) + Leading(old(Current()))
        decreases TWO32 - Width(Current())
      {
        ghost var k, rest := Current(), Leading(Shift(Current()));
        assert out + ([high / TWO24] + rest) == (out + [high / TWO24]) + rest;
        out := out + [high / TWO24];
        high := high * 256 % TWO32 + 255;
        low := low * 256 % TWO32;
        if low == 0 {
          low := 1;
        }
        assert Current() == Shift(k);
      }
    }

    static lemma Further(i0: Interval, out0: seq<byte>, done: seq<Sym>, i: Interval, o: seq<byte>, syms: seq<Sym>)
      requires Open(i0) && i == EndOf(i0, done) && o == out0 + Codes(i0, done)
      ensures EndOf(i, syms) == EndOf(i0, done + syms) && o + Codes(i, syms) == out0 + Codes(i0, done + syms)
    {
      CodesAppend(i0, done, syms);
      Grouped(out0, Codes(i0, done), Codes(i, syms));
    }

    /** Coding one bit behind the symbols done. */
    method EncodeAfter(y: bit, p: Prob, ghost i0: Interval, ghost out0: seq<byte>, ghost done: seq<Sym>)
      requires Valid() && Open(i0) && Current() == EndOf(i0, done) && out == out0 + Codes(i0, done)
      modifies this
      ensures Valid() && seen == old(seen)
      ensures Current() == EndOf(i0, done + [Sym(y, p)]) && out == out0 + Codes(i0, done + [Sym(y, p)])
    {
      ghost var i, o := Current(), out;
      Encode(y, p);
      Further(i0, out0, done, i, o, [Sym(y, p)]);
    }

    /** The bits of c below the top, each with the predictor's estimate. */
    method EncodeBits(c: byte, n: nat)
      requires Valid()
      modifies this
      ensures Valid() && seen == old(seen) + BitsOf(c, n)
      ensures
        var syms := BitSyms(predict, old(seen), c, n);
        Current() == EndOf(old(Current()), syms) && out == old(out) + Codes(old(Current()), syms)
    {
      ghost var i0 := Current();
      ghost var all := BitSyms(predict, seen, c, n);
      ghost var done: seq<Sym> := [];
      var left := n;
      while left > 0
        invariant 0 <= left <= n && Valid()
        invariant seen + BitsOf(c, left) == old(seen) + BitsOf(c, n)
        invariant done + BitSyms(predict, seen, c, left) == all
        invariant Current() == EndOf(i0, done) && out == old(out) + Codes(i0, done)
      {
        var y := BitAt(c, left - 1);
        var p := 2 * predict(seen) + 1;
        Grouped(done, [Sym(y, p)], BitSyms(predict, seen + [y], c, left - 1));
        Grouped(seen, [y], BitsOf(c, left - 1));
        EncodeAfter(y, p, i0, old(out), done);
        seen := seen + [y];
        done := done + [Sym(y, p)];
        left := left - 1;
      }
      assert done + [] == done;
    }

    static lemma OneThenMore(i: Interval, s: Sym, more: seq<Sym>)
      requires Open(i)
      ensures Codes(i, [s] + more) == Codes(i, [s]) + Codes(EndOf(i, [s]), more)
      ensures EndOf(i, [s] + more) == EndOf(EndOf(i, [s]), more)
    {
      CodesAppend(i, [s], more);
    }

    method CompressByte(c: byte)
      requires Valid()
      modifies this
      ensures Valid() && seen == old(seen) + BitsOf(c, 8)
      ensures
        var syms := ByteSyms(predict, old(seen), c);
        Current() == EndOf(old(Current()), syms) && out == old(out) + Codes(old(Current()), syms)
    {
      ghost var i, more := Current(), BitSyms(predict, seen, c, 8);
      OneThenMore(i, MORE, more);
      Grouped(out, Codes(i, [MORE]), Codes(EndOf(i, [MORE]), more));
      Encode(0, 0);
      EncodeBits(c, 8);
    }

    /** Codes the end mark and writes four zeros. */
    method EndSegment()
      requires Valid()
      modifies this
      ensures Valid() && seen == old(seen) && Current() == EndOf(old(Current()), [END])
      ensures out == old(out) + Codes(old(Current()), [END]) + [0, 0, 0, 0]
    {
      Encode(1, 0);
      out := out + [0];
      out := out + [0];
      out := out + [0];
      out := out + [0];
    }

    /** Coding one byte behind the symbols done. */
    method CompressByteAfter(c: byte, ghost i0: Interval, ghost out0: seq<byte>, ghost done: seq<Sym>)
      requires Valid() && Open(i0) && Current() == EndOf(i0, done) && out == out0 + Codes(i0, done)
      modifies this
      ensures Valid() && seen == old(seen) + BitsOf(c, 8)
      ensures
        var all := done + ByteSyms(predict, old(seen), c);
        Current() == EndOf(i0, all) && out == out0 + Codes(i0, all)
    {
      ghost var i, o, syms := Current(), out, ByteSyms(predict, seen, c);
      CompressByte(c);
      Further(i0, out0, done, i, o, syms);
    }

    method CompressAll(data: seq<byte>)
      requires Valid()
      modifies this
      ensures Valid() && seen == SeenAfter(old(seen), data)
      ensures
        var syms := DataSyms(predict, old(seen), data);
        Current() == EndOf(old(Current()), syms) && out == old(out) + Codes(old(Current()), syms)
    {
      ghost var i0, all := Current(), DataSyms(predict, seen, data);
      ghost var done: seq<Sym> := [];
      var k := 0;
      assert data[0..] == data;
      while k < |data|
        invariant 0 <= k <= |data| && Valid()
        invariant SeenAfter(seen, data[k..]) == SeenAfter(old(seen), data)
        invariant done + DataSyms(predict, seen, data[k..]) == all
        invariant Current() == EndOf(i0, done) && out == old(out) + Codes(i0, done)
      {
        ghost var first := ByteSyms(predict, seen, data[k]);
        assert data[k..][1..] == data[k + 1..];
        Grouped(done, first, DataSyms(predict, seen + BitsOf(data[k], 8), data[k + 1..]));
        CompressByteAfter(data[k], i0, old(out), done);
        done := done + first;
        k := k + 1;
      }
      assert done + [] == done;
    }

    method CompressSegment(data: seq<byte>)
      requires Valid()
      modifies this
      ensures Valid() && seen == SeenAfter(old(seen), data)
      ensures Current() == AfterSegment(predict, old(Current()), old(seen), data)
      ensures out == old(out) + (Segment(predict, old(Current()), old(seen), data) + [0, 0, 0, 0])
    {
      ghost var o, i, syms := out, Current(), DataSyms(predict, seen, data);
      CodesAppend(i, syms, [END]);
      Grouped(o, Codes(i, syms), Codes(EndOf(i, syms), [END]));
      Grouped(o, Codes(i, syms + [END]), [0, 0, 0, 0]);
      CompressAll(data);
      EndSegment();
    }
  }

  class Decoder {
    var low: nat
    var high: nat
    var curr: nat
    var pos: nat
    const src: seq<byte>
    const predict: Predictor
    var seen: seq<bit>

    function State(): DecState
      reads this
    {
      DecState(Interval(low, high), curr, src, pos)
    }

    ghost predicate Valid()
      reads this
    {
      DecReady(State())
    }

    constructor (src: seq<byte>, predict: Predictor)
      ensures Valid() && State() == DecState(FULL, 0, src, 0) && seen == [] && this.predict == predict
    {
      low, high, curr, pos, seen := 1, 0xFFFF_FFFF, 0, 0, [];
      this.src := src;
      this.predict := predict;
    }

    /** The next byte of input, or -1. */
    method Get() returns (c: int)
      requires pos <= |src|
      modifies this`pos
      ensures if old(pos) == |src| then c == -1 && pos == old(pos) else c == src[old(pos)] as int && pos == old(pos) + 1
    {
      if pos == |src| {
        return -1;
      }
      c := src[pos];
      pos := pos + 1;
    }

    method TakeByte()
      requires DecShape(State())
      modifies this
      ensures State() == Take(old(State())) && seen == old(seen)
    {
      var c := Get();
      if c < 0 {
        curr := 0xFFFF_FFFF;
      } else {
        curr := curr * 256 % TWO32 + c;
      }
    }

    method ShiftOut() returns (ok: bool)
      requires DecShape(State())
      modifies this
      ensures seen == old(seen)
      ensures match Refill(old(State()))
              case Ok(d) => ok && State() == d
              case Err(e) => !ok && e == UnexpectedEof
    {
      while high / TWO24 == low / TWO24
        invariant DecShape(State()) && seen == old(seen) && Refill(State()) == Refill(old(State()))
        decreases TWO32 - Width(State().i)
      {
        ghost var d := State();
        high := high * 256 % TWO32 + 255;
        low := low * 256 % TWO32;
        if low == 0 {
          low := 1;
        }
        assert State() == d.(i := Shift(d.i));
        if pos == |src| {
          return false;
        }
        TakeByte();
      }
      return true;
    }

    method Decode(p: Prob) returns (r: Result<bit, Error>)
      requires Valid()
      modifies this
      ensures seen == old(seen)
      ensures match DecBit(old(State()), p)
              case Ok((y, d)) => r == Ok(y) && State() == d
              case Err(e) => r == Err(e)
    {
      if curr < low || curr > high {
        return Err(Corrupted);
      }
      var y := PickHalf(p);
      var ok := ShiftOut();
      return if ok then Ok(y) else Err(UnexpectedEof);
    }

    /** Keeps the part of the interval in which curr lies. */
    method PickHalf(p: Prob) returns (y: bit)
      requires Valid() && low <= curr <= high
      modifies this`low, this`high
      ensures y == if curr <= Mid(old(State()).i, p) then 1 else 0
      ensures State() == old(State()).(i := Pick(old(State()).i, Sym(y, p))) && DecShape(State())
    {
      var mid := SplitRange(low, high, p);
      if curr <= mid {
        y, high := 1, mid;
      } else {
        y, low := 0, mid + 1;
      }
    }

    /** The next byte of the segment, or its end. */
    method Decompress() returns (r: Result<Item, Error>)
      requires Valid()
      modifies this
      ensures Progresses(DecBit)
      ensures match DecItem(DecBit, predict, old(State()), old(seen))
              case Ok((item, d, seen1)) => r == Ok(item) && State() == d && seen == seen1
              case Err(e) => r == Err(e)
    {
      ArithmeticDecoderProgresses();
      ghost var d := State();
      LoadFour();
      r := DecodeItem(DecBit, d, DecItem(DecBit, predict, d, seen));
    }

    method DecodeItem(ghost get: BitReader, ghost d0: Dec, ghost all: Result<(Item, Dec, seq<bit>), Error>)
      returns (r: Result<Item, Error>)
      requires Valid() && Arithmetic(get) && Progresses(get) && State() == Load(d0) && all == DecItem(get, predict, d0, seen)
      modifies this
      ensures match all
              case Ok((item, d, seen1)) => r == Ok(item) && State() == d && seen == seen1
              case Err(e) => r == Err(e)
    {
      assert get(Load(d0), 0) == DecBit(Load(d0), 0);
      var b := Decode(0);
      if b.Err? {
        return Err(b.error);
      }
      if b.value == 1 {
        return if curr != 0 then Err(DecodingEndOfStream) else Ok(End);
      }
      var c := DecodeBits(get, DecBits(get, predict, State(), seen, 1));
      return if c.Err? then Err(c.error) else Ok(Byte(c.value - 256));
    }

    method LoadFour()
      requires Valid()
      modifies this
      ensures State() == Load(old(State())) && seen == old(seen)
    {
      if curr == 0 {
        var i := 0;
        while i < 4
          invariant 0 <= i <= 4 && State() == TakeMany(old(State()), i) && seen == old(seen)
        {
          TakeByte();
          i := i + 1;
        }
      }
    }

    /** get reads bits as the arithmetic decoder does. */
    static ghost predicate Arithmetic(get: BitReader) {
      forall d: Dec, p: Prob {:trigger DecBit(d, p)} :: get(d, p) == DecBit(d, p)
    }

    /** Decoding one bit, as get tells it. */
    method DecodeAs(ghost get: BitReader, p: Prob) returns (r: Result<bit, Error>)
      requires Valid() && Arithmetic(get)
      modifies this
      ensures seen == old(seen)
      ensures match get(old(State()), p)
              case Ok((y, d)) => r == Ok(y) && State() == d
              case Err(e) => r == Err(e)
    {
      r := Decode(p);
    }

    static lemma NextBit(get: BitReader, predict: Predictor, d: Dec, seen: seq<bit>, c: nat)
      requires Progresses(get) && 1 <= c < 256
      ensures match get(d, Odd(predict(seen)))
              case Ok((y, d1)) => DecBits(get, predict, d, seen, c) == DecBits(get, predict, d1, seen + [y], 2 * c + y)
              case Err(e) => DecBits(get, predict, d, seen, c) == Err(e)
    {
    }

    /** Decoding one bit below the leading 1 of c, when all is what there is to be read. */
    method DecodeNext(c: nat, ghost get: BitReader, ghost all: Result<(nat, Dec, seq<bit>), Error>)
      returns (b: Result<bit, Error>)
      requires Valid() && 1 <= c < 256 && Arithmetic(get) && Progresses(get)
      requires DecBits(get, predict, State(), seen, c) == all
      modifies this
      ensures match b
              case Ok(y) => Valid() && DecBits(get, predict, State(), seen, 2 * c + y) == all
              case Err(e) => all == Err(e)
    {
      NextBit(get, predict, State(), seen, c);
      b := DecodeAs(get, 2 * predict(seen) + 1);
      if b.Ok? {
        seen := seen + [b.value];
      }
    }

    method DecodeBits(ghost get: BitReader, ghost all: Result<(nat, Dec, seq<bit>), Error>)
      returns (r: Result<nat, Error>)
      requires Valid() && Arithmetic(get) && Progresses(get) && all == DecBits(get, predict, State(), seen, 1)
      modifies this
      ensures match all
              case Ok((c, d, seen1)) => r == Ok(c) && State() == d && seen == seen1
              case Err(e) => r == Err(e)
    {
      var c: nat := 1;
      while c < 256
        invariant Valid() && 1 <= c < 512 && DecBits(get, predict, State(), seen, c) == all
        decreases 512 - c
      {
        var b := DecodeNext(c, get, all);
        if b.Err? {
          return Err(b.error);
        }
        c := 2 * c + b.value;
      }
      return Ok(c);
    }

    /** Finds the end of the segment without decoding it; the byte behind it, or -1. */
    method SkipSegment() returns (c: int)
      requires Valid()
      modifies this
      ensures (c, pos) == Skip(old(State()))
    {
      while curr == 0
        invariant DecShape(State()) && SkipZeros(State()) == SkipZeros(old(State()))
        decreases |src| - pos, if curr == 0 then 1 else 0
      {
        TakeByte();
      }
      while curr != 0 && pos < |src|
        invariant DecShape(State()) && SkipData(State()) == SkipData(SkipZeros(old(State())))
        decreases |src| - pos
      {
        TakeByte();
      }
      c := Get();
      ghost var from := SkipData(SkipZeros(old(State()))).pos;
      while c == 0
        invariant pos <= |src| && (c == 0 || SkipMark(src, from) == (c, pos))
        invariant c == 0 ==> SkipMark(src, from) == SkipMark(src, pos)
        decreases |src| - pos, if c == 0 then 1 else 0
      {
        c := Get();
      }
    }

    /** Skipping a segment that has been coded leads to the byte at which decoding it stops. */
    method SkipCoded(ghost data: seq<byte>, ghost z: seq<byte>) returns (c: int)
      requires Valid() && curr == 0 && Marks(z)
      requires src[pos..] == Segment(predict, Interval(low, high), seen, data) + ([0, 0, 0, 0] + z)
      modifies this
      ensures Progresses(DecBit) && DecSegment(DecBit, predict, old(State()), old(seen), []).Ok?
      ensures
        var d := DecSegment(DecBit, predict, old(State()), old(seen), []).value.1;
        d.pos < |src| && c == src[d.pos] as int && pos == d.pos + 1
    {
      ArithmeticDecoderProgresses();
      ArithmeticDecoderAnswers();
      SkipAgreesWithDecoding(DecBit, predict, State(), seen, data, z);
      c := SkipSegment();
    }
  }
}
