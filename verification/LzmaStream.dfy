/** Whole streams: the decoding loop, runs of packets that describe an input, and the header. */
module LzmaStream {
  import opened Sequences
  import opened Bytes
  import opened Results
  import opened LzmaContexts
  import opened RangeCoder
  import opened Bits
  import opened LzmaBits
  import opened LzmaFields
  import opened LzmaPackets
  import opened Copying

  datatype Error = MemoryRunout | Unsupported | OutputOverflow | InputOverflow | DataError | OutputLenMismatch

  /** Literal context bits, literal position bits and position bits. */
  datatype Props = Props(lc: nat, lp: nat, pb: nat)

  predicate Supported(props: Props) { props.lc <= 8 && props.lp <= 4 && props.pb <= 4 }

  const ENCODER_PROPS := Props(8, 0, 0)

  function ContextAt(out: seq<byte>, lz: Lz, props: Props): (c: Context)
    requires Supported(props)
    ensures c.litTable.Literal? && c.state == lz.state
  {
    var prev := if out == [] then 0 else out[|out| - 1];
    var matchByte := if 1 <= lz.rep0 <= |out| then out[|out| - lz.rep0] else 0;
    Context(lz.state, |out| % Pow2(props.pb),
            Literal(|out| % Pow2(props.lp), prev / Pow2(8 - props.lc) % Pow2(props.lc)), matchByte)
  }

  // ---------------------------------------------------------------- the decoding loop

  /** What a packet that has been read is known to be. */
  type AnyPacket = p: Packet | LengthOf(p) >= 1 && (p.kind.Match? ==> p.dist >= 1) witness Packet(Lit, 0, 0, 0)

  /** A way to read the packet that is next, given the output and the state in front of it. */
  type PacketReader = (Dec, seq<byte>, Lz) -> (AnyPacket, Dec)

  function PacketsOf(get: FieldReader, props: Props): PacketReader
    requires Supported(props)
  {
    (d, out, lz) => DecPacket(get, d, ContextAt(out, lz, props))
  }

  function DecodeFrom(read: PacketReader, d: Dec, lz: Lz, out: seq<byte>, limit: nat): Result<seq<byte>, Error>
    requires RepsPositive(lz)
    decreases limit - |out|
  {
    if |out| >= limit then Ok(out)
    else if d.overflow then Err(InputOverflow)
    else
      var (p, d1) := read(d, out, lz);
      if IsEndMark(p) then Ok(out)
      else if DistanceOf(lz, p) > |out| then Err(DataError)
      else if |out| + LengthOf(p) > limit then Err(OutputOverflow)
      else DecodeFrom(read, d1, NextLz(lz, p), Output(out, lz, p), limit)
  }

  function Decode(src: seq<byte>, limit: nat, props: Props): Result<seq<byte>, Error>
    requires Supported(props)
  {
    DecodeFrom(PacketsOf(FieldsOf(RANGE_READER), props), DecInit(src), LZ_INIT, [], limit)
  }

  // ---------------------------------------------------------------- runs of packets

  /** Each packet says truthfully what comes next in src. */
  predicate Tells(src: seq<byte>, pos: nat, lz: Lz, ps: seq<Packet>)
    decreases |ps|
  {
    ps == []
    || (Describes(src, pos, lz, ps[0]) && Tells(src, pos + LengthOf(ps[0]), NextLz(lz, ps[0]), ps[1..]))
  }

  function EndPos(pos: nat, ps: seq<Packet>): nat
    decreases |ps|
  {
    if ps == [] then pos else EndPos(pos + LengthOf(ps[0]), ps[1..])
  }

  function EndLz(lz: Lz, ps: seq<Packet>): Lz
    decreases |ps|
  {
    if ps == [] then lz else EndLz(NextLz(lz, ps[0]), ps[1..])
  }

  /** The run tells the whole of src from its start. */
  predicate Covers(src: seq<byte>, ps: seq<Packet>) {
    Tells(src, 0, LZ_INIT, ps) && EndPos(0, ps) == |src|
  }

  /** What is coded for a packet, given the output and the state in front of it. */
  type Coder = (seq<byte>, Lz, Packet) -> seq<Field>

  function PacketCoder(props: Props): Coder
    requires Supported(props)
  {
    (out, lz, p) => if WellFormed(p) then PacketFields(ContextAt(out, lz, props), p) else []
  }

  /** What is coded for a run of packets. */
  function RunFields(code: Coder, src: seq<byte>, pos: nat, lz: Lz, ps: seq<Packet>): seq<Field>
    requires Tells(src, pos, lz, ps)
    decreases |ps|
  {
    if ps == [] then []
    else code(src[..pos], lz, ps[0]) + RunFields(code, src, pos + LengthOf(ps[0]), NextLz(lz, ps[0]), ps[1..])
  }

  /** Lengthening a run by one packet. */
  lemma {:induction false} TellsOneMore(code: Coder, src: seq<byte>, pos: nat, lz: Lz, ps: seq<Packet>, p: Packet)
    requires Tells(src, pos, lz, ps)
    requires Describes(src, EndPos(pos, ps), EndLz(lz, ps), p)
    ensures Tells(src, pos, lz, ps + [p])
    ensures EndPos(pos, ps + [p]) == EndPos(pos, ps) + LengthOf(p)
    ensures EndLz(lz, ps + [p]) == NextLz(EndLz(lz, ps), p)
    ensures RunFields(code, src, pos, lz, ps + [p])
         == RunFields(code, src, pos, lz, ps) + code(src[..EndPos(pos, ps)], EndLz(lz, ps), p)
    decreases |ps|
  {
    var qs := ps + [p];
    if ps == [] {
      assert qs[0] == p && qs[1..] == [];
    } else {
      assert qs[0] == ps[0] && qs[1..] == ps[1..] + [p];
      var next, lz1 := pos + LengthOf(ps[0]), NextLz(lz, ps[0]);
      TellsOneMore(code, src, next, lz1, ps[1..], p);
      Grouped(code(src[..pos], lz, ps[0]), RunFields(code, src, next, lz1, ps[1..]),
              code(src[..EndPos(next, ps[1..])], EndLz(lz1, ps[1..]), p));
    }
  }

  /** A run stays true, and codes the same symbols, when more bytes are appended. */
  lemma {:induction false} TellsExtended(code: Coder, src: seq<byte>, more: seq<byte>, pos: nat, lz: Lz,
                                         ps: seq<Packet>)
    requires Tells(src, pos, lz, ps) && src <= more
    ensures Tells(more, pos, lz, ps)
    ensures RunFields(code, more, pos, lz, ps) == RunFields(code, src, pos, lz, ps)
    decreases |ps|
  {
    if ps != [] {
      DescribesExtended(src, more, pos, lz, ps[0]);
      TellsExtended(code, src, more, pos + LengthOf(ps[0]), NextLz(lz, ps[0]), ps[1..]);
    }
  }

  lemma DescribesExtended(src: seq<byte>, more: seq<byte>, pos: nat, lz: Lz, p: Packet)
    requires Describes(src, pos, lz, p) && src <= more
    ensures Describes(more, pos, lz, p)
    ensures more[..pos] == src[..pos]
  {
    if !p.kind.Lit? {
      RepeatsExtended(src, more, pos, DistanceOf(lz, p), LengthOf(p));
    }
  }

  lemma {:induction false} TellsBounds(src: seq<byte>, pos: nat, lz: Lz, ps: seq<Packet>)
    requires Tells(src, pos, lz, ps) && pos <= |src| && RepsPositive(lz)
    ensures pos <= EndPos(pos, ps) <= |src| && RepsPositive(EndLz(lz, ps))
    decreases |ps|
  {
    if ps != [] {
      DescribesOutput(src, pos, lz, ps[0]);
      TellsBounds(src, pos + LengthOf(ps[0]), NextLz(lz, ps[0]), ps[1..]);
    }
  }

  // ---------------------------------------------------------------- decoding a run

  /** Once the input has run out, it stays so. */
  ghost predicate Sticky(get: FieldReader) {
    forall d: Dec, u: Unit :: StaysOver(get, d, u)
  }

  ghost predicate StaysOver(get: FieldReader, d: Dec, u: Unit) { d.overflow ==> get(d, u).1.overflow }

  lemma {:induction false} NoOverflowBefore(get: FieldReader, d: Dec, fs: seq<Field>)
    requires Sticky(get) && !Past(get, d, fs).overflow
    ensures !d.overflow
    decreases |fs|
  {
    if fs != [] {
      NoOverflowBefore(get, get(d, fs[0].unit).1, fs[1..]);
      assert StaysOver(get, d, fs[0].unit);
    }
  }

  ghost predicate StickyBits(get: Reader) {
    forall d: Dec, m: Model {:trigger get(d, m)} :: d.overflow ==> get(d, m).1.overflow
  }

  lemma RangeReaderSticks()
    ensures Sticky(FieldsOf(RANGE_READER))
  {
    forall d: Dec, m: Model | d.overflow
      ensures RANGE_READER(d, m).1.overflow
    {
      assert DecStep(d, m).1.overflow;
    }
    FieldsStick(RANGE_READER);
  }

  lemma FieldsStick(get: Reader)
    requires StickyBits(get)
    ensures Sticky(FieldsOf(get))
  {
    forall d: Dec, u: Unit | d.overflow
      ensures FieldsOf(get)(d, u).1.overflow
    {
      match u {
        case OneBit(c) =>
        case Number(t, n) => TreeSticks(get, d, t, n, 1);
        case MatchedByte(t, m) => MatchedSticks(get, d, t, m, UnitBits(u), 1, 256);
        case Fixed(n) => DirectsStick(get, d, n, 0);
      }
    }
  }

  lemma {:induction false} TreeSticks(get: Reader, d: Dec, t: Table, n: nat, node: nat)
    requires StickyBits(get) && d.overflow
    ensures DecTree(get, d, t, n, node).1.overflow
    decreases n
  {
    if n > 0 {
      var (b, d1) := get(d, Adaptive(Cell(t, node - 1)));
      TreeSticks(get, d1, t, n - 1, 2 * node + b);
    }
  }

  lemma {:induction false} MatchedSticks(get: Reader, d: Dec, t: Table, matchByte: nat, n: nat, node: nat, off: nat)
    requires StickyBits(get) && d.overflow
    ensures DecMatched(get, d, t, matchByte, n, node, off).1.overflow
    decreases n
  {
    if n > 0 {
      var m := BitAt(matchByte, n - 1);
      var r := get(d, Adaptive(Cell(t, MatchedOffset(off, m) + off + node - 1)));
      MatchedSticks(get, r.1, t, matchByte, n - 1, 2 * node + r.0, NextOffset(off, m, r.0));
    }
  }

  lemma {:induction false} DirectsStick(get: Reader, d: Dec, n: nat, acc: nat)
    requires StickyBits(get) && d.overflow
    ensures DecDirects(get, d, n, acc).1.overflow
    decreases n
  {
    if n > 0 {
      var (b, d1) := get(d, Direct);
      DirectsStick(get, d1, n - 1, 2 * acc + b);
    }
  }

  /** Where the fields of a packet are read, the packet is what is decoded. */
  ghost predicate Inverts(read: PacketReader, get: FieldReader, code: Coder) {
    forall d: Dec, out: seq<byte>, lz: Lz, p: Packet :: InvertsAt(read, get, code, d, out, lz, p)
  }

  ghost predicate InvertsAt(read: PacketReader, get: FieldReader, code: Coder, d: Dec, out: seq<byte>, lz: Lz,
                            p: Packet) {
    WellFormed(p) && Yields(get, d, code(out, lz, p)) ==> read(d, out, lz) == (p, Past(get, d, code(out, lz, p)))
  }

  lemma CoderIsInverted(get: FieldReader, props: Props)
    requires Supported(props)
    ensures Inverts(PacketsOf(get, props), get, PacketCoder(props))
  {
    forall d: Dec, out: seq<byte>, lz: Lz, p: Packet
      ensures InvertsAt(PacketsOf(get, props), get, PacketCoder(props), d, out, lz, p)
    {
      if WellFormed(p) && Yields(get, d, PacketCoder(props)(out, lz, p)) {
        ReadPacket(get, d, ContextAt(out, lz, props), p);
      }
    }
  }

  /** One turn of the decoding loop on the symbols of a packet that describes what comes next. */
  lemma DecodeOne(read: PacketReader, get: FieldReader, code: Coder, d: Dec, src: seq<byte>, pos: nat, lz: Lz,
                  p: Packet,
                  limit: nat)
    requires Inverts(read, get, code)
    requires RepsPositive(lz) && !d.overflow && Describes(src, pos, lz, p) && pos + LengthOf(p) <= limit
    requires Yields(get, d, code(src[..pos], lz, p))
    ensures pos + LengthOf(p) <= |src| && RepsPositive(NextLz(lz, p))
    ensures
      DecodeFrom(read, d, lz, src[..pos], limit)
      == DecodeFrom(read, Past(get, d, code(src[..pos], lz, p)), NextLz(lz, p), src[..pos + LengthOf(p)], limit)
  {
    DescribesOutput(src, pos, lz, p);
    assert InvertsAt(read, get, code, d, src[..pos], lz, p);
  }

  /** The first packet of a run and what is left of it. */
  lemma FirstOfRun(code: Coder, src: seq<byte>, pos: nat, lz: Lz, ps: seq<Packet>)
    returns (p: Packet, pos1: nat, lz1: Lz, a: seq<Field>, b: seq<Field>)
    requires ps != [] && Tells(src, pos, lz, ps) && pos <= |src| && RepsPositive(lz)
    ensures p == ps[0] && Describes(src, pos, lz, p) && pos1 == pos + LengthOf(p) && lz1 == NextLz(lz, p)
    ensures Tells(src, pos1, lz1, ps[1..]) && pos1 <= EndPos(pos1, ps[1..]) == EndPos(pos, ps) <= |src|
    ensures RepsPositive(lz1) && RepsPositive(EndLz(lz, ps)) && EndLz(lz1, ps[1..]) == EndLz(lz, ps)
    ensures a == code(src[..pos], lz, p) && b == RunFields(code, src, pos1, lz1, ps[1..])
    ensures RunFields(code, src, pos, lz, ps) == a + b
  {
    p := ps[0];
    pos1, lz1, a := pos + LengthOf(p), NextLz(lz, p), code(src[..pos], lz, p);
    b := RunFields(code, src, pos1, lz1, ps[1..]);
    DescribesOutput(src, pos, lz, p);
    TellsBounds(src, pos1, lz1, ps[1..]);
  }

  lemma InTwo(get: FieldReader, d: Dec, a: seq<Field>, b: seq<Field>)
    requires Sticky(get) && Yields(get, d, a + b) && !Past(get, d, a + b).overflow
    ensures !d.overflow && Yields(get, d, a) && Yields(get, Past(get, d, a), b)
    ensures Past(get, d, a + b) == Past(get, Past(get, d, a), b)
  {
    NoOverflowBefore(get, d, a + b);
    YieldsAppend(get, d, a, b);
  }

  /** A decoder that answers with the symbols of a run is where the run ends, with what the run describes. */
  lemma {:induction false} DecodeRun(read: PacketReader, get: FieldReader, code: Coder, d: Dec, src: seq<byte>,
                                     pos: nat,
                                     lz: Lz, ps: seq<Packet>, limit: nat)
    requires Inverts(read, get, code) && Sticky(get)
    requires RepsPositive(lz) && Tells(src, pos, lz, ps) && pos <= |src| && EndPos(pos, ps) <= limit
    requires Yields(get, d, RunFields(code, src, pos, lz, ps))
    requires !Past(get, d, RunFields(code, src, pos, lz, ps)).overflow
    ensures EndPos(pos, ps) <= |src| && RepsPositive(EndLz(lz, ps))
    ensures
      DecodeFrom(read, d, lz, src[..pos], limit)
      == DecodeFrom(read, Past(get, d, RunFields(code, src, pos, lz, ps)), EndLz(lz, ps), src[..EndPos(pos, ps)], limit)
    decreases |ps|
  {
    if ps != [] {
      var p, pos1, lz1, a, b := FirstOfRun(code, src, pos, lz, ps);
      InTwo(get, d, a, b);
      DecodeOne(read, get, code, d, src, pos, lz, p, limit);
      DecodeRun(read, get, code, Past(get, d, a), src, pos1, lz1, ps[1..], limit);
    }
  }

  /** The bytes the encoder writes for a run. */
  function Coded(src: seq<byte>, ps: seq<Packet>, props: Props): seq<byte>
    requires Supported(props) && Tells(src, 0, LZ_INIT, ps)
  {
    Encoded(ENC_INIT, AllSyms(RunFields(PacketCoder(props), src, 0, LZ_INIT, ps)))
  }

  lemma {:induction false} RunFieldsFit(props: Props, src: seq<byte>, pos: nat, lz: Lz, ps: seq<Packet>)
    requires Supported(props) && Tells(src, pos, lz, ps)
    ensures AllFit(RunFields(PacketCoder(props), src, pos, lz, ps))
    decreases |ps|
  {
    if ps != [] {
      PacketFieldsFit(ContextAt(src[..pos], lz, props), ps[0]);
      RunFieldsFit(props, src, pos + LengthOf(ps[0]), NextLz(lz, ps[0]), ps[1..]);
    }
  }

  /** The decoder inverts the encoder, whichever describing run the match search came up with. */
  lemma DecodeInvertsEncode(src: seq<byte>, ps: seq<Packet>, props: Props, tail: seq<byte>)
    requires Supported(props) && Covers(src, ps)
    ensures Decode(Coded(src, ps, props) + tail, |src|, props) == Ok(src)
  {
    var code := PacketCoder(props);
    var fs := RunFields(code, src, 0, LZ_INIT, ps);
    var coded := Coded(src, ps, props) + tail;
    RoundTrip(AllSyms(fs), coded);
    RunFieldsFit(props, src, 0, LZ_INIT, ps);
    DecodesYields(RANGE_READER, DecInit(coded), fs);
    RangeReaderSticks();
    CoderIsInverted(FieldsOf(RANGE_READER), props);
    DecodeRun(PacketsOf(FieldsOf(RANGE_READER), props), FieldsOf(RANGE_READER), code, DecInit(coded), src, 0, LZ_INIT, ps, |src|);
    assert src[..0] == [] && src[..|src|] == src;
  }

  // ---------------------------------------------------------------- how the decoding loop stops

  /** Carrying out a packet lengthens the run by it. */
  lemma RunCarriesOut(code: Coder, out: seq<byte>, ps: seq<Packet>, p: Packet)
    requires Tells(out, 0, LZ_INIT, ps) && EndPos(0, ps) == |out|
    requires WellFormed(p) && !IsEndMark(p)
    requires p.kind.Lit? || 1 <= DistanceOf(EndLz(LZ_INIT, ps), p) <= |out|
    ensures
      var more := Output(out, EndLz(LZ_INIT, ps), p);
      && Tells(more, 0, LZ_INIT, ps) && RunFields(code, more, 0, LZ_INIT, ps) == RunFields(code, out, 0, LZ_INIT, ps)
      && Tells(more, 0, LZ_INIT, ps + [p]) && EndPos(0, ps + [p]) == |more|
      && EndLz(LZ_INIT, ps + [p]) == NextLz(EndLz(LZ_INIT, ps), p)
      && RunFields(code, more, 0, LZ_INIT, ps + [p]) == RunFields(code, out, 0, LZ_INIT, ps) + code(out, EndLz(LZ_INIT, ps), p)
  {
    var lz := EndLz(LZ_INIT, ps);
    var more := Output(out, lz, p);
    OutputDescribed(out, lz, p);
    TellsExtended(code, out, more, 0, LZ_INIT, ps);
    TellsOneMore(code, more, 0, LZ_INIT, ps, p);
    assert more[..|out|] == out;
  }

  /** The fields have been read from the start of src. */
  ghost predicate ReadFrom(src: seq<byte>, fs: seq<Field>) {
    AllFit(fs) && Decodes(RANGE_READER, DecInit(src), AllSyms(fs))
  }

  /** Where the decoder stands after fields it has read from the start of src. */
  function StandAfter(src: seq<byte>, fs: seq<Field>): Dec {
    After(RANGE_READER, DecInit(src), AllSyms(fs))
  }

  lemma ReadFromPrefix(src: seq<byte>, a: seq<Field>, b: seq<Field>)
    requires ReadFrom(src, a + b)
    ensures ReadFrom(src, a)
    ensures Yields(FieldsOf(RANGE_READER), StandAfter(src, a), b)
    ensures Past(FieldsOf(RANGE_READER), StandAfter(src, a), b) == StandAfter(src, a + b)
  {
    AllSymsAppend(a, b);
    DecodesAppend(RANGE_READER, DecInit(src), AllSyms(a), AllSyms(b));
    DecodesYields(RANGE_READER, StandAfter(src, a), b);
  }

  /** With input left after the run, the loop is at its end. */
  lemma DecodeReaches(src: seq<byte>, out: seq<byte>, ps: seq<Packet>, limit: nat, props: Props)
    requires Supported(props) && Tells(out, 0, LZ_INIT, ps) && EndPos(0, ps) <= limit
    requires ReadFrom(src, RunFields(PacketCoder(props), out, 0, LZ_INIT, ps))
    requires !StandAfter(src, RunFields(PacketCoder(props), out, 0, LZ_INIT, ps)).overflow
    ensures EndPos(0, ps) <= |out| && RepsPositive(EndLz(LZ_INIT, ps))
    ensures
      Decode(src, limit, props)
      == DecodeFrom(PacketsOf(FieldsOf(RANGE_READER), props),
                    StandAfter(src, RunFields(PacketCoder(props), out, 0, LZ_INIT, ps)),
                    EndLz(LZ_INIT, ps), out[..EndPos(0, ps)], limit)
  {
    var code := PacketCoder(props);
    var fs := RunFields(code, out, 0, LZ_INIT, ps);
    DecodesYields(RANGE_READER, DecInit(src), fs);
    RangeReaderSticks();
    CoderIsInverted(FieldsOf(RANGE_READER), props);
    DecodeRun(PacketsOf(FieldsOf(RANGE_READER), props), FieldsOf(RANGE_READER), code, DecInit(src), out, 0, LZ_INIT, ps, limit);
    assert out[..0] == [];
  }

  /** What the loop does with the next packet, when input is left in front of it. */
  lemma DecodeReachesPacket(src: seq<byte>, out: seq<byte>, ps: seq<Packet>, p: Packet, limit: nat, props: Props)
    requires Supported(props) && Tells(out, 0, LZ_INIT, ps) && EndPos(0, ps) == |out| < limit && WellFormed(p)
    requires ReadFrom(src, RunFields(PacketCoder(props), out, 0, LZ_INIT, ps) + PacketCoder(props)(out, EndLz(LZ_INIT, ps), p))
    requires !StandAfter(src, RunFields(PacketCoder(props), out, 0, LZ_INIT, ps)).overflow
    ensures RepsPositive(EndLz(LZ_INIT, ps))
    ensures
      var lz := EndLz(LZ_INIT, ps);
      var fs := RunFields(PacketCoder(props), out, 0, LZ_INIT, ps) + PacketCoder(props)(out, lz, p);
      Decode(src, limit, props)
      == if IsEndMark(p) then Ok(out)
         else if DistanceOf(lz, p) > |out| then Err(DataError)
         else if |out| + LengthOf(p) > limit then Err(OutputOverflow)
         else DecodeFrom(PacketsOf(FieldsOf(RANGE_READER), props), StandAfter(src, fs), NextLz(lz, p), Output(out, lz, p), limit)
  {
    var code := PacketCoder(props);
    var lz := EndLz(LZ_INIT, ps);
    ReadFromPrefix(src, RunFields(code, out, 0, LZ_INIT, ps), code(out, lz, p));
    DecodeReaches(src, out, ps, limit, props);
    CoderIsInverted(FieldsOf(RANGE_READER), props);
    assert out[..|out|] == out;
    var d := StandAfter(src, RunFields(code, out, 0, LZ_INIT, ps));
    assert InvertsAt(PacketsOf(FieldsOf(RANGE_READER), props), FieldsOf(RANGE_READER), code, d, out, lz, p);
  }

  /** The last packet read, with the run and the output in front of it. */
  datatype LastRead = NoPacket | LastRead(out: seq<byte>, ps: seq<Packet>, p: Packet)

  ghost predicate Applies(l: LastRead) {
    l.LastRead? && !IsEndMark(l.p)
    && (l.p.kind.Lit? || 1 <= DistanceOf(EndLz(LZ_INIT, l.ps), l.p) <= |l.out|)
  }

  /** All fields read so far. */
  function FieldsRead(l: LastRead, props: Props): seq<Field>
    requires Supported(props) && (l.LastRead? ==> Tells(l.out, 0, LZ_INIT, l.ps))
  {
    if l.NoPacket? then []
    else RunFields(PacketCoder(props), l.out, 0, LZ_INIT, l.ps) + PacketCoder(props)(l.out, EndLz(LZ_INIT, l.ps), l.p)
  }

  /** The packet was read from src after the run, when there was still input and room. */
  ghost predicate Stands(src: seq<byte>, l: LastRead, limit: nat, props: Props)
    requires Supported(props)
  {
    l.LastRead? ==>
      && Tells(l.out, 0, LZ_INIT, l.ps) && EndPos(0, l.ps) == |l.out| < limit && WellFormed(l.p)
      && ReadFrom(src, FieldsRead(l, props))
      && !StandAfter(src, RunFields(PacketCoder(props), l.out, 0, LZ_INIT, l.ps)).overflow
  }

  /** The output after the last packet. */
  function OutputSoFar(l: LastRead): seq<byte>
    requires l.NoPacket? || Applies(l)
  {
    if l.NoPacket? then [] else Output(l.out, EndLz(LZ_INIT, l.ps), l.p)
  }

  /** Each way in which the decoding loop ends, and its outcome. */
  ghost predicate Stopped(src: seq<byte>, l: LastRead, limit: nat, props: Props, res: Result<seq<byte>, Error>)
    requires Supported(props)
  {
    && Stands(src, l, limit, props)
    && if res == Err(InputOverflow) then
         && (l.NoPacket? || Applies(l)) && |OutputSoFar(l)| < limit
         && StandAfter(src, FieldsRead(l, props)).overflow
       else if l.LastRead? && IsEndMark(l.p) then
         res == Ok(l.out)
       else if l.LastRead? && DistanceOf(EndLz(LZ_INIT, l.ps), l.p) > |l.out| then
         res == Err(DataError)
       else if l.LastRead? && |l.out| + LengthOf(l.p) > limit then
         res == Err(OutputOverflow)
       else
         (l.NoPacket? || Applies(l)) && |OutputSoFar(l)| == limit && res == Ok(OutputSoFar(l))
  }

  /** What the loop has produced when it stops is what decoding is. */
  lemma StoppedIsDecode(src: seq<byte>, l: LastRead, limit: nat, props: Props, res: Result<seq<byte>, Error>)
    requires Supported(props) && Stopped(src, l, limit, props, res)
    ensures res == Decode(src, limit, props)
  {
    if l.LastRead? {
      DecodeReachesPacket(src, l.out, l.ps, l.p, limit, props);
    } else {
      assert StandAfter(src, []) == DecInit(src);
    }
  }
}
