/** The .lzma format: header, how large compressed data can get, and compression end to end. */
module LzmaFormat {
  import opened Bytes
  import opened Results
  import opened LzmaContexts
  import opened RangeCoder
  import opened Bits
  import opened LzmaBits
  import opened LzmaFields
  import opened LzmaDistances
  import opened LzmaPackets
  import opened LzmaStream
  import opened LzmaSearch
  import opened RangeEncoders
  import opened LzmaEncoder
  import opened LzmaDecoder

  // ---------------------------------------------------------------- how many bits a run takes

  function BitsOf(fs: seq<Field>): nat {
    if fs == [] then 0 else UnitBits(fs[0].unit) + BitsOf(fs[1..])
  }

  lemma {:induction false} BitsOfAppend(a: seq<Field>, b: seq<Field>)
    ensures BitsOf(a + b) == BitsOf(a) + BitsOf(b)
  {
    if a == [] {
      assert a + b == b;
    } else {
      assert (a + b)[0] == a[0] && (a + b)[1..] == a[1..] + b;
      BitsOfAppend(a[1..], b);
    }
  }

  lemma {:induction false} TreeLength(t: Table, val: nat, n: nat, node: nat)
    ensures |TreeSyms(t, val, n, node)| == n
  {
    if n > 0 {
      TreeLength(t, val, n - 1, 2 * node + BitAt(val, n - 1));
    }
  }

  lemma {:induction false} MatchedLength(t: Table, val: nat, matchByte: nat, n: nat, node: nat, off: nat)
    ensures |MatchedSyms(t, val, matchByte, n, node, off)| == n
  {
    if n > 0 {
      var m, b := BitAt(matchByte, n - 1), BitAt(val, n - 1);
      MatchedLength(t, val, matchByte, n - 1, 2 * node + b, NextOffset(off, m, b));
    }
  }

  lemma {:induction false} DirectLength(val: nat, n: nat)
    ensures |DirectSyms(val, n)| == n
  {
    if n > 0 {
      DirectLength(val, n - 1);
    }
  }

  lemma FieldLength(f: Field)
    ensures |FieldSyms(f)| == UnitBits(f.unit)
  {
    match f.unit
    case OneBit(_) =>
    case Number(t, n) => TreeLength(t, f.val, n, 1);
    case MatchedByte(t, m) => MatchedLength(t, f.val, m, UnitBits(f.unit), 1, 256);
    case Fixed(n) => DirectLength(f.val, n);
  }

  lemma {:induction false} AllSymsLength(fs: seq<Field>)
    ensures |AllSyms(fs)| == BitsOf(fs)
  {
    if fs != [] {
      FieldLength(fs[0]);
      AllSymsLength(fs[1..]);
    }
  }

  lemma ThreeFields(fs: seq<Field>)
    requires |fs| <= 3
    ensures BitsOf(fs) == (if |fs| > 0 then UnitBits(fs[0].unit) else 0) + (if |fs| > 1 then UnitBits(fs[1].unit) else 0)
                          + (if |fs| > 2 then UnitBits(fs[2].unit) else 0)
  {
    if |fs| == 3 {
      assert fs[1..][1..] == [fs[2]];
    } else if |fs| == 2 {
      assert fs[1..] == [fs[1]];
    }
  }

  lemma KindBits(state: nat, posState: nat, kind: Kind)
    ensures BitsOf(KindFields(state, posState, kind))
            <= (if kind.Lit? then 1 else if kind.Match? then 2 else if kind.ShortRep? then 4 else 5)
  {
    if kind.Lit? {
      ThreeFields(KindFields(state, posState, kind));
    } else {
      BitsOfAppend([Flag(IsMatch(state), posState, 1)], MatchKindFields(state, posState, kind));
      ThreeFields([Flag(IsMatch(state), posState, 1)]);
      if kind.Match? {
        ThreeFields(MatchKindFields(state, posState, kind));
      } else {
        BitsOfAppend([Flag(IsRep, state, 1)], RepKindFields(state, posState, kind));
        ThreeFields([Flag(IsRep, state, 1)]);
        ThreeFields(RepKindFields(state, posState, kind));
      }
    }
  }

  lemma DistBits(len: nat, dist: nat)
    requires len >= 2 && dist < TWO32
    ensures BitsOf(DistFields(len, dist)) <= 36
  {
    if dist >= 4 {
      SlotSplitsDistance(dist);
    }
    var tail := DistTail(dist, SlotOf(dist));
    BitsOfAppend([Field(Number(DistSlot(LenClass(len)), 6), SlotOf(dist))], tail);
    ThreeFields([Field(Number(DistSlot(LenClass(len)), 6), SlotOf(dist))]);
    ThreeFields(tail);
  }

  lemma BodyBits(c: Context, p: Packet)
    requires WellFormed(p)
    ensures BitsOf(BodyFields(c, p))
            <= (if p.kind.Lit? then 8 else if p.kind.Match? then 46 else if p.kind.ShortRep? then 0 else 10)
  {
    match p.kind
    case Lit => ThreeFields(BodyFields(c, p));
    case ShortRep =>
    case Match =>
      BitsOfAppend(LenFields(0, c.posState, p.len), DistFields(p.len, p.dist - 1));
      ThreeFields(LenFields(0, c.posState, p.len));
      DistBits(p.len, p.dist - 1);
    case _ => ThreeFields(LenFields(1, c.posState, p.len));
  }

  /** No packet takes more than 24 bits for each byte it stands for. */
  lemma PacketBits(c: Context, p: Packet)
    requires WellFormed(p)
    ensures BitsOf(PacketFields(c, p)) <= 24 * LengthOf(p)
  {
    BitsOfAppend(KindFields(c.state, c.posState, p.kind), BodyFields(c, p));
    KindBits(c.state, c.posState, p.kind);
    BodyBits(c, p);
  }

  /** Coding a packet takes no more than 24 bits for each byte. */
  ghost predicate Compact(code: Coder) {
    forall out: seq<byte>, lz: Lz, p: Packet {:trigger code(out, lz, p)} ::
      WellFormed(p) ==> BitsOf(code(out, lz, p)) <= 24 * LengthOf(p)
  }

  lemma CoderIsCompact(props: Props)
    requires Supported(props)
    ensures Compact(PacketCoder(props))
  {
    var code := PacketCoder(props);
    forall out: seq<byte>, lz: Lz, p: Packet | WellFormed(p)
      ensures BitsOf(code(out, lz, p)) <= 24 * LengthOf(p)
    {
      PacketBits(ContextAt(out, lz, props), p);
    }
  }

  lemma {:induction false} RunBits(code: Coder, src: seq<byte>, pos: nat, lz: Lz, ps: seq<Packet>)
    requires Compact(code) && Tells(src, pos, lz, ps)
    ensures BitsOf(RunFields(code, src, pos, lz, ps)) + 24 * pos <= 24 * EndPos(pos, ps)
    decreases |ps|
  {
    if ps != [] {
      var next, lz1 := pos + LengthOf(ps[0]), NextLz(lz, ps[0]);
      RunBits(code, src, next, lz1, ps[1..]);
      BitsOfAppend(code(src[..pos], lz, ps[0]), RunFields(code, src, next, lz1, ps[1..]));
    }
  }

  /** Each symbol moves out at most one byte. */
  lemma {:induction false} CountGrowth(e: Enc, syms: seq<Sym>)
    requires EncInv(e)
    ensures Count(EncSyms(e, syms)) <= Count(e) + |syms|
    decreases |syms|
  {
    if syms != [] {
      StepNests(e, syms[0]);
      NormalizeKeepsInv(e);
      CountGrowth(EncStep(e, syms[0]), syms[1..]);
    }
  }

  lemma CodedLength(src: seq<byte>, ps: seq<Packet>, props: Props)
    requires Supported(props) && Tells(src, 0, LZ_INIT, ps)
    ensures |Coded(src, ps, props)| <= 24 * |src| + 6
  {
    var fs := RunFields(PacketCoder(props), src, 0, LZ_INIT, ps);
    EncodedLength(AllSyms(fs));
    CountGrowth(ENC_INIT, AllSyms(fs));
    AllSymsLength(fs);
    CoderIsCompact(props);
    RunBits(PacketCoder(props), src, 0, LZ_INIT, ps);
    TellsBounds(src, 0, LZ_INIT, ps);
  }

  // ---------------------------------------------------------------- the header

  const HEADER_LEN := 13
  const DICT_LEN := LZ_DIST_MAX_PLUS1
  const DICT_MIN := 4096

  /** lc + 9 * (lp + 5 * pb), with the encoder's fixed properties. */
  const PROPS_BYTE: byte := (0 * 5 + 0) * 9 + 8

  function LittleEndian(x: nat, n: nat): (s: seq<byte>)
    ensures |s| == n
  {
    if n == 0 then [] else [x % 256] + LittleEndian(x / 256, n - 1)
  }

  function FromLittleEndian(s: seq<byte>): nat {
    if s == [] then 0 else s[0] + 256 * FromLittleEndian(s[1..])
  }

  lemma {:induction false} LittleEndianInverse(x: nat, n: nat)
    requires x < Pow2(8 * n)
    ensures FromLittleEndian(LittleEndian(x, n)) == x
  {
    if n > 0 {
      Pow2Add(8, 8 * (n - 1));
      assert Pow2(8) == 256 by { SmallPowers(); }
      LittleEndianInverse(x / 256, n - 1);
    }
  }

  lemma {:induction false} FromLittleEndianOneMore(s: seq<byte>, b: byte)
    ensures FromLittleEndian(s + [b]) == FromLittleEndian(s) + b * Pow2(8 * |s|)
  {
    if s == [] {
      assert s + [b] == [b];
      assert FromLittleEndian([b]) == b + 256 * FromLittleEndian([]);
    } else {
      assert (s + [b])[0] == s[0] && (s + [b])[1..] == s[1..] + [b];
      FromLittleEndianOneMore(s[1..], b);
      Pow2Add(8, 8 * (|s| - 1));
      assert Pow2(8) == 256 by { SmallPowers(); }
      assert 256 * (b * Pow2(8 * (|s| - 1))) == b * (256 * Pow2(8 * (|s| - 1)));
    }
  }

  /** All bits set stands for an unknown length; every other pattern is a number below it. */
  lemma {:induction false} AllOnes(s: seq<byte>)
    ensures FromLittleEndian(s) < Pow2(8 * |s|)
    ensures (forall i :: 0 <= i < |s| ==> s[i] == 255) <==> FromLittleEndian(s) == Pow2(8 * |s|) - 1
  {
    if s != [] {
      AllOnes(s[1..]);
      Pow2Add(8, 8 * (|s| - 1));
      assert Pow2(8) == 256 by { SmallPowers(); }
      assert (forall i :: 0 <= i < |s| ==> s[i] == 255) <==> s[0] == 255 && forall i :: 0 <= i < |s| - 1 ==> s[1..][i] == 255;
    }
  }

  /** Properties, dictionary size, and the length when it is known. */
  datatype Header = Header(props: Props, dictLen: nat, known: bool, length: nat)

  function HeaderBytes(length: nat, known: bool): (s: seq<byte>)
    ensures |s| == HEADER_LEN
  {
    [PROPS_BYTE] + LittleEndian(DICT_LEN, 4) + LengthField(length, known)
  }

  function LengthField(length: nat, known: bool): (s: seq<byte>)
    ensures |s| == 8
  {
    if known then LittleEndian(length, 8) else Fill(255, 8)
  }

  function Parsed(src: seq<byte>): Result<Header, Error>
    requires |src| >= HEADER_LEN
  {
    var dict := FromLittleEndian(src[1..5]);
    var length := FromLittleEndian(src[5..13]);
    var props := Props(src[0] % 9, src[0] / 9 % 5, src[0] / 9 / 5);
    if !Supported(props) then Err(Unsupported)
    else Ok(Header(props, if dict < DICT_MIN then DICT_MIN else dict, length != Pow2(64) - 1, length))
  }

  /** The parser reads back what the writer wrote, and refuses exactly the property bytes from 225 on. */
  lemma HeaderRoundTrip(length: nat, known: bool, tail: seq<byte>)
    requires known ==> length < Pow2(64) - 1
    ensures
      match Parsed(HeaderBytes(length, known) + tail)
      case Ok(h) => h.props == ENCODER_PROPS && h.dictLen == DICT_LEN && h.known == known && (known ==> h.length == length)
      case Err(_) => false
  {
    var s := HeaderBytes(length, known) + tail;
    var len := LengthField(length, known);
    assert s[1..5] == LittleEndian(DICT_LEN, 4) && s[5..13] == len && s[0] == PROPS_BYTE;
    DictRead();
    LengthRead(length, known);
  }

  /** The header that is written, byte by byte: 8, 1 GB, and the length with its low byte first, or 255 eight times. */
  lemma HeaderInNumbers(length: nat, known: bool)
    ensures
      var h := HeaderBytes(length, known);
      && h[0] == 8 && h[1] == 0 && h[2] == 0 && h[3] == 0 && h[4] == 64
      && forall k :: 5 <= k < 13 ==> h[k] as int == if known then length / Pow2(8 * (k - 5)) % 256 else 255
  {
    var h, len := HeaderBytes(length, known), LengthField(length, known);
    assert h[1..5] == LittleEndian(DICT_LEN, 4);
    DictBytes();
    assert h[1] == h[1..5][0] && h[2] == h[1..5][1] && h[3] == h[1..5][2] && h[4] == h[1..5][3];
    forall k | 5 <= k < 13
      ensures h[k] as int == if known then length / Pow2(8 * (k - 5)) % 256 else 255
    {
      assert h[k] == len[k - 5];
      if known {
        LittleEndianAt(length, 8, k - 5);
      } else {
        FillIs(255, 8);
      }
    }
  }

  lemma DictBytes()
    ensures LittleEndian(DICT_LEN, 4) == [0, 0, 0, 64]
  {
    assert LittleEndian(64, 1) == [64];
    assert LittleEndian(64 * 256, 2) == [0, 64];
    assert LittleEndian(64 * 256 * 256, 3) == [0, 0, 64];
  }

  lemma {:induction false} LittleEndianAt(x: nat, n: nat, k: nat)
    requires k < n
    ensures LittleEndian(x, n)[k] as int == x / Pow2(8 * k) % 256
  {
    SmallPowers();
    if k > 0 {
      LittleEndianAt(x / 256, n - 1, k - 1);
      Pow2Add(8, 8 * (k - 1));
      DivideTwice(x, Pow2(8 * (k - 1)));
    }
  }

  lemma DivideTwice(x: nat, p: nat)
    requires p > 0
    ensures x / (256 * p) == x / 256 / p
  {
    var q, r := x / 256 / p, x / 256 % p;
    assert x == q * (256 * p) + (256 * r + x % 256) by { assert 256 * (q * p) == q * (256 * p); }
    RemainderIs(x, 256 * p, q, 256 * r + x % 256);
  }

  /**
   What the parser makes of any thirteen bytes: the first is lc + 9 * (lp + 5 * pb), with pb below 5, or is refused;
   the numbers have their low byte first; a dictionary has at least 4096 bytes; eight times 255 is no length.
   */
  lemma ParsedInNumbers(src: seq<byte>)
    requires |src| >= HEADER_LEN
    ensures Parsed(src).Err? <==> src[0] >= 225
    ensures
      match Parsed(src)
      case Err(_) => true
      case Ok(h) => IsHeader(src, h)
  {
    FourBytes(src[1..5]);
    EightBytes(src[5..13]);
    UnknownLength(src[5..13]);
    PropsInNumbers(src[0]);
    assert forall i :: 5 <= i < 13 ==> src[i] == src[5..13][i - 5];
  }

  lemma UnknownLength(s: seq<byte>)
    requires |s| == 8
    ensures FromLittleEndian(s) != Pow2(64) - 1 <==> exists i :: 0 <= i < 8 && s[i] != 255
  {
    AllOnes(s);
  }

  lemma PropsInNumbers(b: byte)
    ensures b % 9 <= 8 && b / 9 % 5 <= 4 && b as int == b % 9 + 9 * (b / 9 % 5 + 5 * (b / 9 / 5))
    ensures b / 9 / 5 <= 4 <==> b < 225
  {
  }

  predicate IsHeader(src: seq<byte>, h: Header)
    requires |src| >= HEADER_LEN
  {
    && h.props.lc <= 8 && h.props.lp <= 4 && h.props.pb <= 4
    && src[0] as int == h.props.lc + 9 * (h.props.lp + 5 * h.props.pb)
    && (h.dictLen == Sum4(src, 1) || (h.dictLen == 4096 && Sum4(src, 1) < 4096)) && h.dictLen >= 4096
    && h.length == Sum4(src, 5) + 0x1_0000_0000 * Sum4(src, 9)
    && (h.known <==> exists i :: 5 <= i < 13 && src[i] != 255)
  }

  function Sum4(src: seq<byte>, at: nat): nat
    requires at + 4 <= |src|
  {
    src[at] as int + 0x100 * src[at + 1] as int + 0x1_0000 * src[at + 2] as int + 0x100_0000 * src[at + 3] as int
  }

  lemma FourBytes(s: seq<byte>)
    requires |s| == 4
    ensures FromLittleEndian(s) == Sum4(s, 0)
  {
    FourMore(s, []);
  }

  lemma EightBytes(s: seq<byte>)
    requires |s| == 8
    ensures FromLittleEndian(s) == Sum4(s, 0) + 0x1_0000_0000 * Sum4(s, 4)
  {
    FourMore(s, s[4..]);
    FourBytes(s[4..]);
  }

  lemma FourMore(s: seq<byte>, t: seq<byte>)
    requires |s| >= 4 && t == s[4..]
    ensures FromLittleEndian(s) == Sum4(s, 0) + 0x1_0000_0000 * FromLittleEndian(t)
  {
    assert s[1..][1..] == s[2..] && s[2..][1..] == s[3..] && s[3..][1..] == t;
    assert FromLittleEndian(s[1..]) == s[1] + 256 * FromLittleEndian(s[2..]);
    assert FromLittleEndian(s[2..]) == s[2] + 256 * FromLittleEndian(s[3..]);
    assert FromLittleEndian(s[3..]) == s[3] + 256 * FromLittleEndian(t);
  }

  lemma DictRead()
    ensures FromLittleEndian(LittleEndian(DICT_LEN, 4)) == DICT_LEN
  {
    assert DICT_LEN < Pow2(32) by { Pow2Of32(); }
    LittleEndianInverse(DICT_LEN, 4);
  }

  /** The length, or all ones where it is not known. */
  lemma LengthRead(length: nat, known: bool)
    requires known ==> length < Pow2(64) - 1
    ensures FromLittleEndian(LengthField(length, known)) == if known then length else Pow2(64) - 1
  {
    if known {
      LittleEndianInverse(length, 8);
    } else {
      FillIs(255, 8);
      AllOnes(Fill(255, 8));
    }
  }

  method WriteHeader(dst: array<byte>, limit: nat, length: nat, known: bool) returns (res: Result<nat, Error>)
    requires limit <= dst.Length
    modifies dst
    ensures if limit < HEADER_LEN then res == Err(OutputOverflow) && dst[..] == old(dst[..])
            else res == Ok(HEADER_LEN) && dst[..HEADER_LEN] == HeaderBytes(length, known)
  {
    if limit < HEADER_LEN {
      return Err(OutputOverflow);
    }
    dst[0] := PROPS_BYTE;
    WriteNumber(dst, 1, DICT_LEN, 4);
    assert dst[..5] == [PROPS_BYTE] + LittleEndian(DICT_LEN, 4);
    if known {
      WriteNumber(dst, 5, length, 8);
      assert dst[..13] == dst[..5] + LittleEndian(length, 8);
    } else {
      var i := 0;
      while i < 8
        invariant 0 <= i <= 8 && dst[..5] == [PROPS_BYTE] + LittleEndian(DICT_LEN, 4)
        invariant forall k :: 5 <= k < 5 + i ==> dst[k] == 255
      {
        dst[5 + i] := 255;
        i := i + 1;
      }
      FillIs(255, 8);
      assert dst[5..13] == Fill(255, 8);
      assert dst[..13] == dst[..5] + Fill(255, 8);
    }
    return Ok(HEADER_LEN);
  }

  method WriteNumber(dst: array<byte>, at: nat, x: nat, n: nat)
    requires at + n <= dst.Length
    modifies dst
    ensures dst[at..at + n] == LittleEndian(x, n)
    ensures dst[..at] == old(dst[..at])
  {
    var i, rest := 0, x;
    while i < n
      invariant 0 <= i <= n && dst[..at] == old(dst[..at])
      invariant dst[at..at + i] + LittleEndian(rest, n - i) == LittleEndian(x, n)
    {
      dst[at + i] := rest % 256;
      rest := rest / 256;
      i := i + 1;
      assert dst[at..at + i] == dst[at..at + i - 1] + [dst[at + i - 1]];
    }
  }

  method ReadNumber(src: seq<byte>, at: nat, n: nat) returns (x: nat)
    requires at + n <= |src|
    ensures x == FromLittleEndian(src[at..at + n])
  {
    x := 0;
    var i := 0;
    while i < n
      invariant 0 <= i <= n && x == FromLittleEndian(src[at..at + i])
    {
      FromLittleEndianOneMore(src[at..at + i], src[at + i]);
      assert src[at..at + i + 1] == src[at..at + i] + [src[at + i]];
      x := x + Shl(src[at + i], 8 * i);
      i := i + 1;
    }
  }

  /** Some byte of the length is not 255. */
  method LengthKnown(src: seq<byte>) returns (known: bool)
    requires |src| >= HEADER_LEN
    ensures known <==> FromLittleEndian(src[5..13]) != Pow2(64) - 1
  {
    known := exists i :: 5 <= i < 13 && src[i] != 255;
    AllOnes(src[5..13]);
    assert known <==> exists i :: 0 <= i < 8 && src[5..13][i] != 255 by {
      if known {
        var i :| 5 <= i < 13 && src[i] != 255;
        assert src[5..13][i - 5] != 255;
      }
    }
  }

  method ParseHeader(src: seq<byte>) returns (res: Result<Header, Error>)
    requires |src| >= HEADER_LEN
    ensures res.Ok? ==> res == Parsed(src) && Supported(res.value.props)
    ensures res.Err? ==> res == Parsed(src) && src[0] >= 225
  {
    var dict := ReadNumber(src, 1, 4);
    if dict < DICT_MIN {
      dict := DICT_MIN;
    }
    var known := LengthKnown(src);
    var length := ReadNumber(src, 5, 8);
    var props := Props(src[0] % 9, src[0] / 9 % 5, src[0] / 9 / 5);
    if props.lc > 8 || props.lp > 4 || props.pb > 4 {
      return Err(Unsupported);
    }
    return Ok(Header(props, dict, known, length));
  }

  // ---------------------------------------------------------------- end to end

  /** What decompression makes of src in a buffer of the given capacity. */
  function Decompressed(src: seq<byte>, capacity: nat): Result<seq<byte>, Error> {
    if |src| < HEADER_LEN then Err(InputOverflow)
    else
      match Parsed(src)
      case Err(e) => Err(e)
      case Ok(h) =>
        if h.known && h.length > capacity then Err(OutputOverflow)
        else
          match Decode(src[HEADER_LEN..], if h.known then h.length else capacity, h.props)
          case Err(e) => Err(e)
          case Ok(out) => if h.known && |out| != h.length then Err(OutputLenMismatch) else Ok(out)
  }

  method Decompress(src: seq<byte>, dst: array<byte>) returns (res: Result<nat, Error>)
    modifies dst
    ensures match Decompressed(src, dst.Length)
            case Ok(out) => res == Ok(|out|) && |out| <= dst.Length && dst[..|out|] == out
            case Err(e) => res == Err(e)
  {
    if |src| < HEADER_LEN {
      return Err(InputOverflow);
    }
    var parsed := ParseHeader(src);
    if parsed.Err? {
      return Err(parsed.error);
    }
    var h := parsed.value;
    var limit := dst.Length;
    if h.known {
      if h.length > limit {
        return Err(OutputOverflow);
      }
      limit := h.length;
    }
    res := LzmaDecode(src[HEADER_LEN..], dst, limit, h.props);
    if res.Ok? && h.known && h.length != res.value {
      return Err(OutputLenMismatch);
    }
  }

  /** Decompression recovers src from the coded form of any run of packets that covers it. */
  lemma DecompressedIsSource(src: seq<byte>, ps: seq<Packet>, capacity: nat)
    requires Covers(src, ps) && |src| < Pow2(64) - 1
    ensures Decompressed(HeaderBytes(|src|, true) + Coded(src, ps, ENCODER_PROPS), capacity)
         == if |src| <= capacity then Ok(src) else Err(OutputOverflow)
  {
    var coded := Coded(src, ps, ENCODER_PROPS);
    var all := HeaderBytes(|src|, true) + coded;
    HeaderRoundTrip(|src|, true, coded);
    assert all[HEADER_LEN..] == coded + [];
    DecodeInvertsEncode(src, ps, ENCODER_PROPS, []);
  }

  /**
   Compression succeeds whenever there is room, and what it leaves in the buffer, the coded form of the run to which
   the search leads, decompresses to src.
   */
  method Compress(src: seq<byte>, dst: array<byte>)
    returns (res: Result<nat, Error>, ghost ps: seq<Packet>, ghost bs: seq<Bypass>)
    requires |src| < CACHE_SIZE_MAX && dst.Length < CACHE_SIZE_MAX
    modifies dst
    ensures dst.Length >= 24 * |src| + 19 ==> res.Ok?
    ensures match res
            case Ok(n) =>
              && n <= dst.Length && n <= 24 * |src| + 19
              && Greedy(src, ps, bs) && Covers(src, ps)
              && dst[..n] == HeaderBytes(|src|, true) + Coded(src, ps, ENCODER_PROPS)
              && (forall capacity: nat :: Decompressed(dst[..n], capacity)
                                       == if |src| <= capacity then Ok(src) else Err(OutputOverflow))
            case Err(e) => e == OutputOverflow
  {
    ps, bs := [], [];
    res := WriteHeader(dst, dst.Length, |src|, true);
    if res.Err? {
      return;
    }
    res, ps, bs := LzmaEncode(src, dst, HEADER_LEN, dst.Length);
    CodedLength(src, ps, ENCODER_PROPS);
    if res.Ok? {
      res := Ok(HEADER_LEN + res.value);
      assert |src| < Pow2(64) - 1 by { Pow2Of64(); }
      forall capacity: nat
        ensures Decompressed(dst[..res.value], capacity) == if |src| <= capacity then Ok(src) else Err(OutputOverflow)
      {
        DecompressedIsSource(src, ps, capacity);
      }
    }
  }

  lemma Pow2Of64()
    ensures Pow2(64) == CACHE_SIZE_MAX + 1
  {
    Pow2Of32();
    Pow2Add(32, 32);
  }
}
