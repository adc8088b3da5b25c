/** Packets: their header bits and bodies, their effect on the coder state and on the output. */
module LzmaPackets {
  import opened Bytes
  import opened LzmaContexts
  import opened RangeCoder
  import opened Bits
  import opened LzmaFields
  import opened LzmaDistances
  import opened Copying

  datatype Kind = Lit | Match | ShortRep | Rep0 | Rep1 | Rep2 | Rep3

  function StateTransition(state: nat, kind: Kind): nat {
    if state >= N_STATES then 0xFF
    else match kind
      case Lit => if state < 4 then 0 else if state < 10 then state - 3 else state - 6
      case Match => if state < N_LIT_STATES then 7 else 10
      case ShortRep => if state < N_LIT_STATES then 9 else 11
      case _ => if state < N_LIT_STATES then 8 else 11
  }

  // ---------------------------------------------------------------- packet headers

  function Flag(t: Table, i: int, b: bit): Field { Field(OneBit(Cell(t, i)), b) }

  function KindFields(state: nat, posState: nat, kind: Kind): seq<Field> {
    if kind.Lit? then [Flag(IsMatch(state), posState, 0)]
    else [Flag(IsMatch(state), posState, 1)] + MatchKindFields(state, posState, kind)
  }

  function MatchKindFields(state: nat, posState: nat, kind: Kind): seq<Field>
    requires !kind.Lit?
  {
    if kind.Match? then [Flag(IsRep, state, 0)]
    else [Flag(IsRep, state, 1)] + RepKindFields(state, posState, kind)
  }

  function RepKindFields(state: nat, posState: nat, kind: Kind): seq<Field>
    requires !kind.Lit? && !kind.Match?
  {
    if kind.ShortRep? then [Flag(IsRep0, state, 0), Flag(IsRep0Long(state), posState, 0)]
    else if kind.Rep0? then [Flag(IsRep0, state, 0), Flag(IsRep0Long(state), posState, 1)]
    else [Flag(IsRep0, state, 1)] + FarRepFields(state, kind)
  }

  predicate IsFarRep(kind: Kind) { kind.Rep1? || kind.Rep2? || kind.Rep3? }

  function FarRepFields(state: nat, kind: Kind): seq<Field>
    requires IsFarRep(kind)
  {
    match kind
    case Rep1 => [Flag(IsRep1, state, 0)]
    case Rep2 => [Flag(IsRep1, state, 1), Flag(IsRep2, state, 0)]
    case Rep3 => [Flag(IsRep1, state, 1), Flag(IsRep2, state, 1)]
  }

  function DecKind(get: FieldReader, d: Dec, state: nat, posState: nat): (Kind, Dec) {
    var (isMatch, d1) := get(d, OneBit(Cell(IsMatch(state), posState)));
    if isMatch == 0 then (Lit, d1)
    else
      var (isRep, d2) := get(d1, OneBit(Cell(IsRep, state)));
      if isRep == 0 then (Match, d2) else DecRepKind(get, d2, state, posState)
  }

  function DecRepKind(get: FieldReader, d: Dec, state: nat, posState: nat): (r: (Kind, Dec))
    ensures !r.0.Lit? && !r.0.Match?
  {
    var (notRep0, d1) := get(d, OneBit(Cell(IsRep0, state)));
    if notRep0 == 0 then
      var (long, d2) := get(d1, OneBit(Cell(IsRep0Long(state), posState)));
      (if long == 1 then Rep0 else ShortRep, d2)
    else
      var (notRep1, d2) := get(d1, OneBit(Cell(IsRep1, state)));
      if notRep1 == 0 then (Rep1, d2)
      else
        var (isRep3, d3) := get(d2, OneBit(Cell(IsRep2, state)));
        (if isRep3 == 1 then Rep3 else Rep2, d3)
  }

  lemma ReadKind(get: FieldReader, d: Dec, state: nat, posState: nat, kind: Kind)
    requires Yields(get, d, KindFields(state, posState, kind))
    ensures DecKind(get, d, state, posState) == (kind, Past(get, d, KindFields(state, posState, kind)))
  {
    var isMatch := Flag(IsMatch(state), posState, if kind.Lit? then 0 else 1);
    if kind.Lit? {
      YieldsOne(get, d, isMatch);
    } else {
      YieldsFirst(get, d, KindFields(state, posState, kind), isMatch, MatchKindFields(state, posState, kind));
      ReadMatchKind(get, get(d, isMatch.unit).1, state, posState, kind);
    }
  }

  lemma ReadMatchKind(get: FieldReader, d: Dec, state: nat, posState: nat, kind: Kind)
    requires !kind.Lit? && Yields(get, d, MatchKindFields(state, posState, kind))
    ensures
      var (isRep, d2) := get(d, OneBit(Cell(IsRep, state)));
      (if isRep == 0 then (Match, d2) else DecRepKind(get, d2, state, posState))
      == (kind, Past(get, d, MatchKindFields(state, posState, kind)))
  {
    var isRep := Flag(IsRep, state, if kind.Match? then 0 else 1);
    if kind.Match? {
      YieldsOne(get, d, isRep);
    } else {
      YieldsFirst(get, d, MatchKindFields(state, posState, kind), isRep, RepKindFields(state, posState, kind));
      ReadRepKind(get, get(d, isRep.unit).1, state, posState, kind);
    }
  }

  lemma ReadRepKind(get: FieldReader, d: Dec, state: nat, posState: nat, kind: Kind)
    requires !kind.Lit? && !kind.Match?
    requires Yields(get, d, RepKindFields(state, posState, kind))
    ensures DecRepKind(get, d, state, posState) == (kind, Past(get, d, RepKindFields(state, posState, kind)))
  {
    ReadTwoOrThree(get, d, RepKindFields(state, posState, kind));
  }

  lemma ReadTwoOrThree(get: FieldReader, d: Dec, fs: seq<Field>)
    requires 2 <= |fs| <= 3 && Yields(get, d, fs)
    ensures
      var d1 := get(d, fs[0].unit).1;
      var d2 := get(d1, fs[1].unit).1;
      && get(d, fs[0].unit) == (fs[0].val, d1)
      && get(d1, fs[1].unit) == (fs[1].val, d2)
      && if |fs| == 2 then d2 == Past(get, d, fs) else get(d2, fs[2].unit) == (fs[2].val, Past(get, d, fs))
  {
    var d1 := get(d, fs[0].unit).1;
    YieldsFirst(get, d, fs, fs[0], fs[1..]);
    YieldsFirst(get, d1, fs[1..], fs[1], fs[2..]);
    if |fs| == 3 {
      assert fs[2..] == [fs[2]];
      YieldsOne(get, get(d1, fs[1].unit).1, fs[2]);
    }
  }

  // ---------------------------------------------------------------- packets

  /** A literal byte, or a copy of len bytes from dist back; len and dist are 0 where not coded. */
  datatype Packet = Packet(kind: Kind, lit: byte, len: nat, dist: nat)

  predicate WellFormed(p: Packet) {
    match p.kind
    case Lit => p.len == 0 && p.dist == 0
    case Match => 2 <= p.len <= 273 && 1 <= p.dist <= TWO32 && p.lit == 0
    case ShortRep => p.len == 0 && p.dist == 0 && p.lit == 0
    case _ => 2 <= p.len <= 273 && p.dist == 0 && p.lit == 0
  }

  function LengthOf(p: Packet): nat {
    if p.kind.Lit? || p.kind.ShortRep? then 1 else p.len
  }

  /** The distance field that the decoder takes for the end mark. */
  const END_MARK := TWO32

  predicate IsEndMark(p: Packet) { p.kind.Match? && p.dist == END_MARK }

  /** What the bits of a packet depend on besides the packet. */
  datatype Context = Context(state: nat, posState: nat, litTable: Table, matchByte: byte)

  function LitUnit(c: Context): Unit {
    if c.state < N_LIT_STATES then Number(c.litTable, 8) else MatchedByte(c.litTable, c.matchByte)
  }

  function LenFields(isRep: bit, posState: nat, len: nat): seq<Field>
    requires 2 <= len
  {
    if len < 10 then
      [Flag(LenChoice, isRep, 0), Field(Number(LenLow(isRep, posState), 3), len - 2)]
    else
      [Flag(LenChoice, isRep, 1)] + LongLenFields(isRep, posState, len)
  }

  function LongLenFields(isRep: bit, posState: nat, len: nat): seq<Field>
    requires 10 <= len
  {
    if len < 18 then
      [Flag(LenChoice2, isRep, 0), Field(Number(LenMid(isRep, posState), 3), len - 10)]
    else
      [Flag(LenChoice2, isRep, 1), Field(Number(LenHigh(isRep), 8), len - 18)]
  }

  function DecLen(get: FieldReader, d: Dec, isRep: bit, posState: nat): (r: (nat, Dec))
    ensures r.0 >= 2
  {
    var (b, d1) := get(d, OneBit(Cell(LenChoice, isRep)));
    if b == 0 then
      var (v, d2) := get(d1, Number(LenLow(isRep, posState), 3));
      (2 + v, d2)
    else
      var (b2, d2) := get(d1, OneBit(Cell(LenChoice2, isRep)));
      if b2 == 0 then
        var (v, d3) := get(d2, Number(LenMid(isRep, posState), 3));
        (10 + v, d3)
      else
        var (v, d3) := get(d2, Number(LenHigh(isRep), 8));
        (18 + v, d3)
  }

  lemma ReadLen(get: FieldReader, d: Dec, isRep: bit, posState: nat, len: nat)
    requires 2 <= len <= 273 && Yields(get, d, LenFields(isRep, posState, len))
    ensures DecLen(get, d, isRep, posState) == (len, Past(get, d, LenFields(isRep, posState, len)))
  {
    ReadTwoOrThree(get, d, LenFields(isRep, posState, len));
  }

  function BodyFields(c: Context, p: Packet): seq<Field>
    requires WellFormed(p)
  {
    match p.kind
    case Lit => [Field(LitUnit(c), p.lit)]
    case ShortRep => []
    case Match => LenFields(0, c.posState, p.len) + DistFields(p.len, p.dist - 1)
    case _ => LenFields(1, c.posState, p.len)
  }

  function PacketFields(c: Context, p: Packet): seq<Field>
    requires WellFormed(p)
  {
    KindFields(c.state, c.posState, p.kind) + BodyFields(c, p)
  }

  lemma KindFieldsFit(state: nat, posState: nat, kind: Kind)
    ensures AllFit(KindFields(state, posState, kind))
  {
  }

  lemma LenFieldsFit(isRep: bit, posState: nat, len: nat)
    requires 2 <= len <= 273
    ensures AllFit(LenFields(isRep, posState, len))
  {
    SmallPowers();
  }

  lemma PacketFieldsFit(c: Context, p: Packet)
    requires WellFormed(p)
    ensures AllFit(PacketFields(c, p))
  {
    KindFieldsFit(c.state, c.posState, p.kind);
    if p.kind.Lit? {
      SmallPowers();
    } else if !p.kind.ShortRep? {
      LenFieldsFit(if p.kind.Match? then 0 else 1, c.posState, p.len);
      if p.kind.Match? {
        DistFieldsFit(p.len, p.dist - 1);
      }
    }
  }

  function DecBody(get: FieldReader, d: Dec, c: Context, kind: Kind): (r: (Packet, Dec))
    ensures LengthOf(r.0) >= 1 && (r.0.kind.Match? ==> r.0.dist >= 1)
  {
    match kind
    case Lit =>
      var (b, r) := get(d, LitUnit(c));
      (Packet(Lit, b % 256, 0, 0), r)
    case ShortRep => (Packet(ShortRep, 0, 0, 0), d)
    case Match =>
      var (len, d1) := DecLen(get, d, 0, c.posState);
      var (dist, d2) := DecDist(get, d1, len);
      (Packet(Match, 0, len, dist + 1), d2)
    case _ =>
      var (len, d1) := DecLen(get, d, 1, c.posState);
      (Packet(kind, 0, len, 0), d1)
  }

  function DecPacket(get: FieldReader, d: Dec, c: Context): (r: (Packet, Dec))
    ensures LengthOf(r.0) >= 1 && (r.0.kind.Match? ==> r.0.dist >= 1)
  {
    var (kind, d1) := DecKind(get, d, c.state, c.posState);
    DecBody(get, d1, c, kind)
  }

  lemma ReadBody(get: FieldReader, d: Dec, c: Context, p: Packet)
    requires WellFormed(p) && Yields(get, d, BodyFields(c, p))
    ensures DecBody(get, d, c, p.kind) == (p, Past(get, d, BodyFields(c, p)))
  {
    match p.kind {
      case Lit =>
        assert BodyFields(c, p)[1..] == [];
      case ShortRep =>
      case Match =>
        var a, b := LenFields(0, c.posState, p.len), DistFields(p.len, p.dist - 1);
        YieldsAppend(get, d, a, b);
        ReadLen(get, d, 0, c.posState, p.len);
        ReadDist(get, Past(get, d, a), p.len, p.dist - 1);
      case _ => ReadLen(get, d, 1, c.posState, p.len);
    }
  }

  /** Every well-formed packet is read back from its own fields, in any context. */
  lemma ReadPacket(get: FieldReader, d: Dec, c: Context, p: Packet)
    requires WellFormed(p) && Yields(get, d, PacketFields(c, p))
    ensures DecPacket(get, d, c) == (p, Past(get, d, PacketFields(c, p)))
  {
    var a, b := KindFields(c.state, c.posState, p.kind), BodyFields(c, p);
    YieldsAppend(get, d, a, b);
    ReadKind(get, d, c.state, c.posState, p.kind);
    ReadBody(get, Past(get, d, a), c, p);
  }

  // ---------------------------------------------------------------- effect of a packet

  /** The state shared by encoder and decoder. */
  datatype Lz = Lz(state: nat, rep0: nat, rep1: nat, rep2: nat, rep3: nat)

  const LZ_INIT := Lz(0, 1, 1, 1, 1)

  function DistanceOf(lz: Lz, p: Packet): nat {
    match p.kind
    case Lit => 0
    case Match => p.dist
    case ShortRep => lz.rep0
    case Rep0 => lz.rep0
    case Rep1 => lz.rep1
    case Rep2 => lz.rep2
    case Rep3 => lz.rep3
  }

  predicate RepsPositive(lz: Lz) { lz.rep0 >= 1 && lz.rep1 >= 1 && lz.rep2 >= 1 && lz.rep3 >= 1 }

  function NextLz(lz: Lz, p: Packet): (r: Lz)
    ensures lz.state < N_STATES ==> r.state < N_STATES
    ensures RepsPositive(lz) && (p.kind.Match? ==> p.dist >= 1) ==> RepsPositive(r)
  {
    var state := StateTransition(lz.state, p.kind);
    match p.kind
    case Lit => lz.(state := state)
    case ShortRep => lz.(state := state)
    case Rep0 => lz.(state := state)
    case Rep1 => Lz(state, lz.rep1, lz.rep0, lz.rep2, lz.rep3)
    case Rep2 => Lz(state, lz.rep2, lz.rep0, lz.rep1, lz.rep3)
    case Rep3 => Lz(state, lz.rep3, lz.rep0, lz.rep1, lz.rep2)
    case Match => Lz(state, p.dist, lz.rep0, lz.rep1, lz.rep2)
  }

  function Output(out: seq<byte>, lz: Lz, p: Packet): (r: seq<byte>)
    requires p.kind.Lit? || 1 <= DistanceOf(lz, p) <= |out|
    ensures |r| == |out| + LengthOf(p)
  {
    if p.kind.Lit? then out + [p.lit] else CopyBack(out, DistanceOf(lz, p), LengthOf(p))
  }

  /** The packet says truthfully what comes next in src. */
  predicate Describes(src: seq<byte>, pos: nat, lz: Lz, p: Packet) {
    && WellFormed(p)
    && !IsEndMark(p)
    && pos < |src|
    && if p.kind.Lit? then p.lit == src[pos] else Repeats(src, pos, DistanceOf(lz, p), LengthOf(p))
  }

  lemma DescribesOutput(src: seq<byte>, pos: nat, lz: Lz, p: Packet)
    requires Describes(src, pos, lz, p)
    ensures pos + LengthOf(p) <= |src|
    ensures Output(src[..pos], lz, p) == src[..pos + LengthOf(p)]
  {
    if p.kind.Lit? {
      assert src[..pos] + [src[pos]] == src[..pos + 1];
    } else {
      CopyBackOfRepeat(src, pos, DistanceOf(lz, p), LengthOf(p));
    }
  }

  /** The effect of a packet is described by the packet. */
  lemma OutputDescribed(out: seq<byte>, lz: Lz, p: Packet)
    requires WellFormed(p) && !IsEndMark(p)
    requires p.kind.Lit? || 1 <= DistanceOf(lz, p) <= |out|
    ensures out <= Output(out, lz, p) && Describes(Output(out, lz, p), |out|, lz, p)
  {
    if !p.kind.Lit? {
      CopyBackRepeats(out, DistanceOf(lz, p), LengthOf(p));
    }
  }
}
