/**
 Fields: the units that packets are made of. A field stands for the symbols of one bit, of a number
 in a bit tree, of a matched literal or of fixed-probability bits, and is read back as a whole.
 */
module LzmaFields {
  import opened Bytes
  import opened LzmaContexts
  import opened RangeCoder
  import opened Bits
  import opened LzmaBits

  datatype Unit =
    | OneBit(c: Ctx)
    | Number(table: Table, bits: nat)
    | MatchedByte(table: Table, matchByte: byte)
    | Fixed(bits: nat)

  datatype Field = Field(unit: Unit, val: nat)

  /** How many values the unit can carry. */
  function Values(u: Unit): nat {
    match u
    case OneBit(_) => 2
    case Number(_, n) => Pow2(n)
    case MatchedByte(_, _) => 256
    case Fixed(n) => Pow2(n)
  }

  predicate Fits(f: Field) { f.val < Values(f.unit) }

  function UnitBits(u: Unit): nat {
    match u
    case OneBit(_) => 1
    case Number(_, n) => n
    case MatchedByte(_, _) => 8
    case Fixed(n) => n
  }

  function FieldSyms(f: Field): seq<Sym> {
    match f.unit
    case OneBit(c) => [Sym(Adaptive(c), f.val % 2)]
    case Number(t, n) => TreeSyms(t, f.val, n, 1)
    case MatchedByte(t, m) => MatchedSyms(t, f.val, m, UnitBits(f.unit), 1, 256)
    case Fixed(n) => DirectSyms(f.val, n)
  }

  function AllSyms(fs: seq<Field>): seq<Sym> {
    if fs == [] then [] else FieldSyms(fs[0]) + AllSyms(fs[1..])
  }

  predicate AllFit(fs: seq<Field>) {
    forall f :: f in fs ==> Fits(f)
  }

  lemma {:induction false} AllSymsAppend(a: seq<Field>, b: seq<Field>)
    ensures AllSyms(a + b) == AllSyms(a) + AllSyms(b)
  {
    if a == [] {
      assert a + b == b;
    } else {
      assert (a + b)[0] == a[0] && (a + b)[1..] == a[1..] + b;
      AllSymsAppend(a[1..], b);
    }
  }

  lemma AllSymsOneMore(fs: seq<Field>, f: Field)
    ensures AllSyms(fs + [f]) == AllSyms(fs) + FieldSyms(f)
  {
    AllSymsAppend(fs, [f]);
    assert AllSyms([f]) == FieldSyms(f) + AllSyms([]);
  }

  // ---------------------------------------------------------------- reading fields

  function ReadUnit(get: Reader, d: Dec, u: Unit): (r: (nat, Dec))
    ensures r.0 < Values(u)
  {
    match u
    case OneBit(c) =>
      var (b, r) := get(d, Adaptive(c));
      (b, r)
    case Number(t, n) =>
      var (v, r) := DecTree(get, d, t, n, 1);
      (v % Pow2(n), r)
    case MatchedByte(t, m) =>
      var (v, r) := DecMatched(get, d, t, m, UnitBits(u), 1, 256);
      (v % 256, r)
    case Fixed(n) =>
      var (v, r) := DecDirects(get, d, n, 0);
      (v % Pow2(n), r)
  }

  /** A way to answer for one field; the syntax of packets is written over any of these. */
  type FieldReader = (Dec, Unit) -> (nat, Dec)

  function FieldsOf(get: Reader): FieldReader { (d, u) => ReadUnit(get, d, u) }

  /** Asked for the units of fs in turn, the reader answers with their values. */
  predicate Yields(get: FieldReader, d: Dec, fs: seq<Field>)
    decreases |fs|
  {
    fs == []
    || (get(d, fs[0].unit).0 == fs[0].val && Yields(get, get(d, fs[0].unit).1, fs[1..]))
  }

  function Past(get: FieldReader, d: Dec, fs: seq<Field>): Dec
    decreases |fs|
  {
    if fs == [] then d else Past(get, get(d, fs[0].unit).1, fs[1..])
  }

  lemma {:induction false} YieldsAppend(get: FieldReader, d: Dec, a: seq<Field>, b: seq<Field>)
    ensures Yields(get, d, a + b) <==> Yields(get, d, a) && Yields(get, Past(get, d, a), b)
    ensures Past(get, d, a + b) == Past(get, Past(get, d, a), b)
    decreases |a|
  {
    if a == [] {
      assert a + b == b;
    } else {
      assert (a + b)[0] == a[0] && (a + b)[1..] == a[1..] + b;
      YieldsAppend(get, get(d, a[0].unit).1, a[1..], b);
    }
  }

  /** The first field read, and the rest. */
  lemma YieldsFirst(get: FieldReader, d: Dec, fs: seq<Field>, f: Field, rest: seq<Field>)
    requires fs == [f] + rest && Yields(get, d, fs)
    ensures
      var (v, d1) := get(d, f.unit);
      v == f.val && Yields(get, d1, rest) && Past(get, d, fs) == Past(get, d1, rest)
  {
    assert fs[0] == f && fs[1..] == rest;
  }

  lemma YieldsOne(get: FieldReader, d: Dec, f: Field)
    requires Yields(get, d, [f])
    ensures get(d, f.unit) == (f.val, Past(get, d, [f]))
  {
    YieldsFirst(get, d, [f], f, []);
  }

  lemma ReadField(get: Reader, d: Dec, f: Field)
    requires Fits(f) && Decodes(get, d, FieldSyms(f))
    ensures ReadUnit(get, d, f.unit) == (f.val, After(get, d, FieldSyms(f)))
  {
    match f.unit {
      case OneBit(c) =>
      case Number(t, n) => ReadTreeNumber(get, d, t, f.val, n);
      case MatchedByte(t, m) =>
        SmallPowers();
        ReadMatchedByte(get, d, t, f.val, m, UnitBits(f.unit));
      case Fixed(n) =>
        ReadDirectNumber(get, d, f.val, n);
        RemainderIs(f.val, Pow2(n), 0, f.val);
    }
  }

  /** Where the symbols of fields decode, the fields are read back. */
  lemma {:induction false} DecodesYields(get: Reader, d: Dec, fs: seq<Field>)
    requires AllFit(fs) && Decodes(get, d, AllSyms(fs))
    ensures Yields(FieldsOf(get), d, fs)
    ensures Past(FieldsOf(get), d, fs) == After(get, d, AllSyms(fs))
    decreases |fs|
  {
    if fs != [] {
      DecodesAppend(get, d, FieldSyms(fs[0]), AllSyms(fs[1..]));
      ReadField(get, d, fs[0]);
      DecodesYields(get, After(get, d, FieldSyms(fs[0])), fs[1..]);
    }
  }
}
