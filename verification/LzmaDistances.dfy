/** The coding of match distances: slots, fixed-probability middle bits and reversed low bits. */
module LzmaDistances {
  import opened Bytes
  import opened LzmaContexts
  import opened RangeCoder
  import opened Bits
  import opened LzmaFields

  // ---------------------------------------------------------------- bit reversal

  /** Low n bits of bits, shifted into acc one at a time. */
  function ReverseInto(bits: nat, n: nat, acc: nat): nat
    decreases n
  {
    if n == 0 then acc else ReverseInto(bits / 2, n - 1, 2 * acc + bits % 2)
  }

  function Reverse(bits: nat, n: nat): nat { ReverseInto(bits, n, 0) }

  lemma {:induction false} ReverseIntoShifts(bits: nat, n: nat, acc: nat)
    ensures ReverseInto(bits, n, acc) == acc * Pow2(n) + Reverse(bits, n)
    decreases n
  {
    if n > 0 {
      ReverseIntoShifts(bits / 2, n - 1, 2 * acc + bits % 2);
      ReverseIntoShifts(bits / 2, n - 1, bits % 2);
      Regroup(acc, bits % 2, Pow2(n - 1), Reverse(bits / 2, n - 1));
    }
  }

  /** The bit b in position n. */
  function AtBit(b: nat, n: nat): nat { if b == 0 then 0 else Pow2(n) }

  lemma ReverseStep(bits: nat, n: nat)
    requires n > 0
    ensures Reverse(bits, n) == AtBit(bits % 2, n - 1) + Reverse(bits / 2, n - 1)
  {
    ReverseIntoShifts(bits / 2, n - 1, bits % 2);
  }

  lemma {:induction false} ReverseBound(bits: nat, n: nat)
    ensures Reverse(bits, n) < Pow2(n)
    decreases n
  {
    if n > 0 {
      ReverseStep(bits, n);
      ReverseBound(bits / 2, n - 1);
    }
  }

  /** A bit above the others becomes the lowest bit. */
  lemma {:induction false} ReverseHighBit(b: bit, y: nat, n: nat)
    requires y < Pow2(n)
    ensures Reverse(AtBit(b, n) + y, n + 1) == 2 * Reverse(y, n) + b
    decreases n
  {
    var x := AtBit(b, n) + y;
    ReverseStep(x, n + 1);
    if n > 0 {
      assert x == 2 * AtBit(b, n - 1) + y;
      ReverseHighBit(b, y / 2, n - 1);
      ReverseStep(y, n);
    }
  }

  /** Reversing twice gives the number back: encoder and decoder agree on reversed bits. */
  lemma {:induction false} ReverseTwice(x: nat, n: nat)
    requires x < Pow2(n)
    ensures Reverse(Reverse(x, n), n) == x
    decreases n
  {
    if n > 0 {
      ReverseStep(x, n);
      ReverseBound(x / 2, n - 1);
      ReverseHighBit(x % 2, Reverse(x / 2, n - 1), n - 1);
      ReverseTwice(x / 2, n - 1);
    }
  }

  /** The number built from the low bits of bits in reverse order. */
  method BitsReverse(bits: nat, bitCount: nat) returns (rev: nat)
    ensures rev == Reverse(bits, bitCount)
  {
    rev := 0;
    var rest, left := bits, bitCount;
    while left > 0
      invariant left >= 0 && ReverseInto(rest, left, rev) == Reverse(bits, bitCount)
    {
      rev := 2 * rev + rest % 2;
      rest := rest / 2;
      left := left - 1;
    }
  }

  // ---------------------------------------------------------------- slots

  /** Two bits per slot pair: the position of the top bit and the bit below it. */
  function SlotOf(dist: nat): nat {
    if dist < 4 then dist
    else
      CountBitBounds(dist);
      var top := CountBit(dist) - 1;
      2 * top + (if top == 0 then 0 else BitAt(dist, top - 1))
  }

  /** What the decoder starts from: the two top bits, in place. */
  function SlotBase(slot: nat): nat
    requires slot >= 4
  {
    Shl(2 + slot % 2, slot / 2 - 1)
  }

  lemma Pow2Of32()
    ensures Pow2(32) == TWO32 && Pow2(30) == 0x4000_0000
  {
    SmallPowers();
    Pow2Add(8, 8);
    Pow2Add(16, 8);
    Pow2Add(24, 8);
    Pow2Add(24, 6);
  }

  /** The top two bits of a number with top + 1 bits, and what is below them. */
  lemma TopTwoBits(dist: nat, top: nat)
    requires top >= 1 && Pow2(top) <= dist < Pow2(top + 1)
    ensures
      var b: nat := BitAt(dist, top - 1);
      dist == (2 + b) * Pow2(top - 1) + dist % Pow2(top - 1)
  {
    var p := Pow2(top - 1);
    var b: nat := BitAt(dist, top - 1);
    TopBit(dist, top);
    RemainderIs(dist, 2 * p, 1, dist - 2 * p);
    assert (2 + b) * p == 2 * p + b * p;
  }

  lemma TopBitRange(dist: nat)
    requires 4 <= dist < TWO32
    ensures 3 <= CountBit(dist) <= 32
  {
    CountBitBounds(dist);
    Pow2Of32();
    SmallPowers();
    var c := CountBit(dist);
    if c <= 2 { Pow2Monotone(c, 2); }
    if c > 32 { Pow2Monotone(32, c - 1); }
  }

  lemma SlotSplitsDistance(dist: nat)
    requires 4 <= dist < TWO32
    ensures
      var slot := SlotOf(dist);
      && 4 <= slot < 64
      && dist == SlotBase(slot) + dist % Pow2(slot / 2 - 1)
      && (slot >= 14 ==> slot / 2 - 1 >= 6)
      && (slot < 14 ==> 1 <= slot / 2 - 1 <= 5)
  {
    CountBitBounds(dist);
    TopBitRange(dist);
    var top := CountBit(dist) - 1;
    TopTwoBits(dist, top);
    assert SlotOf(dist) / 2 == top && SlotOf(dist) % 2 == BitAt(dist, top - 1);
  }

  // ---------------------------------------------------------------- coding

  function LenClass(len: nat): nat
    requires len >= 2
  {
    if len > 5 then 3 else len - 2
  }

  /** Below the top two bits: fixed-probability bits, then reversed bits from a tree. */
  function FreeBits(slot: nat): nat
    requires slot >= 4
  {
    slot / 2 - 1
  }

  /** From slot 14 on only the four alignment bits come from a tree. */
  function LowBits(slot: nat): nat
    requires slot >= 4
  {
    if slot >= 14 then 4 else FreeBits(slot)
  }

  function LowTable(slot: nat): Table
    requires slot >= 4
  {
    if slot >= 14 then DistAlign else DistSpecial(slot - 4)
  }

  /** The table of the low bits has room for every node, whatever the table sizes of the coder. */
  lemma LowTableHolds(slot: nat, d: Dims)
    requires 4 <= slot < 64
    ensures TableInBounds(LowTable(slot), d) && Pow2(LowBits(slot)) - 1 <= Length(LowTable(slot), d)
  {
    SmallPowers();
    if slot < 14 {
      Pow2Monotone(LowBits(slot), 5);
    }
  }

  /** dist is the distance less one. */
  function MiddleOf(dist: nat, slot: nat): nat
    requires slot >= 4
  {
    dist / Pow2(LowBits(slot)) % Pow2(FreeBits(slot) - LowBits(slot))
  }

  function LowOf(dist: nat, slot: nat): nat
    requires slot >= 4
  {
    dist % Pow2(LowBits(slot))
  }

  function DistTail(dist: nat, slot: nat): seq<Field> {
    if slot < 4 then []
    else
      var low := Field(Number(LowTable(slot), LowBits(slot)), Reverse(LowOf(dist, slot), LowBits(slot)));
      if slot < 14 then [low] else [Field(Fixed(FreeBits(slot) - LowBits(slot)), MiddleOf(dist, slot)), low]
  }

  function DistFields(len: nat, dist: nat): seq<Field>
    requires len >= 2
  {
    [Field(Number(DistSlot(LenClass(len)), 6), SlotOf(dist))] + DistTail(dist, SlotOf(dist))
  }

  function DecDistTail(get: FieldReader, d: Dec, slot: nat): (nat, Dec) {
    if slot < 4 then (slot, d)
    else
      var low := LowBits(slot);
      var (middle, d1) := if slot < 14 then (0, d) else get(d, Fixed(FreeBits(slot) - low));
      var (v, d2) := get(d1, Number(LowTable(slot), low));
      (SlotBase(slot) + Shl(middle, low) + Reverse(v, low), d2)
  }

  function DecDist(get: FieldReader, d: Dec, len: nat): (nat, Dec)
    requires len >= 2
  {
    var (slot, d1) := get(d, Number(DistSlot(LenClass(len)), 6));
    DecDistTail(get, d1, slot)
  }

  /** The bits above the lowest k and the lowest k make up the low n + k bits. */
  lemma MiddleAndLow(dist: nat, n: nat, k: nat)
    ensures dist % Pow2(n + k) == Shl(dist / Pow2(k) % Pow2(n), k) + dist % Pow2(k)
  {
    Pow2Add(n, k);
    RemainderOfProduct(dist, Pow2(n), Pow2(k));
  }

  lemma RemainderOfProduct(x: nat, p: nat, m: nat)
    requires p > 0 && m > 0
    ensures p * m > 0 && x % (p * m) == x / m % p * m + x % m
  {
    var q, r := x / m, x % m;
    var h, mid := q / p, q % p;
    NextMultiple(0, p, m);
    SplitProduct(x, m, p, q, r, h, mid);
    NextMultiple(mid, p, m);
    RemainderIs(x, p * m, h, mid * m + r);
  }

  lemma SplitProduct(x: nat, m: nat, p: nat, q: nat, r: nat, h: nat, mid: nat)
    requires x == m * q + r && q == p * h + mid
    ensures x == h * (p * m) + (mid * m + r)
  {
    assert m * (p * h + mid) == m * (p * h) + mid * m;
    assert m * (p * h) == h * (p * m);
  }

  lemma DistanceSum(dist: nat)
    requires 4 <= dist < TWO32
    ensures
      var slot := SlotOf(dist);
      slot >= 4 && dist == SlotBase(slot) + Shl(MiddleOf(dist, slot), LowBits(slot)) + LowOf(dist, slot)
  {
    SlotSplitsDistance(dist);
    var slot := SlotOf(dist);
    MiddleAndLow(dist, FreeBits(slot) - LowBits(slot), LowBits(slot));
  }

  lemma ReadTailOf(get: FieldReader, d: Dec, dist: nat, slot: nat)
    requires slot >= 4 && dist == SlotBase(slot) + Shl(MiddleOf(dist, slot), LowBits(slot)) + LowOf(dist, slot)
    requires slot < 14 ==> MiddleOf(dist, slot) == 0
    requires Yields(get, d, DistTail(dist, slot))
    ensures DecDistTail(get, d, slot) == (dist, Past(get, d, DistTail(dist, slot)))
  {
    ReverseTwice(LowOf(dist, slot), LowBits(slot));
    if slot < 14 {
      ReadLowTail(get, d, dist, slot);
    } else {
      ReadHighTail(get, d, dist, slot);
    }
  }

  lemma ReadLowTail(get: FieldReader, d: Dec, dist: nat, slot: nat)
    requires 4 <= slot < 14 && dist == SlotBase(slot) + Shl(0, LowBits(slot)) + LowOf(dist, slot)
    requires Reverse(Reverse(LowOf(dist, slot), LowBits(slot)), LowBits(slot)) == LowOf(dist, slot)
    requires Yields(get, d, DistTail(dist, slot))
    ensures DecDistTail(get, d, slot) == (dist, Past(get, d, DistTail(dist, slot)))
  {
    YieldsOne(get, d, Field(Number(LowTable(slot), LowBits(slot)), Reverse(LowOf(dist, slot), LowBits(slot))));
  }

  lemma ReadHighTail(get: FieldReader, d: Dec, dist: nat, slot: nat)
    requires slot >= 14 && dist == SlotBase(slot) + Shl(MiddleOf(dist, slot), LowBits(slot)) + LowOf(dist, slot)
    requires Reverse(Reverse(LowOf(dist, slot), LowBits(slot)), LowBits(slot)) == LowOf(dist, slot)
    requires Yields(get, d, DistTail(dist, slot))
    ensures DecDistTail(get, d, slot) == (dist, Past(get, d, DistTail(dist, slot)))
  {
    var low := LowBits(slot);
    var a := Field(Fixed(FreeBits(slot) - low), MiddleOf(dist, slot));
    var b := Field(Number(LowTable(slot), low), Reverse(LowOf(dist, slot), low));
    var fs := DistTail(dist, slot);
    assert fs == [a, b];
    var d1, d2 := TwoFields(get, d, fs, a, b);
    DecodedTail(get, d, slot, MiddleOf(dist, slot), d1, Reverse(LowOf(dist, slot), low), d2);
  }

  lemma TwoFields(get: FieldReader, d: Dec, fs: seq<Field>, a: Field, b: Field) returns (d1: Dec, d2: Dec)
    requires fs == [a, b] && Yields(get, d, fs)
    ensures get(d, a.unit) == (a.val, d1) && get(d1, b.unit) == (b.val, d2) && d2 == Past(get, d, fs)
  {
    YieldsFirst(get, d, fs, a, [b]);
    d1 := get(d, a.unit).1;
    YieldsOne(get, d1, b);
    d2 := get(d1, b.unit).1;
  }

  lemma DecodedTail(get: FieldReader, d: Dec, slot: nat, middle: nat, d1: Dec, v: nat, d2: Dec)
    requires slot >= 14 && get(d, Fixed(FreeBits(slot) - LowBits(slot))) == (middle, d1)
    requires get(d1, Number(LowTable(slot), LowBits(slot))) == (v, d2)
    ensures DecDistTail(get, d, slot) == (SlotBase(slot) + Shl(middle, LowBits(slot)) + Reverse(v, LowBits(slot)), d2)
  {
  }

  lemma NoMiddle(dist: nat, slot: nat)
    requires 4 <= slot < 14
    ensures MiddleOf(dist, slot) == 0
  {
  }

  lemma ReadDistTail(get: FieldReader, d: Dec, dist: nat)
    requires dist < TWO32 && Yields(get, d, DistTail(dist, SlotOf(dist)))
    ensures DecDistTail(get, d, SlotOf(dist)) == (dist, Past(get, d, DistTail(dist, SlotOf(dist))))
  {
    if dist >= 4 {
      var slot := SlotOf(dist);
      DistanceSum(dist);
      if slot < 14 {
        NoMiddle(dist, slot);
      }
      ReadTailOf(get, d, dist, slot);
    }
  }

  /** Every 32-bit distance is read back, the end mark 2^32 - 1 included. */
  lemma ReadDist(get: FieldReader, d: Dec, len: nat, dist: nat)
    requires len >= 2 && dist < TWO32 && Yields(get, d, DistFields(len, dist))
    ensures DecDist(get, d, len) == (dist, Past(get, d, DistFields(len, dist)))
  {
    var slot := Field(Number(DistSlot(LenClass(len)), 6), SlotOf(dist));
    assert DistFields(len, dist)[1..] == DistTail(dist, SlotOf(dist));
    ReadDistTail(get, get(d, slot.unit).1, dist);
  }

  lemma DistFieldsFit(len: nat, dist: nat)
    requires len >= 2 && dist < TWO32
    ensures AllFit(DistFields(len, dist))
  {
    SmallPowers();
    if dist >= 4 {
      SlotSplitsDistance(dist);
      var slot := SlotOf(dist);
      ReverseBound(LowOf(dist, slot), LowBits(slot));
    }
  }

  lemma SlotBaseFits(slot: nat)
    requires 4 <= slot < 64
    ensures SlotBase(slot) + Pow2(FreeBits(slot)) <= TWO32
  {
    var n := FreeBits(slot);
    Pow2Of32();
    Pow2Monotone(n, 30);
    if slot % 2 == 0 {
      assert SlotBase(slot) == 2 * Pow2(n);
    } else {
      assert SlotBase(slot) == 3 * Pow2(n);
    }
  }

  lemma PartsFit(slot: nat, middle: nat, low: nat)
    requires 4 <= slot < 64 && middle < Pow2(FreeBits(slot) - LowBits(slot)) && low < Pow2(LowBits(slot))
    ensures SlotBase(slot) + Shl(middle, LowBits(slot)) + low < TWO32
  {
    SlotBaseFits(slot);
    Pow2Add(FreeBits(slot) - LowBits(slot), LowBits(slot));
    NextMultiple(middle, Pow2(FreeBits(slot) - LowBits(slot)), Pow2(LowBits(slot)));
  }

  // ---------------------------------------------------------------- every decoded distance is canonical

  lemma CountBitIs(val: nat, c: nat)
    requires c > 0 && Pow2(c - 1) <= val < Pow2(c)
    ensures CountBit(val) == c
  {
    CountBitBounds(val);
    var k := CountBit(val);
    if k < c {
      Pow2Monotone(k, c - 1);
    } else if k > c {
      Pow2Monotone(c, k - 1);
    }
  }

  /** The two top bits, 1 and b, in front of n others. */
  lemma TopTwoOf(dist: nat, n: nat, p: nat, b: bit, x: nat)
    requires p == Pow2(n) && n >= 1 && x < p && dist == (2 + b) * p + x
    ensures CountBit(dist) == n + 2 && BitAt(dist, n) == b && dist >= 4
  {
    assert p == 2 * Pow2(n - 1);
    assert (2 + b) * p == if b == 0 then 2 * p else 3 * p;
    assert Pow2(n + 1) == 2 * p && Pow2(n + 2) == 4 * p;
    CountBitIs(dist, n + 2);
    ShrIsDiv(dist, n);
    RemainderIs(dist, p, 2 + b, x);
  }

  lemma SlotOfBase(slot: nat, x: nat)
    requires slot >= 4 && x < Pow2(FreeBits(slot))
    ensures SlotOf(SlotBase(slot) + x) == slot
  {
    TopTwoOf(SlotBase(slot) + x, FreeBits(slot), Pow2(FreeBits(slot)), slot % 2, x);
  }

  lemma QuotientOfSum(m: nat, q: nat, r: nat, p: nat, top: nat, middle: nat)
    requires m > 0 && r < m && q == top * p + middle && middle < p
    ensures (q * m + r) / m % p == middle && (q * m + r) % m == r
  {
    RemainderIs(q * m + r, m, q, r);
    RemainderIs(q, p, top, middle);
  }

  /** Quotients and remainders of the distance as it is put together. */
  lemma PartsOfProduct(top: nat, n: nat, k: nat, middle: nat, low: nat, dist: nat)
    requires middle < Pow2(n) && low < Pow2(k) && dist == top * Pow2(n + k) + (middle * Pow2(k) + low)
    ensures middle * Pow2(k) + low < Pow2(n + k)
    ensures dist / Pow2(k) % Pow2(n) == middle && dist % Pow2(k) == low
  {
    var m, p := Pow2(k), Pow2(n);
    Pow2Add(n, k);
    NextMultiple(middle, p, m);
    SumOfProducts(top, p, m, middle);
    QuotientOfSum(m, top * p + middle, low, p, top, middle);
  }

  /** The slot, middle and low bits that the decoder reads are the ones the encoder would write. */
  lemma PartsOfSum(slot: nat, middle: nat, low: nat)
    requires slot >= 4 && middle < Pow2(FreeBits(slot) - LowBits(slot)) && low < Pow2(LowBits(slot))
    ensures
      var dist := SlotBase(slot) + Shl(middle, LowBits(slot)) + low;
      SlotOf(dist) == slot && MiddleOf(dist, slot) == middle && LowOf(dist, slot) == low
  {
    var k := LowBits(slot);
    PartsOfProduct(2 + slot % 2, FreeBits(slot) - k, k, middle, low, SlotBase(slot) + (Shl(middle, k) + low));
    SlotOfBase(slot, Shl(middle, k) + low);
  }

  lemma SumOfProducts(top: nat, p: nat, m: nat, middle: nat)
    ensures (top * p + middle) * m == top * (p * m) + middle * m
  {
    assert (top * p + middle) * m == top * p * m + middle * m;
    assert top * p * m == top * (p * m);
  }
}
