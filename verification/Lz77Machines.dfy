/** The two LZ77 decoders as they run: registers, and a memory that output is copied in. */
module Lz77Machines {
  import opened Bytes
  import opened Bits
  import opened Copying
  import opened Lz77
  import opened Lz77Bits
  import opened Lz77Buffer

  /** Appends a byte to what is in memory. */
  lemma AppendedByte(before: seq<byte>, after: seq<byte>, n: nat, b: byte)
    requires n < |before| == |after| && after == before[n := b]
    ensures after[..n + 1] == before[..n] + [b]
  {
  }

  /** Level 2: state d, registers 1 and 2, and size b of the output in memory. */
  class ByteMachine {
    const minMatch: nat
    const mem: array<byte>
    var d: nat
    var r1: nat
    var r2: nat
    var b: nat

    ghost predicate Valid()
      reads this
    {
      b <= mem.Length
    }

    ghost function State(): S2
      requires Valid()
      reads this, mem
    {
      S2(d, r1, r2, mem[..b])
    }

    constructor (minMatch: nat, mem: array<byte>)
      ensures Valid() && State() == S2(0, 0, 0, []) && this.minMatch == minMatch && this.mem == mem
    {
      this.minMatch := minMatch;
      this.mem := mem;
      d, r1, r2, b := 0, 0, 0, 0;
    }

    /** Takes one byte; tells whether the copy, if there was one, came out of the output. */
    method Feed(c: byte) returns (ok: bool)
      requires Valid()
      requires var n := Next2(State(), c, minMatch); n.Some? ==> |n.value.out| <= mem.Length
      modifies this, mem
      ensures Valid()
      ensures match Next2(old(State()), c, minMatch)
              case Some(s) => ok && State() == s
              case None => !ok
    {
      ok := true;
      if d == 0 {
        d := c / 64 + 1;
        if d == 1 {
          r1, r2 := d + c, 0;
        } else {
          d := d + 1;
          r1, r2 := c % 64 + minMatch, 0;
        }
      } else if d == 1 {
        PutByte(c);
        r1 := if r1 == 0 then TWO32 - 1 else r1 - 1;
        if r1 == 0 {
          d := 0;
        }
      } else if d > 2 {
        r2 := r2 * 256 % TWO32 + c;
        d := d - 1;
      } else {
        var off := r2 * 256 % TWO32 + c + 1;
        if off > b {
          return false;
        }
        Copy(off);
        d := 0;
      }
    }

    method PutByte(c: byte)
      requires Valid() && b < mem.Length
      modifies this`b, mem
      ensures Valid() && b == old(b) + 1 && mem[..b] == old(mem[..b]) + [c]
    {
      ghost var before := mem[..];
      mem[b] := c;
      AppendedByte(before, mem[..], b, c);
      b := b + 1;
    }

    method Copy(off: nat)
      requires Valid() && 1 <= off <= b && b + r1 <= mem.Length
      modifies this`b, mem
      ensures Valid() && mem[..b] == CopyBack(old(mem[..b]), off, r1)
    {
      if r1 > 0 {
        var last := CopyWithin(mem, b, off, r1);
      }
      b := b + r1;
    }
  }

  /** Level 1: registers 1 to 5, and the bits c that have been read but not used, n of them. */
  class BitMachine {
    const rb: nat
    const mem: array<byte>
    var state: nat
    var len: nat
    var m: nat
    var ptr: nat
    var r: nat
    var c: nat
    var n: nat

    ghost predicate Valid()
      reads this
    {
      ptr <= mem.Length && c < Pow2(n)
    }

    ghost function State(): S1
      requires Valid()
      reads this, mem
    {
      S1(state, len, m, r, LowFirst(c, n), mem[..ptr])
    }

    constructor (rb: nat, mem: array<byte>)
      ensures Valid() && State() == S1(0, 0, 0, 0, [], []) && this.rb == rb && this.mem == mem
    {
      this.rb := rb;
      this.mem := mem;
      state, len, m, ptr, r, c, n := 0, 0, 0, 0, 0, 0, 0;
    }

    /** The low k bits, and what is left without them. */
    static lemma LowBits(c: nat, n: nat, k: nat)
      requires c < Pow2(n) && k <= n
      ensures Number(LowFirst(c, n)[..k]) == c % Pow2(k) && LowFirst(c, n)[k..] == LowFirst(Shr(c, k), n - k)
      ensures Shr(c, k) < Pow2(n - k)
    {
      LowFirstSplit(c, k, n - k);
      NumberOfLowFirst(c, k);
      ShrIsDiv(c, k);
      Pow2Add(k, n - k);
      QuotientBelow(c, Pow2(k), Pow2(n - k));
    }

    static lemma QuotientBelow(c: nat, p: nat, q: nat)
      requires p > 0 && c < p * q
      ensures c / p < q
    {
      if q <= c / p {
        TimesMore(q, c / p, p);
        assert false;
      }
    }

    static lemma TimesMore(a: nat, b: nat, p: nat)
      requires a <= b
      ensures p * a <= b * p
    {
      assert (b - a) * p >= 0;
    }

    /** Takes the low k bits away. */
    method Drop(k: nat)
      requires Valid() && k <= n
      modifies this`c, this`n
      ensures Valid() && n == old(n) - k && c == Shr(old(c), k)
      ensures LowFirst(c, n) == LowFirst(old(c), old(n))[k..]
    {
      LowBits(c, n, k);
      c := Shr(c, k);
      n := n - k;
    }

    method Append(b: byte)
      requires Valid()
      modifies this`c, this`n
      ensures Valid() && State() == old(State().(bits := State().bits + LowFirst(b, 8)))
    {
      LowFirstJoin(c, b, n, 8);
      SmallPowers();
      JoinBelow(c, b, n, 8);
      c := c + Shl(b, n);
      n := n + 8;
    }

    method BeginCode()
      requires Valid() && (state == 0 ==> n >= 5)
      modifies this`state, this`len, this`m, this`c, this`n
      ensures Valid() && State() == NewCode(old(State()))
    {
      if state == 0 {
        ghost var bits := LowFirst(c, n);
        LowBits(c, n, 2);
        SmallPowers();
        var mm := c % 4;
        if mm > 0 {
          Drop(2);
          LowBits(c, n, 3);
          assert bits[2..][..3] == bits[2..5] && bits[2..][3..] == bits[5..];
          m := (mm - 1) * 8 + c % 8;
          Drop(3);
          state, len := 1, 1;
        } else {
          Drop(2);
          state, len := 3, 1;
        }
      }
    }

    static lemma FirstBit(c: nat, n: nat)
      requires c < Pow2(n) && n >= 1
      ensures LowFirst(c, n)[0] == c % 2
    {
    }

    method ReadMatchLength()
      requires Valid()
      modifies this`state, this`len, this`c, this`n
      ensures Valid() && State() == MatchLength(old(State()), rb)
    {
      while state == 1 && n > 2
        invariant Valid() && MatchLength(State(), rb) == MatchLength(old(State()), rb)
        decreases n, if state == 1 then 1 else 0
      {
        FirstBit(c, n);
        if c % 2 == 1 {
          ReadLengthBit();
        } else {
          ReadLengthEnd();
        }
      }
    }

    /** A bit that says there is another, and the other. */
    method ReadLengthBit()
      requires Valid() && n > 2
      modifies this`len, this`c, this`n
      ensures Valid() && n == old(n) - 2
      ensures var s := old(State()); State() == s.(len := 2 * s.len + s.bits[1], bits := s.bits[2..])
    {
      ghost var s := State();
      Drop(1);
      FirstBit(c, n);
      len := 2 * len + c % 2;
      Drop(1);
      assert s.bits[1..][1..] == s.bits[2..];
    }

    /** The bit that says there is no other, and the two lowest bits. */
    method ReadLengthEnd()
      requires Valid() && n > 2
      modifies this`state, this`len, this`c, this`n
      ensures Valid() && n == old(n) - 3
      ensures var s := old(State());
              State() == s.(state := if rb > 0 then 5 else 2, len := 4 * s.len + Number(s.bits[1..3]), bits := s.bits[3..])
    {
      ghost var s := State();
      Drop(1);
      LowBits(c, n, 2);
      SmallPowers();
      assert s.bits[1..][..2] == s.bits[1..3] && s.bits[1..][2..] == s.bits[3..];
      len := 4 * len + c % 4;
      Drop(2);
      state := if rb > 0 then 5 else 2;
    }

    method ReadLowOffset()
      requires Valid()
      modifies this`state, this`r, this`c, this`n
      ensures Valid() && State() == LowOffset(old(State()), rb)
    {
      if state == 5 && n >= rb {
        LowBits(c, n, rb);
        r := c % Pow2(rb);
        Drop(rb);
        state := 2;
      }
    }

    /** Copies the match when its offset is known. */
    method ReadAndCopy() returns (ok: bool)
      requires Valid()
      requires var s := CopyMatch(State(), rb); s.Some? ==> |s.value.out| <= mem.Length
      modifies this`state, this`ptr, this`c, this`n, mem
      ensures Valid()
      ensures match CopyMatch(old(State()), rb)
              case Some(s) => ok && State() == s
              case None => !ok
    {
      ok := true;
      if state == 2 && n >= m {
        LowBits(c, n, m);
        var d := c % Pow2(m) + Pow2(m);
        var off := if rb > 0 then d * Pow2(rb) + r - (Pow2(rb) - 1) else d;
        if off < 1 || off > ptr {
          return false;
        }
        if len > 0 {
          var last := CopyWithin(mem, ptr, off, len);
        }
        ptr := ptr + len;
        Drop(m);
        state := 0;
      }
    }

    method ReadLiteralLength()
      requires Valid()
      modifies this`state, this`len, this`c, this`n
      ensures Valid() && State() == LiteralLength(old(State()))
    {
      while state == 3 && n > 1
        invariant Valid() && LiteralLength(State()) == LiteralLength(old(State()))
        decreases n
      {
        ghost var s := State();
        FirstBit(c, n);
        if c % 2 == 1 {
          Drop(1);
          FirstBit(c, n);
          len := 2 * len + c % 2;
          Drop(1);
          assert s.bits[1..][1..] == s.bits[2..];
        } else {
          Drop(1);
          state := 4;
        }
      }
    }

    method TakeByte() returns (b: byte)
      requires Valid() && n >= 8
      modifies this`c, this`n
      ensures Valid() && b == Number(old(State()).bits[..8]) && State() == old(State()).(bits := old(State()).bits[8..])
    {
      LowBits(c, n, 8);
      SmallPowers();
      b := c % 256;
      Drop(8);
    }

    method StoreByte(b: byte)
      requires Valid() && ptr < mem.Length
      modifies this`ptr, mem
      ensures Valid() && State() == old(State()).(out := old(State()).out + [b])
    {
      ghost var before := mem[..];
      mem[ptr] := b;
      AppendedByte(before, mem[..], ptr, b);
      ptr := ptr + 1;
    }

    method ReadLiteral()
      requires Valid() && (state == 4 && n >= 8 ==> ptr < mem.Length)
      modifies this`state, this`len, this`ptr, this`c, this`n, mem
      ensures Valid() && State() == OneLiteral(old(State()))
    {
      if state == 4 && n > 7 {
        var b := TakeByte();
        StoreByte(b);
        len := if len == 0 then TWO32 - 1 else len - 1;
        if len == 0 {
          state := 0;
        }
      }
    }

    /** The output after a byte fits in memory. */
    ghost predicate Room(b: byte)
      requires Valid()
      reads this, mem
    {
      var n := Next1(State(), b, rb);
      n.Some? ==> |n.value.out| <= mem.Length
    }

    /** Takes one byte through all the phases. */
    method Feed(b: byte) returns (ok: bool)
      requires Valid() && Room(b)
      modifies this, mem
      ensures Valid()
      ensures match Next1(old(State()), b, rb)
              case Some(s) => ok && State() == s
              case None => !ok
    {
      ghost var s0 := State();
      Append(b);
      BeginCode();
      ReadMatchLength();
      ReadLowOffset();
      ghost var s1 := State();
      OutputGrows(s1, rb);
      ok := ReadAndCopy();
      if ok {
        ReadLiteralLength();
        ReadLiteral();
      }
    }

    /** The phases behind the copy only add to the output. */
    static lemma OutputGrows(s: S1, rb: nat)
      ensures
        match CopyMatch(s, rb)
        case None => true
        case Some(t) =>
          var v := LiteralLength(t);
          v.out == t.out && |OneLiteral(v).out| == |t.out| + if v.state == 4 && |v.bits| >= 8 then 1 else 0
    {
      match CopyMatch(s, rb)
      case None =>
      case Some(t) => LiteralLengthKeeps(t);
    }

    static lemma {:induction false} LiteralLengthKeeps(s: S1)
      ensures LiteralLength(s).out == s.out
      decreases |s.bits|
    {
      if s.state == 3 && |s.bits| >= 2 && s.bits[0] == 1 {
        LiteralLengthKeeps(s.(len := 2 * s.len + s.bits[1], bits := s.bits[2..]));
      }
    }
  }
}
