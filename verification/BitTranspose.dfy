/** Turning 8 by 8 bits packed in a 64-bit word, by three masked swaps. */
module BitTranspose {
  type Word = bv64
  type Octet = bv8

  function Trans8x8(x0: Word): Word {
    var t0 := (x0 ^ (x0 >> 7)) & 0x00AA00AA00AA00AA;
    var x1 := x0 ^ t0 ^ (t0 << 7);
    var t1 := (x1 ^ (x1 >> 14)) & 0x0000CCCC0000CCCC;
    var x2 := x1 ^ t1 ^ (t1 << 14);
    var t2 := (x2 ^ (x2 >> 28)) & 0x00000000F0F0F0F0;
    x2 ^ t2 ^ (t2 << 28)
  }

  /** Bit k of a byte. */
  function Bit(b: Octet, k: nat): bool
    requires k < 8
  {
    match k
    case 0 => b & 0x01 != 0
    case 1 => b & 0x02 != 0
    case 2 => b & 0x04 != 0
    case 3 => b & 0x08 != 0
    case 4 => b & 0x10 != 0
    case 5 => b & 0x20 != 0
    case 6 => b & 0x40 != 0
    case _ => b & 0x80 != 0
  }

  /** Byte r of a word, the lowest first. */
  function ByteOf(x: Word, r: nat): Octet
    requires r < 8
  {
    match r
    case 0 => (x & 0xFF) as Octet
    case 1 => ((x >> 8) & 0xFF) as Octet
    case 2 => ((x >> 16) & 0xFF) as Octet
    case 3 => ((x >> 24) & 0xFF) as Octet
    case 4 => ((x >> 32) & 0xFF) as Octet
    case 5 => ((x >> 40) & 0xFF) as Octet
    case 6 => ((x >> 48) & 0xFF) as Octet
    case _ => ((x >> 56) & 0xFF) as Octet
  }

  /** Eight bytes as they lie in memory. */
  function WordOf(s: seq<Octet>): Word
    requires |s| == 8
  {
    (s[0] as Word) | ((s[1] as Word) << 8) | ((s[2] as Word) << 16) | ((s[3] as Word) << 24)
    | ((s[4] as Word) << 32) | ((s[5] as Word) << 40) | ((s[6] as Word) << 48) | ((s[7] as Word) << 56)
  }

  lemma WordBytes(s: seq<Octet>)
    requires |s| == 8
    ensures forall r :: 0 <= r < 8 ==> ByteOf(WordOf(s), r) == s[r]
  {
    var x := WordOf(s);
    assert ByteOf(x, 0) == s[0];
    assert ByteOf(x, 1) == s[1];
    assert ByteOf(x, 2) == s[2];
    assert ByteOf(x, 3) == s[3];
    assert ByteOf(x, 4) == s[4];
    assert ByteOf(x, 5) == s[5];
    assert ByteOf(x, 6) == s[6];
    assert ByteOf(x, 7) == s[7];
  }

  /** Row r of the turned bits is column r. */
  lemma TurnsBits(x: Word, r: nat, k: nat)
    requires r < 8 && k < 8
    ensures Bit(ByteOf(Trans8x8(x), r), k) == Bit(ByteOf(x, k), r)
  {
    match r {
      case 0 =>
        match k { case 0 => case 1 => case 2 => case 3 => case 4 => case 5 => case 6 => case _ => }
      case 1 =>
        match k { case 0 => case 1 => case 2 => case 3 => case 4 => case 5 => case 6 => case _ => }
      case 2 =>
        match k { case 0 => case 1 => case 2 => case 3 => case 4 => case 5 => case 6 => case _ => }
      case 3 =>
        match k { case 0 => case 1 => case 2 => case 3 => case 4 => case 5 => case 6 => case _ => }
      case 4 =>
        match k { case 0 => case 1 => case 2 => case 3 => case 4 => case 5 => case 6 => case _ => }
      case 5 =>
        match k { case 0 => case 1 => case 2 => case 3 => case 4 => case 5 => case 6 => case _ => }
      case 6 =>
        match k { case 0 => case 1 => case 2 => case 3 => case 4 => case 5 => case 6 => case _ => }
      case _ =>
        match k { case 0 => case 1 => case 2 => case 3 => case 4 => case 5 => case 6 => case _ => }
    }
  }

  lemma SameBits(a: Octet, b: Octet)
    requires forall k :: 0 <= k < 8 ==> Bit(a, k) == Bit(b, k)
    ensures a == b
  {
    assert Bit(a, 0) == Bit(b, 0) && Bit(a, 1) == Bit(b, 1) && Bit(a, 2) == Bit(b, 2) && Bit(a, 3) == Bit(b, 3);
    assert Bit(a, 4) == Bit(b, 4) && Bit(a, 5) == Bit(b, 5) && Bit(a, 6) == Bit(b, 6) && Bit(a, 7) == Bit(b, 7);
  }
}
