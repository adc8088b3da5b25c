/** The arithmetic coder in numbers: how an interval is shared, how a byte leaves it, as what a byte is coded. */
module ZpaqRules {
  import opened Bytes
  import opened Bits
  import opened ZpaqCoder
  import opened ZpaqSegments

  // ---------------------------------------------------------------- intervals

  /** A 1 keeps the lower end and as many 65536ths of the width as its probability has, rounded down; a 0 what is left. */
  lemma ShareOfOne(i: Interval, p: Prob)
    requires Open(i)
    ensures
      var one, zero := Pick(i, Sym(1, p)), Pick(i, Sym(0, p));
      && one.low == i.low && Width(one) * 65536 <= Width(i) * p < (Width(one) + 1) * 65536
      && zero.low == one.high + 1 && zero.high == i.high
  {
    var w := i.high - i.low;
    RoundedDown(w * p, w * p / 65536);
  }

  lemma RoundedDown(x: nat, q: nat)
    requires q == x / 65536
    ensures q * 65536 <= x < (q + 1) * 65536
  {
  }

  /** The byte that both ends share goes out in front; a 0 comes in below and a 255 above, and low is never 0. */
  lemma ByteLeaves(i: Interval)
    requires Shape(i) && !Open(i)
    ensures
      var top, r := Leading(i)[0], Shift(i);
      && top == i.low / TWO24 == i.high / TWO24 && Leading(i)[1..] == Leading(r)
      && r.high == (i.high - top * TWO24) * 256 + 255
      && r.low == if i.low == top * TWO24 then 1 else (i.low - top * TWO24) * 256
  {
    var top := i.high / TWO24;
    LowThreeBytes(i.low, top);
    LowThreeBytes(i.high, top);
  }

  lemma LowThreeBytes(x: nat, top: nat)
    requires x / TWO24 == top
    ensures x * 256 % TWO32 == (x - top * TWO24) * 256 && x >= top * TWO24
  {
    RemainderIs(x * 256, TWO32, top, (x - top * TWO24) * 256);
  }

  // ---------------------------------------------------------------- symbols

  lemma {:induction false} BitInNumbers(c: nat, n: nat, k: nat)
    requires k < n
    ensures |BitsOf(c, n)| == n && BitsOf(c, n)[k] == c / Pow2(n - 1 - k) % 2
    decreases n
  {
    ShrIsDiv(c, n - 1);
    if n > 1 {
      BitInNumbers(c, n - 1, if k == 0 then 0 else k - 1);
    }
  }

  lemma {:induction false} SymbolOfBit(predict: Predictor, seen: seq<bit>, c: nat, n: nat, k: nat)
    requires k < n
    ensures |BitSyms(predict, seen, c, n)| == |BitsOf(c, n)| == n
    ensures BitSyms(predict, seen, c, n)[k] == Sym(BitsOf(c, n)[k], 2 * predict(seen + BitsOf(c, n)[..k]) + 1)
    decreases n
  {
    var b := BitAt(c, n - 1);
    BitInNumbers(c, n, k);
    if k == 0 {
      assert seen + [] == seen;
      if n > 1 {
        SymbolOfBit(predict, seen + [b], c, n - 1, 0);
      }
    } else {
      SymbolOfBit(predict, seen + [b], c, n - 1, k - 1);
      assert BitsOf(c, n)[..k] == [b] + BitsOf(c, n - 1)[..k - 1];
      assert seen + [b] + BitsOf(c, n - 1)[..k - 1] == seen + BitsOf(c, n)[..k];
    }
  }

  /** A byte is a sure 0 and its bits from the top, each a 1 with the odd probability that the bits before it lead to. */
  lemma ByteInNumbers(predict: Predictor, seen: seq<bit>, c: byte, k: nat)
    requires k < 8
    ensures |ByteSyms(predict, seen, c)| == 9 && ByteSyms(predict, seen, c)[0] == Sym(0, 0)
    ensures |BitsOf(c, 8)| == 8 && BitsOf(c, 8)[k] == c / Pow2(7 - k) % 2
    ensures ByteSyms(predict, seen, c)[k + 1] == Sym(c / Pow2(7 - k) % 2, 2 * predict(seen + BitsOf(c, 8)[..k]) + 1)
  {
    BitInNumbers(c, 8, k);
    SymbolOfBit(predict, seen, c, 8, k);
  }

  /** A segment is the symbols of its bytes, each with the bits of all bytes before it seen, and a sure 1. */
  lemma {:induction false} SegmentInNumbers(predict: Predictor, i: Interval, seen: seq<bit>, data: seq<byte>)
    requires Open(i)
    ensures
      Segment(predict, i, seen, data)
      == if data == [] then Codes(i, [Sym(1, 0)])
         else
           var first := ByteSyms(predict, seen, data[0]);
           Codes(i, first) + Segment(predict, EndOf(i, first), seen + BitsOf(data[0], 8), data[1..])
  {
    if data == [] {
      assert [] + [END] == [END];
    } else {
      var first, rest := ByteSyms(predict, seen, data[0]), DataSyms(predict, seen + BitsOf(data[0], 8), data[1..]);
      assert first + rest + [END] == first + (rest + [END]);
      CodesAppend(i, first, rest + [END]);
    }
  }
}
