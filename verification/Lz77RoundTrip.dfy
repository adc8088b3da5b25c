/** The LZ77 encoder and its two decoders run one behind the other. */
module Lz77RoundTrip {
  import opened Bytes
  import opened Lz77
  import opened Lz77Bits
  import opened Lz77Search
  import opened Lz77Buffer
  import opened Lz77Machines
  import E8e9

  /** The encoder asked for more until the input is at its end. */
  method Drain(b: LzBuffer)
    requires b.Valid() && b.At(0) && End(0, b.ts) == b.i
    modifies b
    ensures b.Finished()
  {
    b.Fill();
    while b.i < |b.src|
      invariant b.i <= |b.src|
      invariant b.i < |b.src| ==> b.Valid() && b.At(0) && End(0, b.ts) == b.i
      invariant b.i == |b.src| ==> b.Finished()
      decreases |b.src| - b.i
    {
      b.Fill();
    }
  }

  // ---------------------------------------------------------------- level 2

  /** Output is never taken back. */
  lemma {:induction false} Output2Grows(s: S2, input: seq<byte>, m: nat)
    requires Run2(s, input, m).Some?
    ensures |s.out| <= |Run2(s, input, m).value.out|
    decreases |input|
  {
    if input != [] {
      Output2Grows(Next2(s, input[0], m).value, input[1..], m);
    }
  }

  method FeedBytes(d: ByteMachine, input: seq<byte>)
    requires d.Valid() && Run2(d.State(), input, d.minMatch).Some?
    requires |Run2(d.State(), input, d.minMatch).value.out| <= d.mem.Length
    modifies d, d.mem
    ensures d.Valid() && d.State() == Run2(old(d.State()), input, d.minMatch).value
  {
    ghost var last := Run2(d.State(), input, d.minMatch);
    var k := 0;
    assert input[0..] == input;
    while k < |input|
      invariant 0 <= k <= |input| && d.Valid() && Run2(d.State(), input[k..], d.minMatch) == last
    {
      assert input[k..][1..] == input[k + 1..];
      Output2Grows(Next2(d.State(), input[k], d.minMatch).value, input[k + 1..], d.minMatch);
      var ok := d.Feed(input[k]);
      k := k + 1;
    }
  }

  /** Level 2: whatever matches are found, the decoder's memory ends up holding the input. */
  method ThereAndBack2(src: seq<byte>, st: Settings, mem: array<byte>)
    requires SearchOk(st, |src|) && st.minMatch <= 64 && |src| <= TWO32 && |src| <= mem.Length
    modifies mem
    ensures mem[..|src|] == src
  {
    var b := new LzBuffer(src, 2, 0, st);
    Drain(b);
    FinishedDecodes(b);
    var d := new ByteMachine(st.minMatch, mem);
    FeedBytes(d, b.out);
  }

  // ---------------------------------------------------------------- level 1

  lemma Output1GrowsByOne(s: S1, c: byte, rb: nat)
    requires Next1(s, c, rb).Some?
    ensures |s.out| <= |Next1(s, c, rb).value.out|
  {
    var s1 := NewCode(s.(bits := s.bits + LowFirst(c, 8)));
    MatchLengthKeeps(s1, rb);
    BitMachine.OutputGrows(LowOffset(MatchLength(s1, rb), rb), rb);
  }

  lemma {:induction false} MatchLengthKeeps(s: S1, rb: nat)
    ensures MatchLength(s, rb).out == s.out
    decreases |s.bits|
  {
    if s.state == 1 && |s.bits| >= 3 && s.bits[0] == 1 {
      MatchLengthKeeps(s.(len := 2 * s.len + s.bits[1], bits := s.bits[2..]), rb);
    }
  }

  lemma {:induction false} Output1Grows(s: S1, input: seq<byte>, rb: nat)
    requires Run1(s, input, rb).Some?
    ensures |s.out| <= |Run1(s, input, rb).value.out|
    decreases |input|
  {
    if input != [] {
      Output1GrowsByOne(s, input[0], rb);
      Output1Grows(Next1(s, input[0], rb).value, input[1..], rb);
    }
  }

  method FeedBits(d: BitMachine, input: seq<byte>)
    requires d.Valid() && Run1(d.State(), input, d.rb).Some?
    requires |Run1(d.State(), input, d.rb).value.out| <= d.mem.Length
    modifies d, d.mem
    ensures d.Valid() && d.State() == Run1(old(d.State()), input, d.rb).value
  {
    ghost var last := Run1(d.State(), input, d.rb);
    var k := 0;
    assert input[0..] == input;
    while k < |input|
      invariant 0 <= k <= |input| && d.Valid() && Run1(d.State(), input[k..], d.rb) == last
    {
      assert input[k..][1..] == input[k + 1..];
      Output1Grows(Next1(d.State(), input[k], d.rb).value, input[k + 1..], d.rb);
      var ok := d.Feed(input[k]);
      k := k + 1;
    }
  }

  /** Level 1: the same, for the block size that goes with rb. */
  method ThereAndBack1(src: seq<byte>, rb: nat, st: Settings, mem: array<byte>)
    requires SearchOk(st, |src|) && st.minMatch >= 4 && rb <= 8 && |src| + Pow2(rb) <= Pow2(24 + rb)
    requires |src| <= mem.Length
    modifies mem
    ensures mem[..|src|] == src
  {
    var b := new LzBuffer(src, 1, rb, st);
    Drain(b);
    FinishedDecodes(b);
    var d := new BitMachine(rb, mem);
    FeedBits(d, b.out);
  }

  // ---------------------------------------------------------------- with the filter for addresses in front

  method FilteredThereAndBack1(x: seq<byte>, rb: nat, st: Settings, mem: array<byte>) returns (out: seq<byte>)
    requires SearchOk(st, |x|) && st.minMatch >= 4 && rb <= 8 && |x| + Pow2(rb) <= Pow2(24 + rb)
    requires |x| <= mem.Length
    modifies mem
    ensures out == x
  {
    var s := E8e9.FilteredCopy(x);
    E8e9.FilterInverse(x);
    ThereAndBack1(s, rb, st, mem);
    out := E8e9.Deliver(mem, |x|);
  }

  method FilteredThereAndBack2(x: seq<byte>, st: Settings, mem: array<byte>) returns (out: seq<byte>)
    requires SearchOk(st, |x|) && st.minMatch <= 64 && |x| <= TWO32 && |x| <= mem.Length
    modifies mem
    ensures out == x
  {
    var s := E8e9.FilteredCopy(x);
    E8e9.FilterInverse(x);
    ThereAndBack2(s, st, mem);
    out := E8e9.Deliver(mem, |x|);
  }
}
