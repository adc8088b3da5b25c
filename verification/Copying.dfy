/** Copying bytes from earlier output, one by one, as Lempel-Ziv decoders do. */
module Copying {
  import opened Bytes

  /** Byte by byte, so that a copy may read bytes it has just written. */
  function CopyBack(out: seq<byte>, dist: nat, len: nat): (r: seq<byte>)
    requires 1 <= dist <= |out|
    ensures |r| == |out| + len
    decreases len
  {
    if len == 0 then out else CopyBack(out + [out[|out| - dist]], dist, len - 1)
  }

  /** len bytes of src at pos repeat those dist before. */
  predicate Repeats(src: seq<byte>, pos: nat, dist: nat, len: nat) {
    && pos + len <= |src|
    && 1 <= dist <= pos
    && forall j: nat :: pos <= j < pos + len ==> Agree(src, j, dist)
  }

  /** The byte is that of dist before. */
  predicate Agree(src: seq<byte>, j: nat, dist: nat) { dist <= j < |src| && src[j] == src[j - dist] }

  lemma RepeatsExtended(src: seq<byte>, more: seq<byte>, pos: nat, dist: nat, len: nat)
    requires Repeats(src, pos, dist, len) && src <= more
    ensures Repeats(more, pos, dist, len)
  {
    forall j: nat | pos <= j < pos + len
      ensures Agree(more, j, dist)
    {
      assert Agree(src, j, dist);
    }
  }

  lemma {:induction false} CopyBackOfRepeat(src: seq<byte>, pos: nat, dist: nat, len: nat)
    requires Repeats(src, pos, dist, len)
    ensures CopyBack(src[..pos], dist, len) == src[..pos + len]
    decreases len
  {
    if len > 0 {
      assert Agree(src, pos, dist);
      assert src[..pos] + [src[..pos][pos - dist]] == src[..pos + 1];
      CopyBackOfRepeat(src, pos + 1, dist, len - 1);
    }
  }

  lemma {:induction false} CopyBackRepeats(out: seq<byte>, dist: nat, len: nat)
    requires 1 <= dist <= |out|
    ensures out <= CopyBack(out, dist, len) && Repeats(CopyBack(out, dist, len), |out|, dist, len)
    decreases len
  {
    if len > 0 {
      var next := out + [out[|out| - dist]];
      CopyBackRepeats(next, dist, len - 1);
      var r := CopyBack(out, dist, len);
      assert r[|out|] == next[|out|] && r[|out| - dist] == next[|out| - dist];
    }
  }

  /** Copies byte by byte, so that the source may run into the bytes just written. */
  method CopyWithin(dst: array<byte>, pos: nat, dist: nat, len: nat) returns (lastByte: byte)
    requires 1 <= dist <= pos && pos + len <= dst.Length && len > 0
    modifies dst
    ensures dst[..pos + len] == CopyBack(old(dst[..pos]), dist, len)
    ensures lastByte == dst[pos + len - 1]
  {
    lastByte := 0;
    var at, left := pos, len;
    while left > 0
      invariant 0 <= left <= len && at == pos + len - left
      invariant left < len ==> lastByte == dst[at - 1]
      invariant CopyBack(dst[..at], dist, left) == CopyBack(old(dst[..pos]), dist, len)
    {
      ghost var before := dst[..at];
      lastByte := dst[at - dist];
      dst[at] := lastByte;
      at := at + 1;
      left := left - 1;
      assert dst[..at] == before + [before[|before| - dist]];
    }
  }
}
