/** The two programs that undo the transform and then the filter for addresses. */
module BwtFiltered {
  import opened Bytes
  import opened Bwt
  import opened BwtMachine
  import opened E8e9

  /** Following the links, with the bytes collected in memory, where the filter is undone. */
  method TraverseInto(col: seq<byte>, idx: nat, h: array<nat>, m: array<byte>, ghost s: seq<byte>, ghost sa: seq<nat>)
    returns (out: seq<byte>)
    requires Followable(col, idx, h[..], true, s, sa) && |s| <= m.Length
    modifies m
    ensures out == Unfiltered(s)
  {
    var b := 0;
    var d: nat := idx;
    while d != 0
      invariant d <= |s| && b <= |s| && Pos(sa, d) == b && m[..b] == s[..b]
      decreases |s| - b
    {
      d := h[d] / 256;
      m[b] := h[d] % 256;
      b := b + 1;
    }
    assert m[..b] == s;
    out := Deliver(m, b);
  }

  /** The newest byte at the top of the register r4; the oldest leaves by way of r5. */
  method Take(r4: nat, a: byte, c: nat, out: seq<byte>, ghost x: seq<byte>) returns (next: nat, more: seq<byte>)
    requires c == |x| && Held(x, r4, out)
    ensures Held(x + [a], next, more)
  {
    if c >= 4 {
      HeldMore(x, r4, out, a);
    } else {
      HeldFewer(x, r4, out, a);
    }
    TopByte(x, r4, out, a);
    var r5 := r4;
    next := r4 / 256 + a * TWO24;
    if c > 3 && Marked(r5 % 256, next / TWO24) {
      next := (next - c + 4) % TWO32 * 256 % TWO32 / 256 + next / TWO24 * TWO24;
    }
    more := if c > 3 then out + [r5 % 256] else out;
  }

  lemma TopByte(x: seq<byte>, b: nat, out: seq<byte>, a: byte)
    requires Held(x, b, out)
    ensures (b / 256 + a * TWO24) / TWO24 == a
  {
    var p := Padded(Up(x, Places(|x|))[Places(|x|)..]);
    ByteLeaves(p, a);
  }

  /** Following the links, with the last four bytes in a register, where the filter is undone. */
  method TraverseStreaming(col: seq<byte>, idx: nat, h: array<nat>, ghost s: seq<byte>, ghost sa: seq<nat>)
    returns (out: seq<byte>)
    requires Followable(col, idx, h[..], false, s, sa)
    ensures out == Unfiltered(s)
  {
    EmptyHeld();
    out := [];
    var r4, c := 0, 0;
    var d: nat := idx;
    while d != 0
      invariant d <= |s| && 0 <= c <= |s| && 0 <= r4 && Pos(sa, d) == c && Held(s[..c], r4, out)
      decreases |s| - c
    {
      d := h[d];
      r4, out := Take(r4, col[d], c, out, s[..c]);
      NextPrefix(s, c);
      c := c + 1;
    }
    assert s[..c] == s;
    PendingIs(s, r4, out);
    var last := PutPending(r4, c, Padded(Unfiltered(s)[Places(c)..]));
    out := out + last;
  }

  lemma NextPrefix(s: seq<byte>, c: nat)
    requires c < |s|
    ensures s[..c + 1] == s[..c] + [s[c]]
  {
  }

  lemma PendingIs(x: seq<byte>, r4: nat, out: seq<byte>)
    requires Held(x, r4, out)
    ensures
      var p := Padded(Unfiltered(x)[Places(|x|)..]);
      r4 == Register(p) && out + p[4 - Least(|x|, 4)..] == Unfiltered(x)
  {
    var u, k := Unfiltered(x), Places(|x|);
    assert Padded(u[k..])[4 - |u[k..]|..] == u[k..];
  }

  /** Up to four bytes that are still in the register. */
  method PutPending(r4: nat, c: nat, ghost p: seq<byte>) returns (last: seq<byte>)
    requires |p| == 4 && r4 == Register(p)
    ensures last == p[4 - Least(c, 4)..]
  {
    last := [];
    var b, k := r4, 4;
    ghost var m := Least(c, 4);
    while k > 0
      invariant 0 <= k <= 4 && b == Register(p[4 - k..]) && last == if k < m then p[4 - m..4 - k] else []
    {
      FirstOut(p[4 - k..]);
      DropNext(p, 4 - k);
      k := k - 1;
      if c > k {
        last := last + [b % 256];
      }
      b := b / 256;
    }
  }

  lemma DropNext(p: seq<byte>, k: nat)
    requires k < |p|
    ensures p[k..][0] == p[k] && p[k..][1..] == p[k + 1..]
  {
  }

  /** The program for blocks of up to 16 MB, and the one for all. */
  method RestoreFiltered(t: seq<byte>, h: array<nat>, m: array<byte>, merged: bool, ghost s: seq<byte>,
                         ghost sa: seq<nat>)
    returns (out: seq<byte>)
    requires Sorts(s, sa) && t == Transformed(s, sa) && |s| + 257 <= h.Length && |s| <= m.Length
    requires |s| < if merged then TWO24 else TWO32
    requires CountsZero(h)
    modifies h, m
    ensures out == Unfiltered(s)
  {
    var col, idx := Prepare(t, h, merged, s, sa);
    if merged {
      out := TraverseInto(col, idx, h, m, s, sa);
    } else {
      out := TraverseStreaming(col, idx, h, s, sa);
    }
  }

  /** Filtered and transformed, put out in pieces of a given size, and restored: what came in. */
  method ThereAndBack(x: seq<byte>, h: array<nat>, m: array<byte>, merged: bool, piece: nat, sa: seq<nat>)
    returns (out: seq<byte>)
    requires Sorts(Filtered(x), sa) && |x| + 257 <= h.Length && |x| <= m.Length && |x| < if merged then TWO24 else TWO32
    requires CountsZero(h) && piece > 0
    modifies h, m
    ensures out == x
  {
    var s := FilteredCopy(x);
    FilterInverse(x);
    var source := new Source(s, sa);
    var t := [];
    while source.i < |s| + 5
      invariant fresh(source) && source.Valid() && source.s == s && source.sa == sa && source.i <= |s| + 5
      invariant t == Transformed(s, sa)[..source.i] && CountsZero(h)
      decreases |s| + 5 - source.i
    {
      var more := source.Fill(piece);
      t := t + more;
    }
    out := RestoreFiltered(t, h, m, merged, s, sa);
  }
}
