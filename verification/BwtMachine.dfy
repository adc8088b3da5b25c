/** The transform and its inverse as they run: bytes in M, counts and links in one array H. */
module BwtMachine {
  import opened Bytes
  import opened Permutations
  import opened Bwt

  // ---------------------------------------------------------------- the transform

  function IndexBytes(idx: nat): seq<byte> {
    [idx % 256, idx / 256 % 256, idx / 256 / 256 % 256, idx / 256 / 256 / 256 % 256]
  }

  /** Everything the transform gives out. */
  ghost function Transformed(s: seq<byte>, sa: seq<nat>): (t: seq<byte>)
    requires Sorts(s, sa)
    ensures |t| == |s| + 5
  {
    Column(s, sa) + IndexBytes(RowOf(sa, 0))
  }

  /**
   The transform place by place: first the last byte of the string, then what stands in front of each of its suffixes
   in order, 255 in front of the whole string and of the empty one; then the row of the whole string, low byte first.
   */
  lemma TransformedInNumbers(s: seq<byte>, sa: seq<nat>) returns (idx: nat)
    requires Sorts(s, sa)
    ensures idx <= |s| && if s == [] then idx == 0 else idx > 0 && sa[idx - 1] == 0
    ensures
      var t := Transformed(s, sa);
      && t[0] == (if s == [] then 255 else s[|s| - 1])
      && (forall r :: 1 <= r <= |s| && r != idx ==> 1 <= sa[r - 1] <= |s| && t[r] == s[sa[r - 1] - 1])
      && t[idx] == 255
      && t[|s| + 1] as int == idx % 0x100 && t[|s| + 2] as int == idx / 0x100 % 0x100
      && t[|s| + 3] as int == idx / 0x1_0000 % 0x100 && t[|s| + 4] as int == idx / 0x100_0000 % 0x100
  {
    idx := RowOf(sa, 0);
    var t, col, last := Transformed(s, sa), Column(s, sa), IndexBytes(idx);
    RowsInNumbers(s, sa, idx, col);
    assert t == col + last && |col| == |s| + 1;
    LastInNumbers(col, last, idx, t);
  }

  lemma RowsInNumbers(s: seq<byte>, sa: seq<nat>, idx: nat, col: seq<byte>)
    requires Sorts(s, sa) && idx == RowOf(sa, 0) && col == Column(s, sa)
    ensures col[0] == (if s == [] then 255 else s[|s| - 1]) && col[idx] == 255
    ensures forall r :: 1 <= r <= |s| && r != idx ==> 1 <= sa[r - 1] <= |s| && col[r] == s[sa[r - 1] - 1]
  {
    forall r | 1 <= r <= |s| && r != idx
      ensures 1 <= sa[r - 1] <= |s| && col[r] == s[sa[r - 1] - 1]
    {
      OtherRow(sa, r, idx);
      assert col[r] == Before(s, sa, r);
    }
  }

  lemma OtherRow(sa: seq<nat>, r: nat, idx: nat)
    requires IsPerm(sa) && 1 <= r <= |sa| && idx <= |sa| && r != idx && Pos(sa, idx) == 0
    ensures sa[r - 1] > 0
  {
  }

  lemma LastInNumbers(col: seq<byte>, last: seq<byte>, idx: nat, t: seq<byte>)
    requires last == IndexBytes(idx) && t == col + last
    ensures t[|col|] as int == idx % 0x100 && t[|col| + 1] as int == idx / 0x100 % 0x100
    ensures t[|col| + 2] as int == idx / 0x1_0000 % 0x100 && t[|col| + 3] as int == idx / 0x100_0000 % 0x100
  {
    assert idx / 256 / 256 == idx / 0x1_0000 && idx / 256 / 256 / 256 == idx / 0x100_0000;
  }

  /** Gives out the transform in pieces, picking up where the last piece ended. */
  class Source {
    const s: seq<byte>
    const sa: seq<nat>
    var i: nat
    var idx: nat

    ghost predicate Valid()
      reads this
    {
      && Sorts(s, sa) && i <= |s| + 5
      && (if i <= |s| then idx == if RowOf(sa, 0) < i then RowOf(sa, 0) else 0
          else idx == Shifted(RowOf(sa, 0), i - |s| - 1))
    }

    /** idx with its lowest k bytes gone. */
    static function Shifted(idx: nat, k: nat): nat { if k == 0 then idx else Shifted(idx, k - 1) / 256 }

    constructor (s: seq<byte>, sa: seq<nat>)
      requires Sorts(s, sa)
      ensures Valid() && this.s == s && this.sa == sa && i == 0
    {
      this.s := s;
      this.sa := sa;
      i := 0;
      idx := 0;
    }

    method Put() returns (b: byte)
      requires Valid() && i < |s| + 5
      modifies this
      ensures Valid() && i == old(i) + 1 && b == Transformed(s, sa)[old(i)]
    {
      if i == 0 {
        b := if |s| > 0 then s[|s| - 1] else 255;
        assert |s| > 0 ==> RowOf(sa, 0) > 0;
      } else if i > |s| {
        b := idx % 256;
        ghost var at := RowOf(sa, 0);
        ghost var k := i - |s| - 1;
        assert Transformed(s, sa)[i] == IndexBytes(at)[k];
        assert Shifted(at, 0) == at && Shifted(at, 1) == at / 256 && Shifted(at, 2) == at / 256 / 256
            && Shifted(at, 3) == at / 256 / 256 / 256;
        idx := idx / 256;
      } else if sa[i - 1] == 0 {
        PosInjective(sa, i, RowOf(sa, 0));
        idx := i;
        b := 255;
      } else {
        b := s[sa[i - 1] - 1];
      }
      i := i + 1;
    }

    /** As much as there is room for. */
    method Fill(room: nat) returns (out: seq<byte>)
      requires Valid()
      modifies this
      ensures Valid() && i == old(i) + |out| && out == Transformed(s, sa)[old(i)..i]
      ensures |out| == room || i == |s| + 5
    {
      out := [];
      while |out| < room && i < |s| + 5
        invariant Valid() && i == old(i) + |out| && |out| <= room && out == Transformed(s, sa)[old(i)..i]
      {
        ghost var t := Transformed(s, sa);
        SliceOneMore(t, old(i), i);
        var b := Put();
        out := out + [b];
      }
    }
  }

  lemma SliceOneMore(t: seq<byte>, a: nat, b: nat)
    requires a <= b < |t|
    ensures t[a..b] + [t[b]] == t[a..b + 1]
  {
  }

  // ---------------------------------------------------------------- the inverse

  /** H[~k] in an array whose size divides 2^32: the k-th entry from the end. */
  function Top(h: array<nat>, k: nat): nat
    requires k < h.Length
  {
    h.Length - 1 - k
  }

  /** The column fits in front of the 256 counts: this is the block size limit. */
  predicate Room(h: array<nat>, col: seq<byte>) { |col| + 256 <= h.Length }

  /** The memory is fresh where the counts are going to be. */
  ghost predicate CountsZero(h: array<nat>)
    reads h
  {
    forall k :: 0 <= k < h.Length && h.Length - 256 <= k ==> h[k] == 0
  }

  method CountBytes(col: seq<byte>, ghost idx: nat, h: array<nat>)
    requires Room(h, col) && idx < |col| && col[idx] == MARK && CountsZero(h)
    modifies h
    ensures forall y :: 0 <= y < 255 ==> h[h.Length - 1 - (y + 1)] == Count(col, idx, y, |col|)
  {
    var b := |col|;
    while b > 0
      invariant 0 <= b <= |col|
      invariant forall y :: 0 <= y < 255 ==> h[h.Length - 1 - (y + 1)] + Count(col, idx, y, b) == Count(col, idx, y, |col|)
    {
      b := b - 1;
      var d := (col[b] as int + 1) % 256;
      h[Top(h, d)] := h[Top(h, d)] + 1;
    }
  }

  method Accumulate(ghost col: seq<byte>, ghost idx: nat, h: array<nat>)
    requires Room(h, col)
    requires forall y :: 0 <= y < 255 ==> h[h.Length - 1 - (y + 1)] == Count(col, idx, y, |col|)
    modifies h
    ensures forall k :: 0 <= k < 256 ==> h[h.Length - 1 - k] == 1 + Below(col, idx, k, |col|)
  {
    h[Top(h, 0)] := 1;
    var a, k := 0, 0;
    while k <= 255
      invariant 0 <= k <= 256
      invariant a == if k == 0 then 0 else 1 + Below(col, idx, k - 1, |col|)
      invariant forall j :: 0 <= j < k ==> h[h.Length - 1 - j] == 1 + Below(col, idx, j, |col|)
      invariant k == 0 ==> h[h.Length - 1] == 1
      invariant forall y :: 0 <= y < 255 && y + 1 >= k ==> h[h.Length - 1 - (y + 1)] == Count(col, idx, y, |col|)
    {
      a := a + h[Top(h, k)];
      h[Top(h, k)] := a;
      k := k + 1;
    }
  }

  /** Rows below b, the mark's row left out, are linked; the counts have moved on past them. */
  ghost predicate Linked(h: seq<nat>, col: seq<byte>, idx: nat, b: nat) {
    && |col| + 256 <= |h| && idx < |col| && b <= |col|
    && (forall k :: 0 <= k < 256 ==> h[|h| - 1 - k] == 1 + Below(col, idx, k, |col|) + Count(col, idx, k, b))
    && (forall r :: 0 <= r < b && r != idx ==> 1 <= Slot(col, idx, r) < |col| && h[Slot(col, idx, r)] == r)
  }

  method Link(col: seq<byte>, ghost idx: nat, h: array<nat>, b: nat)
    requires Linked(h[..], col, idx, b) && b < |col| && b != idx
    modifies h
    ensures Linked(h[..], col, idx, b + 1)
  {
    SlotInRange(col, idx, b);
    forall r | 0 <= r < b && r != idx
      ensures Slot(col, idx, r) != Slot(col, idx, b)
    {
      SlotInjective(col, idx, r, b);
    }
    ghost var before := h[..];
    var x := col[b];
    var d := h[Top(h, x)];
    h[Top(h, x)] := d + 1;
    h[d] := b;
    assert forall k :: 0 <= k < |before| ==> h[..][k] == if k == d then b else if k == |before| - 1 - x then d + 1 else before[k];
  }

  /** Skipping the mark's row. */
  lemma LinkedPastMark(h: seq<nat>, col: seq<byte>, idx: nat)
    requires Linked(h, col, idx, idx)
    ensures Linked(h, col, idx, idx + 1)
  {
  }

  method BuildLinks(col: seq<byte>, idx: nat, h: array<nat>)
    requires Room(h, col) && idx < |col|
    requires forall k :: 0 <= k < 256 ==> h[h.Length - 1 - k] == 1 + Below(col, idx, k, |col|)
    modifies h
    ensures Linked(h[..], col, idx, |col|)
  {
    var b := 0;
    while b < idx
      invariant 0 <= b <= idx && Linked(h[..], col, idx, b)
    {
      Link(col, idx, h, b);
      b := b + 1;
    }
    LinkedPastMark(h[..], col, idx);
    b := idx + 1;
    while b < |col|
      invariant idx < b <= |col| && Linked(h[..], col, idx, b)
    {
      Link(col, idx, h, b);
      b := b + 1;
    }
  }

  /** Links and bytes share one 32-bit word; this is what blocks of up to 16 MB use. */
  method Merge(col: seq<byte>, h: array<nat>)
    requires Room(h, col)
    modifies h
    ensures forall r :: 0 <= r < |col| ==> h[r] == old(h[r]) * 256 % TWO32 + col[r]
  {
    var b := 0;
    while b < |col|
      invariant 0 <= b <= |col|
      invariant forall r :: 0 <= r < b ==> h[r] == old(h[r]) * 256 % TWO32 + col[r]
      invariant forall r :: b <= r < |col| ==> h[r] == old(h[r])
    {
      h[b] := h[b] * 256 % TWO32 + col[b];
      b := b + 1;
    }
  }

  lemma WordParts(x: nat, c: byte)
    ensures (x * 256 % TWO32 + c) % 256 == c
    ensures x < TWO24 ==> (x * 256 % TWO32 + c) / 256 == x
  {
  }

  /** The links as they are when the list is going to be followed. */
  ghost predicate Followable(col: seq<byte>, idx: nat, h: seq<nat>, merged: bool, s: seq<byte>, sa: seq<nat>) {
    && Sorts(s, sa) && col == Column(s, sa) && idx == RowOf(sa, 0) && |col| <= |h|
    && (forall j :: 1 <= j <= |s| ==> (if merged then h[j] / 256 else h[j]) == Next(sa, j))
    && (merged ==> forall r :: 0 <= r < |col| ==> h[r] % 256 == col[r])
  }

  /** Following the links from the mark's row to row 0 gives the string. */
  method Traverse(col: seq<byte>, idx: nat, h: array<nat>, merged: bool, ghost s: seq<byte>, ghost sa: seq<nat>)
    returns (out: seq<byte>)
    requires Followable(col, idx, h[..], merged, s, sa)
    ensures out == s
  {
    out := [];
    var d: nat := idx;
    while d != 0
      invariant d <= |s| && |out| <= |s| && Pos(sa, d) == |out| && out == s[..|out|]
      decreases |s| - |out|
    {
      d := if merged then h[d] / 256 else h[d];
      out := out + [if merged then h[d] % 256 else col[d]];
    }
  }

  /** Counting, accumulating and linking: every row is linked to the row that follows it. */
  method LinkRows(col: seq<byte>, idx: nat, h: array<nat>, ghost s: seq<byte>, ghost sa: seq<nat>)
    requires Sorts(s, sa) && col == Column(s, sa) && idx == RowOf(sa, 0) && Room(h, col) && CountsZero(h)
    modifies h
    ensures forall j :: 1 <= j <= |s| ==> h[j] == Next(sa, j)
  {
    CountBytes(col, idx, h);
    Accumulate(col, idx, h);
    BuildLinks(col, idx, h);
    forall j | 1 <= j <= |s|
      ensures h[j] == Next(sa, j)
    {
      SlotOfNext(s, sa, idx, j);
      LinkedRow(h[..], col, idx, Next(sa, j));
    }
  }

  lemma LinkedRow(h: seq<nat>, col: seq<byte>, idx: nat, r: nat)
    requires Linked(h, col, idx, |col|) && r < |col| && r != idx
    ensures 1 <= Slot(col, idx, r) < |col| && h[Slot(col, idx, r)] == r
  {
  }

  /** Reads the index, and links the rows. */
  method Prepare(t: seq<byte>, h: array<nat>, merged: bool, ghost s: seq<byte>, ghost sa: seq<nat>)
    returns (col: seq<byte>, idx: nat)
    requires Sorts(s, sa) && t == Transformed(s, sa) && |s| + 257 <= h.Length && |s| < if merged then TWO24 else TWO32
    requires CountsZero(h)
    modifies h
    ensures Followable(col, idx, h[..], merged, s, sa)
  {
    var n := |t| - 4;
    col := t[..n];
    idx := ((t[n + 3] as int * 256 + t[n + 2]) * 256 + t[n + 1]) * 256 + t[n];
    assert col == Column(s, sa) && t[n..] == IndexBytes(RowOf(sa, 0));
    IndexRead(t, n, RowOf(sa, 0));
    LinkRows(col, idx, h, s, sa);
    if merged {
      forall r | 0 <= r < |col|
        ensures (h[r] * 256 % TWO32 + col[r]) % 256 == col[r]
        ensures h[r] < TWO24 ==> (h[r] * 256 % TWO32 + col[r]) / 256 == h[r]
      {
        WordParts(h[r], col[r]);
      }
      Merge(col, h);
    }
  }

  /** Undoes the transform; merged tells which of the two programs is used. */
  method Restore(t: seq<byte>, h: array<nat>, merged: bool, ghost s: seq<byte>, ghost sa: seq<nat>)
    returns (out: seq<byte>)
    requires Sorts(s, sa) && t == Transformed(s, sa) && |s| + 257 <= h.Length && |s| < if merged then TWO24 else TWO32
    requires CountsZero(h)
    modifies h
    ensures out == s
  {
    var col, idx := Prepare(t, h, merged, s, sa);
    out := Traverse(col, idx, h, merged, s, sa);
  }

  lemma IndexRead(t: seq<byte>, n: nat, idx: nat)
    requires |t| == n + 4 && t[n..] == IndexBytes(idx) && idx < TWO32
    ensures ((t[n + 3] as int * 256 + t[n + 2]) * 256 + t[n + 1]) * 256 + t[n] == idx
  {
    assert forall k :: 0 <= k < 4 ==> t[n + k] == t[n..][k];
    assert idx / 256 / 256 / 256 < 256;
  }
}
