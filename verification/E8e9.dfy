/** The filter for addresses behind x86 calls and jumps, and the two ways in which it is undone. */
module E8e9 {
  import opened Bytes

  // ---------------------------------------------------------------- one pattern

  /** A call or jump at i, with a high address byte of all zeros or all ones. */
  predicate Marked(first: byte, last: byte) {
    (first == 0xE8 || first == 0xE9) && (last == 0 || last == 255)
  }

  /** The three lowest bytes of x, the lowest first. */
  function Low3(x: int): (b: seq<byte>)
    ensures |b| == 3
  {
    [x % 256, x / 256 % 256, x / 256 / 256 % 256]
  }

  function Number3(a: byte, b: byte, c: byte): (x: nat) { a + 256 * (b + 256 * c) }

  lemma LowDigit(a: byte, r: int)
    ensures (a + 256 * r) % 256 == a && (a + 256 * r) / 256 == r
  {
  }

  lemma Low3OfNumber(a: byte, b: byte, c: byte, k: int)
    ensures Low3(Number3(a, b, c) + k * TWO24) == [a, b, c]
  {
    LowDigit(a, b + 256 * (c + 256 * k));
    LowDigit(b, c + 256 * k);
    LowDigit(c, k);
  }

  lemma NumberOfLow3(x: int) returns (k: int)
    ensures var b := Low3(x); x == Number3(b[0], b[1], b[2]) + k * TWO24
  {
    k := x / 256 / 256 / 256;
  }

  /** Three bytes behind i. */
  function Put3(s: seq<byte>, i: nat, b: seq<byte>): (r: seq<byte>)
    requires i + 4 < |s| && |b| == 3
    ensures |r| == |s| && r[i + 1] == b[0] && r[i + 2] == b[1] && r[i + 3] == b[2]
    ensures forall j :: 0 <= j < |s| && !(i < j < i + 4) ==> r[j] == s[j]
  {
    s[i + 1 := b[0]][i + 2 := b[1]][i + 3 := b[2]]
  }

  function NumberAt(s: seq<byte>, i: nat): nat
    requires i + 4 < |s|
  {
    Number3(s[i + 1], s[i + 2], s[i + 3])
  }

  /** The number behind i moved by d. */
  function Moved(s: seq<byte>, i: nat, d: int): (r: seq<byte>)
    requires i + 4 < |s|
    ensures |r| == |s| && forall j :: 0 <= j < |s| && !(i < j < i + 4) ==> r[j] == s[j]
  {
    if Marked(s[i], s[i + 4]) then Put3(s, i, Low3(NumberAt(s, i) + d)) else s
  }

  lemma ThereAndBack3(a: byte, b: byte, c: byte, d: int)
    ensures var m := Low3(Number3(a, b, c) + d); Low3(Number3(m[0], m[1], m[2]) - d) == [a, b, c]
  {
    var k := NumberOfLow3(Number3(a, b, c) + d);
    Low3OfNumber(a, b, c, -k);
  }

  lemma MovedBack(s: seq<byte>, i: nat, d: int)
    requires i + 4 < |s|
    ensures Moved(Moved(s, i, d), i, -d) == s
  {
    if Marked(s[i], s[i + 4]) {
      ThereAndBack3(s[i + 1], s[i + 2], s[i + 3], d);
      PutBack(s, i, Low3(NumberAt(s, i) + d));
    }
  }

  lemma PutBack(s: seq<byte>, i: nat, b: seq<byte>)
    requires i + 4 < |s| && |b| == 3
    ensures Put3(Put3(s, i, b), i, [s[i + 1], s[i + 2], s[i + 3]]) == s
  {
  }

  // ---------------------------------------------------------------- the whole buffer

  /** The number of places where a pattern can begin. */
  function Places(n: nat): nat { if n >= 4 then n - 4 else 0 }

  /** Places k - 1 down to 0. */
  function Down(s: seq<byte>, k: nat): (r: seq<byte>)
    requires k <= Places(|s|)
    ensures |r| == |s|
    decreases k
  {
    if k == 0 then s else Down(Moved(s, k - 1, k - 1), k - 1)
  }

  /** Places 0 up to k - 1. */
  function Up(s: seq<byte>, k: nat): (r: seq<byte>)
    requires k <= Places(|s|)
    ensures |r| == |s|
  {
    if k == 0 then s else Moved(Up(s, k - 1), k - 1, 1 - k)
  }

  function Filtered(s: seq<byte>): (r: seq<byte>)
    ensures |r| == |s|
  {
    Down(s, Places(|s|))
  }

  function Unfiltered(s: seq<byte>): (r: seq<byte>)
    ensures |r| == |s|
  {
    Up(s, Places(|s|))
  }

  lemma {:induction false} UpDown(s: seq<byte>, k: nat)
    requires k <= Places(|s|)
    ensures Up(Down(s, k), k) == s
    decreases k
  {
    if k > 0 {
      UpDown(Moved(s, k - 1, k - 1), k - 1);
      MovedBack(s, k - 1, k - 1);
    }
  }

  lemma {:induction false} DownUp(s: seq<byte>, k: nat)
    requires k <= Places(|s|)
    ensures Down(Up(s, k), k) == s
  {
    if k > 0 {
      MovedBack(Up(s, k - 1), k - 1, 1 - k);
      DownUp(s, k - 1);
    }
  }

  /** Patterns may overlap: what one of them changes may belong to others. Undoing them the other way round undoes all. */
  lemma FilterInverse(s: seq<byte>)
    ensures Unfiltered(Filtered(s)) == s && Filtered(Unfiltered(s)) == s
  {
    UpDown(s, Places(|s|));
    DownUp(s, Places(|s|));
  }

  // ---------------------------------------------------------------- in numbers

  /**
   r is s with the number in the three bytes behind i, lowest first, d greater modulo 2^24, when the byte at i is
   0xE8 or 0xE9 and the fourth behind it 0 or 255; nothing else is different.
   */
  predicate GreaterBehind(s: seq<byte>, r: seq<byte>, i: nat, d: int)
    requires i + 4 < |s|
  {
    && |r| == |s| && (forall j :: 0 <= j < |s| && !(i < j < i + 4) ==> r[j] == s[j])
    && if s[i] / 2 == 116 && (s[i + 4] as int + 1) % 256 < 2 then (Behind(r, i) - Behind(s, i) - d) % 0x100_0000 == 0
       else r == s
  }

  function Behind(s: seq<byte>, i: nat): int
    requires i + 4 < |s|
  {
    s[i + 1] as int + 0x100 * s[i + 2] as int + 0x1_0000 * s[i + 3] as int
  }

  lemma MovedIsGreater(s: seq<byte>, i: nat, d: int)
    requires i + 4 < |s|
    ensures GreaterBehind(s, Moved(s, i, d), i, d)
  {
    if Marked(s[i], s[i + 4]) {
      var k := NumberOfLow3(NumberAt(s, i) + d);
      assert Behind(Moved(s, i, d), i) == Behind(s, i) + d - k * TWO24;
      WholeTurns(k);
    }
  }

  lemma WholeTurns(k: int)
    ensures -(k * TWO24) % TWO24 == 0
  {
  }

  /** The filter goes from the last place, five bytes before the end, down to the first, and adds the place. */
  lemma {:induction false} FilterInNumbers(s: seq<byte>, k: nat) returns (t: seq<seq<byte>>)
    requires k <= Places(|s|)
    ensures |t| == k + 1 && t[k] == s && t[0] == Down(s, k) && forall i :: 0 <= i <= k ==> |t[i]| == |s|
    ensures forall i :: 0 <= i < k ==> GreaterBehind(t[i + 1], t[i], i, i)
    decreases k
  {
    if k == 0 {
      t := [s];
    } else {
      MovedIsGreater(s, k - 1, k - 1);
      var front := FilterInNumbers(Moved(s, k - 1, k - 1), k - 1);
      t := front + [s];
    }
  }

  /** Undoing it goes up from the first place, and subtracts the place. */
  lemma {:induction false} UnfilterInNumbers(s: seq<byte>, k: nat) returns (t: seq<seq<byte>>)
    requires k <= Places(|s|)
    ensures |t| == k + 1 && t[0] == s && t[k] == Up(s, k) && forall i :: 0 <= i <= k ==> |t[i]| == |s|
    ensures forall i :: 0 <= i < k ==> GreaterBehind(t[i], t[i + 1], i, -i)
    decreases k
  {
    if k == 0 {
      t := [s];
    } else {
      var front := UnfilterInNumbers(s, k - 1);
      MovedIsGreater(Up(s, k - 1), k - 1, 1 - k);
      t := front + [Up(s, k)];
    }
  }

  /** At the last place of a buffer the filter begins; the highest byte of the sum stays. */
  lemma LastPlace(s: seq<byte>) returns (r: seq<byte>)
    requires |s| >= 5
    ensures GreaterBehind(s, r, |s| - 5, |s| - 5) && Filtered(s) == Down(r, |s| - 5)
    ensures Filtered(s)[|s| - 2..] == r[|s| - 2..]
  {
    var i := |s| - 5;
    r := Moved(s, i, i);
    MovedIsGreater(s, i, i);
    DownKeeps(r, i);
  }

  lemma {:induction false} DownKeeps(s: seq<byte>, k: nat)
    requires k <= Places(|s|)
    ensures forall j :: k + 3 <= j < |s| ==> Down(s, k)[j] == s[j]
    decreases k
  {
    if k > 0 {
      DownKeeps(Moved(s, k - 1, k - 1), k - 1);
    }
  }

  /** Bytes up to the last place that has been dealt with are not changed any more. */
  lemma {:induction false} Settled(s: seq<byte>, k: nat, m: nat)
    requires k <= m <= Places(|s|)
    ensures forall j :: 0 <= j <= k && j < |s| ==> Up(s, m)[j] == Up(s, k)[j]
    decreases m
  {
    if k < m {
      Settled(s, k, m - 1);
    }
  }

  // ---------------------------------------------------------------- in place

  method Store3(buf: array<byte>, i: nat, b: seq<byte>)
    requires i + 4 < buf.Length && |b| == 3
    modifies buf
    ensures buf[..] == Put3(old(buf[..]), i, b)
  {
    buf[i + 1] := b[0];
    buf[i + 2] := b[1];
    buf[i + 3] := b[2];
  }

  /** The number behind i of the first n bytes. */
  method MoveAt(buf: array<byte>, n: nat, i: nat, d: int)
    requires i + 4 < n <= buf.Length
    modifies buf
    ensures buf[..n] == Moved(old(buf[..n]), i, d)
  {
    if Marked(buf[i], buf[i + 4]) {
      Store3(buf, i, Low3(Number3(buf[i + 1], buf[i + 2], buf[i + 3]) + d));
    }
  }

  method Filter(buf: array<byte>)
    modifies buf
    ensures buf[..] == Filtered(old(buf[..]))
  {
    assert buf[..buf.Length] == buf[..];
    var i := buf.Length - 5;
    while i >= 0
      invariant i + 1 <= Places(buf.Length) && (i >= -1 || buf.Length < 4)
      invariant Down(buf[..buf.Length], if i >= 0 then i + 1 else 0) == Filtered(old(buf[..]))
    {
      MoveAt(buf, buf.Length, i, i);
      i := i - 1;
    }
    assert buf[..buf.Length] == buf[..];
  }

  method FilteredCopy(x: seq<byte>) returns (s: seq<byte>)
    ensures s == Filtered(x)
  {
    var buf := new byte[|x|](i requires 0 <= i < |x| => x[i]);
    assert buf[..] == x;
    Filter(buf);
    s := buf[..];
  }

  function Least(a: nat, b: nat): nat { if a < b then a else b }

  /** Deals with place b, after which byte b is final. */
  method Undo(buf: array<byte>, n: nat, b: nat, ghost s: seq<byte>)
    requires b < n <= buf.Length && |s| == n && buf[..n] == Up(s, Least(b, Places(n)))
    modifies buf
    ensures buf[..n] == Up(s, Least(b + 1, Places(n))) && buf[b] == Unfiltered(s)[b]
  {
    if b + 4 < n {
      MoveAt(buf, n, b, -(b as int));
      Settled(s, b + 1, Places(n));
    }
    assert buf[b] == buf[..n][b];
  }

  /** Undoes the filter on the first n bytes and puts them out. */
  method Deliver(buf: array<byte>, n: nat) returns (out: seq<byte>)
    requires n <= buf.Length
    modifies buf
    ensures out == Unfiltered(old(buf[..n]))
  {
    ghost var s := buf[..n];
    out := [];
    var b := 0;
    while b < n
      invariant 0 <= b <= n && buf[..n] == Up(s, Least(b, Places(n))) && out == Unfiltered(s)[..b]
    {
      Undo(buf, n, b, s);
      out := out + [buf[b]];
      b := b + 1;
    }
  }

  // ---------------------------------------------------------------- byte by byte, with four bytes in a register

  /** The lowest byte first. */
  function Register(s: seq<byte>): nat { if s == [] then 0 else s[0] + 256 * Register(s[1..]) }

  /** The last bytes, as yet unchanged, at the top of the register. */
  function Padded(p: seq<byte>): (r: seq<byte>)
    requires |p| <= 4
    ensures |r| == 4
  {
    Fill(0, 4 - |p|) + p
  }

  /** Of the bytes x all but the last four have been put out. */
  ghost predicate Held(x: seq<byte>, b: nat, out: seq<byte>) {
    var k := Places(|x|);
    var u := Up(x, k);
    out == u[..k] && |u[k..]| <= 4 && b == Register(Padded(u[k..]))
  }

  /** The register when byte a comes in behind c others. */
  function Next(b: nat, a: byte, c: nat): nat {
    var r := b / 256 + a * TWO24;
    if c >= 4 && Marked(b % 256, a) then (r - (c - 4)) % TWO32 * 256 % TWO32 / 256 + a * TWO24 else r
  }

  /** The four bytes when the first leaves and a comes in. */
  function Slid(p: seq<byte>, a: byte, i: nat, full: bool): (r: seq<byte>)
    requires |p| == 4
    ensures |r| == 4
  {
    if full && Marked(p[0], a) then Low3(Number3(p[1], p[2], p[3]) - i) + [a] else p[1..] + [a]
  }

  lemma RegisterOf(p: seq<byte>)
    requires |p| == 4
    ensures Register(p) == p[0] + 256 * Number3(p[1], p[2], p[3]) == Number3(p[0], p[1], p[2]) + TWO24 * p[3]
  {
    assert Register(p[1..]) == p[1] + 256 * Register(p[1..][1..]);
    assert p[1..][1..] == p[2..] && Register(p[2..]) == p[2] + 256 * Register(p[2..][1..]);
    assert p[2..][1..] == p[3..] && Register(p[3..]) == p[3];
  }

  lemma Subtracted(a: byte, b: byte, c: byte, d: byte, i: nat)
    ensures
      var m := Low3(Number3(a, b, c) - i);
      (Number3(a, b, c) + TWO24 * d - i) % TWO32 * 256 % TWO32 / 256 == Number3(m[0], m[1], m[2])
  {
    var x := Number3(a, b, c) - i;
    var k := NumberOfLow3(x);
    var m := Low3(x);
    LowPart(Number3(m[0], m[1], m[2]), k + d);
  }

  /** Shifting left and right by eight clears the upper byte. */
  lemma LowPart(n: nat, k: int)
    requires n < TWO24
    ensures (n + k * TWO24) % TWO32 * 256 % TWO32 / 256 == n
  {
    var y := (n + k * TWO24) % TWO32;
    assert y == n + k % 256 * TWO24;
  }

  lemma ByteLeaves(p: seq<byte>, a: byte)
    requires |p| == 4
    ensures Register(p) % 256 == p[0]
    ensures Register(p) / 256 + a * TWO24 == Number3(p[1], p[2], p[3]) + a * TWO24 == Register(p[1..] + [a])
  {
    RegisterOf(p);
    LowDigit(p[0], Number3(p[1], p[2], p[3]));
    RegisterOf(p[1..] + [a]);
  }

  lemma NextIsSlid(p: seq<byte>, a: byte, c: nat)
    requires |p| == 4
    ensures Next(Register(p), a, c) == Register(Slid(p, a, if c >= 4 then c - 4 else 0, c >= 4))
    ensures Register(p) % 256 == p[0]
  {
    ByteLeaves(p, a);
    if c >= 4 && Marked(p[0], a) {
      Subtracted(p[1], p[2], p[3], a, c - 4);
      RegisterOf(Slid(p, a, c - 4, true));
    }
  }

  /** A byte behind the places dealt with changes nothing for them. */
  lemma {:induction false} UpBefore(x: seq<byte>, a: byte, k: nat)
    requires k <= Places(|x|)
    ensures Up(x + [a], k) == Up(x, k) + [a]
  {
    if k > 0 {
      UpBefore(x, a, k - 1);
      MovedBefore(Up(x, k - 1), a, k - 1, 1 - k);
    }
  }

  lemma MovedBefore(s: seq<byte>, a: byte, i: nat, d: int)
    requires i + 4 < |s|
    ensures Moved(s + [a], i, d) == Moved(s, i, d) + [a]
  {
  }

  lemma FillTail(n: nat)
    requires n > 0
    ensures Fill(0, n)[0] == 0 && Fill(0, n)[1..] == Fill(0, n - 1)
  {
    FillIs(0, n);
    FillIs(0, n - 1);
  }

  lemma PaddedMore(x: seq<byte>, a: byte)
    requires |x| < 4
    ensures Padded(x)[1..] + [a] == Padded(x + [a])
  {
    FillTail(4 - |x|);
  }

  /** One more byte, while the register fills up. */
  lemma HeldFewer(x: seq<byte>, b: nat, out: seq<byte>, a: byte)
    requires Held(x, b, out) && |x| < 4
    ensures Held(x + [a], Next(b, a, |x|), out)
  {
    var p := Padded(x);
    assert x[0..] == x && (x + [a])[0..] == x + [a];
    NextIsSlid(p, a, |x|);
    PaddedMore(x, a);
  }

  lemma SlidAtEnd(u: seq<byte>, a: byte)
    requires |u| >= 4
    ensures
      var c := |u|;
      Moved(u + [a], c - 4, 4 - c) == u[..c - 3] + Slid(u[c - 4..], a, c - 4, true)
  {
  }

  lemma UpMore(x: seq<byte>, a: byte, u: seq<byte>)
    requires |x| >= 4 && u == Up(x, |x| - 4)
    ensures Up(x + [a], |x| - 3) == u[..|x| - 3] + Slid(u[|x| - 4..], a, |x| - 4, true)
  {
    UpBefore(x, a, |x| - 4);
    SlidAtEnd(u, a);
  }

  lemma PaddedFull(p: seq<byte>)
    requires |p| == 4
    ensures Padded(p) == p
  {
  }

  /** With a full register. */
  lemma HeldParts(x: seq<byte>, b: nat, out: seq<byte>) returns (u: seq<byte>)
    requires Held(x, b, out) && |x| >= 4
    ensures u == Up(x, |x| - 4) && out == u[..|x| - 4] && b == Register(u[|x| - 4..])
  {
    u := Up(x, |x| - 4);
    PaddedFull(u[|x| - 4..]);
  }

  lemma HeldAgain(x: seq<byte>, b: nat, out: seq<byte>, r: seq<byte>)
    requires |x| >= 4 && |r| == 4 && Up(x, |x| - 4) == out + r && b == Register(r)
    ensures Held(x, b, out)
  {
    PaddedFull(r);
    assert (out + r)[..|out|] == out && (out + r)[|out|..] == r;
  }

  lemma HeldMore(x: seq<byte>, b: nat, out: seq<byte>, a: byte)
    requires Held(x, b, out) && |x| >= 4
    ensures Held(x + [a], Next(b, a, |x|), out + [b % 256])
  {
    var u := HeldParts(x, b, out);
    var p := u[|x| - 4..];
    NextIsSlid(p, a, |x|);
    UpMore(x, a, u);
    FrontAndNext(u, |x| - 4);
    HeldAgain(x + [a], Next(b, a, |x|), out + [b % 256], Slid(p, a, |x| - 4, true));
  }

  lemma FrontAndNext(u: seq<byte>, k: nat)
    requires k < |u|
    ensures u[..k + 1] == u[..k] + [u[k..][0]]
  {
  }

  lemma FirstOut(s: seq<byte>)
    requires s != []
    ensures Register(s) % 256 == s[0] && Register(s) / 256 == Register(s[1..])
  {
    LowDigit(s[0], Register(s[1..]));
  }

  /** The decoding program that is fed byte by byte. */
  class Unfilter {
    var b: nat
    var c: nat
    var out: seq<byte>
    ghost var taken: seq<byte>

    ghost predicate Valid()
      reads this
    {
      c == |taken| && Held(taken, b, out)
    }

    constructor ()
      ensures Valid() && taken == []
    {
      b, c, out, taken := 0, 0, [], [];
      new;
      EmptyHeld();
    }

    method Feed(a: byte)
      requires Valid()
      modifies this
      ensures Valid() && taken == old(taken) + [a]
    {
      if c >= 4 {
        HeldMore(taken, b, out, a);
      } else {
        HeldFewer(taken, b, out, a);
      }
      var first := b % 256;
      b := b / 256 + a * TWO24;
      c := c + 1;
      if c > 4 {
        out := out + [first];
        if Marked(first, a) {
          b := (b - c + 5) % TWO32 * 256 % TWO32 / 256 + a * TWO24;
        }
      }
      taken := taken + [a];
    }

    /** At the end of the input. */
    method Finish()
      requires Valid()
      modifies this`b, this`c, this`out
      ensures out == Unfiltered(taken) && b == 0 && c == 0
    {
      ghost var u := Unfiltered(taken);
      ghost var rest := u[Places(c)..];
      if c > 4 {
        assert Padded(rest) == rest;
        c := 4;
      } else {
        b := ShiftDown(b, c, rest);
      }
      var last := Unload(b, c, rest);
      out := out + last;
      b, c := 0, 0;
    }
  }

  /** What is still in the register comes out byte by byte. */
  method Unload(b0: nat, c0: nat, ghost rest: seq<byte>) returns (last: seq<byte>)
    requires c0 == |rest| && b0 == Register(rest)
    ensures last == rest
  {
    var b, c := b0, c0;
    last := [];
    while c > 0
      invariant 0 <= c <= |rest| && b == Register(rest[|rest| - c..]) && last == rest[..|rest| - c]
    {
      FirstOut(rest[|rest| - c..]);
      last := last + [b % 256];
      b := b / 256;
      c := c - 1;
    }
  }

  lemma EmptyHeld()
    ensures Held([], 0, [])
  {
    RegisterOf([0, 0, 0, 0]);
    assert Padded([]) == [0, 0, 0, 0];
  }

  /** Down by eight bits for each byte that is missing. */
  method ShiftDown(b: nat, c: nat, ghost rest: seq<byte>) returns (r: nat)
    requires c == |rest| <= 4 && b == Register(Padded(rest))
    ensures r == Register(rest)
  {
    var k := 8 * (4 - c);
    var p := Pow2(k);
    ZerosOut(rest, 4 - c, k, p);
    r := b / p;
  }

  lemma Times256(x: nat, p: nat)
    ensures 256 * (x * p) == x * (256 * p)
  {
  }

  lemma EightMore(k: nat)
    ensures Pow2(k + 8) == 256 * Pow2(k)
  {
    Pow2Add(8, k);
    assert Pow2(8) == 256;
  }

  lemma {:induction false} ZerosOut(rest: seq<byte>, n: nat, k: nat, p: nat)
    requires k == 8 * n && p == Pow2(k)
    ensures Register(Fill(0, n) + rest) == Register(rest) * p && Register(Fill(0, n) + rest) / p == Register(rest)
    decreases n
  {
    if n > 0 {
      var q := Pow2(k - 8);
      EightMore(k - 8);
      ZerosOut(rest, n - 1, k - 8, q);
      FillTail(n);
      assert (Fill(0, n) + rest)[1..] == Fill(0, n - 1) + rest;
      Times256(Register(rest), q);
    } else {
      assert Fill(0, n) + rest == rest;
    }
    RemainderIs(Register(rest) * p, p, Register(rest), 0);
  }

  /** Filtered, and given to the program byte by byte, the data come out again. */
  method ThereAndBack(x: seq<byte>) returns (out: seq<byte>)
    ensures out == x
  {
    var s := FilteredCopy(x);
    var d := new Unfilter();
    var i := 0;
    while i < |s|
      invariant 0 <= i <= |s| && fresh(d) && d.Valid() && d.taken == s[..i]
    {
      d.Feed(s[i]);
      i := i + 1;
    }
    assert s[..|s|] == s;
    d.Finish();
    FilterInverse(x);
    out := d.out;
  }
}
