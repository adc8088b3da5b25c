/** The scan of the LZ77 encoder: at every place it takes what the search comes to, or one more literal. */
module Lz77Scan {
  import opened Bytes
  import opened Lz77
  import opened Lz77Search

  /** Where the scan stands: lit literals in front of i are pending, everything before is told by ts. */
  datatype Stop = Stop(i: nat, lit: nat, ts: seq<Token>)

  const BEGIN := Stop(0, 0, [])

  /** A match is worth its code: longer offsets need longer matches. */
  predicate Worth(level: nat, st: Settings, best: Best, off: nat) {
    off > 0 && best.score > 0
    && best.len - best.lit >= st.minMatch + (if level == 2 && off >= 0x1_0000 then 1 else 0)
                              + (if level == 2 && off >= TWO24 then 1 else 0)
  }

  /** The literals from a up to b, if there are any. */
  function Pending(src: seq<byte>, a: int, b: int): seq<Token> {
    if 0 <= a < b <= |src| then [Literals(src[a..b])] else []
  }

  /** The tokens of a match at a place, with lit literals in front. */
  function WithMatch(src: seq<byte>, at: int, lit: nat, len: nat, off: nat): seq<Token> {
    Pending(src, at - lit, at) + [Match(len, off)]
  }

  /** Where the scan stands after a step, when the search has come to best. */
  function After(src: seq<byte>, level: nat, st: Settings, s: Stop, best: Best): Stop {
    var off := s.i - best.p;
    if off > 0 && best.lit <= best.len && Worth(level, st, best, off) then
      Stop(s.i + best.len, 0, s.ts + WithMatch(src, s.i + best.lit, s.lit + best.lit, best.len - best.lit, off))
    else if s.lit + 1 < MAX_LITERAL then Stop(s.i + 1, s.lit + 1, s.ts)
    else Stop(s.i + 1, 0, s.ts + Pending(src, s.i - s.lit, s.i + 1))
  }

  ghost predicate Steps(src: seq<byte>, level: nat, st: Settings, s: Stop, t: Stop)
    requires st.minMatch >= 1
  {
    exists best: Best :: Searched(src, s.i, s.lit, st, best) && t == After(src, level, st, s, best)
  }

  /** path is how the scan goes from the beginning of the input. */
  ghost predicate Scanned(src: seq<byte>, level: nat, st: Settings, path: seq<Stop>)
    requires st.minMatch >= 1
  {
    path != [] && path[0] == BEGIN
    && forall k :: 1 <= k < |path| ==> Steps(src, level, st, path[k - 1], path[k])
  }

  lemma OneStepMore(src: seq<byte>, level: nat, st: Settings, path: seq<Stop>, best: Best, s: Stop, t: Stop)
    requires st.minMatch >= 1 && Scanned(src, level, st, path) && path[|path| - 1] == s
    requires Searched(src, s.i, s.lit, st, best) && t == After(src, level, st, s, best)
    ensures Scanned(src, level, st, path + [t])
  {
    assert Steps(src, level, st, s, t);
  }
}
