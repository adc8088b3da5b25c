/** The match finder: a two-entry hash table of positions, candidate scoring and repeat search. */
module LzmaSearch {
  import opened Sequences
  import opened Bytes
  import opened LzmaPackets
  import opened Copying

  const LZ_LEN_MAX := 273
  const LZ_DIST_MAX_PLUS1 := 0x4000_0000
  const HASH_LEVEL := 2
  const HASH_SIZE := 0x80_0000
  const TWO64 := 0x1_0000_0000_0000_0000
  const INVALID_HASH_ITEM := 0xFFFF_FFFF_FFFF_FFFF

  function GetHash(src: seq<byte>, pos: nat): (h: nat)
    ensures h < HASH_SIZE
  {
    if pos + 2 >= |src| then 0
    else (src[pos + 2] * 0x1_0000 + src[pos + 1] * 0x100 + src[pos]) % HASH_SIZE
  }

  /** A row after pos has been entered: in the first empty entry, else in place of the older of the two. */
  function Entered(row: (nat, nat), pos: nat): (nat, nat) {
    if row.0 == INVALID_HASH_ITEM then (pos, row.1)
    else if row.1 == INVALID_HASH_ITEM then (row.0, pos)
    else if row.0 <= row.1 then (pos, row.1)
    else (row.0, pos)
  }

  /** Row h after the positions below n have been entered. */
  function Row(src: seq<byte>, n: nat, h: nat): (nat, nat) {
    if n == 0 then (INVALID_HASH_ITEM, INVALID_HASH_ITEM)
    else if GetHash(src, n - 1) == h then Entered(Row(src, n - 1, h), n - 1)
    else Row(src, n - 1, h)
  }

  /** The position is in the row, or both entries are taken by later ones. */
  predicate InRowOrOlder(row: (nat, nat), p: nat) {
    p == row.0 || p == row.1
    || (p < row.0 && p < row.1 && row.0 != INVALID_HASH_ITEM && row.1 != INVALID_HASH_ITEM)
  }

  /** So a row has the last two of the positions with its hash, or all of them if there are fewer. */
  lemma {:induction false} RowHasLatest(src: seq<byte>, n: nat, h: nat)
    requires n <= INVALID_HASH_ITEM
    ensures
      var row := Row(src, n, h);
      && (row.0 == INVALID_HASH_ITEM || (row.0 < n && GetHash(src, row.0) == h))
      && (row.1 == INVALID_HASH_ITEM || (row.1 < n && GetHash(src, row.1) == h && row.0 != INVALID_HASH_ITEM))
      && (row.0 != INVALID_HASH_ITEM ==> row.0 != row.1)
      && forall p: nat :: p < n && GetHash(src, p) == h ==> InRowOrOlder(row, p)
  {
    if n > 0 {
      RowHasLatest(src, n - 1, h);
    }
  }

  /** Positions seen so far, two per hash value. */
  class HashTable {
    const items: array2<nat>

    ghost predicate Valid()
      reads items
    {
      && items.Length0 == HASH_SIZE && items.Length1 == HASH_LEVEL
      && forall h :: 0 <= h < HASH_SIZE ==> items[h, 0] <= INVALID_HASH_ITEM && items[h, 1] <= INVALID_HASH_ITEM
    }

    /** The positions below n have been entered, and no others. */
    ghost predicate Holds(src: seq<byte>, n: nat)
      requires Valid()
      reads items
    {
      forall h: nat :: h < HASH_SIZE ==> RowHolds(src, n, h)
    }

    predicate RowHolds(src: seq<byte>, n: nat, h: nat)
      requires h < items.Length0 && items.Length1 == HASH_LEVEL
      reads items
    {
      RowIs(h, Row(src, n, h))
    }

    predicate RowIs(h: nat, row: (nat, nat))
      requires h < items.Length0 && items.Length1 == HASH_LEVEL
      reads items
    {
      items[h, 0] == row.0 && items[h, 1] == row.1
    }

    constructor ()
      ensures Valid() && fresh(items) && forall src: seq<byte> :: Holds(src, 0)
    {
      items := new nat[HASH_SIZE, HASH_LEVEL]((i, j) => INVALID_HASH_ITEM);
    }

    /** Enters pos: in the first empty entry, else in place of the older of the two. */
    method Update(src: seq<byte>, pos: nat)
      requires Valid() && |src| < INVALID_HASH_ITEM
      modifies items
      ensures Valid()
      ensures forall h :: 0 <= h < HASH_SIZE && h != GetHash(src, pos) ==>
                items[h, 0] == old(items[h, 0]) && items[h, 1] == old(items[h, 1])
      ensures
        var h := GetHash(src, pos);
        var a, b := old(items[h, 0]), old(items[h, 1]);
        RowIs(h, if pos >= |src| then (a, b) else Entered((a, b), pos))
    {
      if pos >= |src| {
        return;
      }
      var h := GetHash(src, pos);
      var oldestI, oldestPos := 0, INVALID_HASH_ITEM;
      var i := 0;
      while i < HASH_LEVEL
        invariant 0 <= i <= HASH_LEVEL && Valid()
        invariant i >= 1 ==> items[h, 0] != INVALID_HASH_ITEM
        invariant i == 2 ==> items[h, 1] != INVALID_HASH_ITEM
        invariant i == 0 ==> oldestI == 0 && oldestPos == INVALID_HASH_ITEM
        invariant i == 1 ==> oldestI == 0 && oldestPos == items[h, 0]
        invariant i == 2 ==> oldestI == if items[h, 1] < items[h, 0] then 1 else 0
        invariant forall k :: 0 <= k < HASH_SIZE ==> items[k, 0] == old(items[k, 0]) && items[k, 1] == old(items[k, 1])
      {
        if items[h, i] == INVALID_HASH_ITEM {
          items[h, i] := pos;
          return;
        }
        if oldestPos > items[h, i] {
          oldestPos := items[h, i];
          oldestI := i;
        }
        i := i + 1;
      }
      items[h, oldestI] := pos;
    }

    /** Enters the positions from pos up to end. */
    method Register(src: seq<byte>, pos: nat, end: nat)
      requires Valid() && pos <= end <= |src| < INVALID_HASH_ITEM && Holds(src, pos)
      modifies items
      ensures Valid() && Holds(src, end)
    {
      var at := pos;
      while at < end
        invariant pos <= at <= end && Valid() && Holds(src, at)
      {
        Enter(src, at);
        at := at + 1;
      }
    }

    method Enter(src: seq<byte>, pos: nat)
      requires Valid() && pos < |src| < INVALID_HASH_ITEM && Holds(src, pos)
      modifies items
      ensures Valid() && Holds(src, pos + 1)
    {
      var h := GetHash(src, pos);
      ghost var n := pos + 1;
      assert RowHolds(src, pos, h);
      Update(src, pos);
      forall k: nat | k < HASH_SIZE
        ensures RowHolds(src, n, k)
      {
        if k != h {
          assert old(RowHolds(src, pos, k));
        }
      }
    }
  }

  // ---------------------------------------------------------------- scores

  /** How near a distance is, in five classes. */
  function DistanceClass(dist: nat): nat {
    if dist <= 12 then 4
    else if dist <= 12 * 12 * 2 then 3
    else if dist <= 12 * 12 * 12 * 3 then 2
    else if dist <= 12 * 12 * 12 * 12 * 4 then 1
    else 0
  }

  function LenDistScore(len: nat, dist: nat, rep0: nat, rep1: nat, rep2: nat, rep3: nat): nat {
    var score := if dist == rep0 || dist == rep1 || dist == rep2 || dist == rep3 then 5 else DistanceClass(dist);
    if len < 2 then 8 + 5
    else if len == 2 then 8 + score + 1
    else 8 + score + len
  }

  function Score(len: nat, dist: nat, lz: Lz): nat { LenDistScore(len, dist, lz.rep0, lz.rep1, lz.rep2, lz.rep3) }

  /** A match without regard to recent distances. */
  function PlainScore(len: nat, dist: nat): nat { LenDistScore(len, dist, 0, 0, 0, 0) }

  /**
   A longer match that is not farther away scores no less, and one longer by six bytes more wherever it is; a single
   byte counts as 13, which a match of two bytes beats exactly at a recent distance, one of three also within 288 bytes.
   */
  lemma ScoreOrders(len: nat, dist: nat, len1: nat, dist1: nat, lz: Lz)
    ensures dist <= dist1 && len > len1 >= 2 ==> PlainScore(len, dist) >= PlainScore(len1, dist1)
    ensures len >= 3 && len >= len1 + 6 && len1 >= 2 ==> Score(len, dist, lz) > Score(len1, dist1, lz)
    ensures len < 2 ==> Score(len, dist, lz) == 13
    ensures len == 2 ==> (Score(len, dist, lz) > 13 <==> dist in {lz.rep0, lz.rep1, lz.rep2, lz.rep3})
    ensures len == 3 ==> (Score(len, dist, lz) > 13 <==> dist in {lz.rep0, lz.rep1, lz.rep2, lz.rep3} || dist <= 288)
  {
  }

  // ---------------------------------------------------------------- matches

  function LenMax(src: seq<byte>, pos: nat): nat
    requires pos <= |src|
  {
    if |src| - pos < LZ_LEN_MAX then |src| - pos else LZ_LEN_MAX
  }

  /** How many bytes, up to max, agree from pos on and dist before it. */
  function MatchLength(src: seq<byte>, pos: nat, dist: nat, max: nat): (n: nat)
    requires 1 <= dist <= pos && pos + max <= |src|
    ensures n <= max
    decreases max
  {
    if max == 0 then 0
    else if src[pos] != src[pos - dist] then 0
    else 1 + MatchLength(src, pos + 1, dist, max - 1)
  }

  /** So many bytes repeat those before, and no more. */
  lemma {:induction false} MatchLengthRepeats(src: seq<byte>, pos: nat, dist: nat, max: nat, n: nat)
    requires 1 <= dist <= pos && pos + max <= |src| && n == MatchLength(src, pos, dist, max)
    ensures Repeats(src, pos, dist, n)
    ensures n < max ==> src[pos + n] != src[pos + n - dist]
    decreases max
  {
    if n > 0 {
      MatchLengthRepeats(src, pos + 1, dist, max - 1, n - 1);
    }
  }

  /** The number of agreeing bytes is what stops the comparison. */
  lemma {:induction false} MatchLengthIs(src: seq<byte>, pos: nat, dist: nat, max: nat, n: nat)
    requires 1 <= dist <= pos && pos + max <= |src| && n <= max
    requires Repeats(src, pos, dist, n) && (n < max ==> src[pos + n] != src[pos + n - dist])
    ensures n == MatchLength(src, pos, dist, max)
    decreases n
  {
    if 0 < n {
      assert Agree(src, pos, dist);
      MatchLengthIs(src, pos + 1, dist, max - 1, n - 1);
    }
  }

  method CountEqual(src: seq<byte>, pos: nat, dist: nat, max: nat) returns (n: nat)
    requires 1 <= dist <= pos && pos + max <= |src|
    ensures n == MatchLength(src, pos, dist, max) && Repeats(src, pos, dist, n)
  {
    n := 0;
    while n < max && src[pos + n] == src[pos + n - dist]
      invariant 0 <= n <= max && Repeats(src, pos, dist, n)
    {
      n := n + 1;
    }
    MatchLengthIs(src, pos, dist, max, n);
  }

  /** Nothing found, or a true repetition that a packet can carry. */
  predicate Found(src: seq<byte>, pos: nat, len: nat, dist: nat) {
    (len == 0 && dist == 0)
    || (2 <= len <= LZ_LEN_MAX && dist < LZ_DIST_MAX_PLUS1 && Repeats(src, pos, dist, len))
  }

  predicate RepsInRange(lz: Lz) {
    && 1 <= lz.rep0 < LZ_DIST_MAX_PLUS1 && 1 <= lz.rep1 < LZ_DIST_MAX_PLUS1
    && 1 <= lz.rep2 < LZ_DIST_MAX_PLUS1 && 1 <= lz.rep3 < LZ_DIST_MAX_PLUS1
  }

  // ---------------------------------------------------------------- search in the table

  /** The positions tried: two table entries, then the last two positions (in 64-bit arithmetic). */
  function Candidates(a: nat, b: nat, pos: nat): seq<nat> {
    [a, b, (pos - 1) % TWO64, (pos - 2) % TWO64]
  }

  predicate Eligible(pos: nat, ppos: nat) {
    ppos != INVALID_HASH_ITEM && ppos < pos && pos - ppos < LZ_DIST_MAX_PLUS1
  }

  const NO_MATCH_SCORE := 13

  /** The score of a candidate, or the score of no match at all. */
  function CandidateScore(src: seq<byte>, pos: nat, ppos: nat): nat
    requires pos <= |src|
  {
    if !Eligible(pos, ppos) then NO_MATCH_SCORE
    else
      var len := MatchLength(src, pos, pos - ppos, LenMax(src, pos));
      if len < 2 then NO_MATCH_SCORE else PlainScore(len, pos - ppos)
  }

  /** Either nothing, or one of the positions tried with all the bytes that agree there. */
  ghost predicate IsCandidate(src: seq<byte>, pos: nat, tried: seq<nat>, len: nat, dist: nat)
    requires pos <= |src|
  {
    len == 0 || exists i :: 0 <= i < |tried| && Eligible(pos, tried[i]) && dist == pos - tried[i]
                            && len == MatchLength(src, pos, dist, LenMax(src, pos))
  }

  ghost predicate NoneBetter(src: seq<byte>, pos: nat, tried: seq<nat>, best: nat)
    requires pos <= |src|
  {
    forall i :: 0 <= i < |tried| ==> CandidateScore(src, pos, tried[i]) <= best
  }

  method SearchMatch(src: seq<byte>, pos: nat, table: HashTable) returns (len: nat, dist: nat)
    requires table.Valid() && pos < |src| < INVALID_HASH_ITEM
    ensures Found(src, pos, len, dist)
    ensures
      var h := GetHash(src, pos);
      var tried := Candidates(table.items[h, 0], table.items[h, 1], pos);
      IsCandidate(src, pos, tried, len, dist) && NoneBetter(src, pos, tried, PlainScore(len, dist))
  {
    var h := GetHash(src, pos);
    var tried := Candidates(table.items[h, 0], table.items[h, 1], pos);
    len, dist := 0, 0;
    var best := PlainScore(0, 0xFFFF_FFFF);
    var i := 0;
    while i < HASH_LEVEL + 2
      invariant 0 <= i <= HASH_LEVEL + 2
      invariant best == PlainScore(len, dist) && best >= NO_MATCH_SCORE && Found(src, pos, len, dist)
      invariant IsCandidate(src, pos, tried[..i], len, dist) && NoneBetter(src, pos, tried[..i], best)
    {
      ghost var len0, dist0, best0 := len, dist, best;
      len, dist, best := TryCandidate(src, pos, tried[i], len, dist, best);
      TriedOneMore(src, pos, tried[..i], tried[i], len0, dist0, best0, len, dist, best);
      assert tried[..i] + [tried[i]] == tried[..i + 1];
      i := i + 1;
    }
    assert tried[..4] == tried;
  }

  /** Trying one more position and keeping the better score. */
  lemma TriedOneMore(src: seq<byte>, pos: nat, tried: seq<nat>, ppos: nat, len0: nat, dist0: nat, best0: nat,
                     len: nat, dist: nat, best: nat)
    requires pos <= |src| && IsCandidate(src, pos, tried, len0, dist0) && NoneBetter(src, pos, tried, best0)
    requires best0 <= best && CandidateScore(src, pos, ppos) <= best
    requires (len, dist) == (len0, dist0)
             || (Eligible(pos, ppos) && dist == pos - ppos && len == MatchLength(src, pos, dist, LenMax(src, pos)))
    ensures IsCandidate(src, pos, tried + [ppos], len, dist) && NoneBetter(src, pos, tried + [ppos], best)
  {
    var all := tried + [ppos];
    assert all[|tried|] == ppos && forall i :: 0 <= i < |tried| ==> all[i] == tried[i];
  }

  /** The body of the search loop, for one more position. */
  method TryCandidate(src: seq<byte>, pos: nat, ppos: nat, len0: nat, dist0: nat, best0: nat)
    returns (len: nat, dist: nat, best: nat)
    requires pos < |src| && Found(src, pos, len0, dist0) && best0 == PlainScore(len0, dist0) && best0 >= NO_MATCH_SCORE
    ensures Found(src, pos, len, dist) && best == PlainScore(len, dist)
    ensures best0 <= best && CandidateScore(src, pos, ppos) <= best
    ensures (len, dist) == (len0, dist0)
            || (Eligible(pos, ppos) && dist == pos - ppos && len == MatchLength(src, pos, dist, LenMax(src, pos)))
  {
    len, dist, best := len0, dist0, best0;
    if ppos != INVALID_HASH_ITEM && ppos < pos && pos - ppos < LZ_DIST_MAX_PLUS1 {
      var j, score := Measure(src, pos, ppos);
      if j >= 2 && best < score {
        best, len, dist := score, j, pos - ppos;
      }
    } else {
      NotEligible(src, pos, ppos);
    }
  }

  lemma NotEligible(src: seq<byte>, pos: nat, ppos: nat)
    requires pos <= |src| && !Eligible(pos, ppos)
    ensures CandidateScore(src, pos, ppos) == NO_MATCH_SCORE
  {
  }

  method Measure(src: seq<byte>, pos: nat, ppos: nat) returns (j: nat, score: nat)
    requires pos < |src| && Eligible(pos, ppos)
    ensures j == MatchLength(src, pos, pos - ppos, LenMax(src, pos)) <= LZ_LEN_MAX && Repeats(src, pos, pos - ppos, j)
    ensures score == PlainScore(j, pos - ppos) && CandidateScore(src, pos, ppos) == if j < 2 then NO_MATCH_SCORE else score
  {
    j := CountEqual(src, pos, pos - ppos, LenMax(src, pos));
    score := PlainScore(j, pos - ppos);
  }

  // ---------------------------------------------------------------- search at recent distances

  function Reps(lz: Lz): seq<nat> { [lz.rep0, lz.rep1, lz.rep2, lz.rep3] }

  function RepLength(src: seq<byte>, pos: nat, rep: nat, max: nat): nat
    requires pos + max <= |src|
  {
    if 1 <= rep <= pos then MatchLength(src, pos, rep, max) else 0
  }

  /** The longest repeat of at least two bytes at one of the distances, the first of them when tied. */
  ghost predicate LongestRep(src: seq<byte>, pos: nat, reps: seq<nat>, max: nat, len: nat, dist: nat)
    requires pos + max <= |src|
  {
    && (forall i :: 0 <= i < |reps| ==> RepLength(src, pos, reps[i], max) <= if len == 0 then 1 else len)
    && (len > 0 ==> exists i :: 0 <= i < |reps| && dist == reps[i] && len == RepLength(src, pos, reps[i], max)
                                && forall k :: 0 <= k < i ==> RepLength(src, pos, reps[k], max) < len)
  }

  method SearchRep(src: seq<byte>, pos: nat, lz: Lz, lenLimit: nat) returns (len: nat, dist: nat)
    requires pos < |src| && RepsInRange(lz)
    ensures Found(src, pos, len, dist) && len <= lenLimit
    ensures LongestRep(src, pos, Reps(lz), if LenMax(src, pos) > lenLimit then lenLimit else LenMax(src, pos), len, dist)
  {
    var lenMax := LenMax(src, pos);
    if lenMax > lenLimit {
      lenMax := lenLimit;
    }
    len, dist := TryReps(src, pos, Reps(lz), lenMax);
  }

  method TryReps(src: seq<byte>, pos: nat, reps: seq<nat>, lenMax: nat) returns (len: nat, dist: nat)
    requires pos + lenMax <= |src| && lenMax <= LZ_LEN_MAX && forall i :: 0 <= i < |reps| ==> 1 <= reps[i] < LZ_DIST_MAX_PLUS1
    ensures Found(src, pos, len, dist) && len <= lenMax && LongestRep(src, pos, reps, lenMax, len, dist)
  {
    len, dist := 0, 0;
    var i := 0;
    while i < |reps|
      invariant 0 <= i <= |reps| && Found(src, pos, len, dist) && len <= lenMax
      invariant LongestRep(src, pos, reps[..i], lenMax, len, dist)
    {
      len, dist := TryRep(src, pos, reps[i], reps[..i], lenMax, len, dist);
      assert reps[..i] + [reps[i]] == reps[..i + 1];
      i := i + 1;
    }
    assert reps[..|reps|] == reps;
  }

  /** The body of the repeat loop, for one more distance. */
  method TryRep(src: seq<byte>, pos: nat, rep: nat, ghost tried: seq<nat>, lenMax: nat, len0: nat, dist0: nat)
    returns (len: nat, dist: nat)
    requires pos + lenMax <= |src| && lenMax <= LZ_LEN_MAX && 1 <= rep < LZ_DIST_MAX_PLUS1
    requires Found(src, pos, len0, dist0) && len0 <= lenMax && LongestRep(src, pos, tried, lenMax, len0, dist0)
    ensures Found(src, pos, len, dist) && len <= lenMax
    ensures LongestRep(src, pos, tried + [rep], lenMax, len, dist)
  {
    len, dist := len0, dist0;
    if rep <= pos {
      var j := CountEqual(src, pos, rep, lenMax);
      if j >= 2 && j > len {
        len, dist := j, rep;
      }
    }
    RepTried(src, pos, tried, rep, lenMax, len0, dist0, len, dist);
  }

  lemma RepTried(src: seq<byte>, pos: nat, tried: seq<nat>, rep: nat, max: nat, len0: nat, dist0: nat, len: nat,
                 dist: nat)
    requires pos + max <= |src| && LongestRep(src, pos, tried, max, len0, dist0)
    requires
      var n := RepLength(src, pos, rep, max);
      (len, dist) == if n >= 2 && n > len0 then (n, rep) else (len0, dist0)
    ensures LongestRep(src, pos, tried + [rep], max, len, dist)
  {
    var all := tried + [rep];
    assert all[|tried|] == rep && forall i :: 0 <= i < |tried| ==> all[i] == tried[i];
  }

  /** The better of the two searches, returned in r and m; a recent distance wins ties. */
  method Search(src: seq<byte>, pos: nat, lz: Lz, table: HashTable)
    returns (len: nat, dist: nat, ghost r: (nat, nat), ghost m: (nat, nat))
    requires table.Valid() && pos < |src| < INVALID_HASH_ITEM && RepsInRange(lz)
    ensures Found(src, pos, len, dist)
    ensures LongestRep(src, pos, Reps(lz), LenMax(src, pos), r.0, r.1)
    ensures
      var h := GetHash(src, pos);
      var tried := Candidates(table.items[h, 0], table.items[h, 1], pos);
      IsCandidate(src, pos, tried, m.0, m.1) && NoneBetter(src, pos, tried, PlainScore(m.0, m.1))
    ensures (len, dist) == if Score(r.0, r.1, lz) >= Score(m.0, m.1, lz) then r else m
  {
    var rlen, rdist := SearchRep(src, pos, lz, 0xFFFF_FFFF);
    var mlen, mdist := SearchMatch(src, pos, table);
    r, m := (rlen, rdist), (mlen, mdist);
    if Score(rlen, rdist, lz) >= Score(mlen, mdist, lz) {
      len, dist := rlen, rdist;
    } else {
      len, dist := mlen, mdist;
    }
  }

  /** What the search at pos comes to when the positions below n have been entered. */
  ghost predicate Searched(src: seq<byte>, pos: nat, lz: Lz, n: nat, len: nat, dist: nat) {
    pos < |src|
    && forall q: nat {:trigger Asked(q)} :: Asked(q) ==>
         exists r: (nat, nat), m: (nat, nat) :: Better(src, pos, lz, n, r, m, len, dist)
  }

  /** r is the longest repeat, m the best of the positions tried, and the better one is the result. */
  ghost predicate Better(src: seq<byte>, pos: nat, lz: Lz, n: nat, r: (nat, nat), m: (nat, nat), len: nat, dist: nat)
    requires pos < |src|
  {
    var row := Row(src, n, GetHash(src, pos));
    var tried := Candidates(row.0, row.1, pos);
    && LongestRep(src, pos, Reps(lz), LenMax(src, pos), r.0, r.1)
    && IsCandidate(src, pos, tried, m.0, m.1) && NoneBetter(src, pos, tried, PlainScore(m.0, m.1))
    && (len, dist) == if Score(r.0, r.1, lz) >= Score(m.0, m.1, lz) then r else m
  }

  method Find(src: seq<byte>, pos: nat, lz: Lz, table: HashTable, ghost n: nat) returns (len: nat, dist: nat)
    requires table.Valid() && table.Holds(src, n) && pos < |src| < INVALID_HASH_ITEM && RepsInRange(lz)
    ensures Found(src, pos, len, dist) && Searched(src, pos, lz, n, len, dist)
  {
    ghost var r, m;
    len, dist, r, m := Search(src, pos, lz, table);
    assert table.RowHolds(src, n, GetHash(src, pos));
    assert Better(src, pos, lz, n, r, m, len, dist);
  }

  function IsShortRep(src: seq<byte>, pos: nat, rep0: nat): bool
    requires pos < |src| && rep0 >= 1
  {
    pos >= rep0 && src[pos] == src[pos - rep0]
  }
}
