/** The arithmetic encoder and decoder run over all segments of a block, one behind the other. */
module ZpaqRoundTrip {
  import opened Bytes
  import opened Results
  import opened ZpaqCoder
  import opened ZpaqDecoding
  import opened ZpaqSegments
  import opened ZpaqMachines

  /** Codes the segments; behind the zeros of each the caller writes its end marker and what it likes. */
  method CompressBlock(predict: Predictor, parts: seq<Part>) returns (out: seq<byte>)
    ensures out == Stream(predict, FULL, [], parts)
  {
    var e := new Encoder(predict);
    ghost var all := Stream(predict, FULL, [], parts);
    var k := 0;
    assert parts[0..] == parts && [] + all == all;
    while k < |parts|
      invariant 0 <= k <= |parts| && fresh(e) && e.Valid() && e.predict == predict
      invariant e.out + Stream(predict, e.Current(), e.seen, parts[k..]) == all
    {
      ghost var o, i, seen := e.out, e.Current(), e.seen;
      assert parts[k..][1..] == parts[k + 1..];
      e.CompressSegment(parts[k].data);
      e.out := e.out + parts[k].gap;
      PartBehind(o, Segment(predict, i, seen, parts[k].data), parts[k].gap, Stream(predict, e.Current(), e.seen, parts[k + 1..]));
      k := k + 1;
    }
    assert e.out + [] == e.out;
    out := e.out;
  }

  lemma PartBehind(o: seq<byte>, s: seq<byte>, gap: seq<byte>, more: seq<byte>)
    ensures o + (s + ([0, 0, 0, 0] + (gap + more))) == o + (s + [0, 0, 0, 0]) + gap + more
  {
  }

  /** next stands for reading a segment with this predictor. */
  ghost predicate ReadsSegments(next: SegmentReader, predict: Predictor) {
    Progresses(DecBit) && forall d: Dec, seen: seq<bit> :: ReadsSegment(next, predict, d, seen)
  }

  ghost predicate ReadsSegment(next: SegmentReader, predict: Predictor, d: Dec, seen: seq<bit>)
    requires Progresses(DecBit)
  {
    next(d, seen) == DecSegment(DecBit, predict, d, seen, [])
  }

  lemma SegmentsAreRead(predict: Predictor)
    ensures Progresses(DecBit) && ReadsSegments(SegmentsOf(DecBit, predict), predict)
  {
    ArithmeticDecoderProgresses();
    forall d: Dec, seen: seq<bit>
      ensures ReadsSegment(SegmentsOf(DecBit, predict), predict, d, seen)
    {
    }
  }

  /** Reads the bytes of a segment up to its end. */
  method DecompressSegment(d: Decoder, ghost next: SegmentReader) returns (r: Result<seq<byte>, Error>)
    requires d.Valid() && ReadsSegments(next, d.predict)
    modifies d
    ensures match next(old(d.State()), old(d.seen))
            case Ok((out, d1, seen1)) => r == Ok(out) && d.State() == d1 && d.seen == seen1
            case Err(e) => r == Err(e)
  {
    assert ReadsSegment(next, d.predict, d.State(), d.seen);
    ghost var items := ItemsOf(DecBit, d.predict);
    ghost var whole := DecItems(items, d.State(), d.seen, []);
    var out: seq<byte> := [];
    while true
      invariant d.Valid() && DecItems(items, d.State(), d.seen, out) == whole
      decreases |d.src| - d.pos, Width(d.State().i)
    {
      var item := d.Decompress();
      if item.Err? {
        return Err(item.error);
      }
      if item.value.End? {
        return Ok(out);
      }
      out := out + [item.value.b];
    }
  }

  /** The bytes between two segments go by unread. */
  method Pass(d: Decoder, n: nat) returns (ok: bool)
    requires d.Valid()
    modifies d
    ensures ok <==> old(d.pos) + n <= |d.src|
    ensures ok ==> d.State() == old(d.State()).(pos := old(d.pos) + n) && d.seen == old(d.seen)
  {
    var j := 0;
    while j < n
      invariant 0 <= j <= n && old(d.pos) + j <= |d.src|
      invariant d.State() == old(d.State()).(pos := old(d.pos) + j) && d.seen == old(d.seen)
    {
      var c := d.Get();
      if c < 0 {
        return false;
      }
      j := j + 1;
    }
    return true;
  }

  lemma FirstPart(next: SegmentReader, d: Dec, seen: seq<bit>, gap: nat, gaps: seq<nat>)
    ensures
      DecParts(next, d, seen, [gap] + gaps)
      == match next(d, seen)
         case Err(e) => Err(e)
         case Ok((out, d1, seen1)) =>
           if d1.pos + gap > |d1.src| then Err(UnexpectedEof)
           else Behind([out], DecParts(next, d1.(pos := d1.pos + gap), seen1, gaps))
  {
    assert ([gap] + gaps)[1..] == gaps;
  }

  /** The next segment and the bytes behind it. */
  method NextPart(d: Decoder, gap: nat, ghost gaps: seq<nat>, ghost next: SegmentReader)
    returns (r: Result<seq<byte>, Error>)
    requires d.Valid() && ReadsSegments(next, d.predict)
    modifies d
    ensures r.Ok? ==> d.Valid()
    ensures DecParts(next, old(d.State()), old(d.seen), [gap] + gaps)
         == if r.Ok? then Behind([r.value], DecParts(next, d.State(), d.seen, gaps)) else Err(r.error)
  {
    FirstPart(next, d.State(), d.seen, gap, gaps);
    r := DecompressSegment(d, next);
    if r.Ok? {
      var ok := Pass(d, gap);
      if !ok {
        return Err(UnexpectedEof);
      }
    }
  }

  method DecompressParts(d: Decoder, gaps: seq<nat>, ghost next: SegmentReader)
    returns (r: Result<seq<seq<byte>>, Error>)
    requires d.Valid() && ReadsSegments(next, d.predict)
    modifies d
    ensures r == DecParts(next, old(d.State()), old(d.seen), gaps)
  {
    ghost var whole := DecParts(next, d.State(), d.seen, gaps);
    var outs: seq<seq<byte>> := [];
    var k := 0;
    assert gaps[0..] == gaps;
    BehindNothing(whole);
    while k < |gaps|
      invariant 0 <= k <= |gaps| && d.Valid()
      invariant Behind(outs, DecParts(next, d.State(), d.seen, gaps[k..])) == whole
    {
      assert [gaps[k]] + gaps[k + 1..] == gaps[k..];
      var out := NextPart(d, gaps[k], gaps[k + 1..], next);
      if out.Err? {
        return Err(out.error);
      }
      BehindOneMore(outs, out.value, DecParts(next, d.State(), d.seen, gaps[k + 1..]));
      outs := outs + [out.value];
      k := k + 1;
    }
    assert outs + [] == outs;
    return Ok(outs);
  }

  method DecompressBlock(d: Decoder, gaps: seq<nat>) returns (r: Result<seq<seq<byte>>, Error>)
    requires d.Valid()
    modifies d
    ensures Progresses(DecBit) && r == DecBlock(DecBit, d.predict, old(d.State()), old(d.seen), gaps)
  {
    SegmentsAreRead(d.predict);
    r := DecompressParts(d, gaps, SegmentsOf(DecBit, d.predict));
  }

  /** Every segment of a block comes back, whatever stands between them. */
  method ThereAndBack(predict: Predictor, parts: seq<Part>) returns (out: seq<byte>, r: Result<seq<seq<byte>>, Error>)
    ensures r == Ok(Contents(parts))
  {
    out := CompressBlock(predict, parts);
    var d := new Decoder(out, predict);
    r := DecompressBlock(d, Gaps(parts));
    assert out[0..] == out + [];
    BlockRoundTrip(predict, DecState(FULL, 0, out, 0), [], parts, []);
  }
}
