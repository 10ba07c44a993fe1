/** ACK ranges on the wire (noq-proto/src/frame.rs), section 19.3.1 of RFC 9000. */
module Acks {
  import opened Wrappers
  import opened Bytes
  import opened VarInts
  import opened RangeSets

  datatype IterErr = UnexpectedEnd | InvalidFrameId | Malformed

  /** A non-empty set of packet numbers below 2^62. */
  ghost predicate AckSet(rs: seq<Range>) {
    rs != [] && Canonical(rs) && rs[|rs| - 1].end <= 0x4000_0000_0000_0000
  }

  lemma {:induction false} AckSetSize(rs: seq<Range>)
    requires Canonical(rs) && rs != []
    ensures 2 * |rs| - 1 <= rs[|rs| - 1].end
    decreases |rs|
  {
    if |rs| > 1 {
      AckSetSize(rs[..|rs| - 1]);
    }
  }

  // ------------------------------------------------------------------ encoding

  /** Blocks from the largest down: each one's size, and the gap to the next. */
  function BlockBytes(rs: seq<Range>): seq<byte>
    requires AckSet(rs)
    decreases |rs|
  {
    var b, init := rs[|rs| - 1], rs[..|rs| - 1];
    if init == [] then EncodeVar(b.end - b.start - 1)
    else
      var next := init[|init| - 1];
      EncodeVar(b.end - b.start - 1) + (EncodeVar(b.start - next.end - 1) + BlockBytes(init))
  }

  function EncodeBlocks(rs: seq<Range>): seq<byte>
    requires AckSet(rs)
  {
    AckSetSize(rs);
    EncodeVar(|rs| - 1) + BlockBytes(rs)
  }

  /** Largest, delay, count and blocks, as in every kind of ACK frame. */
  function EncodeAck(delay: VarInt, rs: seq<Range>): seq<byte>
    requires AckSet(rs)
  {
    EncodeVar(rs[|rs| - 1].end - 1) + (EncodeVar(delay) + EncodeBlocks(rs))
  }

  function SizeBytes(rs: seq<Range>, i: nat): seq<byte>
    requires AckSet(rs) && i < |rs|
  {
    EncodeVar(rs[i].end - rs[i].start - 1)
  }

  /** The gap below block `i`. */
  function GapBytes(rs: seq<Range>, i: nat): seq<byte>
    requires AckSet(rs) && 0 < i < |rs|
  {
    EncodeVar(rs[i].start - rs[i - 1].end - 1)
  }

  /** The blocks from the largest down to block `i`. */
  function Written(rs: seq<Range>, i: nat): seq<byte>
    requires AckSet(rs) && i < |rs|
    decreases |rs| - i
  {
    if i == |rs| - 1 then SizeBytes(rs, i) else Written(rs, i + 1) + GapBytes(rs, i + 1) + SizeBytes(rs, i)
  }

  lemma BlockBytesAt(rs: seq<Range>, i: nat)
    requires AckSet(rs) && i < |rs|
    ensures AckSet(rs[..i + 1])
    ensures i > 0 ==> AckSet(rs[..i]) && BlockBytes(rs[..i + 1]) == SizeBytes(rs, i) + (GapBytes(rs, i) + BlockBytes(rs[..i]))
    ensures i == 0 ==> BlockBytes(rs[..1]) == SizeBytes(rs, 0)
  {
    assert rs[..i + 1][..i] == rs[..i];
  }

  lemma {:induction false} WrittenSoFar(rs: seq<Range>, i: nat)
    requires AckSet(rs) && 0 < i < |rs|
    ensures AckSet(rs[..i]) && Written(rs, i) + (GapBytes(rs, i) + BlockBytes(rs[..i])) == BlockBytes(rs)
    decreases |rs| - i
  {
    BlockBytesAt(rs, i);
    if i == |rs| - 1 {
      assert rs[..i + 1] == rs;
    } else {
      WrittenSoFar(rs, i + 1);
      Assoc4(Written(rs, i + 1), GapBytes(rs, i + 1), SizeBytes(rs, i), GapBytes(rs, i) + BlockBytes(rs[..i]));
    }
  }

  lemma WrittenAll(rs: seq<Range>)
    requires AckSet(rs)
    ensures Written(rs, 0) == BlockBytes(rs)
  {
    BlockBytesAt(rs, 0);
    if |rs| > 1 {
      WrittenSoFar(rs, 1);
      Assoc3(Written(rs, 1), GapBytes(rs, 1), SizeBytes(rs, 0));
    } else {
      assert rs[..1] == rs;
    }
  }

  /** The loop of both encoders, over the ranges in reverse. */
  method WriteBlocks(buf: seq<byte>, rs: seq<Range>) returns (out: seq<byte>)
    requires AckSet(rs)
    ensures out == buf + EncodeBlocks(rs)
  {
    AckSetSize(rs);
    var first := rs[|rs| - 1];
    out := buf + EncodeVar(|rs| - 1);
    ghost var head := out;
    out := out + EncodeVar(first.end - first.start - 1);
    var prev, i: nat := first.start, |rs| - 1;
    while i > 0
      invariant i < |rs| && prev == rs[i].start
      invariant out == head + Written(rs, i)
    {
      var block := rs[i - 1];
      out := out + EncodeVar(prev - block.end - 1);
      out := out + EncodeVar(block.end - block.start - 1);
      Assoc4(head, Written(rs, i), GapBytes(rs, i), SizeBytes(rs, i - 1));
      Assoc3(Written(rs, i), GapBytes(rs, i), SizeBytes(rs, i - 1));
      prev, i := block.start, i - 1;
    }
    WrittenAll(rs);
    Assoc3(buf, EncodeVar(|rs| - 1), BlockBytes(rs));
  }

  // ------------------------------------------------------------------ decoding

  datatype Turn = Done(result: Result<Decoded<seq<Range>>, IterErr>) | Next(rest: seq<byte>, largest: nat, out: seq<Range>)

  /** One turn of the loop of `read_ack_blocks`: a block, and the gap below it unless it is the last. */
  function ReadBlock(s: seq<byte>, largest: nat, last: bool, out: seq<Range>): (t: Turn)
    ensures t.Next? ==> !last && |t.rest| + 1 < |s|
  {
    match DecodeVar(s)
    case None => Done(Err(UnexpectedEnd))
    case Some(Decoded(v, s1)) =>
      var range: nat := v + 1;
      if largest + 1 < range then Done(Err(Malformed))
      else
        var out' := InsertSpec(out, Range(largest + 1 - range, largest + 1));
        if last then Done(Ok(Decoded(out', s1)))
        else
          match DecodeVar(s1)
          case None => Done(Err(UnexpectedEnd))
          case Some(Decoded(gap, s2)) =>
            if largest < gap + 1 + range then Done(Err(Malformed)) else Next(s2, largest - (gap + 1 + range), out')
  }

  /** The rest of the loop: one block, then `more` others. */
  function ReadFrom(s: seq<byte>, largest: nat, more: nat, out: seq<Range>): (r: Result<Decoded<seq<Range>>, IterErr>)
    decreases |s|
  {
    match ReadBlock(s, largest, more == 0, out)
    case Done(r) => r
    case Next(rest, largest', out') => ReadFrom(rest, largest', more - 1, out')
  }

  function ReadBlocks(s: seq<byte>, largest: VarInt): (r: Result<Decoded<seq<Range>>, IterErr>) {
    match DecodeVar(s)
    case None => Err(UnexpectedEnd)
    case Some(Decoded(count, rest)) => ReadFrom(rest, largest, count, [])
  }

  method ReadOneBlock(s: seq<byte>, largest: nat, last: bool, out: ArrayRangeSet)
    returns (rest: Result<Option<(seq<byte>, nat)>, IterErr>, left: seq<byte>)
    requires Canonical(out.ranges)
    modifies out
    ensures Canonical(out.ranges)
    ensures ReadBlock(s, largest, last, old(out.ranges)) ==
            match rest
            case Err(e) => Done(Err(e))
            case Ok(None) => Done(Ok(Decoded(out.ranges, left)))
            case Ok(Some((s', largest'))) => Next(s', largest', out.ranges)
  {
    left := [];
    var size := DecodeVar(s);
    if size.None? {
      return Err(UnexpectedEnd), left;
    }
    var range := size.value.value as int + 1;
    if largest + 1 < range {
      return Err(Malformed), left;
    }
    var _ := out.Insert(Range(largest + 1 - range, largest + 1));
    if last {
      return Ok(None), size.value.rest;
    }
    var gap := DecodeVar(size.value.rest);
    if gap.None? {
      return Err(UnexpectedEnd), left;
    }
    var blockToBlock := gap.value.value as int + 1 + range;
    if largest < blockToBlock {
      return Err(Malformed), left;
    }
    return Ok(Some((gap.value.rest, largest - blockToBlock))), left;
  }

  /** `read_ack_blocks`: whatever count is claimed, at most one block is read per byte. */
  method ReadAckBlocks(s: seq<byte>, largest: VarInt) returns (r: Result<Decoded<seq<Range>>, IterErr>, ghost rounds: nat)
    ensures r == ReadBlocks(s, largest)
    ensures rounds <= |s|
  {
    rounds := 0;
    var count := DecodeVar(s);
    if count.None? {
      return Err(UnexpectedEnd), 0;
    }
    var buf := count.value.rest;
    var top: nat := largest;
    var left: nat := count.value.value;
    var out := new ArrayRangeSet();
    while true
      invariant fresh(out) && Canonical(out.ranges)
      invariant ReadFrom(buf, top, left, out.ranges) == ReadBlocks(s, largest)
      invariant rounds + |buf| < |s|
      decreases |buf|
    {
      rounds := rounds + 1;
      var turn, rest := ReadOneBlock(buf, top, left == 0, out);
      match turn
      case Err(e) => return Err(e), rounds;
      case Ok(None) => return Ok(Decoded(out.ranges, rest)), rounds;
      case Ok(Some((buf', top'))) => buf, top, left := buf', top', left - 1;
    }
  }

  // ------------------------------------------------------------------ what is accepted

  /** Everything read so far lies above what is still to come, with a gap. */
  ghost predicate Above(out: seq<Range>, largest: nat) {
    Canonical(out) && (out != [] ==> largest + 1 < out[0].start)
  }

  lemma BlockBelow(out: seq<Range>, largest: nat, range: nat)
    requires Above(out, largest) && 0 < range <= largest + 1
    ensures InsertSpec(out, Range(largest + 1 - range, largest + 1)) == [Range(largest + 1 - range, largest + 1)] + out
    ensures Canonical([Range(largest + 1 - range, largest + 1)] + out)
  {
  }

  /** `out'` is `out` with one more block below it, up to `largest`. */
  ghost predicate OneMore(out': seq<Range>, out: seq<Range>, largest: nat) {
    out' != [] && out'[1..] == out && out'[0].end == largest + 1 && Canonical(out')
  }

  /** An accepted turn adds one block, and leaves a gap below it if there are more to come. */
  lemma AcceptedTurn(s: seq<byte>, largest: nat, last: bool, out: seq<Range>)
    requires Above(out, largest)
    ensures var t := ReadBlock(s, largest, last, out);
            && (t.Done? && t.result.Ok? ==> last && OneMore(t.result.value.value, out, largest) && |t.result.value.rest| < |s|)
            && (t.Next? ==> OneMore(t.out, out, largest) && Above(t.out, t.largest))
  {
    hide DecodeVar, InsertSpec, Canonical;
    if DecodeVar(s).Some? {
      var range := DecodeVar(s).value.value + 1;
      if range <= largest + 1 {
        BlockBelow(out, largest, range);
        assert ([Range(largest + 1 - range, largest + 1)] + out)[1..] == out;
      }
    }
  }

  lemma {:induction false} AcceptedFrom(s: seq<byte>, largest: nat, more: nat, out: seq<Range>)
    requires Above(out, largest)
    ensures var r := ReadFrom(s, largest, more, out);
            r.Ok? ==>
              && Canonical(r.value.value) && |r.value.value| == more + 1 + |out|
              && r.value.value[more + 1..] == out && r.value.value[more].end == largest + 1
              && |r.value.rest| + more + 1 <= |s|
    decreases |s|
  {
    hide ReadBlock, Canonical, Above;
    var t, r := ReadBlock(s, largest, more == 0, out), ReadFrom(s, largest, more, out);
    AcceptedTurn(s, largest, more == 0, out);
    if t.Next? && r.Ok? {
      AcceptedFrom(t.rest, t.largest, more - 1, t.out);
      var d := r.value.value;
      assert d[more] == d[more..][0];
      assert d[more + 1..] == d[more..][1..];
    }
  }

  /** On arbitrary bytes: an accepted list is sorted, disjoint and non-adjacent, has as many blocks as
      announced, tops out at `largest`, and took at least a byte per block. */
  lemma AcceptedBlocks(s: seq<byte>, largest: VarInt)
    ensures var r := ReadBlocks(s, largest);
            r.Ok? ==>
              && AckSet(r.value.value) && r.value.value[|r.value.value| - 1].end == largest + 1
              && DecodeVar(s).Some? && |r.value.value| == DecodeVar(s).value.value + 1
              && |r.value.rest| + |r.value.value| < |s|
  {
    hide DecodeVar, ReadFrom;
    if ReadBlocks(s, largest).Ok? {
      var d := DecodeVar(s).value;
      AcceptedFrom(d.rest, largest, d.value, []);
    }
  }

  // ------------------------------------------------------------------ round trip

  ghost predicate Block(b: Range) {
    b.start < b.end <= 0x4000_0000_0000_0000
  }

  lemma LastBlock(b: Range, out: seq<Range>, rest: seq<byte>)
    requires Block(b) && Above(out, b.end - 1)
    ensures ReadBlock(EncodeVar(b.end - b.start - 1) + rest, b.end - 1, true, out) == Done(Ok(Decoded([b] + out, rest)))
  {
    BlockBelow(out, b.end - 1, b.end - b.start);
    VarRoundTrip(b.end - b.start - 1, rest);
  }

  lemma InnerBlock(b: Range, next: Range, out: seq<Range>, more: seq<byte>)
    requires Block(b) && next.start < next.end < b.start && Above(out, b.end - 1)
    ensures ReadBlock(EncodeVar(b.end - b.start - 1) + (EncodeVar(b.start - next.end - 1) + more), b.end - 1, false, out) ==
            Next(more, next.end - 1, [b] + out)
  {
    BlockBelow(out, b.end - 1, b.end - b.start);
    VarRoundTrip(b.end - b.start - 1, EncodeVar(b.start - next.end - 1) + more);
    VarRoundTrip(b.start - next.end - 1, more);
  }

  lemma ReadsLast(b: Range, out: seq<Range>, rest: seq<byte>)
    requires Block(b) && Above(out, b.end - 1)
    ensures ReadFrom(EncodeVar(b.end - b.start - 1) + rest, b.end - 1, 0, out) == Ok(Decoded([b] + out, rest))
  {
    LastBlock(b, out, rest);
  }

  lemma Continues(s: seq<byte>, largest: nat, n: nat, out: seq<Range>, t: Turn)
    requires n > 0 && t == ReadBlock(s, largest, false, out) && t.Next?
    ensures ReadFrom(s, largest, n, out) == ReadFrom(t.rest, t.largest, n - 1, t.out)
  {
  }

  lemma ReadsInner(b: Range, next: Range, out: seq<Range>, more: seq<byte>, n: nat)
    requires Block(b) && next.start < next.end < b.start && Above(out, b.end - 1) && n > 0
    ensures ReadFrom(EncodeVar(b.end - b.start - 1) + (EncodeVar(b.start - next.end - 1) + more), b.end - 1, n, out) ==
            ReadFrom(more, next.end - 1, n - 1, [b] + out)
  {
    hide DecodeVar, EncodeVar, InsertSpec;
    InnerBlock(b, next, out, more);
    var s := EncodeVar(b.end - b.start - 1) + (EncodeVar(b.start - next.end - 1) + more);
    Continues(s, b.end - 1, n, out, Next(more, next.end - 1, [b] + out));
  }

  /** The largest block and those below it. */
  lemma Largest(rs: seq<Range>, out: seq<Range>)
    requires AckSet(rs) && Above(out, rs[|rs| - 1].end - 1)
    ensures var b, init := rs[|rs| - 1], rs[..|rs| - 1];
            && Block(b) && rs + out == init + ([b] + out)
            && (init != [] ==> AckSet(init) && init[|init| - 1].end < b.start && Above([b] + out, init[|init| - 1].end - 1))
  {
  }

  lemma ReadsOnlyBlock(rs: seq<Range>, out: seq<Range>, rest: seq<byte>)
    requires |rs| == 1 && AckSet(rs) && Above(out, rs[0].end - 1)
    ensures ReadFrom(BlockBytes(rs) + rest, rs[0].end - 1, 0, out) == Ok(Decoded(rs + out, rest))
  {
    Largest(rs, out);
    ReadsLast(rs[0], out, rest);
    assert rs[..0] == [] && rs + out == [rs[0]] + out;
  }

  lemma ReadsLargestBlock(rs: seq<Range>, out: seq<Range>, rest: seq<byte>)
    requires |rs| > 1 && AckSet(rs) && Above(out, rs[|rs| - 1].end - 1)
    ensures var b, init := rs[|rs| - 1], rs[..|rs| - 1];
            && AckSet(init)
            && ReadFrom(BlockBytes(rs) + rest, b.end - 1, |rs| - 1, out) ==
               ReadFrom(BlockBytes(init) + rest, init[|init| - 1].end - 1, |init| - 1, [b] + out)
  {
    hide DecodeVar, EncodeVar, InsertSpec, ReadBlock, ReadFrom;
    var b, init := rs[|rs| - 1], rs[..|rs| - 1];
    var next := init[|init| - 1];
    Largest(rs, out);
    Assoc4(EncodeVar(b.end - b.start - 1), EncodeVar(b.start - next.end - 1), BlockBytes(init), rest);
    ReadsInner(b, next, out, BlockBytes(init) + rest, |rs| - 1);
  }

  lemma {:induction false} ReadsBlocksBack(rs: seq<Range>, out: seq<Range>, rest: seq<byte>)
    requires AckSet(rs) && Above(out, rs[|rs| - 1].end - 1)
    ensures ReadFrom(BlockBytes(rs) + rest, rs[|rs| - 1].end - 1, |rs| - 1, out) == Ok(Decoded(rs + out, rest))
    decreases |rs|
  {
    hide ReadFrom, BlockBytes;
    if |rs| == 1 {
      ReadsOnlyBlock(rs, out, rest);
    } else {
      Largest(rs, out);
      ReadsLargestBlock(rs, out, rest);
      ReadsBlocksBack(rs[..|rs| - 1], [rs[|rs| - 1]] + out, rest);
    }
  }

  function DecodeAck(s: seq<byte>): (r: Result<Decoded<(VarInt, VarInt, seq<Range>)>, IterErr>) {
    match DecodeVar(s)
    case None => Err(UnexpectedEnd)
    case Some(Decoded(largest, s1)) =>
      match DecodeVar(s1)
      case None => Err(UnexpectedEnd)
      case Some(Decoded(delay, s2)) =>
        match ReadBlocks(s2, largest)
        case Err(e) => Err(e)
        case Ok(Decoded(ranges, rest)) => Ok(Decoded((largest, delay, ranges), rest))
  }

  /** Every non-empty set of packet numbers comes back, with its maximum as `largest`. */
  lemma AckRoundTrip(delay: VarInt, rs: seq<Range>, rest: seq<byte>)
    requires AckSet(rs)
    ensures DecodeAck(EncodeAck(delay, rs) + rest) == Ok(Decoded((rs[|rs| - 1].end - 1, delay, rs), rest))
  {
    AckSetSize(rs);
    var largest := rs[|rs| - 1].end - 1;
    var blocks := EncodeVar(|rs| - 1) + (BlockBytes(rs) + rest);
    assert EncodeAck(delay, rs) + rest == EncodeVar(largest) + (EncodeVar(delay) + blocks);
    VarRoundTrip(largest, EncodeVar(delay) + blocks);
    VarRoundTrip(delay, blocks);
    VarRoundTrip(|rs| - 1, BlockBytes(rs) + rest);
    ReadsBlocksBack(rs, [], rest);
    assert rs + [] == rs;
  }

  /** `largest` is the maximum of the set. */
  lemma LargestIsMaximum(rs: seq<Range>)
    requires AckSet(rs)
    ensures Has(rs, rs[|rs| - 1].end - 1) && forall x: nat :: Has(rs, x) ==> x <= rs[|rs| - 1].end - 1
  {
    assert In(rs[|rs| - 1], rs[|rs| - 1].end - 1);
  }
}
