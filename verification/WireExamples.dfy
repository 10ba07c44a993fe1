/**
 The wire format pinned down byte by byte: the examples of Appendix A of RFC 9000, the layout of long
 headers of its section 17.2, and examples of ACK and STREAM frames of its section 19.
 */
module WireExamples {
  import opened Wrappers
  import opened Bytes
  import opened Net
  import opened VarInts
  import opened PacketNumbers
  import opened Packets
  import R = RangeSets
  import A = Acks
  import F = Frames

  lemma OneByte(n: nat)
    ensures BE(n, 1) == [n % 256]
  {
    assert BE(n / 256, 0) == [];
  }

  lemma TwoBytes(n: nat)
    ensures BE(n, 2) == [n / 256 % 256, n % 256]
  {
    OneByte(n / 256);
  }

  lemma FourBytes(n: nat)
    ensures BE(n, 4) == [n / 256 / 256 / 256 % 256, n / 256 / 256 % 256, n / 256 % 256, n % 256]
  {
    TwoBytes(n / 256 / 256);
    assert BE(n / 256, 3) == BE(n / 256 / 256, 2) + [n / 256 % 256];
  }

  /** Sample variable-length integers, appendix A.1. */
  lemma VarIntExamples()
    ensures EncodeVar(37) == [0x25]
    ensures EncodeVar(15293) == [0x7b, 0xbd]
    ensures EncodeVar(494878333) == [0x9d, 0x7f, 0x3e, 0x7d]
    ensures DecodeVar([0x40, 0x25]) == Some(Decoded(37, []))
  {
    OneByte(37);
    TwoBytes(0x4000 + 15293);
    FourBytes(0x8000_0000 + 494878333);
    var s: seq<byte> := [0x40, 0x25];
    assert [s[0] % 64] + s[1..2] == [0, 0x25];
    assert [0, 0x25][..1] == [0] && FromBE([0]) == FromBE([]) * 256 + 0;
    assert s[2..] == [];
  }

  lemma LongVarIntExample()
    ensures EncodeVar(151288809941952652) == [0xc2, 0x19, 0x7c, 0x5e, 0xff, 0x14, 0xe8, 0x8c]
  {
    var n := 0xc000_0000_0000_0000 + 151288809941952652;
    assert n == 0xc2197c5eff14e88c;
    FourBytes(0xc2197c5e);
    assert BE(0xc2197c5eff, 5) == BE(0xc2197c5e, 4) + [0xff];
    assert BE(0xc2197c5eff14, 6) == BE(0xc2197c5eff, 5) + [0x14];
    assert BE(0xc2197c5eff14e8, 7) == BE(0xc2197c5eff14, 6) + [0xe8];
    assert BE(0xc2197c5eff14e88c, 8) == BE(0xc2197c5eff14e8, 7) + [0x8c];
  }

  /** Sample packet numbers, appendices A.2 and A.3. */
  lemma PacketNumberExamples()
    ensures New(0xac5c02, 0xabe8b3) == U16(0x5c02)
    ensures New(0xace8fe, 0xabe8b3).U24? && Wire(New(0xace8fe, 0xabe8b3)) == U24(0xace8fe)
    ensures Expand(U16(0x9b32), 0xa82f30eb) == 0xa82f9b32
  {
  }

  /** Packet numbers 0, 1 and 5, with a delay of 7: the largest, the delay, one further range, a first
      range of one number, a gap of two, and a range of two numbers. */
  lemma AckExample()
    ensures var rs := [R.Range(0, 2), R.Range(5, 6)];
            A.AckSet(rs) && A.EncodeAck(7, rs) == [5, 7, 1, 0, 2, 1]
  {
    var rs := [R.Range(0, 2), R.Range(5, 6)];
    assert rs[..1] == [R.Range(0, 2)];
    OneByte(5);
    OneByte(7);
    OneByte(1);
    OneByte(0);
    OneByte(2);
    assert A.BlockBytes(rs[..1]) == [1] by {
      assert rs[..1][..0] == [];
    }
    assert A.BlockBytes(rs) == [0] + ([2] + [1]);
  }

  /** One byte at offset 1 of stream 4, which ends there, with a length: all three flags are set. */
  lemma StreamExample()
    ensures F.EncodeStream(F.StreamData(4, 1, true, [0xaa]), true) == [0x0f, 4, 1, 1, 0xaa]
    ensures F.EncodeStream(F.StreamData(4, 0, false, [0xaa]), false) == [0x08, 4, 0xaa]
  {
    OneByte(0x0f);
    OneByte(0x08);
    OneByte(4);
    OneByte(1);
  }

  function TokenField(h: Header): seq<byte>
    requires Writable(h)
  {
    if h.Initial? then EncodeVar(|h.token|) + h.token else []
  }

  lemma LongFields(h: Header)
    requires (h.Initial? || h.Long?) && Writable(h)
    ensures Fields(h) == BE(h.version, 4) + (EncodeLongCid(h.dstCid) + (EncodeLongCid(h.srcCid) + TokenField(h)))
  {
    hide BE, EncodeVar, EncodeLongCid;
    assert EncodeLongCid(h.srcCid) + [] == EncodeLongCid(h.srcCid);
  }

  lemma SliceOfCid(s: seq<byte>, at: nat, cid: ConnectionId)
    requires at + 1 + |cid| <= |s| && s[at..at + 1 + |cid|] == EncodeLongCid(cid)
    ensures s[at] == |cid| && s[at + 1..at + 1 + |cid|] == cid
  {
    var b := s[at..at + 1 + |cid|];
    assert b[0] == |cid| && b[1..] == cid;
    assert s[at + 1..at + 1 + |cid|] == b[1..];
  }

  /** Where the fields of a long header lie: form, fixed and type bits and the length of the packet
      number in the first byte, then version, destination and source CID. */
  lemma LongHeaderLayout(h: Header)
    requires (h.Initial? || h.Long?) && Writable(h)
    ensures var s, d, n := EncodeHeader(h), |h.dstCid|, |h.srcCid|;
            && |s| >= 7 + d + n
            && s[0] == 0xc0 + (if h.Initial? then 0x00 else if h.ty.ZeroRtt? then 0x10 else 0x20) + (h.number.Len() - 1)
            && s[1..5] == [h.version / 256 / 256 / 256 % 256, h.version / 256 / 256 % 256, h.version / 256 % 256, h.version % 256]
            && s[5] == d && s[6..6 + d] == h.dstCid && s[6 + d] == n && s[7 + d..7 + d + n] == h.srcCid
  {
    hide Fields, BE, EncodeVar, EncodeNumber, TokenField, Number, EncodeLongCid;
    FourBytes(h.version);
    LongFields(h);
    var s, a, b, c := EncodeHeader(h), BE(h.version, 4), EncodeLongCid(h.dstCid), EncodeLongCid(h.srcCid);
    CidFieldSize(h.dstCid);
    CidFieldSize(h.srcCid);
    Placed([First(h)], a, b, c, TokenField(h), [0, 0] + Number(h));
    SliceOfCid(s, 5, h.dstCid);
    SliceOfCid(s, 6 + |h.dstCid|, h.srcCid);
  }

  lemma CidFieldSize(cid: ConnectionId)
    ensures |EncodeLongCid(cid)| == 1 + |cid|
  {
  }

  lemma Placed(first: seq<byte>, a: seq<byte>, b: seq<byte>, c: seq<byte>, rest: seq<byte>, tail: seq<byte>)
    requires |first| == 1 && |a| == 4
    ensures var s := first + ((a + (b + (c + rest))) + tail);
            && s[0] == first[0] && s[1..5] == a
            && |s| >= 5 + |b| + |c|
            && s[5..5 + |b|] == b && s[5 + |b|..5 + |b| + |c|] == c
  {
    var s := first + ((a + (b + (c + rest))) + tail);
    assert s == first + (a + (b + (c + (rest + tail))));
  }
}
