/** What a receiver refuses (noq-proto/src/packet.rs:35-59, 634-709), and what it reports. */
module PacketErrors {
  import opened Wrappers
  import opened Bytes
  import opened Net
  import opened VarInts
  import opened PacketNumbers
  import opened Packets
  import opened Coalescing

  /** A long-header packet of a version that the receiver does not support is reported with its version
      and both connection IDs, whatever protection did to it and whatever follows it. */
  lemma UnknownVersionIsReported(e: seq<byte>, h: Header, len: nat, rest: seq<byte>, config: Config)
    requires h.Coalescable() && Writable(h) && len < 0x4000 && Carries(e, h, len)
    requires h.version != 0 && h.version !in config.versions
    ensures NewSpec(e + rest, config) == Err(UnsupportedVersion(h.srcCid, h.dstCid, h.version))
  {
    var s, at := e + rest, NumberAt(h);
    var p, tail := PrefixOf(h), Tail(h, len, e[at..] + rest);
    Rejoin(e, at, Fields(h), LengthField(h, len), rest);
    FieldsThenTail(h, len, e[at..] + rest);
    PrefixRoundTrip(p, tail);
    FormBits(s[0], h);
    hide DecodePrefix, EncodePrefix, Fields, Tail, First;
    LongStages(s, p, tail, config);
  }

  /** A Retry of a version that the receiver does not support is reported in the same way. */
  lemma UnknownRetryIsReported(h: Header, payload: seq<byte>, config: Config)
    requires h.Retry? && h.version != 0 && h.version !in config.versions
    ensures NewSpec(EncodeHeader(h) + payload, config) == Err(UnsupportedVersion(h.srcCid, h.dstCid, h.version))
  {
    UnprotectedForm(h);
    UnprotectedDecodes(h, payload, config);
    hide DecodePlain, EncodeHeader;
  }

  /** A packet that is cut off after its header is refused: it is shorter than it says. */
  lemma CutShortIsRefused(e: seq<byte>, h: Header, len: nat, n: nat, config: Config)
    requires h.Coalescable() && Readable(h, config) && len < 0x4000 && Carries(e, h, len) && NumberAt(h) <= n < |e|
    ensures NewSpec(e[..n], config) == Err(InvalidHeader)
  {
    var s, at := e[..n], NumberAt(h);
    assert s[0] == e[0] && s[1..at] == e[1..at];
    Rejoin(s, at, Fields(h), LengthField(h, len), []);
    assert s + [] == s && s[at..] + [] == s[at..];
    hide Fields, LengthField, First, DecodePlain;
    DecodeFieldsLong(s, h, len, s[at..], config);
    NewIsCut(s, PlainOf(h, len), s[at..], config);
  }

  /** Without the fixed bit a packet is refused, unless the receiver has offered to take it. */
  lemma FixedBitIsRequired(s: seq<byte>, config: Config)
    requires s != [] && (s[0] / 64) % 2 == 0 && !config.greaseQuicBit
    ensures NewSpec(s, config) == Err(InvalidHeader)
  {
  }

  /** A packet too short for a header protection sample is refused when it is finished. */
  lemma TooShortToSample(d: PartialDecode, key: HeaderKey)
    requires InRange(d) && key.InPlace() && !d.plain.PlainRetry? && !d.plain.PlainVersionNegotiate?
    requires |d.packet| < d.position + 4 + key.sampleSize
    ensures FinishDecode(d, key) == Err(InvalidHeader)
  {
  }
}
