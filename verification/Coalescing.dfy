/**
 Packets on the wire and back (noq-proto/src/packet.rs): every list of packets that may share a
 datagram is recovered from it, whatever the keys.
 */
module Coalescing {
  import opened Wrappers
  import opened Bytes
  import opened Net
  import opened VarInts
  import opened PacketNumbers
  import opened Packets

  // ------------------------------------------------------------------ reading the fields back

  /** The length field takes two bytes, however small the length. */
  lemma TwoByteLength(len: nat, more: seq<byte>)
    requires len < 0x4000
    ensures DecodeVar(BE(0x4000 + len, 2) + more) == Some(Decoded(len, more))
  {
    hide BE, FromBE;
    var s := BE(0x4000 + len, 2) + more;
    Pow256Values();
    BECons(64 + len / 256, len % 256, 1);
    BECons(len / 256, len % 256, 1);
    assert [s[0] % 64] + s[1..2] == BE(len, 2);
    FromBEOfBE(len, 2);
    assert s[2..] == more;
  }

  /** What can be read of a header under protection. */
  function PlainOf(h: Header, len: nat): ProtectedHeader
    requires LengthFits(h, len)
  {
    match h
    case Initial(dst, src, token, _, version) =>
      var start := 1 + 4 + (1 + |dst|) + (1 + |src|) + VarLen(|token|);
      PlainInitial(dst, src, start, start + |token|, len, version)
    case Long(ty, dst, src, _, version) => PlainLong(ty, dst, src, len, version)
    case Short(spin, _, dst, _) => PlainShort(spin, dst)
    case Retry(dst, src, version) => PlainRetry(dst, src, version)
    case VersionNegotiate(random, dst, src) => PlainVersionNegotiate(random, dst, src)
  }

  function VarLen(n: nat): nat {
    if n <= MAX_VARINT then Size(n) else 0
  }

  /** Headers that a receiver with this configuration can tell apart. */
  predicate Readable(h: Header, config: Config) {
    && Writable(h)
    && ((h.Initial? || h.Long? || h.Retry?) ==> h.version != 0 && h.version in config.versions)
    && (h.Short? ==> |h.dstCid| == config.cidLen)
    && (h.VersionNegotiate? ==> h.random < 0x80 && (config.greaseQuicBit || h.random >= 0x40))
  }

  lemma DecodeInitialFields(size: nat, h: Header, len: nat, more: seq<byte>)
    requires h.Initial? && Writable(h) && len < 0x4000
    requires size == 1 + 4 + (1 + |h.dstCid|) + (1 + |h.srcCid|) + Size(|h.token|) + |h.token| + 2 + |more|
    ensures DecodeInitial(size, EncodeVar(|h.token|) + (h.token + (BE(0x4000 + len, 2) + more)), h.dstCid, h.srcCid, h.version) ==
            Ok(Decoded(PlainOf(h, len), more))
  {
    VarRoundTrip(|h.token|, h.token + (BE(0x4000 + len, 2) + more));
    TakeOfConcat(h.token, BE(0x4000 + len, 2) + more);
    TwoByteLength(len, more);
  }

  lemma Assoc5(a: seq<byte>, b: seq<byte>, c: seq<byte>, d: seq<byte>, e: seq<byte>, f: seq<byte>)
    ensures (a + (b + (c + (d + e)))) + f == a + (b + (c + (d + (e + f))))
  {
    Assoc4(a, b, c + (d + e), f);
    Assoc4(c, d, e, f);
  }

  lemma LongBits(a: byte, b: byte)
    requires b >= 128 && a / 16 == b / 16
    ensures a >= 128 && (a / 64) % 2 == (b / 64) % 2 && (a / 16) % 4 == (b / 16) % 4
  {
    assert a / 64 == a / 16 / 4 && b / 64 == b / 16 / 4;
  }

  lemma ShortBits(a: byte, b: byte)
    requires b < 128 && a / 32 == b / 32
    ensures a < 128 && (a / 64) % 2 == (b / 64) % 2 && (a / 32) % 2 == (b / 32) % 2
  {
    assert a / 64 == a / 32 / 2 && b / 64 == b / 32 / 2;
  }

  /** Unmasked bits of the first byte. */
  lemma FormBits(first: byte, h: Header)
    requires SameForm(first, First(h)) && h.Protected()
    ensures (first / 64) % 2 == 1
    ensures first < 128 <==> h.Short?
    ensures h.Initial? ==> (first / 16) % 4 == 0
    ensures h.Long? ==> (first / 16) % 4 == if h.ty.ZeroRtt? then 1 else 2
    ensures h.Short? ==> ((first / 32) % 2 == 1 <==> h.spin)
  {
    if h.Short? {
      ShortBits(first, First(h));
    } else {
      LongBits(first, First(h));
    }
  }

  /** Length, packet number and payload of a packet that announces its length. */
  function Tail(h: Header, len: nat, more: seq<byte>): seq<byte>
    requires h.Coalescable() && Writable(h) && len < 0x4000
  {
    if h.Initial? then EncodeVar(|h.token|) + (h.token + (BE(0x4000 + len, 2) + more)) else BE(0x4000 + len, 2) + more
  }

  function EncodePrefix(p: Prefix, tail: seq<byte>): (r: seq<byte>)
    ensures |r| == 4 + (1 + |p.dstCid|) + (1 + |p.srcCid|) + |tail|
  {
    BE(p.version, 4) + (EncodeLongCid(p.dstCid) + (EncodeLongCid(p.srcCid) + tail))
  }

  function PrefixOf(h: Header): Prefix
    requires h.Coalescable()
  {
    Prefix(h.version, h.dstCid, h.srcCid)
  }

  lemma PrefixRoundTrip(p: Prefix, tail: seq<byte>)
    ensures DecodePrefix(EncodePrefix(p, tail)) == Some(Decoded(p, tail))
  {
    Pow256Values();
    GetBEOfBE(p.version, 4, EncodeLongCid(p.dstCid) + (EncodeLongCid(p.srcCid) + tail));
    LongCidRoundTrip(p.dstCid, EncodeLongCid(p.srcCid) + tail);
    LongCidRoundTrip(p.srcCid, tail);
  }

  lemma FieldsThenTail(h: Header, len: nat, more: seq<byte>)
    requires h.Coalescable() && Writable(h) && len < 0x4000
    ensures Fields(h) + (LengthField(h, len) + more) == EncodePrefix(PrefixOf(h), Tail(h, len, more))
  {
    if h.Initial? {
      Assoc5(BE(h.version, 4), EncodeLongCid(h.dstCid), EncodeLongCid(h.srcCid), EncodeVar(|h.token|), h.token, LengthField(h, len) + more);
    } else {
      Assoc4(BE(h.version, 4), EncodeLongCid(h.dstCid), EncodeLongCid(h.srcCid), LengthField(h, len) + more);
    }
  }

  lemma TailRoundTrip(first: byte, size: nat, h: Header, len: nat, more: seq<byte>, config: Config)
    requires h.Coalescable() && Readable(h, config) && SameForm(first, First(h)) && len < 0x4000
    requires size == 1 + |EncodePrefix(PrefixOf(h), Tail(h, len, more))|
    ensures DecodeLongType(first, size, Tail(h, len, more), h.dstCid, h.srcCid, h.version, config) == Ok(Decoded(PlainOf(h, len), more))
  {
    FormBits(first, h);
    if h.Initial? {
      DecodeInitialFields(size, h, len, more);
    } else {
      TwoByteLength(len, more);
    }
  }

  /** Bytes that hold a prefix and a tail hold the header they hold. */
  lemma DecodeStages(s: seq<byte>, p: Prefix, tail: seq<byte>, plain: Decoded<ProtectedHeader>, config: Config)
    requires s != [] && s[0] >= 128 && (s[0] / 64) % 2 == 1
    requires DecodePrefix(s[1..]) == Some(Decoded(p, tail))
    requires |tail| <= |s| && DecodeLongType(s[0], |s|, tail, p.dstCid, p.srcCid, p.version, config) == Ok(plain)
    ensures DecodePlain(s, config) == Ok(plain)
  {
  }

  lemma DecodeFieldsLong(s: seq<byte>, h: Header, len: nat, more: seq<byte>, config: Config)
    requires h.Coalescable() && Readable(h, config) && len < 0x4000
    requires s != [] && SameForm(s[0], First(h)) && s[1..] == Fields(h) + (LengthField(h, len) + more)
    ensures DecodePlain(s, config) == Ok(Decoded(PlainOf(h, len), more))
  {
    var p, tail := PrefixOf(h), Tail(h, len, more);
    FieldsThenTail(h, len, more);
    PrefixRoundTrip(p, tail);
    TailRoundTrip(s[0], |s|, h, len, more, config);
    FormBits(s[0], h);
    DecodeStages(s, p, tail, Decoded(PlainOf(h, len), more), config);
  }

  lemma DecodeFieldsShort(s: seq<byte>, h: Header, more: seq<byte>, config: Config)
    requires h.Short? && Readable(h, config)
    requires s != [] && SameForm(s[0], First(h)) && s[1..] == h.dstCid + more
    ensures DecodePlain(s, config) == Ok(Decoded(PlainShort(h.spin, h.dstCid), more))
  {
    FormBits(s[0], h);
    var rest := s[1..];
    assert rest[..config.cidLen] == h.dstCid && rest[config.cidLen..] == more;
  }

  // ------------------------------------------------------------------ one packet

  /** A packet before header protection. */
  function Assembled(h: Header, body: seq<byte>): seq<byte>
    requires Writable(h) && LengthFits(h, |body| + |Number(h)|)
  {
    [First(h)] + (Fields(h) + (LengthField(h, |body| + |Number(h)|) + (Number(h) + body)))
  }

  function HeaderBytes(h: Header, bodyLen: nat): seq<byte>
    requires Writable(h) && LengthFits(h, bodyLen + |Number(h)|)
  {
    [First(h)] + (Fields(h) + (LengthField(h, bodyLen + |Number(h)|) + Number(h)))
  }

  lemma Shape(first: byte, a: seq<byte>, b: seq<byte>, c: seq<byte>, d: seq<byte>)
    ensures var p, at := [first] + (a + (b + (c + d))), 1 + |a| + |b|;
            && p[1..at] == a + b && p[at..] == c + d && p[at + |c|..] == d
            && p[..at + |c|] == [first] + (a + (b + c))
  {
    var p, at := [first] + (a + (b + (c + d))), 1 + |a| + |b|;
    assert p == ([first] + (a + b)) + (c + d);
    assert p == ([first] + (a + (b + c))) + d;
  }

  lemma AssembledShape(h: Header, body: seq<byte>)
    requires Writable(h) && LengthFits(h, |body| + |Number(h)|)
    ensures var p, at := Assembled(h, body), NumberAt(h);
            && |p| == at + |Number(h)| + |body| && p[0] == First(h)
            && p[1..at] == Fields(h) + LengthField(h, |body| + |Number(h)|)
            && p[at..] == Number(h) + body
            && p[at + |Number(h)|..] == body
            && p[..at + |Number(h)|] == HeaderBytes(h, |body|)
  {
    hide First, Fields, Number, LengthField;
    LengthFieldSize(h, |body| + |Number(h)|);
    Shape(First(h), Fields(h), LengthField(h, |body| + |Number(h)|), Number(h), body);
  }

  lemma LengthFieldSize(h: Header, len: nat)
    requires LengthFits(h, len)
    ensures |LengthField(h, len)| == if h.Coalescable() then 2 else 0
  {
  }

  lemma Rejoin(e: seq<byte>, at: nat, fields: seq<byte>, length: seq<byte>, rest: seq<byte>)
    requires 1 <= at <= |e| && e[1..at] == fields + length
    ensures (e + rest)[1..] == fields + (length + (e[at..] + rest))
  {
    assert (e + rest)[1..] == e[1..at] + (e[at..] + rest);
  }

  /** A packet to send: its keys, and its body with room for the tag. */
  datatype Item = Item(header: Header, headerKey: HeaderKey, sealing: Option<Sealing>, body: seq<byte>)

  /** The body as it leaves packet protection. */
  function Sealed(item: Item): seq<byte>
    requires Writable(item.header) && LengthFits(item.header, |item.body| + |Number(item.header)|)
  {
    match item.sealing
    case None => item.body
    case Some(Sealing(path, number, key)) => key.seal(path, number, HeaderBytes(item.header, |item.body|), item.body)
  }

  /** A packet that may be sent: protected, small enough for its length field if it has one, and long
      enough for a header protection sample. */
  ghost predicate Sendable(item: Item, config: Config) {
    && item.header.Protected() && Readable(item.header, config)
    && LengthFits(item.header, |item.body| + |Number(item.header)|)
    && item.headerKey.Lawful()
    && (item.sealing.Some? ==> item.sealing.value.key.Lawful() && item.sealing.value.key.tagLen <= |item.body|)
    && 4 + item.headerKey.sampleSize <= |Number(item.header)| + |item.body|
  }

  lemma SealedLength(item: Item, config: Config)
    requires Sendable(item, config)
    ensures |Sealed(item)| == |item.body|
  {
  }

  ghost function OnWire(item: Item, config: Config): (e: seq<byte>)
    requires Sendable(item, config)
  {
    SealedLength(item, config);
    item.headerKey.encrypt(NumberAt(item.header), Assembled(item.header, Sealed(item)))
  }

  /** Bytes, and the header they show. */
  datatype Carried = Carried(e: seq<byte>, h: Header, len: nat)

  ghost predicate Lengthy(c: Carried) {
    Writable(c.h) && LengthFits(c.h, c.len)
  }

  /** What `new` makes of them. */
  ghost function Show(c: Carried): PartialDecode
    requires Lengthy(c)
  {
    PartialDecode(PlainOf(c.h, c.len), NumberAt(c.h), c.e)
  }

  ghost function Carry(item: Item, config: Config): (c: Carried)
    requires Sendable(item, config)
    ensures Lengthy(c)
  {
    Carried(OnWire(item, config), item.header, |item.body| + |Number(item.header)|)
  }

  /** What `finish` makes of the packet: the packet number is what its width keeps of it. */
  ghost function Received(item: Item, config: Config): Packet
    requires Sendable(item, config)
  {
    SealedLength(item, config);
    Packet(item.header.(number := Wire(item.header.number)), HeaderBytes(item.header, |item.body|), Sealed(item))
  }

  /** Bytes that show the fields of a header, then `len` more. */
  ghost predicate Carries(e: seq<byte>, h: Header, len: nat)
    requires Writable(h) && LengthFits(h, len)
  {
    && |e| == NumberAt(h) + len && SameForm(e[0], First(h))
    && e[1..NumberAt(h)] == Fields(h) + LengthField(h, len)
  }

  lemma CarriedDecodes(e: seq<byte>, h: Header, len: nat, rest: seq<byte>, config: Config)
    requires h.Protected() && Readable(h, config) && LengthFits(h, len) && Carries(e, h, len)
    ensures DecodePlain(e + rest, config) == Ok(Decoded(PlainOf(h, len), e[NumberAt(h)..] + rest))
  {
    var at := NumberAt(h);
    Rejoin(e, at, Fields(h), LengthField(h, len), rest);
    if h.Short? {
      assert LengthField(h, len) + (e[at..] + rest) == e[at..] + rest;
      DecodeFieldsShort(e + rest, h, e[at..] + rest, config);
    } else {
      DecodeFieldsLong(e + rest, h, len, e[at..] + rest, config);
    }
  }

  lemma CutsAfterPacket(plain: ProtectedHeader, at: nat, e: seq<byte>, rest: seq<byte>)
    requires at <= |e| && (PayloadLen(plain).Some? ==> at + PayloadLen(plain).value == |e|) && (PayloadLen(plain).None? ==> rest == [])
    ensures Cut(e + rest, plain, e[at..] + rest) == Ok((PartialDecode(plain, at, e), if rest == [] then None else Some(rest)))
  {
    assert (e + rest)[..|e|] == e && (e + rest)[|e|..] == rest;
    assert rest == [] ==> e + rest == e;
  }

  lemma NewIsCut(s: seq<byte>, plain: ProtectedHeader, more: seq<byte>, config: Config)
    requires DecodePlain(s, config) == Ok(Decoded(plain, more)) && |more| <= |s|
    ensures NewSpec(s, config) == Cut(s, plain, more)
  {
  }

  lemma NewCuts(s: seq<byte>, plain: ProtectedHeader, at: nat, e: seq<byte>, rest: seq<byte>, config: Config)
    requires s == e + rest && at <= |e| && DecodePlain(s, config) == Ok(Decoded(plain, e[at..] + rest))
    requires (PayloadLen(plain).Some? ==> at + PayloadLen(plain).value == |e|) && (PayloadLen(plain).None? ==> rest == [])
    ensures NewSpec(s, config) == Ok((PartialDecode(plain, at, e), if rest == [] then None else Some(rest)))
  {
    NewIsCut(s, plain, e[at..] + rest, config);
    CutsAfterPacket(plain, at, e, rest);
  }

  lemma NewFindsCarried(e: seq<byte>, h: Header, len: nat, rest: seq<byte>, config: Config)
    requires h.Protected() && Readable(h, config) && LengthFits(h, len) && Carries(e, h, len)
    requires rest != [] ==> h.Coalescable()
    ensures NewSpec(e + rest, config) == Ok((PartialDecode(PlainOf(h, len), NumberAt(h), e), if rest == [] then None else Some(rest)))
  {
    CarriedDecodes(e, h, len, rest, config);
    NewCuts(e + rest, PlainOf(h, len), NumberAt(h), e, rest, config);
  }

  lemma WireCarries(item: Item, config: Config)
    requires Sendable(item, config)
    ensures Carries(OnWire(item, config), item.header, |item.body| + |Number(item.header)|)
  {
    SealedLength(item, config);
    var h, body := item.header, Sealed(item);
    AssembledShape(h, body);
    assert item.headerKey.KeepsFields(NumberAt(h), Assembled(h, body));
  }

  // ------------------------------------------------------------------ finishing

  lemma NumberBits(h: Header)
    requires h.Protected()
    ensures 1 + First(h) % 4 == h.number.Len() == |Number(h)|
    ensures h.Short? ==> ((First(h) / 4) % 2 == 1 <==> h.keyPhase)
  {
  }

  /** Header protection off: the assembled packet and the packet number. */
  lemma DecryptsHeader(h: Header, body: seq<byte>, key: HeaderKey)
    requires h.Protected() && Writable(h) && LengthFits(h, |body| + |Number(h)|) && key.Lawful()
    requires NumberAt(h) + 4 + key.sampleSize <= |Assembled(h, body)|
    ensures var p := Assembled(h, body);
            DecryptHeader(key.encrypt(NumberAt(h), p), NumberAt(h), key) == Ok((p, Wire(h.number)))
  {
    AssembledShape(h, body);
    NumberBits(h);
    NumberRoundTrip(h.number, body);
    assert key.KeepsFields(NumberAt(h), Assembled(h, body));
  }

  lemma FieldsEndInToken(h: Header)
    requires h.Initial? && Writable(h)
    ensures var before := BE(h.version, 4) + (EncodeLongCid(h.dstCid) + (EncodeLongCid(h.srcCid) + EncodeVar(|h.token|)));
            Fields(h) == before + h.token
  {
    var src, len := EncodeLongCid(h.srcCid), EncodeVar(|h.token|);
    Assoc4(BE(h.version, 4), EncodeLongCid(h.dstCid), src + len, h.token);
    assert (src + len) + h.token == src + (len + h.token);
  }

  lemma Slice(p: seq<byte>, at: nat, a: seq<byte>, b: seq<byte>, c: seq<byte>)
    requires 1 <= at <= |p| && p[1..at] == (a + b) + c
    ensures 1 + |a| + |b| <= at && p[1 + |a|..1 + |a| + |b|] == b
  {
    var q := p[1..at];
    assert |q| == |a| + |b| + |c|;
    forall i | 0 <= i < |b|
      ensures p[1 + |a| + i] == b[i]
    {
      assert q[|a| + i] == b[i];
    }
  }

  lemma TokenInPlace(h: Header, p: seq<byte>, length: seq<byte>)
    requires h.Initial? && Writable(h) && 1 + |Fields(h)| + |length| <= |p|
    requires p[1..1 + |Fields(h)| + |length|] == Fields(h) + length
    ensures var plain := PlainOf(h, 0); plain.tokenEnd <= 1 + |Fields(h)| && p[plain.tokenStart..plain.tokenEnd] == h.token
  {
    FieldsEndInToken(h);
    var before := BE(h.version, 4) + (EncodeLongCid(h.dstCid) + (EncodeLongCid(h.srcCid) + EncodeVar(|h.token|)));
    Slice(p, 1 + |Fields(h)| + |length|, before, h.token, length);
  }

  lemma HeaderInPlace(h: Header, p: seq<byte>, length: seq<byte>, len: nat)
    requires h.Protected() && Writable(h) && LengthFits(h, len) && 1 + |Fields(h)| + |length| <= |p|
    requires p[0] == First(h) && p[1..1 + |Fields(h)| + |length|] == Fields(h) + length
    ensures var plain := PlainOf(h, len);
            && (plain.PlainInitial? ==> plain.tokenStart <= plain.tokenEnd <= 1 + |Fields(h)|)
            && HeaderOf(plain, p, Wire(h.number)) == h.(number := Wire(h.number))
  {
    NumberBits(h);
    if h.Initial? {
      TokenInPlace(h, p, length);
    }
  }

  lemma FinishStages(d: PartialDecode, key: HeaderKey, p: seq<byte>, number: PacketNumber)
    requires InRange(d) && key.InPlace() && !d.plain.PlainRetry? && !d.plain.PlainVersionNegotiate?
    requires |d.packet| == |p| && d.position + 4 <= |p|
    requires DecryptHeader(d.packet, d.position, key) == Ok((p, number))
    ensures FinishDecode(d, key) ==
            Ok(Packet(HeaderOf(d.plain, p, number), p[..d.position + number.Len()], p[d.position + number.Len()..]))
  {
  }

  lemma FinishAssembled(h: Header, body: seq<byte>, key: HeaderKey)
    requires h.Protected() && Writable(h) && LengthFits(h, |body| + |Number(h)|) && key.Lawful()
    requires NumberAt(h) + 4 + key.sampleSize <= |Assembled(h, body)|
    ensures var d := PartialDecode(PlainOf(h, |body| + |Number(h)|), NumberAt(h), key.encrypt(NumberAt(h), Assembled(h, body)));
            InRange(d) && FinishDecode(d, key) == Ok(Packet(h.(number := Wire(h.number)), HeaderBytes(h, |body|), body))
  {
    hide Fields, LengthField, First, DecryptHeader, HeaderOf, EncodeNumber;
    var p, len := Assembled(h, body), |body| + |Number(h)|;
    AssembledShape(h, body);
    DecryptsHeader(h, body, key);
    NumberBits(h);
    HeaderInPlace(h, p, LengthField(h, len), len);
    FinishStages(PartialDecode(PlainOf(h, len), NumberAt(h), key.encrypt(NumberAt(h), p)), key, p, Wire(h.number));
  }

  /** `finish` gives back header, token, packet number and payload. */
  lemma FinishRecovers(item: Item, config: Config)
    requires Sendable(item, config)
    ensures InRange(Show(Carry(item, config))) && FinishDecode(Show(Carry(item, config)), item.headerKey) == Ok(Received(item, config))
  {
    hide Fields, LengthField, First, EncodeNumber, FinishDecode, HeaderBytes, Assembled, PlainOf;
    SealedLength(item, config);
    AssembledShape(item.header, Sealed(item));
    FinishAssembled(item.header, Sealed(item), item.headerKey);
  }

  /** The receiver opens the payload with the packet number it expands from the header it received.
      That is the number the payload was sealed under if and only if what the receiver expects puts it
      in the window of the width that was sent; and then the body comes back. */
  lemma PayloadOpens(item: Item, config: Config, largestAcked: u64, expected: u64)
    requires Sendable(item, config) && item.sealing.Some?
    requires Encodable(item.sealing.value.number, largestAcked) && item.header.number == New(item.sealing.value.number, largestAcked)
    ensures var (packet, sealing) := (Received(item, config), item.sealing.value);
            var inWindow := InWindow(item.header.number.Win(), sealing.number, expected);
            && (Expand(packet.header.number, expected) == sealing.number <==> inWindow)
            && (inWindow ==>
                  sealing.key.open(sealing.path, Expand(packet.header.number, expected), packet.headerData, packet.payload) ==
                  Some(item.body[..|item.body| - sealing.key.tagLen]))
  {
    hide Expand, New, InWindow, Wire;
    NumberSurvivesTheWire(item.sealing.value.number, largestAcked, expected, []);
  }

  // ------------------------------------------------------------------ the sender

  /** Writing the length over the placeholder. */
  lemma Lengthened(first: byte, fields: seq<byte>, placeholder: seq<byte>, length: seq<byte>, number: seq<byte>, body: seq<byte>)
    requires |placeholder| == |length|
    ensures var buf := ([first] + (fields + (placeholder + number))) + body;
            var at := 1 + |fields| + |length|;
            buf[..at - |length|] + (length + buf[at..]) == [first] + (fields + (length + (number + body)))
  {
    var buf := ([first] + (fields + (placeholder + number))) + body;
    assert buf == ([first] + fields) + (placeholder + (number + body));
  }

  lemma WritesLength(h: Header, body: seq<byte>)
    requires h.Coalescable() && Writable(h) && |body| + |Number(h)| < 0x4000
    ensures var header := EncodeHeader(h); WriteLength(header + body, |header|, |Number(h)|) == Assembled(h, body)
  {
    hide First, Fields, BE, EncodeNumber;
    Lengthened(First(h), Fields(h), [0, 0], LengthField(h, |body| + |Number(h)|), Number(h), body);
  }

  lemma ShortIsAssembled(h: Header, body: seq<byte>)
    requires h.Short?
    ensures EncodeHeader(h) + body == Assembled(h, body)
  {
    assert [] + Number(h) == Number(h) && LengthField(h, |body| + |Number(h)|) + (Number(h) + body) == Number(h) + body;
  }

  lemma HeaderThenBody(h: Header, body: seq<byte>)
    requires Writable(h) && LengthFits(h, |body| + |Number(h)|)
    ensures Assembled(h, body) == HeaderBytes(h, |body|) + body
    ensures |HeaderBytes(h, |body|)| == |EncodeHeader(h)|
  {
    Shape(First(h), Fields(h), LengthField(h, |body| + |Number(h)|), Number(h), body);
    var p, n := Assembled(h, body), |HeaderBytes(h, |body|)|;
    assert p == p[..n] + p[n..];
  }

  lemma SealsBody(item: Item, config: Config)
    requires Sendable(item, config)
    ensures |EncodeHeader(item.header)| <= |Assembled(item.header, item.body)| && |Sealed(item)| == |item.body|
    ensures SealBody(Assembled(item.header, item.body), |EncodeHeader(item.header)|, item.sealing) == Assembled(item.header, Sealed(item))
  {
    SealedLength(item, config);
    HeaderThenBody(item.header, item.body);
    HeaderThenBody(item.header, Sealed(item));
    var header := HeaderBytes(item.header, |item.body|);
    assert (header + item.body)[..|header|] == header && (header + item.body)[|header|..] == item.body;
  }

  /** Encoding a header, appending the body and finishing gives the packet on the wire. */
  lemma FinishWritesPacket(item: Item, config: Config)
    requires Sendable(item, config)
    ensures var h := item.header;
            var header := EncodeHeader(h);
            FinishSpec(header + item.body, |header|, |Number(h)|, h.Coalescable(), item.headerKey, item.sealing) == OnWire(item, config)
  {
    hide Fields, LengthField, First, EncodeNumber, HeaderBytes, Assembled, WriteLength, SealBody;
    if item.header.Coalescable() {
      WritesLength(item.header, item.body);
    } else {
      ShortIsAssembled(item.header, item.body);
    }
    SealsBody(item, config);
  }

  // ------------------------------------------------------------------ datagrams

  ghost predicate Good(c: Carried, config: Config) {
    c.h.Protected() && Readable(c.h, config) && LengthFits(c.h, c.len) && Carries(c.e, c.h, c.len)
  }

  ghost predicate AllGood(cs: seq<Carried>, config: Config) {
    forall i :: 0 <= i < |cs| ==> Good(cs[i], config)
  }

  ghost function Datagram(cs: seq<Carried>): seq<byte> {
    if cs == [] then [] else cs[0].e + Datagram(cs[1..])
  }

  ghost function Partials(cs: seq<Carried>, config: Config): seq<PartialDecode>
    requires AllGood(cs, config)
  {
    if cs == [] then []
    else [Show(cs[0])] + Partials(cs[1..], config)
  }

  /** Only the last packet of a datagram may lack a length. */
  ghost predicate InOrder(cs: seq<Carried>) {
    forall i :: 0 <= i < |cs| - 1 ==> cs[i].h.Coalescable()
  }

  lemma {:induction false} SplitsDatagram(cs: seq<Carried>, config: Config)
    requires cs != [] && AllGood(cs, config) && InOrder(cs)
    ensures SplitSpec(Datagram(cs), config) == (Partials(cs, config), true)
    decreases |cs|
  {
    var c, rest := cs[0], Datagram(cs[1..]);
    if |cs| == 1 {
      assert cs[1..] == [];
      NewFindsCarried(c.e, c.h, c.len, rest, config);
      assert Partials(cs, config) == [Show(c)];
    } else {
      assert rest != [] by {
        assert Good(cs[1], config);
      }
      NewFindsCarried(c.e, c.h, c.len, rest, config);
      SplitsDatagram(cs[1..], config);
    }
  }

  lemma {:induction false} PartialsAt(cs: seq<Carried>, config: Config, i: nat)
    requires AllGood(cs, config) && i < |cs|
    ensures |Partials(cs, config)| == |cs|
    ensures Partials(cs, config)[i] == Show(cs[i])
    decreases |cs|
  {
    if |cs| > 1 {
      PartialsAt(cs[1..], config, if i == 0 then 0 else i - 1);
    }
  }

  ghost predicate AllSendable(items: seq<Item>, config: Config) {
    && (forall i :: 0 <= i < |items| ==> Sendable(items[i], config))
    && (forall i :: 0 <= i < |items| - 1 ==> items[i].header.Coalescable())
  }

  ghost function CarryAll(items: seq<Item>, config: Config): (cs: seq<Carried>)
    requires AllSendable(items, config)
  {
    seq(|items|, i requires 0 <= i < |items| => Carry(items[i], config))
  }

  lemma AllCarried(items: seq<Item>, config: Config)
    requires AllSendable(items, config)
    ensures AllGood(CarryAll(items, config), config) && InOrder(CarryAll(items, config))
  {
    hide Carries, OnWire, Number, Writable;
    forall j | 0 <= j < |items|
      ensures Good(Carry(items[j], config), config)
    {
      WireCarries(items[j], config);
    }
  }

  lemma PartialOfItem(items: seq<Item>, config: Config, i: nat)
    requires AllSendable(items, config) && i < |items| && AllGood(CarryAll(items, config), config)
    ensures var ds := Partials(CarryAll(items, config), config); |ds| == |items| && ds[i] == Show(Carry(items[i], config))
  {
    PartialsAt(CarryAll(items, config), config, i);
  }

  /** Packets sent in one datagram, Initial, 0-RTT and Handshake in any order and at most one short
      packet at the end, all arrive: `new` cuts the datagram at their boundaries and `finish` with the
      right key recovers header, token, packet number and payload of each. */
  lemma CoalescedPacketsArrive(items: seq<Item>, config: Config, i: nat)
    requires AllSendable(items, config) && i < |items|
    ensures var (ds, ok) := SplitSpec(Datagram(CarryAll(items, config)), config);
            && ok && |ds| == |items|
            && InRange(ds[i]) && FinishDecode(ds[i], items[i].headerKey) == Ok(Received(items[i], config))
  {
    AllCarried(items, config);
    SplitsDatagram(CarryAll(items, config), config);
    PartialOfItem(items, config, i);
    FinishRecovers(items[i], config);
  }

  // ------------------------------------------------------------------ packets without protection

  ghost predicate Arrives(h: Header, payload: seq<byte>, config: Config, key: HeaderKey)
    requires key.InPlace() && Writable(h)
  {
    var r := NewSpec(EncodeHeader(h) + payload, config);
    r.Ok? && r.value.1.None? && InRange(r.value.0) && FinishDecode(r.value.0, key) == Ok(Packet(h, EncodeHeader(h), payload))
  }

  lemma UnprotectedBytes(h: Header, payload: seq<byte>)
    requires h.Retry? || h.VersionNegotiate?
    ensures var p := Prefix(if h.Retry? then h.version else 0, h.dstCid, h.srcCid);
            EncodeHeader(h) + payload == [First(h)] + EncodePrefix(p, payload)
  {
    var version := if h.Retry? then BE(h.version, 4) else BE(0, 4);
    Assoc4(version, EncodeLongCid(h.dstCid), EncodeLongCid(h.srcCid), payload);
    assert [] + Number(h) == [] && Fields(h) + [] == Fields(h);
    Assoc3([First(h)], Fields(h), payload);
  }

  lemma LongStages(s: seq<byte>, p: Prefix, tail: seq<byte>, config: Config)
    requires s != [] && s[0] >= 128 && (config.greaseQuicBit || (s[0] / 64) % 2 == 1)
    requires DecodePrefix(s[1..]) == Some(Decoded(p, tail)) && |tail| <= |s|
    ensures DecodePlain(s, config) == DecodeLongType(s[0], |s|, tail, p.dstCid, p.srcCid, p.version, config)
  {
    hide DecodePrefix, DecodeLongType;
  }

  lemma UnprotectedForm(h: Header)
    requires h.Retry? || h.VersionNegotiate?
    ensures First(h) >= 128 && (h.Retry? ==> (First(h) / 16) % 4 == 3 && (First(h) / 64) % 2 == 1)
    ensures h.VersionNegotiate? ==> (First(h) % 0x80 == h.random <==> h.random < 0x80)
    ensures h.VersionNegotiate? && h.random < 0x80 ==> ((First(h) / 64) % 2 == 1 <==> h.random >= 0x40)
  {
  }

  ghost function PlainUnprotected(h: Header, config: Config): Result<ProtectedHeader, Error>
    requires h.Retry? || h.VersionNegotiate?
  {
    var version := if h.Retry? then h.version else 0;
    if version == 0 then Ok(PlainVersionNegotiate(First(h) % 0x80, h.dstCid, h.srcCid))
    else if version !in config.versions then Err(UnsupportedVersion(h.srcCid, h.dstCid, version))
    else Ok(PlainRetry(h.dstCid, h.srcCid, version))
  }

  lemma UnprotectedDecodes(h: Header, payload: seq<byte>, config: Config)
    requires h.Retry? || h.VersionNegotiate?
    requires config.greaseQuicBit || (First(h) / 64) % 2 == 1
    ensures DecodePlain(EncodeHeader(h) + payload, config) ==
            match PlainUnprotected(h, config)
            case Ok(plain) => Ok(Decoded(plain, payload))
            case Err(e) => Err(e)
  {
    hide DecodePlain, EncodePrefix, DecodePrefix, DecodeInitial, DecodeStandard, EncodeHeader, First;
    var p := Prefix(if h.Retry? then h.version else 0, h.dstCid, h.srcCid);
    UnprotectedForm(h);
    UnprotectedBytes(h, payload);
    PrefixRoundTrip(p, payload);
    var s := [First(h)] + EncodePrefix(p, payload);
    assert s[1..] == EncodePrefix(p, payload) && s[0] == First(h);
    LongStages(s, p, payload, config);
  }

  lemma UnprotectedFinishes(s: seq<byte>, header: seq<byte>, payload: seq<byte>, plain: ProtectedHeader, config: Config, key: HeaderKey)
    requires s == header + payload && header != [] && key.InPlace() && (plain.PlainRetry? || plain.PlainVersionNegotiate?)
    requires DecodePlain(s, config) == Ok(Decoded(plain, payload))
    ensures var d := PartialDecode(plain, |header|, s);
            && NewSpec(s, config) == Ok((d, None)) && InRange(d)
            && FinishDecode(d, key) == Ok(Packet(HeaderOf(plain, s, U8(0)), header, payload))
  {
    hide DecodePlain;
    NewIsCut(s, plain, payload, config);
    assert s[..|header|] == header && s[|header|..] == payload;
  }

  lemma FixedBitUnset(h: Header, payload: seq<byte>, config: Config)
    requires (h.Retry? || h.VersionNegotiate?) && !config.greaseQuicBit && (First(h) / 64) % 2 == 0
    ensures DecodePlain(EncodeHeader(h) + payload, config) == Err(InvalidHeader)
  {
    assert (EncodeHeader(h) + payload)[0] == First(h);
  }

  lemma HeaderIsNotEmpty(h: Header)
    requires Writable(h)
    ensures EncodeHeader(h) != []
  {
  }

  /** Retry and Version Negotiation packets arrive if and only if the receiver can read them: a Retry
      needs a supported version, a Version Negotiation needs seven random bits and, unless the
      receiver tolerates it, the fixed bit among them. */
  lemma UnprotectedArrivesIff(h: Header, payload: seq<byte>, config: Config, key: HeaderKey)
    requires (h.Retry? || h.VersionNegotiate?) && key.InPlace()
    ensures Arrives(h, payload, config, key) <==> Readable(h, config)
  {
    hide DecodePlain, EncodeHeader, First, FinishDecode;
    var s := EncodeHeader(h) + payload;
    HeaderIsNotEmpty(h);
    UnprotectedForm(h);
    if config.greaseQuicBit || (First(h) / 64) % 2 == 1 {
      UnprotectedDecodes(h, payload, config);
      if PlainUnprotected(h, config).Ok? {
        UnprotectedFinishes(s, EncodeHeader(h), payload, PlainUnprotected(h, config).value, config, key);
      }
    } else {
      FixedBitUnset(h, payload, config);
    }
  }
}
