/**
 Packet headers and coalescing (noq-proto/src/packet.rs), sections 12.2, 17.2 and 17.3 of RFC 9000.

 Header protection and packet protection are abstract keys. The bits of the first byte are read and
 written arithmetically.
 */
module Packets {
  import opened Wrappers
  import opened Bytes
  import opened Net
  import opened VarInts
  import opened PacketNumbers

  datatype LongType = ZeroRtt | Handshake

  datatype Header =
    | Initial(dstCid: ConnectionId, srcCid: ConnectionId, token: seq<byte>, number: PacketNumber, version: u32)
    | Long(ty: LongType, dstCid: ConnectionId, srcCid: ConnectionId, number: PacketNumber, version: u32)
    | Short(spin: bool, keyPhase: bool, dstCid: ConnectionId, number: PacketNumber)
    | Retry(dstCid: ConnectionId, srcCid: ConnectionId, version: u32)
    | VersionNegotiate(random: byte, dstCid: ConnectionId, srcCid: ConnectionId)
  {
    predicate Protected() {
      Initial? || Long? || Short?
    }

    /** Packets that announce their length, so that others may follow. */
    predicate Coalescable() {
      Initial? || Long?
    }
  }

  /** A header as it can be read under header protection; the token is a range of the packet. */
  datatype ProtectedHeader =
    | PlainInitial(dstCid: ConnectionId, srcCid: ConnectionId, tokenStart: nat, tokenEnd: nat, len: VarInt, version: u32)
    | PlainLong(ty: LongType, dstCid: ConnectionId, srcCid: ConnectionId, len: VarInt, version: u32)
    | PlainShort(spin: bool, dstCid: ConnectionId)
    | PlainRetry(dstCid: ConnectionId, srcCid: ConnectionId, version: u32)
    | PlainVersionNegotiate(random: byte, dstCid: ConnectionId, srcCid: ConnectionId)

  datatype PartialDecode = PartialDecode(plain: ProtectedHeader, position: nat, packet: seq<byte>)

  datatype Packet = Packet(header: Header, headerData: seq<byte>, payload: seq<byte>)

  datatype Error = InvalidHeader | UnsupportedVersion(srcCid: ConnectionId, dstCid: ConnectionId, version: u32)

  type CidLen = n: nat | n <= 20

  datatype Config = Config(cidLen: CidLen, versions: set<u32>, greaseQuicBit: bool)

  // ------------------------------------------------------------------ keys

  /** Bits that header protection leaves alone: four of a long header, three of a short one. */
  ghost predicate SameForm(a: byte, b: byte) {
    if b >= 128 then a / 16 == b / 16 else a / 32 == b / 32
  }

  datatype HeaderKey = HeaderKey(encrypt: (nat, seq<byte>) -> seq<byte>, decrypt: (nat, seq<byte>) -> seq<byte>, sampleSize: nat) {
    /** Protection keeps everything between the first byte and the packet number. */
    ghost predicate KeepsFields(offset: nat, p: seq<byte>)
      requires 1 <= offset <= |p|
    {
      var e := encrypt(offset, p);
      |e| == |p| && e != [] && SameForm(e[0], p[0]) && e[1..offset] == p[1..offset]
    }

    /** Both directions work in place. */
    ghost predicate InPlace() {
      forall offset: nat, p: seq<byte> :: |encrypt(offset, p)| == |p| && |decrypt(offset, p)| == |p|
    }

    ghost predicate Lawful() {
      InPlace() &&
      forall offset: nat, p: seq<byte> :: 1 <= offset && offset + 4 + sampleSize <= |p| ==>
        KeepsFields(offset, p) && decrypt(offset, encrypt(offset, p)) == p
    }
  }

  /** Seals a body that ends in room for the tag, authenticating the header. */
  datatype PacketKey = PacketKey(
    seal: (u32, u64, seq<byte>, seq<byte>) -> seq<byte>,
    open: (u32, u64, seq<byte>, seq<byte>) -> Option<seq<byte>>,
    tagLen: nat)
  {
    /** What is sealed under a path, a packet number and a header opens under the same. */
    ghost predicate Lawful() {
      forall path: u32, number: u64, header: seq<byte>, body: seq<byte> :: tagLen <= |body| ==>
        && |seal(path, number, header, body)| == |body|
        && open(path, number, header, seal(path, number, header, body)) == Some(body[..|body| - tagLen])
    }
  }

  /** A key and the path and packet number to use it with. */
  datatype Sealing = Sealing(path: u32, number: u64, key: PacketKey)

  // ------------------------------------------------------------------ encoding

  function TypeBits(ty: LongType): byte {
    match ty
    case ZeroRtt => 0x10
    case Handshake => 0x20
  }

  function First(h: Header): byte {
    match h
    case Initial(_, _, _, number, _) => 0xc0 + number.Tag()
    case Long(ty, _, _, number, _) => 0xc0 + TypeBits(ty) + number.Tag()
    case Short(spin, keyPhase, _, number) => 0x40 + (if spin then 0x20 else 0) + (if keyPhase then 0x04 else 0) + number.Tag()
    case Retry(_, _, _) => 0xf0
    case VersionNegotiate(random, _, _) => 0x80 + random % 0x80
  }

  /** Fields between the first byte and the length, or the packet number if there is no length. */
  function Fields(h: Header): seq<byte>
    requires h.Initial? ==> |h.token| <= MAX_VARINT
  {
    match h
    case Initial(dst, src, token, _, version) =>
      BE(version, 4) + (EncodeLongCid(dst) + (EncodeLongCid(src) + (EncodeVar(|token|) + token)))
    case Long(_, dst, src, _, version) => BE(version, 4) + (EncodeLongCid(dst) + EncodeLongCid(src))
    case Short(_, _, dst, _) => dst
    case Retry(dst, src, version) => BE(version, 4) + (EncodeLongCid(dst) + EncodeLongCid(src))
    case VersionNegotiate(_, dst, src) => BE(0, 4) + (EncodeLongCid(dst) + EncodeLongCid(src))
  }

  /** The length of what follows fits the two bytes kept for it, if there are any. */
  predicate LengthFits(h: Header, len: nat) {
    h.Coalescable() ==> len < 0x4000
  }

  function LengthField(h: Header, len: nat): seq<byte>
    requires LengthFits(h, len)
  {
    if h.Coalescable() then BE(0x4000 + len, 2) else []
  }

  function Number(h: Header): seq<byte> {
    if h.Protected() then EncodeNumber(h.number) else []
  }

  predicate Writable(h: Header) {
    h.Initial? ==> |h.token| <= MAX_VARINT
  }

  /** `Header::encode`: the length is zero for now. */
  function EncodeHeader(h: Header): seq<byte>
    requires Writable(h)
  {
    [First(h)] + (Fields(h) + ((if h.Coalescable() then [0, 0] else []) + Number(h)))
  }

  /** Where the packet number starts. */
  function NumberAt(h: Header): nat
    requires Writable(h)
  {
    1 + |Fields(h)| + if h.Coalescable() then 2 else 0
  }

  /** The two bytes before the packet number get the length of what starts there. */
  function WriteLength(buf: seq<byte>, headerLen: nat, numberLen: nat): (r: seq<byte>)
    requires 2 <= headerLen - numberLen && headerLen <= |buf| && |buf| - headerLen + numberLen < 0x4000
    ensures |r| == |buf|
  {
    var at := headerLen - numberLen;
    buf[..at - 2] + (BE(0x4000 + |buf| - headerLen + numberLen, 2) + buf[at..])
  }

  function SealBody(buf: seq<byte>, headerLen: nat, sealing: Option<Sealing>): (r: seq<byte>)
    requires headerLen <= |buf|
  {
    match sealing
    case None => buf
    case Some(Sealing(path, number, key)) => buf[..headerLen] + key.seal(path, number, buf[..headerLen], buf[headerLen..])
  }

  /** `PartialEncode::finish` on the bytes of one packet: the length, packet protection, then header
      protection. */
  function FinishSpec(buf: seq<byte>, headerLen: nat, numberLen: nat, writeLen: bool, headerKey: HeaderKey, sealing: Option<Sealing>)
    : (r: seq<byte>)
    requires numberLen <= headerLen <= |buf|
    requires writeLen ==> 2 <= headerLen - numberLen && |buf| - headerLen + numberLen < 0x4000
  {
    var lengthened := if writeLen then WriteLength(buf, headerLen, numberLen) else buf;
    headerKey.encrypt(headerLen - numberLen, SealBody(lengthened, headerLen, sealing))
  }

  // ------------------------------------------------------------------ decoding

  /** A header that was read, and what follows it. */
  type Plain = Result<Decoded<ProtectedHeader>, Error>

  function DecodeShort(first: byte, rest: seq<byte>, config: Config): (r: Plain) {
    if |rest| < config.cidLen then Err(InvalidHeader)
    else Ok(Decoded(PlainShort((first / 32) % 2 == 1, rest[..config.cidLen]), rest[config.cidLen..]))
  }

  function DecodeInitial(size: nat, rest: seq<byte>, dst: ConnectionId, src: ConnectionId, version: u32): (r: Plain)
    requires |rest| <= size
  {
    match DecodeVar(rest)
    case None => Err(InvalidHeader)
    case Some(Decoded(tokenLen, afterLen)) =>
      match Take(afterLen, tokenLen)
      case None => Err(InvalidHeader)
      case Some(Decoded(_, afterToken)) =>
        match DecodeVar(afterToken)
        case None => Err(InvalidHeader)
        case Some(Decoded(len, rest')) =>
          var start := size - |afterLen|;
          Ok(Decoded(PlainInitial(dst, src, start, start + tokenLen, len, version), rest'))
  }

  function DecodeStandard(ty: LongType, rest: seq<byte>, dst: ConnectionId, src: ConnectionId, version: u32): (r: Plain) {
    match DecodeVar(rest)
    case None => Err(InvalidHeader)
    case Some(Decoded(len, rest')) => Ok(Decoded(PlainLong(ty, dst, src, len, version), rest'))
  }

  /** A long header after its version and connection IDs. */
  function DecodeLongType(first: byte, size: nat, rest: seq<byte>, dst: ConnectionId, src: ConnectionId, version: u32, config: Config)
    : (r: Plain)
    requires |rest| <= size
  {
    if version == 0 then Ok(Decoded(PlainVersionNegotiate(first % 0x80, dst, src), rest))
    else if version !in config.versions then Err(UnsupportedVersion(src, dst, version))
    else
      match (first / 16) % 4
      case 0 => DecodeInitial(size, rest, dst, src, version)
      case 1 => DecodeStandard(ZeroRtt, rest, dst, src, version)
      case 2 => DecodeStandard(Handshake, rest, dst, src, version)
      case _ => Ok(Decoded(PlainRetry(dst, src, version), rest))
  }

  /** Version and connection IDs. */
  datatype Prefix = Prefix(version: u32, dstCid: ConnectionId, srcCid: ConnectionId)

  function DecodePrefix(rest: seq<byte>): (r: Option<Decoded<Prefix>>) {
    match GetBE(rest, 4)
    case None => None
    case Some(Decoded(version, afterVersion)) =>
      Pow256Values();
      match DecodeLongCid(afterVersion)
      case None => None
      case Some(Decoded(dst, afterDst)) =>
        match DecodeLongCid(afterDst)
        case None => None
        case Some(Decoded(src, afterSrc)) => Some(Decoded(Prefix(version, dst, src), afterSrc))
  }

  function DecodeLong(first: byte, rest: seq<byte>, config: Config): (r: Plain) {
    match DecodePrefix(rest)
    case None => Err(InvalidHeader)
    case Some(Decoded(p, tail)) => DecodeLongType(first, 1 + |rest|, tail, p.dstCid, p.srcCid, p.version, config)
  }

  /** `ProtectedHeader::decode`. */
  function DecodePlain(s: seq<byte>, config: Config): (r: Plain) {
    if s == [] then Err(InvalidHeader)
    else if !config.greaseQuicBit && (s[0] / 64) % 2 == 0 then Err(InvalidHeader)
    else if s[0] < 128 then DecodeShort(s[0], s[1..], config)
    else DecodeLong(s[0], s[1..], config)
  }

  lemma DecodePlainRest(s: seq<byte>, config: Config)
    requires DecodePlain(s, config).Ok?
    ensures |DecodePlain(s, config).value.rest| < |s|
  {
  }

  function PayloadLen(h: ProtectedHeader): Option<VarInt> {
    match h
    case PlainInitial(_, _, _, _, len, _) => Some(len)
    case PlainLong(_, _, _, len, _) => Some(len)
    case _ => None
  }

  /** Cut a datagram where its first header says. */
  function Cut(bytes: seq<byte>, plain: ProtectedHeader, rest: seq<byte>): (r: Result<(PartialDecode, Option<seq<byte>>), Error>)
    requires |rest| <= |bytes|
  {
    var position := |bytes| - |rest|;
    var packetLen := if PayloadLen(plain).Some? then position + PayloadLen(plain).value else |bytes|;
    if |bytes| < packetLen then Err(InvalidHeader)
    else if |bytes| == packetLen then Ok((PartialDecode(plain, position, bytes), None))
    else Ok((PartialDecode(plain, position, bytes[..packetLen]), Some(bytes[packetLen..])))
  }

  /** `PartialDecode::new`: one packet off the front of a datagram. */
  function NewSpec(bytes: seq<byte>, config: Config): (r: Result<(PartialDecode, Option<seq<byte>>), Error>) {
    match DecodePlain(bytes, config)
    case Err(e) => Err(e)
    case Ok(d) =>
      DecodePlainRest(bytes, config);
      Cut(bytes, d.value, d.rest)
  }

  /** Whatever the bytes, a packet and its rest are the datagram, and the packet is not empty. */
  lemma NewSplits(bytes: seq<byte>, config: Config)
    requires NewSpec(bytes, config).Ok?
    ensures var (p, rest) := NewSpec(bytes, config).value;
            && p.packet + (if rest.Some? then rest.value else []) == bytes
            && 0 < p.position <= |p.packet| && (rest.Some? ==> 0 < |rest.value| < |bytes|)
  {
    DecodePlainRest(bytes, config);
  }

  /** The packets of a datagram, up to the first that is malformed, and whether there is one. */
  function SplitSpec(data: seq<byte>, config: Config): (r: (seq<PartialDecode>, bool))
    decreases |data|
  {
    match NewSpec(data, config)
    case Err(_) => ([], false)
    case Ok((d, None)) => ([d], true)
    case Ok((d, Some(rest))) =>
      NewSplits(data, config);
      var (ds, ok) := SplitSpec(rest, config);
      ([d] + ds, ok)
  }

  /** Header protection off, then the packet number at its length. */
  function DecryptHeader(packet: seq<byte>, position: nat, key: HeaderKey): (r: Result<(seq<byte>, PacketNumber), Error>)
    requires key.InPlace()
  {
    if |packet| < position + 4 + key.sampleSize then Err(InvalidHeader)
    else
      var p := key.decrypt(position, packet);
      match DecodeNumber(1 + p[0] % 4, p[position..])
      case None => Err(InvalidHeader)
      case Some(Decoded(number, _)) => Ok((p, number))
  }

  function HeaderOf(plain: ProtectedHeader, p: seq<byte>, number: PacketNumber): (r: Header)
    requires p != []
    requires plain.PlainInitial? ==> plain.tokenStart <= plain.tokenEnd <= |p|
  {
    match plain
    case PlainInitial(dst, src, start, end, _, version) => Initial(dst, src, p[start..end], number, version)
    case PlainLong(ty, dst, src, _, version) => Long(ty, dst, src, number, version)
    case PlainShort(spin, dst) => Short(spin, (p[0] / 4) % 2 == 1, dst, number)
    case PlainRetry(dst, src, version) => Retry(dst, src, version)
    case PlainVersionNegotiate(random, dst, src) => VersionNegotiate(random, dst, src)
  }

  /** What `new` hands to `finish`. */
  predicate InRange(d: PartialDecode) {
    && 0 < d.position <= |d.packet|
    && (d.plain.PlainInitial? ==> d.plain.tokenStart <= d.plain.tokenEnd <= d.position)
  }

  /** `PartialDecode::finish`. */
  function FinishDecode(d: PartialDecode, key: HeaderKey): (r: Result<Packet, Error>)
    requires InRange(d) && key.InPlace()
  {
    if d.plain.PlainRetry? || d.plain.PlainVersionNegotiate? then
      Ok(Packet(HeaderOf(d.plain, d.packet, U8(0)), d.packet[..d.position], d.packet[d.position..]))
    else
      match DecryptHeader(d.packet, d.position, key)
      case Err(e) => Err(e)
      case Ok((p, number)) =>
        var headerLen := d.position + number.Len();
        Ok(Packet(HeaderOf(d.plain, p, number), p[..headerLen], p[headerLen..]))
  }

  lemma NewInRange(bytes: seq<byte>, config: Config)
    requires NewSpec(bytes, config).Ok?
    ensures InRange(NewSpec(bytes, config).value.0)
  {
    DecodePlainRest(bytes, config);
  }

  ghost function Joined(ds: seq<PartialDecode>): seq<byte> {
    if ds == [] then [] else ds[0].packet + Joined(ds[1..])
  }

  /** Whatever arrives, the packets are consecutive pieces of the datagram, none of them empty, and
      all of it if none is malformed. */
  lemma {:induction false} SplitPartitions(data: seq<byte>, config: Config)
    ensures var (ds, ok) := SplitSpec(data, config);
            && Joined(ds) <= data && (ok ==> Joined(ds) == data)
            && |ds| <= |data| && forall i :: 0 <= i < |ds| ==> InRange(ds[i])
    decreases |data|
  {
    if NewSpec(data, config).Ok? {
      NewSplits(data, config);
      NewInRange(data, config);
      var (d, rest) := NewSpec(data, config).value;
      if rest.Some? {
        SplitPartitions(rest.value, config);
        var (ds, ok) := SplitSpec(rest.value, config);
        assert ([d] + ds)[1..] == ds;
      } else {
        assert [d][1..] == [];
      }
    }
  }

  /** Packets already split off, then those of the rest. */
  ghost function After(ds: seq<PartialDecode>, rest: Option<seq<byte>>, config: Config): (seq<PartialDecode>, bool) {
    if rest.None? then (ds, true) else (ds + SplitSpec(rest.value, config).0, SplitSpec(rest.value, config).1)
  }

  lemma SplitOne(bytes: seq<byte>, d: PartialDecode, rest: Option<seq<byte>>, config: Config)
    requires NewSpec(bytes, config) == Ok((d, rest))
    ensures SplitSpec(bytes, config) ==
             if rest.None? then ([d], true) else ([d] + SplitSpec(rest.value, config).0, SplitSpec(rest.value, config).1)
    ensures rest.Some? ==> |rest.value| < |bytes|
  {
    NewSplits(bytes, config);
  }

  lemma AfterOne(ds: seq<PartialDecode>, bytes: seq<byte>, d: PartialDecode, rest: Option<seq<byte>>, config: Config)
    requires SplitSpec(bytes, config) ==
             if rest.None? then ([d], true) else ([d] + SplitSpec(rest.value, config).0, SplitSpec(rest.value, config).1)
    ensures After(ds, Some(bytes), config) == After(ds + [d], rest, config)
  {
    if rest.Some? {
      assert ds + ([d] + SplitSpec(rest.value, config).0) == (ds + [d]) + SplitSpec(rest.value, config).0;
    }
  }

  lemma AfterError(ds: seq<PartialDecode>, bytes: seq<byte>, config: Config)
    requires NewSpec(bytes, config).Err?
    ensures After(ds, Some(bytes), config) == (ds, false)
  {
    assert ds + [] == ds;
  }

  lemma AfterNothing(data: seq<byte>, config: Config)
    ensures After([], Some(data), config) == SplitSpec(data, config)
  {
    assert [] + SplitSpec(data, config).0 == SplitSpec(data, config).0;
  }

  /** The loop of `handle_coalesced`. */
  method Split(data: seq<byte>, config: Config) returns (ds: seq<PartialDecode>, ok: bool)
    ensures (ds, ok) == SplitSpec(data, config)
  {
    ds, ok := [], true;
    var remaining := Some(data);
    ghost var all := SplitSpec(data, config);
    AfterNothing(data, config);
    while remaining.Some?
      invariant After(ds, remaining, config) == all
      decreases if remaining.Some? then |remaining.value| + 1 else 0
    {
      var r := NewSpec(remaining.value, config);
      if r.Err? {
        AfterError(ds, remaining.value, config);
        return ds, false;
      }
      SplitOne(remaining.value, r.value.0, r.value.1, config);
      AfterOne(ds, remaining.value, r.value.0, r.value.1, config);
      ds, remaining := ds + [r.value.0], r.value.1;
    }
  }

  /** `PartialEncode::finish`, in place. */
  method Finish(buf: array<byte>, headerLen: nat, numberLen: nat, writeLen: bool, headerKey: HeaderKey, sealing: Option<Sealing>)
    requires numberLen <= headerLen <= buf.Length
    requires writeLen ==> 2 <= headerLen - numberLen && buf.Length - headerLen + numberLen < 0x4000
    requires headerKey.InPlace()
    requires sealing.Some? ==> sealing.value.key.Lawful() && sealing.value.key.tagLen <= buf.Length - headerLen
    modifies buf
    ensures buf[..] == FinishSpec(old(buf[..]), headerLen, numberLen, writeLen, headerKey, sealing)
  {
    var at := headerLen - numberLen;
    if writeLen {
      var len := 0x4000 + buf.Length - headerLen + numberLen;
      var bytes := BE(len, 2);
      buf[at - 2], buf[at - 1] := bytes[0], bytes[1];
      assert buf[..] == WriteLength(old(buf[..]), headerLen, numberLen);
    }
    ghost var lengthened := buf[..];
    if sealing.Some? {
      var sealed := sealing.value.key.seal(sealing.value.path, sealing.value.number, buf[..headerLen], buf[headerLen..]);
      assert lengthened[..headerLen] == buf[..headerLen] && lengthened[headerLen..] == buf[headerLen..];
      Overwrite(buf, headerLen, sealed);
    }
    assert buf[..] == SealBody(lengthened, headerLen, sealing);
    var protected := headerKey.encrypt(at, buf[..]);
    Overwrite(buf, 0, protected);
  }

  method Overwrite(buf: array<byte>, from: nat, bytes: seq<byte>)
    requires from + |bytes| == buf.Length
    modifies buf
    ensures buf[..] == old(buf[..from]) + bytes
  {
    var i := 0;
    while i < |bytes|
      invariant i <= |bytes|
      invariant buf[..from + i] == old(buf[..from]) + bytes[..i]
    {
      buf[from + i] := bytes[i];
      i := i + 1;
    }
    assert bytes[..i] == bytes && buf[..from + i] == buf[..];
  }
}
