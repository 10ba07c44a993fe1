/**
 The frames as records, and the encoders of noq-proto/src/frame.rs, each written after its own
 `Encodable` implementation.  The reader of module Frames has its own list of fields for each type;
 here the two are shown to agree, and so lists of records survive the wire.
 */
module FrameCodecs {
  import opened Wrappers
  import opened Bytes
  import opened Net
  import opened VarInts
  import R = RangeSets
  import A = Acks
  import T = FrameTypes
  import opened F = Frames

  type PathId = n: nat | n < 0x1_0000_0000

  datatype Dir = Bi | Uni

  datatype EcnCounts = EcnCounts(ect0: VarInt, ect1: VarInt, ce: VarInt)

  datatype Message =
    | Padding | Ping | HandshakeDone | ImmediateAck
    | Ack(delay: VarInt, ranges: seq<R.Range>, ecn: Option<EcnCounts>)
    | PathAck(path: PathId, delay: VarInt, ranges: seq<R.Range>, ecn: Option<EcnCounts>)
    | ResetStream(id: VarInt, errorCode: VarInt, finalOffset: VarInt)
    | StopSending(id: VarInt, errorCode: VarInt)
    | Crypto(offset: VarInt, data: seq<byte>)
    | NewToken(token: seq<byte>)
    | Stream(st: StreamData)
    | MaxData(max: VarInt)
    | MaxStreamData(id: VarInt, offset: VarInt)
    | MaxStreams(dir: Dir, count: VarInt)
    | DataBlocked(offset: VarInt)
    | StreamDataBlocked(id: VarInt, offset: VarInt)
    | StreamsBlocked(dir: Dir, limit: VarInt)
    | NewConnectionId(pathId: Option<PathId>, sequence: VarInt, retirePriorTo: VarInt, cid: ConnectionId, resetToken: ResetToken)
    | RetireConnectionId(pathId: Option<PathId>, sequence: VarInt)
    | PathChallenge(value: u64)
    | PathResponse(value: u64)
    | ConnectionClose(errorCode: VarInt, frameType: T.MaybeFrame, reason: seq<byte>)
    | ApplicationClose(errorCode: VarInt, reason: seq<byte>)
    | AckFrequency(sequence: VarInt, ackElicitingThreshold: VarInt, requestMaxAckDelay: VarInt, reorderingThreshold: VarInt)
    | Datagram(data: seq<byte>)
    | ObservedAddr(seqNo: VarInt, ip: IpAddr, port: u16)
    | PathAbandon(path: PathId, errorCode: VarInt)
    | PathStatusBackup(path: PathId, statusSeqNo: VarInt)
    | PathStatusAvailable(path: PathId, statusSeqNo: VarInt)
    | MaxPathId(path: PathId)
    | PathsBlocked(path: PathId)
    | PathCidsBlocked(path: PathId, nextSeq: VarInt)
    | AddAddress(seqNo: VarInt, ip: IpAddr, port: u16)
    | ReachOut(round: VarInt, ip: IpAddr, port: u16)
    | RemoveAddress(seqNo: VarInt)

  /** A frame to send, with the options of its encoder: whether a STREAM frame states its length, and
      how long a close frame may get. */
  datatype Outgoing = Outgoing(m: Message, encodeLength: bool, maxLen: nat)

  // ------------------------------------------------------------------ encoders

  /** Length of the encoding of a type that may be missing or unknown. */
  function MaybeSize(m: T.MaybeFrame): nat
    requires T.Representable(m)
  {
    |T.EncodeMaybe(m)|
  }

  /** What a close frame keeps free for everything but its reason. */
  function Overhead(m: Message): nat
    requires m.ConnectionClose? || m.ApplicationClose?
    requires |m.reason| <= MAX_VARINT && (m.ConnectionClose? ==> T.Representable(m.frameType))
  {
    3 + (if m.ConnectionClose? then MaybeSize(m.frameType) else 0) + Size(|m.reason|)
  }

  /** Calling the encoder of `o` makes sense: numbers that are lengths or packet numbers fit their
      fields, a new CID is one the peer can accept, and a close frame has room. */
  ghost predicate Encodable(o: Outgoing) {
    match o.m
    case Ack(_, ranges, _) => A.AckSet(ranges)
    case PathAck(_, _, ranges, _) => A.AckSet(ranges)
    case Crypto(_, data) => |data| <= MAX_VARINT
    case NewToken(token) => |token| <= MAX_VARINT
    case Stream(st) => |st.data| <= MAX_VARINT
    case Datagram(data) => |data| <= MAX_VARINT
    case NewConnectionId(_, sequence, retirePriorTo, cid, _) => retirePriorTo <= sequence && cid != []
    case ConnectionClose(_, frameType, reason) =>
      T.Representable(frameType) && |reason| <= MAX_VARINT && Overhead(o.m) <= o.maxLen
    case ApplicationClose(_, reason) => |reason| <= MAX_VARINT && Overhead(o.m) <= o.maxLen
    case _ => true
  }

  /** How much of the reason is written. */
  ghost function ReasonSent(o: Outgoing): seq<byte>
    requires Encodable(o) && (o.m.ConnectionClose? || o.m.ApplicationClose?)
  {
    var room := o.maxLen - Overhead(o.m);
    if |o.m.reason| <= room then o.m.reason else o.m.reason[..room]
  }

  function EncodeType(ty: T.FrameType): seq<byte> {
    EncodeVar(T.ToU64(ty))
  }

  function EncodeEcn(ecn: EcnCounts): seq<byte> {
    EncodeVar(ecn.ect0) + (EncodeVar(ecn.ect1) + EncodeVar(ecn.ce))
  }

  function EncodeIp(ip: IpAddr): seq<byte> {
    match ip
    case V4(x) => BE(x, 4)
    case V6(x) => BE(x, 16)
  }

  function EncodeAddress(ty: T.FrameType, n: VarInt, ip: IpAddr, port: u16): seq<byte> {
    EncodeType(ty) + (EncodeVar(n) + (EncodeIp(ip) + BE(port, 2)))
  }

  function EncodeBlob(bytes: seq<byte>): seq<byte>
    requires |bytes| <= MAX_VARINT
  {
    EncodeVar(|bytes|) + bytes
  }

  function EncodePath(pathId: Option<PathId>): seq<byte> {
    if pathId.Some? then EncodeVar(pathId.value) else []
  }

  /** ACK and PATH_ACK. */
  ghost function EncodeAcks(m: Message): seq<byte>
    requires (m.Ack? || m.PathAck?) && A.AckSet(m.ranges)
  {
    var ty := if m.Ack? then (if m.ecn.Some? then T.AckEcn else T.Ack) else (if m.ecn.Some? then T.PathAckEcn else T.PathAck);
    EncodeType(ty) +
    ((if m.PathAck? then EncodeVar(m.path) else []) +
     (A.EncodeAck(m.delay, m.ranges) + (if m.ecn.Some? then EncodeEcn(m.ecn.value) else [])))
  }

  ghost function EncodeClose(o: Outgoing): seq<byte>
    requires Encodable(o) && (o.m.ConnectionClose? || o.m.ApplicationClose?)
  {
    if o.m.ConnectionClose?
    then EncodeType(T.ConnectionClose) + (EncodeVar(o.m.errorCode) + (T.EncodeMaybe(o.m.frameType) + EncodeBlob(ReasonSent(o))))
    else EncodeType(T.ApplicationClose) + (EncodeVar(o.m.errorCode) + EncodeBlob(ReasonSent(o)))
  }

  /** Frames about paths and addresses. */
  ghost predicate AboutPaths(m: Message) {
    m.ObservedAddr? || m.PathAbandon? || m.PathStatusBackup? || m.PathStatusAvailable? || m.MaxPathId? || m.PathsBlocked? ||
    m.PathCidsBlocked? || m.AddAddress? || m.ReachOut? || m.RemoveAddress? || m.PathChallenge? || m.PathResponse?
  }

  ghost function EncodeAboutPaths(m: Message): seq<byte>
    requires AboutPaths(m)
  {
    match m
    case PathChallenge(value) => EncodeType(T.PathChallenge) + BE(value, 8)
    case PathResponse(value) => EncodeType(T.PathResponse) + BE(value, 8)
    case ObservedAddr(n, ip, port) => EncodeAddress(if ip.V6? then T.ObservedIpv6Addr else T.ObservedIpv4Addr, n, ip, port)
    case AddAddress(n, ip, port) => EncodeAddress(if ip.V6? then T.AddIpv6Address else T.AddIpv4Address, n, ip, port)
    case ReachOut(n, ip, port) => EncodeAddress(if ip.V6? then T.ReachOutAtIpv6 else T.ReachOutAtIpv4, n, ip, port)
    case RemoveAddress(n) => EncodeType(T.RemoveAddress) + EncodeVar(n)
    case PathAbandon(path, errorCode) => EncodeType(T.PathAbandon) + (EncodeVar(path) + EncodeVar(errorCode))
    case PathStatusBackup(path, n) => EncodeType(T.PathStatusBackup) + (EncodeVar(path) + EncodeVar(n))
    case PathStatusAvailable(path, n) => EncodeType(T.PathStatusAvailable) + (EncodeVar(path) + EncodeVar(n))
    case MaxPathId(path) => EncodeType(T.MaxPathId) + EncodeVar(path)
    case PathsBlocked(path) => EncodeType(T.PathsBlocked) + EncodeVar(path)
    case PathCidsBlocked(path, n) => EncodeType(T.PathCidsBlocked) + (EncodeVar(path) + EncodeVar(n))
  }

  /** Frames of the base protocol that control streams and CIDs, carry data or only signal. */
  ghost predicate Basic(m: Message) {
    !AboutPaths(m) && !m.Ack? && !m.PathAck? && !m.ConnectionClose? && !m.ApplicationClose? && !m.Stream?
  }

  ghost function EncodeBasic(o: Outgoing): seq<byte>
    requires Encodable(o) && Basic(o.m)
  {
    match o.m
    case Padding => EncodeType(T.Padding)
    case Ping => EncodeType(T.Ping)
    case HandshakeDone => EncodeType(T.HandshakeDone)
    case ImmediateAck => EncodeType(T.ImmediateAck)
    case ResetStream(id, errorCode, finalOffset) =>
      EncodeType(T.ResetStream) + (EncodeVar(id) + (EncodeVar(errorCode) + EncodeVar(finalOffset)))
    case StopSending(id, errorCode) => EncodeType(T.StopSending) + (EncodeVar(id) + EncodeVar(errorCode))
    case Crypto(offset, data) => EncodeType(T.Crypto) + (EncodeVar(offset) + EncodeBlob(data))
    case NewToken(token) => EncodeType(T.NewToken) + EncodeBlob(token)
    case MaxData(max) => EncodeType(T.MaxData) + EncodeVar(max)
    case MaxStreamData(id, offset) => EncodeType(T.MaxStreamData) + (EncodeVar(id) + EncodeVar(offset))
    case MaxStreams(dir, count) => EncodeType(if dir.Bi? then T.MaxStreamsBidi else T.MaxStreamsUni) + EncodeVar(count)
    case DataBlocked(offset) => EncodeType(T.DataBlocked) + EncodeVar(offset)
    case StreamDataBlocked(id, offset) => EncodeType(T.StreamDataBlocked) + (EncodeVar(id) + EncodeVar(offset))
    case StreamsBlocked(dir, limit) => EncodeType(if dir.Bi? then T.StreamsBlockedBidi else T.StreamsBlockedUni) + EncodeVar(limit)
    case NewConnectionId(pathId, sequence, retirePriorTo, cid, token) =>
      EncodeType(if pathId.Some? then T.PathNewConnectionId else T.NewConnectionId) +
      (EncodePath(pathId) + (EncodeVar(sequence) + (EncodeVar(retirePriorTo) + ([|cid| as byte] + (cid + token)))))
    case RetireConnectionId(pathId, sequence) =>
      EncodeType(if pathId.Some? then T.PathRetireConnectionId else T.RetireConnectionId) + (EncodePath(pathId) + EncodeVar(sequence))
    case AckFrequency(sequence, threshold, delay, reordering) =>
      EncodeType(T.AckFrequency) + (EncodeVar(sequence) + (EncodeVar(threshold) + (EncodeVar(delay) + EncodeVar(reordering))))
    case Datagram(data) => EncodeType(T.Datagram(0x31)) + EncodeBlob(data)
  }

  ghost function Encode(o: Outgoing): seq<byte>
    requires Encodable(o)
  {
    if AboutPaths(o.m) then EncodeAboutPaths(o.m)
    else if o.m.Stream? then EncodeStream(o.m.st, o.encodeLength)
    else if o.m.Ack? || o.m.PathAck? then EncodeAcks(o.m)
    else if o.m.ConnectionClose? || o.m.ApplicationClose? then EncodeClose(o)
    else EncodeBasic(o)
  }

  // ------------------------------------------------------------------ the reader's records

  function NumberAt(f: Frame, i: nat): VarInt {
    if i < |f.values| && f.values[i].Number? then f.values[i].n else 0
  }

  function PathAt(f: Frame, i: nat): PathId {
    if NumberAt(f, i) < 0x1_0000_0000 then NumberAt(f, i) else 0
  }

  function WideAt(f: Frame, i: nat): u64 {
    if i < |f.values| && f.values[i].Wide? then f.values[i].w else 0
  }

  function IpAt(f: Frame, i: nat): IpAddr {
    if i < |f.values| && f.values[i].Ip? then f.values[i].ip else V4(0)
  }

  function PortAt(f: Frame, i: nat): u16 {
    if i < |f.values| && f.values[i].Port? then f.values[i].port else 0
  }

  function TypeAt(f: Frame, i: nat): T.MaybeFrame {
    if i < |f.values| && f.values[i].Type? then f.values[i].m else T.NoFrame
  }

  function BytesAt(f: Frame, i: nat): seq<byte> {
    if i < |f.values| && f.values[i].Data? then f.values[i].bytes else []
  }

  function DelayAt(f: Frame, i: nat): VarInt {
    if i < |f.values| && f.values[i].AckRanges? then f.values[i].delay else 0
  }

  function RangesAt(f: Frame, i: nat): seq<R.Range> {
    if i < |f.values| && f.values[i].AckRanges? then f.values[i].ranges else []
  }

  function EcnAt(f: Frame, i: nat): EcnCounts {
    EcnCounts(NumberAt(f, i), NumberAt(f, i + 1), NumberAt(f, i + 2))
  }

  function NewCidAt(f: Frame, i: nat, pathId: Option<PathId>): Message {
    if i < |f.values| && f.values[i].NewCid?
    then NewConnectionId(pathId, f.values[i].sequence, f.values[i].retirePriorTo, f.values[i].id, f.values[i].token)
    else Padding
  }

  function StreamAt(f: Frame, info: T.StreamInfo): Message {
    var off := (info / 4) % 2 == 1;
    Stream(StreamData(NumberAt(f, 0), if off then NumberAt(f, 1) else 0, info % 2 == 1, BytesAt(f, if off then 2 else 1)))
  }

  /** The record `try_next` makes of a frame's fields, read in order. */
  function MessageOf(f: Frame): Message {
    match f.ty
    case Padding => Padding
    case Ping => Ping
    case Ack => Ack(DelayAt(f, 0), RangesAt(f, 0), None)
    case AckEcn => Ack(DelayAt(f, 0), RangesAt(f, 0), Some(EcnAt(f, 1)))
    case ResetStream => ResetStream(NumberAt(f, 0), NumberAt(f, 1), NumberAt(f, 2))
    case StopSending => StopSending(NumberAt(f, 0), NumberAt(f, 1))
    case Crypto => Crypto(NumberAt(f, 0), BytesAt(f, 1))
    case NewToken => NewToken(BytesAt(f, 0))
    case Stream(info) => StreamAt(f, info)
    case MaxData => MaxData(NumberAt(f, 0))
    case MaxStreamData => MaxStreamData(NumberAt(f, 0), NumberAt(f, 1))
    case MaxStreamsBidi => MaxStreams(Bi, NumberAt(f, 0))
    case MaxStreamsUni => MaxStreams(Uni, NumberAt(f, 0))
    case DataBlocked => DataBlocked(NumberAt(f, 0))
    case StreamDataBlocked => StreamDataBlocked(NumberAt(f, 0), NumberAt(f, 1))
    case StreamsBlockedBidi => StreamsBlocked(Bi, NumberAt(f, 0))
    case StreamsBlockedUni => StreamsBlocked(Uni, NumberAt(f, 0))
    case NewConnectionId => NewCidAt(f, 0, None)
    case RetireConnectionId => RetireConnectionId(None, NumberAt(f, 0))
    case PathChallenge => PathChallenge(WideAt(f, 0))
    case PathResponse => PathResponse(WideAt(f, 0))
    case ConnectionClose => ConnectionClose(NumberAt(f, 0), TypeAt(f, 1), BytesAt(f, 2))
    case ApplicationClose => ApplicationClose(NumberAt(f, 0), BytesAt(f, 1))
    case HandshakeDone => HandshakeDone
    case AckFrequency => AckFrequency(NumberAt(f, 0), NumberAt(f, 1), NumberAt(f, 2), NumberAt(f, 3))
    case ImmediateAck => ImmediateAck
    case Datagram(_) => Datagram(BytesAt(f, 0))
    case ObservedIpv4Addr => ObservedAddr(NumberAt(f, 0), IpAt(f, 1), PortAt(f, 2))
    case ObservedIpv6Addr => ObservedAddr(NumberAt(f, 0), IpAt(f, 1), PortAt(f, 2))
    case PathAck => PathAck(PathAt(f, 0), DelayAt(f, 1), RangesAt(f, 1), None)
    case PathAckEcn => PathAck(PathAt(f, 0), DelayAt(f, 1), RangesAt(f, 1), Some(EcnAt(f, 2)))
    case PathAbandon => PathAbandon(PathAt(f, 0), NumberAt(f, 1))
    case PathStatusBackup => PathStatusBackup(PathAt(f, 0), NumberAt(f, 1))
    case PathStatusAvailable => PathStatusAvailable(PathAt(f, 0), NumberAt(f, 1))
    case PathNewConnectionId => NewCidAt(f, 1, Some(PathAt(f, 0)))
    case PathRetireConnectionId => RetireConnectionId(Some(PathAt(f, 0)), NumberAt(f, 1))
    case MaxPathId => MaxPathId(PathAt(f, 0))
    case PathsBlocked => PathsBlocked(PathAt(f, 0))
    case PathCidsBlocked => PathCidsBlocked(PathAt(f, 0), NumberAt(f, 1))
    case AddIpv4Address => AddAddress(NumberAt(f, 0), IpAt(f, 1), PortAt(f, 2))
    case AddIpv6Address => AddAddress(NumberAt(f, 0), IpAt(f, 1), PortAt(f, 2))
    case ReachOutAtIpv4 => ReachOut(NumberAt(f, 0), IpAt(f, 1), PortAt(f, 2))
    case ReachOutAtIpv6 => ReachOut(NumberAt(f, 0), IpAt(f, 1), PortAt(f, 2))
    case RemoveAddress => RemoveAddress(NumberAt(f, 0))
  }

  /** What arrives: a close frame's reason may have been cut. */
  ghost function Arriving(o: Outgoing): Message
    requires Encodable(o)
  {
    if o.m.ConnectionClose? || o.m.ApplicationClose? then o.m.(reason := ReasonSent(o)) else o.m
  }

  /** `bytes` is how the reader's grammar spells a frame that it turns into `m`; datagrams state their
      length. */
  ghost predicate Spells(bytes: seq<byte>, f: Frame, m: Message) {
    ValidFrame(f) && bytes == EncodeFrame(f) && MessageOf(f) == m && (f.ty.Datagram? ==> f.ty.datagram == 0x31)
  }

  // ------------------------------------------------------------------ one to five fields

  lemma FieldsStep(k: Field, ks: seq<Field>, v: Value, vs: seq<Value>)
    requires Fits(k, v) && AllFit(ks, vs)
    ensures AllFit([k] + ks, [v] + vs) && EncodeFields([k] + ks, [v] + vs) == EncodeField(k, v) + EncodeFields(ks, vs)
  {
    hide EncodeField, Fits;
    assert ([k] + ks)[1..] == ks && ([v] + vs)[1..] == vs;
  }

  lemma Fields1(k: Field, v: Value)
    requires Fits(k, v)
    ensures AllFit([k], [v]) && EncodeFields([k], [v]) == EncodeField(k, v)
  {
    hide EncodeField, Fits;
    FieldsStep(k, [], v, []);
    assert [k] + [] == [k] && [v] + [] == [v];
    assert EncodeField(k, v) + [] == EncodeField(k, v);
  }

  lemma Fields2(k0: Field, v0: Value, k1: Field, v1: Value)
    requires Fits(k0, v0) && Fits(k1, v1)
    ensures AllFit([k0, k1], [v0, v1]) && EncodeFields([k0, k1], [v0, v1]) == EncodeField(k0, v0) + EncodeField(k1, v1)
  {
    hide EncodeField, Fits, EncodeFields, AllFit;
    Fields1(k1, v1);
    FieldsStep(k0, [k1], v0, [v1]);
    assert [k0] + [k1] == [k0, k1] && [v0] + [v1] == [v0, v1];
  }

  lemma Fields3(k0: Field, v0: Value, k1: Field, v1: Value, k2: Field, v2: Value)
    requires Fits(k0, v0) && Fits(k1, v1) && Fits(k2, v2)
    ensures AllFit([k0, k1, k2], [v0, v1, v2])
    ensures EncodeFields([k0, k1, k2], [v0, v1, v2]) == EncodeField(k0, v0) + (EncodeField(k1, v1) + EncodeField(k2, v2))
  {
    hide EncodeField, Fits, EncodeFields, AllFit;
    Fields2(k1, v1, k2, v2);
    FieldsStep(k0, [k1, k2], v0, [v1, v2]);
    assert [k0] + [k1, k2] == [k0, k1, k2] && [v0] + [v1, v2] == [v0, v1, v2];
  }

  lemma Fields4(k: Field, v: Value, k0: Field, v0: Value, k1: Field, v1: Value, k2: Field, v2: Value)
    requires Fits(k, v) && Fits(k0, v0) && Fits(k1, v1) && Fits(k2, v2)
    ensures AllFit([k, k0, k1, k2], [v, v0, v1, v2])
    ensures EncodeFields([k, k0, k1, k2], [v, v0, v1, v2]) ==
            EncodeField(k, v) + (EncodeField(k0, v0) + (EncodeField(k1, v1) + EncodeField(k2, v2)))
  {
    hide EncodeField, Fits, EncodeFields, AllFit;
    Fields3(k0, v0, k1, v1, k2, v2);
    FieldsStep(k, [k0, k1, k2], v, [v0, v1, v2]);
    assert [k] + [k0, k1, k2] == [k, k0, k1, k2] && [v] + [v0, v1, v2] == [v, v0, v1, v2];
  }

  // ------------------------------------------------------------------ each encoder agrees with the reader

  lemma SpellsAddress(ty: T.FrameType, n: VarInt, ip: IpAddr, port: u16)
    requires Layout(ty) == [VarField, IpField(ip.V6?), PortField]
    ensures var f := Frame(ty, [Number(n), Ip(ip), Port(port)]);
            ValidFrame(f) && EncodeAddress(ty, n, ip, port) == EncodeFrame(f)
  {
    hide EncodeVar, BE, EncodeFields, AllFit, Layout, T.ToU64;
    Fields3(VarField, Number(n), IpField(ip.V6?), Ip(ip), PortField, Port(port));
  }

  lemma SpellsTwo(ty: T.FrameType, path: bool, m: VarInt, n: VarInt)
    requires Layout(ty) == [if path then PathField else VarField, VarField] && (path ==> m < 0x1_0000_0000)
    ensures var f := Frame(ty, [Number(m), Number(n)]);
            ValidFrame(f) && EncodeType(ty) + (EncodeVar(m) + EncodeVar(n)) == EncodeFrame(f)
  {
    hide EncodeVar, EncodeFields, AllFit, Layout, T.ToU64;
    Fields2(if path then PathField else VarField, Number(m), VarField, Number(n));
  }

  lemma SpellsOne(ty: T.FrameType, k: Field, v: Value)
    requires Layout(ty) == [k] && Fits(k, v)
    ensures var f := Frame(ty, [v]); ValidFrame(f) && EncodeType(ty) + EncodeField(k, v) == EncodeFrame(f)
  {
    hide EncodeVar, EncodeField, EncodeFields, AllFit, Layout, T.ToU64, Fits;
    Fields1(k, v);
  }

  /** The type an address frame gets, and its first number. */
  ghost function AddressType(m: Message): (T.FrameType, VarInt)
    requires m.ObservedAddr? || m.AddAddress? || m.ReachOut?
  {
    if m.ObservedAddr? then (if m.ip.V6? then T.ObservedIpv6Addr else T.ObservedIpv4Addr, m.seqNo)
    else if m.AddAddress? then (if m.ip.V6? then T.AddIpv6Address else T.AddIpv4Address, m.seqNo)
    else (if m.ip.V6? then T.ReachOutAtIpv6 else T.ReachOutAtIpv4, m.round)
  }

  lemma AddressRecord(m: Message)
    requires m.ObservedAddr? || m.AddAddress? || m.ReachOut?
    ensures var (ty, n) := AddressType(m);
            MessageOf(Frame(ty, [Number(n), Ip(m.ip), Port(m.port)])) == m && !ty.Datagram?
  {
  }

  lemma AddressFields(m: Message)
    requires m.ObservedAddr? || m.AddAddress? || m.ReachOut?
    ensures Layout(AddressType(m).0) == [VarField, IpField(m.ip.V6?), PortField]
  {
  }

  lemma SpellsAddresses(m: Message) returns (f: Frame)
    requires m.ObservedAddr? || m.AddAddress? || m.ReachOut?
    ensures Spells(EncodeAboutPaths(m), f, m)
  {
    hide EncodeFrame, ValidFrame, EncodeAddress, Layout, MessageOf;
    var (ty, n) := AddressType(m);
    f := Frame(ty, [Number(n), Ip(m.ip), Port(m.port)]);
    AddressRecord(m);
    AddressFields(m);
    SpellsAddress(ty, n, m.ip, m.port);
  }

  /** The type of a frame with a path ID and a number, and the number. */
  ghost function PairType(m: Message): (T.FrameType, VarInt)
    requires m.PathAbandon? || m.PathStatusBackup? || m.PathStatusAvailable? || m.PathCidsBlocked?
  {
    if m.PathAbandon? then (T.PathAbandon, m.errorCode)
    else if m.PathStatusBackup? then (T.PathStatusBackup, m.statusSeqNo)
    else if m.PathStatusAvailable? then (T.PathStatusAvailable, m.statusSeqNo)
    else (T.PathCidsBlocked, m.nextSeq)
  }

  lemma PairRecord(m: Message)
    requires m.PathAbandon? || m.PathStatusBackup? || m.PathStatusAvailable? || m.PathCidsBlocked?
    ensures var (ty, n) := PairType(m); MessageOf(Frame(ty, [Number(m.path), Number(n)])) == m && !ty.Datagram?
  {
  }

  lemma PairFields(m: Message)
    requires m.PathAbandon? || m.PathStatusBackup? || m.PathStatusAvailable? || m.PathCidsBlocked?
    ensures Layout(PairType(m).0) == [PathField, VarField]
  {
  }

  lemma SpellsPathPairs(m: Message) returns (f: Frame)
    requires m.PathAbandon? || m.PathStatusBackup? || m.PathStatusAvailable? || m.PathCidsBlocked?
    ensures Spells(EncodeAboutPaths(m), f, m)
  {
    hide EncodeFrame, ValidFrame, EncodeType, EncodeVar, Layout, MessageOf;
    var (ty, n) := PairType(m);
    f := Frame(ty, [Number(m.path), Number(n)]);
    PairRecord(m);
    PairFields(m);
    SpellsTwo(ty, true, m.path, n);
  }

  /** The type of a frame with one field, the field and its value. */
  ghost function SingleType(m: Message): (T.FrameType, Field, Value)
    requires m.PathChallenge? || m.PathResponse? || m.RemoveAddress? || m.MaxPathId? || m.PathsBlocked?
  {
    if m.PathChallenge? then (T.PathChallenge, WideField, Wide(m.value))
    else if m.PathResponse? then (T.PathResponse, WideField, Wide(m.value))
    else if m.RemoveAddress? then (T.RemoveAddress, VarField, Number(m.seqNo))
    else if m.MaxPathId? then (T.MaxPathId, PathField, Number(m.path))
    else (T.PathsBlocked, PathField, Number(m.path))
  }

  lemma SingleRecord(m: Message)
    requires m.PathChallenge? || m.PathResponse? || m.RemoveAddress? || m.MaxPathId? || m.PathsBlocked?
    ensures var (ty, _, v) := SingleType(m); MessageOf(Frame(ty, [v])) == m && !ty.Datagram?
  {
  }

  lemma SingleFields(m: Message)
    requires m.PathChallenge? || m.PathResponse? || m.RemoveAddress? || m.MaxPathId? || m.PathsBlocked?
    ensures var (ty, k, v) := SingleType(m); Layout(ty) == [k] && Fits(k, v)
  {
  }

  lemma SpellsPathSingles(m: Message) returns (f: Frame)
    requires m.PathChallenge? || m.PathResponse? || m.RemoveAddress? || m.MaxPathId? || m.PathsBlocked?
    ensures Spells(EncodeAboutPaths(m), f, m)
  {
    hide EncodeFrame, ValidFrame, EncodeType, EncodeVar, BE, Layout, MessageOf;
    var (ty, k, v) := SingleType(m);
    f := Frame(ty, [v]);
    SingleRecord(m);
    SingleFields(m);
    SpellsOne(ty, k, v);
  }

  lemma SpellsAboutPaths(m: Message) returns (f: Frame)
    requires AboutPaths(m)
    ensures Spells(EncodeAboutPaths(m), f, m)
  {
    hide Spells, EncodeAboutPaths;
    if m.ObservedAddr? || m.AddAddress? || m.ReachOut? {
      f := SpellsAddresses(m);
    } else if m.PathAbandon? || m.PathStatusBackup? || m.PathStatusAvailable? || m.PathCidsBlocked? {
      f := SpellsPathPairs(m);
    } else {
      f := SpellsPathSingles(m);
    }
  }

  lemma SpellsPlainAck(m: Message) returns (f: Frame)
    requires (m.Ack? || m.PathAck?) && A.AckSet(m.ranges) && m.ecn.None?
    ensures Spells(EncodeAcks(m), f, m)
  {
    hide A.EncodeAck, A.AckSet, EncodeVar, EncodeFields, AllFit, T.ToU64;
    var ack, bytes := AckRanges(m.delay, m.ranges), A.EncodeAck(m.delay, m.ranges);
    assert bytes + [] == bytes && [] + bytes == bytes;
    if m.Ack? {
      f := Frame(T.Ack, [ack]);
      Fields1(AckField, ack);
    } else {
      f := Frame(T.PathAck, [Number(m.path), ack]);
      Fields2(PathField, Number(m.path), AckField, ack);
    }
  }

  lemma SpellsEcnAck(m: Message) returns (f: Frame)
    requires (m.Ack? || m.PathAck?) && A.AckSet(m.ranges) && m.ecn.Some?
    ensures Spells(EncodeAcks(m), f, m)
  {
    hide A.EncodeAck, A.AckSet, EncodeVar, EncodeFields, AllFit, T.ToU64;
    var ack, ecn := AckRanges(m.delay, m.ranges), m.ecn.value;
    var bytes := A.EncodeAck(m.delay, m.ranges) + EncodeEcn(ecn);
    assert [] + bytes == bytes;
    Fields4(AckField, ack, VarField, Number(ecn.ect0), VarField, Number(ecn.ect1), VarField, Number(ecn.ce));
    if m.Ack? {
      f := Frame(T.AckEcn, [ack, Number(ecn.ect0), Number(ecn.ect1), Number(ecn.ce)]);
    } else {
      f := Frame(T.PathAckEcn, [Number(m.path), ack, Number(ecn.ect0), Number(ecn.ect1), Number(ecn.ce)]);
      FieldsStep(PathField, [AckField, VarField, VarField, VarField], Number(m.path),
                 [ack, Number(ecn.ect0), Number(ecn.ect1), Number(ecn.ce)]);
      assert [PathField] + [AckField, VarField, VarField, VarField] == Layout(T.PathAckEcn);
      assert f.values == [Number(m.path)] + [ack, Number(ecn.ect0), Number(ecn.ect1), Number(ecn.ce)];
    }
  }

  lemma SpellsClose(o: Outgoing) returns (f: Frame)
    requires Encodable(o) && (o.m.ConnectionClose? || o.m.ApplicationClose?)
    ensures Spells(EncodeClose(o), f, Arriving(o))
  {
    hide Overhead, EncodeVar, EncodeFields, AllFit, T.ToU64, T.EncodeMaybe, T.Representable, MessageOf;
    var code, reason := Number(o.m.errorCode), Data(ReasonSent(o));
    if o.m.ConnectionClose? {
      f := Frame(T.ConnectionClose, [code, Type(o.m.frameType), reason]);
      Fields3(VarField, code, TypeField, Type(o.m.frameType), BytesField, reason);
    } else {
      f := Frame(T.ApplicationClose, [code, reason]);
      Fields2(VarField, code, BytesField, reason);
    }
    CloseRecord(o.m.errorCode, if o.m.ConnectionClose? then o.m.frameType else T.NoFrame, ReasonSent(o));
  }

  lemma CloseRecord(code: VarInt, frameType: T.MaybeFrame, reason: seq<byte>)
    ensures MessageOf(Frame(T.ConnectionClose, [Number(code), Type(frameType), Data(reason)])) == ConnectionClose(code, frameType, reason)
    ensures MessageOf(Frame(T.ApplicationClose, [Number(code), Data(reason)])) == ApplicationClose(code, reason)
  {
  }

  lemma SpellsSignal(ty: T.FrameType)
    requires Layout(ty) == []
    ensures ValidFrame(Frame(ty, [])) && EncodeFrame(Frame(ty, [])) == EncodeType(ty)
  {
    hide EncodeVar, T.ToU64, Layout;
    assert EncodeVar(T.ToU64(ty)) + [] == EncodeVar(T.ToU64(ty));
  }

  lemma SpellsNewCid(m: Message) returns (f: Frame)
    requires m.NewConnectionId? && m.retirePriorTo <= m.sequence && m.cid != []
    ensures Spells(EncodeBasic(Outgoing(m, false, 0)), f, m)
  {
    hide EncodeVar, EncodeFields, AllFit, T.ToU64;
    var v := NewCid(m.sequence, m.retirePriorTo, m.cid, m.resetToken);
    var bytes := EncodeField(CidField, v);
    assert bytes == EncodeVar(m.sequence) + (EncodeVar(m.retirePriorTo) + ([|m.cid| as byte] + (m.cid + m.resetToken))) by {
      assert EncodeLongCid(m.cid) + m.resetToken == [|m.cid| as byte] + (m.cid + m.resetToken);
    }
    assert [] + bytes == bytes;
    if m.pathId.Some? {
      f := Frame(T.PathNewConnectionId, [Number(m.pathId.value), v]);
      Fields2(PathField, Number(m.pathId.value), CidField, v);
    } else {
      f := Frame(T.NewConnectionId, [v]);
      Fields1(CidField, v);
    }
  }

  lemma SpellsRetire(m: Message) returns (f: Frame)
    requires m.RetireConnectionId?
    ensures Spells(EncodeBasic(Outgoing(m, false, 0)), f, m)
  {
    hide EncodeVar, EncodeFields, AllFit, T.ToU64;
    assert [] + EncodeVar(m.sequence) == EncodeVar(m.sequence);
    if m.pathId.Some? {
      f := Frame(T.PathRetireConnectionId, [Number(m.pathId.value), Number(m.sequence)]);
      Fields2(PathField, Number(m.pathId.value), VarField, Number(m.sequence));
    } else {
      f := Frame(T.RetireConnectionId, [Number(m.sequence)]);
      Fields1(VarField, Number(m.sequence));
    }
  }

  lemma SpellsLonger(m: Message) returns (f: Frame)
    requires m.ResetStream? || m.AckFrequency? || (m.Crypto? && |m.data| <= MAX_VARINT)
    ensures Spells(EncodeBasic(Outgoing(m, false, 0)), f, m)
  {
    hide EncodeVar, EncodeFields, AllFit, T.ToU64;
    if m.ResetStream? {
      f := Frame(T.ResetStream, [Number(m.id), Number(m.errorCode), Number(m.finalOffset)]);
      Fields3(VarField, Number(m.id), VarField, Number(m.errorCode), VarField, Number(m.finalOffset));
    } else if m.AckFrequency? {
      f := Frame(T.AckFrequency, [Number(m.sequence), Number(m.ackElicitingThreshold), Number(m.requestMaxAckDelay), Number(m.reorderingThreshold)]);
      Fields4(VarField, Number(m.sequence), VarField, Number(m.ackElicitingThreshold),
              VarField, Number(m.requestMaxAckDelay), VarField, Number(m.reorderingThreshold));
    } else {
      f := Frame(T.Crypto, [Number(m.offset), Data(m.data)]);
      Fields2(VarField, Number(m.offset), BytesField, Data(m.data));
    }
  }

  lemma SpellsSignals(m: Message) returns (f: Frame)
    requires m.Padding? || m.Ping? || m.HandshakeDone? || m.ImmediateAck?
    ensures Spells(EncodeBasic(Outgoing(m, false, 0)), f, m)
  {
    hide EncodeFrame, ValidFrame, EncodeType;
    var ty := if m.Padding? then T.Padding else if m.Ping? then T.Ping else if m.HandshakeDone? then T.HandshakeDone else T.ImmediateAck;
    f := Frame(ty, []);
    SpellsSignal(ty);
  }

  lemma SpellsPairs(m: Message) returns (f: Frame)
    requires m.StopSending? || m.MaxStreamData? || m.StreamDataBlocked?
    ensures Spells(EncodeBasic(Outgoing(m, false, 0)), f, m)
  {
    hide EncodeFrame, ValidFrame, EncodeVar, EncodeType;
    if m.StopSending? {
      f := Frame(T.StopSending, [Number(m.id), Number(m.errorCode)]);
      SpellsTwo(f.ty, false, m.id, m.errorCode);
    } else if m.MaxStreamData? {
      f := Frame(T.MaxStreamData, [Number(m.id), Number(m.offset)]);
      SpellsTwo(f.ty, false, m.id, m.offset);
    } else {
      f := Frame(T.StreamDataBlocked, [Number(m.id), Number(m.offset)]);
      SpellsTwo(f.ty, false, m.id, m.offset);
    }
  }

  lemma SpellsLimits(m: Message) returns (f: Frame)
    requires m.MaxData? || m.MaxStreams? || m.DataBlocked? || m.StreamsBlocked?
    ensures Spells(EncodeBasic(Outgoing(m, false, 0)), f, m)
  {
    hide EncodeFrame, ValidFrame, EncodeVar, EncodeType;
    if m.MaxData? {
      f := Frame(T.MaxData, [Number(m.max)]);
      SpellsOne(f.ty, VarField, Number(m.max));
    } else if m.MaxStreams? {
      f := Frame(if m.dir.Bi? then T.MaxStreamsBidi else T.MaxStreamsUni, [Number(m.count)]);
      SpellsOne(f.ty, VarField, Number(m.count));
    } else if m.DataBlocked? {
      f := Frame(T.DataBlocked, [Number(m.offset)]);
      SpellsOne(f.ty, VarField, Number(m.offset));
    } else {
      f := Frame(if m.dir.Bi? then T.StreamsBlockedBidi else T.StreamsBlockedUni, [Number(m.limit)]);
      SpellsOne(f.ty, VarField, Number(m.limit));
    }
  }

  lemma SpellsBlobs(m: Message) returns (f: Frame)
    requires (m.NewToken? && |m.token| <= MAX_VARINT) || (m.Datagram? && |m.data| <= MAX_VARINT)
    ensures Spells(EncodeBasic(Outgoing(m, false, 0)), f, m)
  {
    hide EncodeFrame, ValidFrame, EncodeVar, EncodeType;
    if m.NewToken? {
      f := Frame(T.NewToken, [Data(m.token)]);
      SpellsOne(f.ty, BytesField, Data(m.token));
    } else {
      f := Frame(T.Datagram(0x31), [Data(m.data)]);
      SpellsOne(f.ty, BytesField, Data(m.data));
    }
  }

  lemma SpellsBasic(o: Outgoing) returns (f: Frame)
    requires Encodable(o) && Basic(o.m)
    ensures Spells(EncodeBasic(o), f, o.m)
  {
    BasicIgnoresOptions(o);
    hide Spells, EncodeBasic;
    var m := o.m;
    if m.Padding? || m.Ping? || m.HandshakeDone? || m.ImmediateAck? {
      f := SpellsSignals(m);
    } else if m.StopSending? || m.MaxStreamData? || m.StreamDataBlocked? {
      f := SpellsPairs(m);
    } else if m.MaxData? || m.MaxStreams? || m.DataBlocked? || m.StreamsBlocked? {
      f := SpellsLimits(m);
    } else if m.NewToken? || m.Datagram? {
      f := SpellsBlobs(m);
    } else if m.NewConnectionId? {
      f := SpellsNewCid(m);
    } else if m.RetireConnectionId? {
      f := SpellsRetire(m);
    } else {
      f := SpellsLonger(m);
    }
  }

  lemma BasicIgnoresOptions(o: Outgoing)
    requires Encodable(o) && Basic(o.m)
    ensures Encodable(Outgoing(o.m, false, 0)) && EncodeBasic(o) == EncodeBasic(Outgoing(o.m, false, 0))
  {
    hide EncodeVar, EncodeType, EncodeBlob;
  }

  lemma SpellsStream(st: StreamData, encodeLength: bool)
    requires |st.data| <= MAX_VARINT
    ensures Spells(EncodeStream(st, encodeLength), StreamFrame(st, encodeLength), Stream(st))
    ensures SelfDelimiting(Layout(StreamFrame(st, encodeLength).ty)) <==> encodeLength
  {
    hide EncodeFrame, ValidFrame, EncodeStream, Layout, SelfDelimiting;
    StreamRoundTrip(st, encodeLength);
  }

  /** Every encoder writes a frame that the reader turns into the record it was given, whatever the
      type it chose; only a close frame's reason may be cut, and only a STREAM frame without length
      does not say where it ends. */
  lemma EncoderAgreesWithReader(o: Outgoing) returns (f: Frame)
    requires Encodable(o)
    ensures Spells(Encode(o), f, Arriving(o))
    ensures SelfDelimiting(Layout(f.ty)) <==> !(o.m.Stream? && !o.encodeLength)
  {
    hide Spells, EncodeBasic, EncodeClose, EncodeAcks, EncodeStream, EncodeAboutPaths, Layout, SelfDelimiting, ReasonSent, A.AckSet;
    if AboutPaths(o.m) {
      f := SpellsAboutPaths(o.m);
    } else if o.m.Stream? {
      f := StreamFrame(o.m.st, o.encodeLength);
      SpellsStream(o.m.st, o.encodeLength);
    } else if o.m.Ack? || o.m.PathAck? {
      if o.m.ecn.Some? { f := SpellsEcnAck(o.m); } else { f := SpellsPlainAck(o.m); }
    } else if o.m.ConnectionClose? || o.m.ApplicationClose? {
      f := SpellsClose(o);
    } else {
      f := SpellsBasic(o);
    }
    if !o.m.Stream? {
      SaysWhereItEnds(f, o);
    }
  }

  lemma SaysWhereItEnds(f: Frame, o: Outgoing)
    requires Encodable(o) && !o.m.Stream? && Spells(Encode(o), f, Arriving(o))
    ensures SelfDelimiting(Layout(f.ty))
  {
    hide Encode, ValidFrame, EncodeFrame, ReasonSent, Layout, SelfDelimiting, WellLaid;
    LayoutsAreWellLaid(f.ty);
    assert !f.ty.Stream?;
  }

  // ------------------------------------------------------------------ how long a close frame gets

  lemma CloseLength(o: Outgoing)
    requires Encodable(o) && (o.m.ConnectionClose? || o.m.ApplicationClose?)
    ensures |Encode(o)| == Overhead(o.m) - 2 - Size(|o.m.reason|) + Size(o.m.errorCode) + Size(|ReasonSent(o)|) + |ReasonSent(o)|
  {
    hide T.EncodeMaybe, T.Representable;
  }

  /** Bytes that the reason does not use up: room it leaves, and what a shorter length saves. */
  ghost function Slack(o: Outgoing): int
    requires Encodable(o) && (o.m.ConnectionClose? || o.m.ApplicationClose?)
  {
    o.maxLen - Overhead(o.m) - |ReasonSent(o)| + Size(|o.m.reason|) - Size(|ReasonSent(o)|)
  }

  /** A close frame stays within the limit given for it if and only if its error code takes at most
      two bytes more than the reason leaves unused: the encoder keeps only two bytes for a code that
      may take eight.  A code of at most two bytes always fits. */
  lemma CloseFitsIff(o: Outgoing)
    requires Encodable(o) && (o.m.ConnectionClose? || o.m.ApplicationClose?)
    ensures |Encode(o)| <= o.maxLen <==> Size(o.m.errorCode) <= 2 + Slack(o)
    ensures Slack(o) >= 0
  {
    CloseLength(o);
    hide Encode, Overhead;
  }

  /** An application error code of four bytes makes a frame of ten bytes out of a limit of eight. */
  lemma CloseMayOverrun()
    ensures var o := Outgoing(ApplicationClose(0x4000, [1, 2, 3, 4, 5, 6, 7, 8, 9, 10]), true, 8);
            Encodable(o) && |Encode(o)| == 10
  {
    var o := Outgoing(ApplicationClose(0x4000, [1, 2, 3, 4, 5, 6, 7, 8, 9, 10]), true, 8);
    assert Overhead(o.m) == 4;
    CloseLength(o);
  }

  // ------------------------------------------------------------------ lists of frames

  /** Only the last frame may be a STREAM frame without length. */
  ghost predicate Sendable(os: seq<Outgoing>) {
    && (forall i :: 0 <= i < |os| ==> Encodable(os[i]))
    && (forall i :: 0 <= i < |os| - 1 ==> !(os[i].m.Stream? && !os[i].encodeLength))
  }

  ghost function EncodeMessages(os: seq<Outgoing>): seq<byte>
    requires Sendable(os)
  {
    if os == [] then [] else Encode(os[0]) + EncodeMessages(os[1..])
  }

  lemma {:induction false} MessagesSpelled(os: seq<Outgoing>) returns (fs: seq<Frame>)
    requires Sendable(os)
    ensures Sequence(fs) && EncodeMessages(os) == EncodeAll(fs)
    ensures |fs| == |os| && forall i :: 0 <= i < |os| ==> MessageOf(fs[i]) == Arriving(os[i])
    decreases |os|
  {
    hide Encode, Encodable, EncodeFrame, ValidFrame, MessageOf, Arriving, Layout, SelfDelimiting;
    if os == [] {
      fs := [];
    } else {
      var f := EncoderAgreesWithReader(os[0]);
      var more := MessagesSpelled(os[1..]);
      fs := [f] + more;
      assert fs[1..] == more;
      assert forall i :: 0 < i < |os| ==> MessageOf(fs[i]) == Arriving(os[1..][i - 1]);
    }
  }

  lemma {:induction false} OksAt(fs: seq<Frame>)
    ensures |Oks(fs)| == |fs| && forall i :: 0 <= i < |fs| ==> Oks(fs)[i] == Ok(fs[i])
  {
    if fs != [] {
      OksAt(fs[1..]);
    }
  }

  /** Every list of records, each written by its own encoder, is read back: as many frames, without
      error, each with the record that was sent. */
  lemma MessageListRoundTrip(os: seq<Outgoing>, lastTy: T.MaybeFrame)
    requires Sendable(os)
    ensures var items := Items(EncodeMessages(os), lastTy);
            |items| == |os| && forall i :: 0 <= i < |os| ==> items[i].Ok? && MessageOf(items[i].value) == Arriving(os[i])
  {
    hide Items, EncodeAll, EncodeMessages, MessageOf, Arriving, Encodable, Sequence;
    var fs := MessagesSpelled(os);
    FrameListRoundTrip(fs, lastTy);
    OksAt(fs);
  }
}
