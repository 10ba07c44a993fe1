/** Frame types and their identifiers (noq-proto/src/frame.rs). */
module FrameTypes {
  import opened Wrappers
  import opened Bytes
  import opened VarInts

  type StreamInfo = n: nat | 0x08 <= n <= 0x0f witness 0x08
  type DatagramInfo = n: nat | 0x30 <= n <= 0x31 witness 0x30

  datatype FrameType =
    | Padding | Ping | Ack | AckEcn | ResetStream | StopSending | Crypto | NewToken
    | Stream(stream: StreamInfo)
    | MaxData | MaxStreamData | MaxStreamsBidi | MaxStreamsUni | DataBlocked | StreamDataBlocked
    | StreamsBlockedBidi | StreamsBlockedUni | NewConnectionId | RetireConnectionId | PathChallenge
    | PathResponse | ConnectionClose | ApplicationClose | HandshakeDone | AckFrequency | ImmediateAck
    | Datagram(datagram: DatagramInfo)
    | ObservedIpv4Addr | ObservedIpv6Addr | PathAck | PathAckEcn | PathAbandon | PathStatusBackup
    | PathStatusAvailable | PathNewConnectionId | PathRetireConnectionId | MaxPathId | PathsBlocked
    | PathCidsBlocked | AddIpv4Address | AddIpv6Address | ReachOutAtIpv4 | ReachOutAtIpv6 | RemoveAddress

  function ToU64(ty: FrameType): VarInt {
    match ty
    case Padding => 0x00
    case Ping => 0x01
    case Ack => 0x02
    case AckEcn => 0x03
    case ResetStream => 0x04
    case StopSending => 0x05
    case Crypto => 0x06
    case NewToken => 0x07
    case Stream(info) => info
    case MaxData => 0x10
    case MaxStreamData => 0x11
    case MaxStreamsBidi => 0x12
    case MaxStreamsUni => 0x13
    case DataBlocked => 0x14
    case StreamDataBlocked => 0x15
    case StreamsBlockedBidi => 0x16
    case StreamsBlockedUni => 0x17
    case NewConnectionId => 0x18
    case RetireConnectionId => 0x19
    case PathChallenge => 0x1a
    case PathResponse => 0x1b
    case ConnectionClose => 0x1c
    case ApplicationClose => 0x1d
    case HandshakeDone => 0x1e
    case AckFrequency => 0xaf
    case ImmediateAck => 0x1f
    case Datagram(info) => info
    case ObservedIpv4Addr => 0x9f81a6
    case ObservedIpv6Addr => 0x9f81a7
    case PathAck => 0x3e
    case PathAckEcn => 0x3f
    case PathAbandon => 0x3e75
    case PathStatusBackup => 0x3e76
    case PathStatusAvailable => 0x3e77
    case PathNewConnectionId => 0x3e78
    case PathRetireConnectionId => 0x3e79
    case MaxPathId => 0x3e7a
    case PathsBlocked => 0x3e7b
    case PathCidsBlocked => 0x3e7c
    case AddIpv4Address => 0x3d7f90
    case AddIpv6Address => 0x3d7f91
    case ReachOutAtIpv4 => 0x3d7f92
    case ReachOutAtIpv6 => 0x3d7f93
    case RemoveAddress => 0x3d7f94
  }

  /** One-byte identifiers of the base protocol and ACK frequency. */
  function FromCore(v: VarInt): (r: Option<FrameType>) {
    match v
    case 0x00 => Some(Padding)
    case 0x01 => Some(Ping)
    case 0x02 => Some(Ack)
    case 0x03 => Some(AckEcn)
    case 0x04 => Some(ResetStream)
    case 0x05 => Some(StopSending)
    case 0x06 => Some(Crypto)
    case 0x07 => Some(NewToken)
    case 0x10 => Some(MaxData)
    case 0x11 => Some(MaxStreamData)
    case 0x12 => Some(MaxStreamsBidi)
    case 0x13 => Some(MaxStreamsUni)
    case 0x14 => Some(DataBlocked)
    case 0x15 => Some(StreamDataBlocked)
    case 0x16 => Some(StreamsBlockedBidi)
    case 0x17 => Some(StreamsBlockedUni)
    case 0x18 => Some(NewConnectionId)
    case 0x19 => Some(RetireConnectionId)
    case 0x1a => Some(PathChallenge)
    case 0x1b => Some(PathResponse)
    case 0x1c => Some(ConnectionClose)
    case 0x1d => Some(ApplicationClose)
    case 0x1e => Some(HandshakeDone)
    case 0x1f => Some(ImmediateAck)
    case _ => None
  }

  /** Identifiers of the extensions. */
  function FromExtension(v: VarInt): (r: Option<FrameType>) {
    match v
    case 0xaf => Some(AckFrequency)
    case 0x9f81a6 => Some(ObservedIpv4Addr)
    case 0x9f81a7 => Some(ObservedIpv6Addr)
    case 0x3e => Some(PathAck)
    case 0x3f => Some(PathAckEcn)
    case 0x3e75 => Some(PathAbandon)
    case 0x3e76 => Some(PathStatusBackup)
    case 0x3e77 => Some(PathStatusAvailable)
    case 0x3e78 => Some(PathNewConnectionId)
    case 0x3e79 => Some(PathRetireConnectionId)
    case 0x3e7a => Some(MaxPathId)
    case 0x3e7b => Some(PathsBlocked)
    case 0x3e7c => Some(PathCidsBlocked)
    case 0x3d7f90 => Some(AddIpv4Address)
    case 0x3d7f91 => Some(AddIpv6Address)
    case 0x3d7f92 => Some(ReachOutAtIpv4)
    case 0x3d7f93 => Some(ReachOutAtIpv6)
    case 0x3d7f94 => Some(RemoveAddress)
    case _ => None
  }

  function FromU64(v: VarInt): (r: Option<FrameType>) {
    if v < 0x20 then FromCore(v) else FromExtension(v)
  }

  function TryFrom(v: VarInt): (r: Option<FrameType>) {
    if FromU64(v).Some? then FromU64(v)
    else if 0x30 <= v <= 0x31 then Some(Datagram(v))
    else if 0x08 <= v <= 0x0f then Some(Stream(v))
    else None
  }

  /** Identifiers and types are in bijection. */
  lemma TypeOfId(ty: FrameType)
    ensures TryFrom(ToU64(ty)) == Some(ty)
  {
  }

  lemma IdOfCore(v: VarInt)
    ensures FromCore(v).Some? ==> ToU64(FromCore(v).value) == v
  {
  }

  lemma IdOfExtension(v: VarInt)
    ensures FromExtension(v).Some? ==> ToU64(FromExtension(v).value) == v
  {
  }

  lemma IdOfType(v: VarInt)
    ensures TryFrom(v).Some? ==> ToU64(TryFrom(v).value) == v
  {
    hide FromCore, FromExtension;
    IdOfCore(v);
    IdOfExtension(v);
  }

  // ------------------------------------------------------------------ attribution

  /** What a close or an error is attributed to. */
  datatype MaybeFrame = NoFrame | Unknown(id: VarInt) | Known(ty: FrameType)

  function MaybeId(m: MaybeFrame): VarInt {
    match m
    case NoFrame => 0
    case Unknown(id) => id
    case Known(ty) => ToU64(ty)
  }

  function MaybeOf(v: VarInt): MaybeFrame {
    match TryFrom(v)
    case Some(ty) => if ty.Padding? then NoFrame else Known(ty)
    case None => Unknown(v)
  }

  function EncodeMaybe(m: MaybeFrame): seq<byte> {
    EncodeVar(MaybeId(m))
  }

  function DecodeMaybe(s: seq<byte>): (r: Option<Decoded<MaybeFrame>>)
    ensures r.Some? ==> |r.value.rest| < |s|
  {
    match DecodeVar(s)
    case None => None
    case Some(Decoded(v, rest)) => Some(Decoded(MaybeOf(v), rest))
  }

  /** PADDING is no attribution, and only an identifier nobody knows is unknown. */
  predicate Representable(m: MaybeFrame) {
    match m
    case NoFrame => true
    case Unknown(id) => TryFrom(id).None?
    case Known(ty) => !ty.Padding?
  }

  /** An attribution survives the wire if and only if it is representable. */
  lemma MaybeFrameRoundTrip(m: MaybeFrame, rest: seq<byte>)
    ensures DecodeMaybe(EncodeMaybe(m) + rest) == Some(Decoded(MaybeOf(MaybeId(m)), rest))
    ensures MaybeOf(MaybeId(m)) == m <==> Representable(m)
  {
    hide DecodeVar, EncodeVar;
    VarRoundTrip(MaybeId(m), rest);
    match m
    case NoFrame => assert TryFrom(0) == Some(Padding);
    case Unknown(_) =>
    case Known(ty) => TypeOfId(ty);
  }

  lemma DecodedIsRepresentable(v: VarInt)
    ensures Representable(MaybeOf(v)) && MaybeId(MaybeOf(v)) == v
  {
    IdOfType(v);
  }
}
