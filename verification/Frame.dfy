/**
 Frame sequences (noq-proto/src/frame.rs), sections 12.4 and 19 of RFC 9000.

 A frame is its type and the values of its fields in wire order.
 */
module Frames {
  import opened Wrappers
  import opened Bytes
  import opened Net
  import opened VarInts
  import opened RangeSets
  import opened Acks
  import opened FrameTypes

  datatype Field =
    | VarField | PathField | WideField | IpField(v6: bool) | PortField
    | TypeField | BytesField | RestField | AckField | CidField

  datatype Value =
    | Number(n: VarInt)
    | Wide(w: u64)
    | Ip(ip: IpAddr)
    | Port(port: u16)
    | Type(m: MaybeFrame)
    | Data(bytes: seq<byte>)
    | AckRanges(delay: VarInt, ranges: seq<Range>)
    | NewCid(sequence: VarInt, retirePriorTo: VarInt, id: ConnectionId, token: ResetToken)

  /** Values a field can hold. */
  ghost predicate Fits(k: Field, v: Value) {
    match k
    case VarField => v.Number?
    case PathField => v.Number? && v.n < 0x1_0000_0000
    case WideField => v.Wide?
    case IpField(v6) => v.Ip? && v.ip.V6? == v6
    case PortField => v.Port?
    case TypeField => v.Type? && Representable(v.m)
    case BytesField => v.Data? && |v.bytes| <= MAX_VARINT
    case RestField => v.Data?
    case AckField => v.AckRanges? && AckSet(v.ranges)
    case CidField => v.NewCid? && v.retirePriorTo <= v.sequence && v.id != []
  }

  // ------------------------------------------------------------------ fields

  function EncodeNewCid(sequence: VarInt, retirePriorTo: VarInt, id: ConnectionId, token: ResetToken): seq<byte> {
    EncodeVar(sequence) + (EncodeVar(retirePriorTo) + (EncodeLongCid(id) + token))
  }

  function EncodeField(k: Field, v: Value): seq<byte>
    requires Fits(k, v)
  {
    match v
    case Number(n) => EncodeVar(n)
    case Wide(w) => BE(w, 8)
    case Ip(ip) => if ip.V6? then BE(ip.v6, 16) else BE(ip.v4, 4)
    case Port(port) => BE(port, 2)
    case Type(m) => EncodeMaybe(m)
    case Data(bytes) => if k.BytesField? then EncodeVar(|bytes|) + bytes else bytes
    case AckRanges(delay, ranges) => EncodeAck(delay, ranges)
    case NewCid(sequence, retirePriorTo, id, token) => EncodeNewCid(sequence, retirePriorTo, id, token)
  }

  type Parsed = Result<Decoded<Value>, IterErr>

  function ReadVar(s: seq<byte>): (r: Parsed) {
    match DecodeVar(s)
    case None => Err(UnexpectedEnd)
    case Some(Decoded(n, rest)) => Ok(Decoded(Number(n), rest))
  }

  function ReadPath(s: seq<byte>): (r: Parsed) {
    match DecodeVar(s)
    case None => Err(UnexpectedEnd)
    case Some(Decoded(n, rest)) => if n < 0x1_0000_0000 then Ok(Decoded(Number(n), rest)) else Err(UnexpectedEnd)
  }

  function ReadWide(s: seq<byte>): (r: Parsed) {
    Pow256Values();
    match GetBE(s, 8)
    case None => Err(UnexpectedEnd)
    case Some(Decoded(n, rest)) => Ok(Decoded(Wide(n), rest))
  }

  function ReadIp(s: seq<byte>, v6: bool): (r: Parsed) {
    Pow256Values();
    match GetBE(s, if v6 then 16 else 4)
    case None => Err(UnexpectedEnd)
    case Some(Decoded(n, rest)) => Ok(Decoded(Ip(if v6 then V6(n) else V4(n)), rest))
  }

  function ReadPort(s: seq<byte>): (r: Parsed) {
    Pow256Values();
    match GetBE(s, 2)
    case None => Err(UnexpectedEnd)
    case Some(Decoded(n, rest)) => Ok(Decoded(Port(n), rest))
  }

  function ReadType(s: seq<byte>): (r: Parsed) {
    match DecodeMaybe(s)
    case None => Err(UnexpectedEnd)
    case Some(Decoded(m, rest)) => Ok(Decoded(Type(m), rest))
  }

  /** `take_len`. */
  function ReadBytes(s: seq<byte>): (r: Parsed) {
    match DecodeVar(s)
    case None => Err(UnexpectedEnd)
    case Some(Decoded(n, rest)) =>
      match Take(rest, n)
      case None => Err(UnexpectedEnd)
      case Some(Decoded(bytes, rest')) => Ok(Decoded(Data(bytes), rest'))
  }

  function ReadAck(s: seq<byte>): (r: Parsed) {
    match DecodeAck(s)
    case Err(e) => Err(e)
    case Ok(Decoded((_, delay, ranges), rest)) => Ok(Decoded(AckRanges(delay, ranges), rest))
  }

  /** Connection ID and reset token, after the two sequence numbers. */
  function ReadCidAndToken(s: seq<byte>): (r: Result<Decoded<(ConnectionId, ResetToken)>, IterErr>) {
    if s == [] then Err(UnexpectedEnd)
    else if s[0] > MAX_CID_SIZE || s[0] == 0 then Err(Malformed)
    else if |s| - 1 < s[0] || |s| - 1 - s[0] < RESET_TOKEN_SIZE then Err(UnexpectedEnd)
    else
      var end := 1 + s[0];
      Ok(Decoded((s[1..end], s[end..end + 16]), s[end + 16..]))
  }

  /** `NewConnectionId::read`. */
  function ReadNewCid(s: seq<byte>): (r: Parsed) {
    match DecodeVar(s)
    case None => Err(UnexpectedEnd)
    case Some(Decoded(sequence, s1)) =>
      match DecodeVar(s1)
      case None => Err(UnexpectedEnd)
      case Some(Decoded(retirePriorTo, s2)) =>
        if retirePriorTo > sequence then Err(Malformed)
        else
          match ReadCidAndToken(s2)
          case Err(e) => Err(e)
          case Ok(Decoded((id, token), rest)) => Ok(Decoded(NewCid(sequence, retirePriorTo, id, token), rest))
  }

  function ReadField(k: Field, s: seq<byte>): (r: Parsed) {
    match k
    case VarField => ReadVar(s)
    case PathField => ReadPath(s)
    case WideField => ReadWide(s)
    case IpField(v6) => ReadIp(s, v6)
    case PortField => ReadPort(s)
    case TypeField => ReadType(s)
    case BytesField => ReadBytes(s)
    case RestField => Ok(Decoded(Data(s), []))
    case AckField => ReadAck(s)
    case CidField => ReadNewCid(s)
  }

  lemma NewCidRoundTrip(v: Value, rest: seq<byte>)
    requires Fits(CidField, v)
    ensures ReadNewCid(EncodeField(CidField, v) + rest) == Ok(Decoded(v, rest))
  {
    var tail := EncodeLongCid(v.id) + (v.token + rest);
    assert EncodeField(CidField, v) + rest == EncodeVar(v.sequence) + (EncodeVar(v.retirePriorTo) + tail);
    CidAndTokenRoundTrip(v.id, v.token, rest);
    hide DecodeVar, EncodeVar, ReadCidAndToken;
    VarRoundTrip(v.sequence, EncodeVar(v.retirePriorTo) + tail);
    VarRoundTrip(v.retirePriorTo, tail);
  }

  lemma CidAndTokenRoundTrip(id: ConnectionId, token: ResetToken, rest: seq<byte>)
    requires id != []
    ensures ReadCidAndToken(EncodeLongCid(id) + (token + rest)) == Ok(Decoded((id, token), rest))
  {
    var s, end := EncodeLongCid(id) + (token + rest), 1 + |id|;
    assert s[1..end] == id && s[end..end + 16] == token && s[end + 16..] == rest;
  }

  lemma BytesRoundTrip(bytes: seq<byte>, rest: seq<byte>)
    requires |bytes| <= MAX_VARINT
    ensures ReadBytes((EncodeVar(|bytes|) + bytes) + rest) == Ok(Decoded(Data(bytes), rest))
  {
    hide DecodeVar, EncodeVar;
    Assoc3(EncodeVar(|bytes|), bytes, rest);
    VarRoundTrip(|bytes|, bytes + rest);
    TakeOfConcat(bytes, rest);
  }

  lemma AckFieldRoundTrip(v: Value, rest: seq<byte>)
    requires Fits(AckField, v)
    ensures ReadAck(EncodeField(AckField, v) + rest) == Ok(Decoded(v, rest))
  {
    hide DecodeAck, EncodeAck, AckSet;
    AckRoundTrip(v.delay, v.ranges, rest);
  }

  /** Reading a field undoes writing it; only a field without length must come last. */
  lemma FieldRoundTrip(k: Field, v: Value, rest: seq<byte>)
    requires Fits(k, v) && (k.RestField? ==> rest == [])
    ensures ReadField(k, EncodeField(k, v) + rest) == Ok(Decoded(v, rest))
  {
    hide DecodeVar, EncodeVar, DecodeMaybe, EncodeMaybe, BE, GetBE, Representable;
    hide ReadBytes, ReadAck, ReadNewCid, EncodeAck, EncodeNewCid, AckSet;
    Pow256Values();
    match k
    case VarField => VarRoundTrip(v.n, rest);
    case PathField => VarRoundTrip(v.n, rest);
    case WideField => GetBEOfBE(v.w, 8, rest);
    case IpField(v6) => if v6 { GetBEOfBE(v.ip.v6, 16, rest); } else { GetBEOfBE(v.ip.v4, 4, rest); }
    case PortField => GetBEOfBE(v.port, 2, rest);
    case TypeField => MaybeFrameRoundTrip(v.m, rest);
    case BytesField => BytesRoundTrip(v.bytes, rest);
    case RestField => assert v.bytes + rest == v.bytes;
    case AckField => AckFieldRoundTrip(v, rest);
    case CidField => NewCidRoundTrip(v, rest);
  }

  /** Whatever is read fits its field and leaves no more input than there was. */
  lemma ReadFits(k: Field, s: seq<byte>)
    requires ReadField(k, s).Ok?
    ensures Fits(k, ReadField(k, s).value.value) && |ReadField(k, s).value.rest| <= |s|
  {
    match k
    case TypeField => DecodedIsRepresentable(DecodeVar(s).value.value);
    case AckField => AcceptedBlocks(DecodeVar(DecodeVar(s).value.rest).value.rest, DecodeVar(s).value.value);
    case _ =>
  }

  // ------------------------------------------------------------------ lists of fields

  /** Fields of each type of frame. */
  function Layout(ty: FrameType): (ks: seq<Field>) {
    match ty
    case Padding => []
    case Ping => []
    case Ack => [AckField]
    case AckEcn => [AckField, VarField, VarField, VarField]
    case ResetStream => [VarField, VarField, VarField]
    case StopSending => [VarField, VarField]
    case Crypto => [VarField, BytesField]
    case NewToken => [BytesField]
    case Stream(info) =>
      [VarField] + ((if (info / 4) % 2 == 1 then [VarField] else []) + (if (info / 2) % 2 == 1 then [BytesField] else [RestField]))
    case MaxData => [VarField]
    case MaxStreamData => [VarField, VarField]
    case MaxStreamsBidi => [VarField]
    case MaxStreamsUni => [VarField]
    case DataBlocked => [VarField]
    case StreamDataBlocked => [VarField, VarField]
    case StreamsBlockedBidi => [VarField]
    case StreamsBlockedUni => [VarField]
    case NewConnectionId => [CidField]
    case RetireConnectionId => [VarField]
    case PathChallenge => [WideField]
    case PathResponse => [WideField]
    case ConnectionClose => [VarField, TypeField, BytesField]
    case ApplicationClose => [VarField, BytesField]
    case HandshakeDone => []
    case AckFrequency => [VarField, VarField, VarField, VarField]
    case ImmediateAck => []
    case Datagram(info) => if info % 2 == 1 then [BytesField] else [RestField]
    case ObservedIpv4Addr => [VarField, IpField(false), PortField]
    case ObservedIpv6Addr => [VarField, IpField(true), PortField]
    case PathAck => [PathField, AckField]
    case PathAckEcn => [PathField, AckField, VarField, VarField, VarField]
    case PathAbandon => [PathField, VarField]
    case PathStatusBackup => [PathField, VarField]
    case PathStatusAvailable => [PathField, VarField]
    case PathNewConnectionId => [PathField, CidField]
    case PathRetireConnectionId => [PathField, VarField]
    case MaxPathId => [PathField]
    case PathsBlocked => [PathField]
    case PathCidsBlocked => [PathField, VarField]
    case AddIpv4Address => [VarField, IpField(false), PortField]
    case AddIpv6Address => [VarField, IpField(true), PortField]
    case ReachOutAtIpv4 => [VarField, IpField(false), PortField]
    case ReachOutAtIpv6 => [VarField, IpField(true), PortField]
    case RemoveAddress => [VarField]
  }

  ghost predicate AllFit(ks: seq<Field>, vs: seq<Value>) {
    |ks| == |vs| && forall i :: 0 <= i < |ks| ==> Fits(ks[i], vs[i])
  }

  /** A field without length can only come last. */
  predicate WellLaid(ks: seq<Field>) {
    forall i :: 0 <= i < |ks| - 1 ==> !ks[i].RestField?
  }

  predicate SelfDelimiting(ks: seq<Field>) {
    forall i :: 0 <= i < |ks| ==> !ks[i].RestField?
  }

  lemma LayoutsAreWellLaid(ty: FrameType)
    ensures WellLaid(Layout(ty))
    ensures SelfDelimiting(Layout(ty)) <==> !(ty.Stream? && (ty.stream / 2) % 2 == 0) && !(ty.Datagram? && ty.datagram % 2 == 0)
  {
    if ty.Stream? && (ty.stream / 2) % 2 == 0 {
      assert Layout(ty)[|Layout(ty)| - 1].RestField?;
    }
    if ty.Datagram? && ty.datagram % 2 == 0 {
      assert Layout(ty)[0].RestField?;
    }
  }

  function EncodeFields(ks: seq<Field>, vs: seq<Value>): seq<byte>
    requires AllFit(ks, vs)
  {
    if ks == [] then [] else EncodeField(ks[0], vs[0]) + EncodeFields(ks[1..], vs[1..])
  }

  function ReadFields(ks: seq<Field>, s: seq<byte>): (r: Result<Decoded<seq<Value>>, IterErr>) {
    if ks == [] then Ok(Decoded([], s))
    else
      match ReadField(ks[0], s)
      case Err(e) => Err(e)
      case Ok(Decoded(v, rest)) =>
        match ReadFields(ks[1..], rest)
        case Err(e) => Err(e)
        case Ok(Decoded(vs, rest')) => Ok(Decoded([v] + vs, rest'))
  }

  lemma {:induction false} FieldsRoundTrip(ks: seq<Field>, vs: seq<Value>, rest: seq<byte>)
    requires AllFit(ks, vs) && WellLaid(ks) && (rest != [] ==> SelfDelimiting(ks))
    ensures ReadFields(ks, EncodeFields(ks, vs) + rest) == Ok(Decoded(vs, rest))
    decreases |ks|
  {
    hide ReadField, EncodeField, Fits;
    if ks != [] {
      var more := EncodeFields(ks[1..], vs[1..]) + rest;
      Assoc3(EncodeField(ks[0], vs[0]), EncodeFields(ks[1..], vs[1..]), rest);
      FieldRoundTrip(ks[0], vs[0], more);
      FieldsRoundTrip(ks[1..], vs[1..], rest);
      assert [vs[0]] + vs[1..] == vs;
    } else {
      assert vs == [] && [] + rest == rest;
    }
  }

  lemma {:induction false} ReadFieldsFit(ks: seq<Field>, s: seq<byte>)
    requires ReadFields(ks, s).Ok?
    ensures AllFit(ks, ReadFields(ks, s).value.value) && |ReadFields(ks, s).value.rest| <= |s|
    decreases |ks|
  {
    hide ReadField, Fits;
    if ks != [] {
      ReadFits(ks[0], s);
      ReadFieldsFit(ks[1..], ReadField(ks[0], s).value.rest);
    }
  }

  // ------------------------------------------------------------------ frames

  datatype Frame = Frame(ty: FrameType, values: seq<Value>)

  ghost predicate ValidFrame(f: Frame) {
    AllFit(Layout(f.ty), f.values)
  }

  function EncodeFrame(f: Frame): seq<byte>
    requires ValidFrame(f)
  {
    EncodeVar(ToU64(f.ty)) + EncodeFields(Layout(f.ty), f.values)
  }

  datatype InvalidFrame = InvalidFrame(ty: MaybeFrame, reason: IterErr)

  function TypeToRead(m: MaybeFrame): (r: Result<FrameType, IterErr>) {
    match m
    case NoFrame => Ok(Padding)
    case Unknown(_) => Err(InvalidFrameId)
    case Known(ty) => Ok(ty)
  }

  /** `try_next`, and the type it was reading. */
  function TryNext(s: seq<byte>, lastTy: MaybeFrame): (r: (Result<Decoded<Frame>, IterErr>, MaybeFrame)) {
    match DecodeMaybe(s)
    case None => (Err(UnexpectedEnd), lastTy)
    case Some(Decoded(m, rest)) =>
      match TypeToRead(m)
      case Err(e) => (Err(e), m)
      case Ok(ty) =>
        match ReadFields(Layout(ty), rest)
        case Err(e) => (Err(e), m)
        case Ok(Decoded(values, rest')) => (Ok(Decoded(Frame(ty, values), rest')), m)
  }

  /** A frame that is read is valid, and takes at least a byte. */
  lemma TryNextValid(s: seq<byte>, lastTy: MaybeFrame)
    requires TryNext(s, lastTy).0.Ok?
    ensures ValidFrame(TryNext(s, lastTy).0.value.value) && |TryNext(s, lastTy).0.value.rest| < |s|
  {
    hide DecodeVar, Layout, AllFit, ReadFields, MaybeOf;
    var d := DecodeMaybe(s).value;
    ReadFieldsFit(Layout(TypeToRead(d.value).value), d.rest);
  }

  lemma FrameRoundTrip(f: Frame, rest: seq<byte>, lastTy: MaybeFrame)
    requires ValidFrame(f) && (rest != [] ==> SelfDelimiting(Layout(f.ty)))
    ensures TryNext(EncodeFrame(f) + rest, lastTy) == (Ok(Decoded(f, rest)), MaybeOf(ToU64(f.ty)))
  {
    hide DecodeVar, EncodeVar, Layout, AllFit, ReadFields, EncodeFields, ToU64, TryFrom;
    var fields := EncodeFields(Layout(f.ty), f.values);
    Assoc3(EncodeVar(ToU64(f.ty)), fields, rest);
    VarRoundTrip(ToU64(f.ty), fields + rest);
    TypeOfId(f.ty);
    LayoutsAreWellLaid(f.ty);
    FieldsRoundTrip(Layout(f.ty), f.values, rest);
  }

  // ------------------------------------------------------------------ the iterator

  type Item = Result<Frame, InvalidFrame>

  /** Everything the iterator yields. */
  function Items(s: seq<byte>, lastTy: MaybeFrame): (items: seq<Item>)
    decreases |s|
  {
    if s == [] then []
    else
      match TryNext(s, lastTy)
      case (Err(e), m) => [Err(InvalidFrame(m, e))]
      case (Ok(d), m) =>
        TryNextValid(s, lastTy);
        [Ok(d.value)] + Items(d.rest, m)
  }

  class Iter {
    var bytes: seq<byte>
    var lastTy: MaybeFrame

    /** Everything still to come. */
    ghost function ToCome(): seq<Item>
      reads this
    {
      Items(bytes, lastTy)
    }

    constructor (payload: seq<byte>)
      ensures ToCome() == Items(payload, NoFrame)
    {
      bytes, lastTy := payload, NoFrame;
    }

    method Next() returns (item: Option<Item>)
      modifies this
      ensures item.None? <==> old(ToCome()) == []
      ensures item.Some? ==> old(ToCome()) == [item.value] + ToCome() && |bytes| < |old(bytes)|
    {
      hide TryNext;
      if bytes == [] {
        return None;
      }
      var (r, m) := TryNext(bytes, lastTy);
      lastTy := m;
      if r.Err? {
        bytes := [];
        return Some(Err(InvalidFrame(m, r.error)));
      }
      TryNextValid(old(bytes), old(lastTy));
      bytes := r.value.rest;
      return Some(Ok(r.value.value));
    }
  }

  // ------------------------------------------------------------------ frame sequences

  /** Only the last frame may lack a length. */
  ghost predicate Sequence(fs: seq<Frame>) {
    && (forall i :: 0 <= i < |fs| ==> ValidFrame(fs[i]))
    && (forall i :: 0 <= i < |fs| - 1 ==> SelfDelimiting(Layout(fs[i].ty)))
  }

  function EncodeAll(fs: seq<Frame>): seq<byte>
    requires Sequence(fs)
  {
    if fs == [] then [] else EncodeFrame(fs[0]) + EncodeAll(fs[1..])
  }

  function Oks(fs: seq<Frame>): seq<Item> {
    if fs == [] then [] else [Ok(fs[0])] + Oks(fs[1..])
  }

  /** Every list of frames of which only the last may lack a length is read back exactly. */
  lemma {:induction false} FrameListRoundTrip(fs: seq<Frame>, lastTy: MaybeFrame)
    requires Sequence(fs)
    ensures Items(EncodeAll(fs), lastTy) == Oks(fs)
    decreases |fs|
  {
    hide TryNext, EncodeFrame, ValidFrame, Layout;
    if fs != [] {
      var rest := EncodeAll(fs[1..]);
      assert |fs| == 1 ==> rest == [];
      FrameRoundTrip(fs[0], rest, lastTy);
      FrameIsNotEmpty(fs[0]);
      FrameListRoundTrip(fs[1..], MaybeOf(ToU64(fs[0].ty)));
    }
  }

  lemma FrameIsNotEmpty(f: Frame)
    requires ValidFrame(f)
    ensures EncodeFrame(f) != []
  {
  }

  /** On arbitrary bytes: at most one item per byte, every frame valid, and an error only at the end. */
  lemma {:induction false} ItemsAreBounded(s: seq<byte>, lastTy: MaybeFrame)
    ensures var items := Items(s, lastTy);
            && |items| <= |s|
            && (forall i :: 0 <= i < |items| - 1 ==> items[i].Ok?)
            && (forall i :: 0 <= i < |items| && items[i].Ok? ==> ValidFrame(items[i].value))
    decreases |s|
  {
    hide TryNext, ValidFrame;
    if s != [] {
      var (r, m) := TryNext(s, lastTy);
      if r.Ok? {
        TryNextValid(s, lastTy);
        ItemsAreBounded(r.value.rest, m);
      }
    }
  }

  // ------------------------------------------------------------------ STREAM frames

  datatype StreamData = StreamData(id: VarInt, offset: VarInt, fin: bool, data: seq<byte>)

  /** `StreamMeta::get_type`. */
  function StreamType(st: StreamData, encodeLength: bool): StreamInfo {
    0x08 + (if st.offset != 0 then 4 else 0) + (if encodeLength then 2 else 0) + (if st.fin then 1 else 0)
  }

  /** `StreamMetaEncoder::encode`, then the data. */
  function EncodeStream(st: StreamData, encodeLength: bool): seq<byte>
    requires |st.data| <= MAX_VARINT
  {
    EncodeVar(StreamType(st, encodeLength)) +
    (EncodeVar(st.id) +
     ((if st.offset != 0 then EncodeVar(st.offset) else []) +
      ((if encodeLength then EncodeVar(|st.data|) else []) + st.data)))
  }

  function StreamFrame(st: StreamData, encodeLength: bool): Frame {
    Frame(Stream(StreamType(st, encodeLength)),
          if st.offset != 0 then [Number(st.id), Number(st.offset), Data(st.data)] else [Number(st.id), Data(st.data)])
  }

  /** What the iterator makes of the fields of a STREAM frame. */
  function StreamOf(f: Frame): (st: StreamData)
    requires f.ty.Stream? && AllFit(Layout(f.ty), f.values)
  {
    var off := (f.ty.stream / 4) % 2 == 1;
    assert Fits(Layout(f.ty)[0], f.values[0]) && Fits(Layout(f.ty)[1], f.values[1]);
    assert off ==> Fits(Layout(f.ty)[2], f.values[2]);
    StreamData(f.values[0].n, if off then f.values[1].n else 0, f.ty.stream % 2 == 1,
               if off then f.values[2].bytes else f.values[1].bytes)
  }

  lemma StreamLayout(st: StreamData, encodeLength: bool)
    ensures var last := if encodeLength then BytesField else RestField;
            Layout(Stream(StreamType(st, encodeLength))) == if st.offset != 0 then [VarField, VarField, last] else [VarField, last]
  {
  }

  lemma StreamFieldBytes(st: StreamData, last: Field)
    requires |st.data| <= MAX_VARINT && (last.BytesField? || last.RestField?)
    ensures EncodeFields([VarField, last], [Number(st.id), Data(st.data)]) == EncodeVar(st.id) + EncodeField(last, Data(st.data))
    ensures EncodeFields([VarField, VarField, last], [Number(st.id), Number(st.offset), Data(st.data)]) ==
            EncodeVar(st.id) + (EncodeVar(st.offset) + EncodeField(last, Data(st.data)))
  {
    hide EncodeVar;
    var data := EncodeField(last, Data(st.data));
    assert EncodeFields([last], [Data(st.data)]) == data + EncodeFields([], []) == data;
    assert [VarField, last][1..] == [last] && [Number(st.id), Data(st.data)][1..] == [Data(st.data)];
    assert [VarField, VarField, last][1..] == [VarField, last];
    assert [Number(st.id), Number(st.offset), Data(st.data)][1..] == [Number(st.offset), Data(st.data)];
    assert [Number(st.offset), Data(st.data)][1..] == [Data(st.data)];
  }

  /** Both ways between stream data and the values of a STREAM frame. */
  lemma StreamValues(st: StreamData, encodeLength: bool)
    requires |st.data| <= MAX_VARINT
    ensures var f := StreamFrame(st, encodeLength); ValidFrame(f) && StreamOf(f) == st
  {
    hide Layout;
    StreamLayout(st, encodeLength);
  }

  /** The encoder of STREAM frames writes a frame that is read back as the same stream data, with or
      without a length. */
  lemma StreamRoundTrip(st: StreamData, encodeLength: bool)
    requires |st.data| <= MAX_VARINT
    ensures var f := StreamFrame(st, encodeLength);
            && ValidFrame(f) && EncodeStream(st, encodeLength) == EncodeFrame(f) && StreamOf(f) == st
            && (SelfDelimiting(Layout(f.ty)) <==> encodeLength)
  {
    hide EncodeVar, EncodeFields, Layout, ValidFrame, StreamOf, SelfDelimiting, WellLaid;
    StreamValues(st, encodeLength);
    StreamLayout(st, encodeLength);
    LayoutsAreWellLaid(Stream(StreamType(st, encodeLength)));
    var last := if encodeLength then BytesField else RestField;
    StreamFieldBytes(st, last);
    var data := EncodeField(last, Data(st.data));
    assert data == (if encodeLength then EncodeVar(|st.data|) else []) + st.data;
    assert [] + data == data;
  }
}
