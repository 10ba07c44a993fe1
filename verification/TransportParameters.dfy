/**
 Transport parameters (noq-proto/src/transport_parameters.rs), section 18 of RFC 9000.

 The eleven integer parameters are a list in the order of their declaration.
 */
module TransportParameters {
  import opened Wrappers
  import opened Bytes
  import opened Net
  import opened VarInts

  type IntIndex = n: nat | n < 11

  type Ints = s: seq<VarInt> | |s| == 11 witness DEFAULTS

  /** max_idle_timeout, max_udp_payload_size, initial_max_data, three initial_max_stream_data, two
      initial_max_streams, ack_delay_exponent, max_ack_delay, active_connection_id_limit. */
  const DEFAULTS: seq<VarInt> := [0, 65527, 0, 0, 0, 0, 0, 0, 3, 25, 2]

  const MAX_UDP_PAYLOAD_SIZE: IntIndex := 1
  const INITIAL_MAX_STREAMS_BIDI: IntIndex := 6
  const INITIAL_MAX_STREAMS_UNI: IntIndex := 7
  const ACK_DELAY_EXPONENT: IntIndex := 8
  const MAX_ACK_DELAY: IntIndex := 9
  const ACTIVE_CONNECTION_ID_LIMIT: IntIndex := 10

  datatype AddrV4 = AddrV4(ip: u32, port: u16)
  datatype AddrV6 = AddrV6(ip: u128, port: u16)

  datatype PreferredAddress = PreferredAddress(v4: Option<AddrV4>, v6: Option<AddrV6>, cid: ConnectionId, token: ResetToken)

  datatype Role = SendOnly | ReceiveOnly | Both | Disabled

  type NonZeroU8 = n: byte | n > 0 witness 1

  datatype Params = Params(
    ints: Ints,
    disableActiveMigration: bool,
    maxDatagramFrameSize: Option<VarInt>,
    initialSrcCid: Option<ConnectionId>,
    greaseQuicBit: bool,
    minAckDelay: Option<VarInt>,
    originalDstCid: Option<ConnectionId>,
    retrySrcCid: Option<ConnectionId>,
    statelessResetToken: Option<ResetToken>,
    preferredAddress: Option<PreferredAddress>,
    addressDiscoveryRole: Role,
    initialMaxPathId: Option<u32>,
    maxRemoteNatTraversalAddresses: Option<NonZeroU8>)

  const DEFAULT: Params := Params(DEFAULTS, false, None, None, false, None, None, None, None, None, Disabled, None, None)

  datatype Error = IllegalValue | Malformed

  datatype Side = Client | Server

  // ------------------------------------------------------------------ identifiers

  datatype Id =
    | IntParam(index: IntIndex)
    | Reserved
    | StatelessResetToken
    | DisableActiveMigration
    | MaxDatagramFrameSize
    | PreferredAddr
    | OriginalDstCid
    | InitialSrcCid
    | RetrySrcCid
    | GreaseQuicBit
    | MinAckDelay
    | ObservedAddr
    | InitialMaxPathId
    | N0NatTraversal

  /** The supported parameters, by their place in the table. */
  type Place = n: nat | n < 24

  function Supported(place: Place): Id {
    if place < 11 then IntParam(place)
    else
      [Reserved, StatelessResetToken, DisableActiveMigration, MaxDatagramFrameSize, PreferredAddr, OriginalDstCid, InitialSrcCid,
       RetrySrcCid, GreaseQuicBit, MinAckDelay, ObservedAddr, InitialMaxPathId, N0NatTraversal][place - 11]
  }

  const INT_IDS: seq<VarInt> := [0x01, 0x03, 0x04, 0x05, 0x06, 0x07, 0x08, 0x09, 0x0a, 0x0b, 0x0e]

  function IdNumber(id: Id): VarInt {
    match id
    case IntParam(i) => INT_IDS[i]
    case Reserved => 0x1b
    case StatelessResetToken => 0x02
    case DisableActiveMigration => 0x0c
    case MaxDatagramFrameSize => 0x20
    case PreferredAddr => 0x0d
    case OriginalDstCid => 0x00
    case InitialSrcCid => 0x0f
    case RetrySrcCid => 0x10
    case GreaseQuicBit => 0x2ab2
    case MinAckDelay => 0xff04de1b
    case ObservedAddr => 0x9f81a176
    case InitialMaxPathId => 0x3e
    case N0NatTraversal => 0x3d7f91120401
  }

  function IdOf(v: VarInt): Option<Id> {
    match v
    case 0x00 => Some(OriginalDstCid)
    case 0x01 => Some(IntParam(0))
    case 0x02 => Some(StatelessResetToken)
    case 0x03 => Some(IntParam(1))
    case 0x04 => Some(IntParam(2))
    case 0x05 => Some(IntParam(3))
    case 0x06 => Some(IntParam(4))
    case 0x07 => Some(IntParam(5))
    case 0x08 => Some(IntParam(6))
    case 0x09 => Some(IntParam(7))
    case 0x0a => Some(IntParam(8))
    case 0x0b => Some(IntParam(9))
    case 0x0c => Some(DisableActiveMigration)
    case 0x0d => Some(PreferredAddr)
    case 0x0e => Some(IntParam(10))
    case 0x0f => Some(InitialSrcCid)
    case 0x10 => Some(RetrySrcCid)
    case 0x1b => Some(Reserved)
    case 0x20 => Some(MaxDatagramFrameSize)
    case 0x3e => Some(InitialMaxPathId)
    case 0x2ab2 => Some(GreaseQuicBit)
    case 0x9f81a176 => Some(ObservedAddr)
    case 0xff04de1b => Some(MinAckDelay)
    case 0x3d7f91120401 => Some(N0NatTraversal)
    case _ => None
  }

  lemma IdOfNumber(id: Id)
    ensures IdOf(IdNumber(id)) == Some(id)
  {
  }

  /** No identifier of a real parameter has the form 31 * N + 27. */
  lemma ReservedIsNothingElse(v: VarInt)
    requires v % 31 == 27
    ensures IdOf(v).None? || IdOf(v) == Some(Reserved)
  {
  }

  // ------------------------------------------------------------------ writing

  function WritePreferred(a: PreferredAddress): seq<byte> {
    var v4 := if a.v4.Some? then a.v4.value else AddrV4(0, 0);
    var v6 := if a.v6.Some? then a.v6.value else AddrV6(0, 0);
    BE(v4.ip, 4) + (BE(v4.port, 2) + (BE(v6.ip, 16) + (BE(v6.port, 2) + (EncodeLongCid(a.cid) + a.token))))
  }

  function RoleNumber(role: Role): Option<VarInt> {
    match role
    case SendOnly => Some(0)
    case ReceiveOnly => Some(1)
    case Both => Some(2)
    case Disabled => None
  }

  /** The bytes of a parameter, if it is written at all. */
  function Payload(p: Params, id: Id): Option<seq<byte>> {
    match id
    case IntParam(i) => if p.ints[i] != DEFAULTS[i] then Some(EncodeVar(p.ints[i])) else None
    case Reserved => None
    case StatelessResetToken => if p.statelessResetToken.Some? then Some(p.statelessResetToken.value) else None
    case DisableActiveMigration => if p.disableActiveMigration then Some([]) else None
    case MaxDatagramFrameSize => if p.maxDatagramFrameSize.Some? then Some(EncodeVar(p.maxDatagramFrameSize.value)) else None
    case PreferredAddr => if p.preferredAddress.Some? then Some(WritePreferred(p.preferredAddress.value)) else None
    case OriginalDstCid => if p.originalDstCid.Some? then Some(p.originalDstCid.value) else None
    case InitialSrcCid => if p.initialSrcCid.Some? then Some(p.initialSrcCid.value) else None
    case RetrySrcCid => if p.retrySrcCid.Some? then Some(p.retrySrcCid.value) else None
    case GreaseQuicBit => if p.greaseQuicBit then Some([]) else None
    case MinAckDelay => if p.minAckDelay.Some? then Some(EncodeVar(p.minAckDelay.value)) else None
    case ObservedAddr =>
      if RoleNumber(p.addressDiscoveryRole).Some? then Some(EncodeVar(RoleNumber(p.addressDiscoveryRole).value)) else None
    case InitialMaxPathId => if p.initialMaxPathId.Some? then Some(EncodeVar(p.initialMaxPathId.value)) else None
    case N0NatTraversal => if p.maxRemoteNatTraversalAddresses.Some? then Some([p.maxRemoteNatTraversalAddresses.value]) else None
  }

  lemma PayloadIsShort(p: Params, id: Id)
    ensures Payload(p, id).Some? ==> |Payload(p, id).value| <= 61
  {
  }

  /** The parameter that only exercises the rule that unknown ones are ignored. */
  datatype Grease = Grease(id: VarInt, payload: seq<byte>)

  predicate GreaseOk(g: Grease) {
    g.id % 31 == 27 && |g.payload| <= 16
  }

  function Entry(number: VarInt, payload: seq<byte>): seq<byte>
    requires |payload| <= MAX_VARINT
  {
    EncodeVar(number) + (EncodeVar(|payload|) + payload)
  }

  function WriteOne(p: Params, grease: Option<Grease>, id: Id): seq<byte>
    requires grease.Some? ==> GreaseOk(grease.value)
  {
    PayloadIsShort(p, id);
    if id.Reserved? then (if grease.Some? then Entry(grease.value.id, grease.value.payload) else [])
    else if Payload(p, id).Some? then Entry(IdNumber(id), Payload(p, id).value)
    else []
  }

  function WriteSpec(p: Params, grease: Option<Grease>, order: seq<Place>): seq<byte>
    requires grease.Some? ==> GreaseOk(grease.value)
  {
    if order == [] then [] else WriteOne(p, grease, Supported(order[0])) + WriteSpec(p, grease, order[1..])
  }

  /** `write`, in any order. */
  method Write(p: Params, grease: Option<Grease>, order: seq<Place>) returns (w: seq<byte>)
    requires grease.Some? ==> GreaseOk(grease.value)
    ensures w == WriteSpec(p, grease, order)
  {
    hide WriteOne;
    w := [];
    var i := 0;
    while i < |order|
      invariant i <= |order|
      invariant w + WriteSpec(p, grease, order[i..]) == WriteSpec(p, grease, order)
    {
      var one := WriteOne(p, grease, Supported(order[i]));
      assert order[i..][1..] == order[i + 1..];
      Assoc3(w, one, WriteSpec(p, grease, order[i + 1..]));
      w := w + one;
      i := i + 1;
    }
    assert order[i..] == [] && w + [] == w;
  }

  // ------------------------------------------------------------------ reading

  function ReadAddresses(s: seq<byte>): (r: Option<Decoded<(AddrV4, AddrV6)>>) {
    Pow256Values();
    match GetBE(s, 4)
    case None => None
    case Some(Decoded(ip4, s1)) =>
      match GetBE(s1, 2)
      case None => None
      case Some(Decoded(port4, s2)) =>
        match GetBE(s2, 16)
        case None => None
        case Some(Decoded(ip6, s3)) =>
          match GetBE(s3, 2)
          case None => None
          case Some(Decoded(port6, s4)) => Some(Decoded((AddrV4(ip4, port4), AddrV6(ip6, port6)), s4))
  }

  /** An address that is all zero stands for none. */
  function SomeV4(a: AddrV4): Option<AddrV4> {
    if a == AddrV4(0, 0) then None else Some(a)
  }

  function SomeV6(a: AddrV6): Option<AddrV6> {
    if a == AddrV6(0, 0) then None else Some(a)
  }

  /** `PreferredAddress::read`. */
  function ReadPreferred(s: seq<byte>): (r: Result<Decoded<PreferredAddress>, Error>)
    ensures r.Ok? ==> |r.value.rest| <= |s|
  {
    match ReadAddresses(s)
    case None => Err(Malformed)
    case Some(Decoded((a4, a6), s1)) =>
      match DecodeLongCid(s1)
      case None => Err(Malformed)
      case Some(Decoded(cid, s2)) =>
        if |s2| < RESET_TOKEN_SIZE then Err(Malformed)
        else if SomeV4(a4).None? && SomeV6(a6).None? then Err(IllegalValue)
        else Ok(Decoded(PreferredAddress(SomeV4(a4), SomeV6(a6), cid, s2[..16]), s2[16..]))
  }

  /** What has been read, and which integer parameters were seen. */
  datatype Reading = Reading(params: Params, got: set<IntIndex>)

  type Outcome = Result<Decoded<Reading>, Error>

  /** `decode_cid`. */
  function ReadCid(len: nat, seen: bool, s: seq<byte>): (r: Option<Decoded<ConnectionId>>) {
    if len > MAX_CID_SIZE || seen || |s| < len then None else Some(Decoded(s[..len], s[len..]))
  }

  function ApplyInt(st: Reading, i: IntIndex, len: nat, s: seq<byte>): (r: Outcome) {
    match DecodeVar(s)
    case None => Err(Malformed)
    case Some(Decoded(v, rest)) =>
      if len != Size(v) || i in st.got then Err(Malformed)
      else Ok(Decoded(Reading(st.params.(ints := st.params.ints[i := v]), st.got + {i}), rest))
  }

  function ApplyRole(st: Reading, len: nat, s: seq<byte>): (r: Outcome) {
    if !st.params.addressDiscoveryRole.Disabled? then Err(Malformed)
    else
      match DecodeVar(s)
      case None => Err(Malformed)
      case Some(Decoded(v, rest)) =>
        if len != Size(v) then Err(Malformed)
        else if v > 2 then Err(IllegalValue)
        else Ok(Decoded(st.(params := st.params.(addressDiscoveryRole := if v == 0 then SendOnly else if v == 1 then ReceiveOnly else Both)), rest))
  }

  function ApplyPathId(st: Reading, len: nat, s: seq<byte>): (r: Outcome) {
    if st.params.initialMaxPathId.Some? then Err(Malformed)
    else
      match DecodeVar(s)
      case None => Err(Malformed)
      case Some(Decoded(v, rest)) =>
        if v >= 0x1_0000_0000 || len != Size(v) then Err(Malformed)
        else Ok(Decoded(st.(params := st.params.(initialMaxPathId := Some(v))), rest))
  }

  function ApplyPreferred(st: Reading, len: nat, s: seq<byte>): (r: Outcome)
    requires len <= |s|
  {
    if st.params.preferredAddress.Some? then Err(Malformed)
    else
      match ReadPreferred(s[..len])
      case Err(e) => Err(e)
      case Ok(Decoded(a, rest)) => Ok(Decoded(st.(params := st.params.(preferredAddress := Some(a))), s[len - |rest|..]))
  }

  /** One known parameter of `len` bytes; some read their value without regard to `len`. */
  function Apply(st: Reading, id: Id, len: nat, s: seq<byte>): (r: Outcome)
    requires len <= |s|
  {
    var p := st.params;
    match id
    case IntParam(i) => ApplyInt(st, i, len, s)
    case Reserved => Ok(Decoded(st, s[len..]))
    case StatelessResetToken =>
      if len != 16 || p.statelessResetToken.Some? then Err(Malformed)
      else Ok(Decoded(st.(params := p.(statelessResetToken := Some(s[..16]))), s[16..]))
    case DisableActiveMigration =>
      if len != 0 || p.disableActiveMigration then Err(Malformed)
      else Ok(Decoded(st.(params := p.(disableActiveMigration := true)), s))
    case MaxDatagramFrameSize =>
      if len > 8 || p.maxDatagramFrameSize.Some? then Err(Malformed)
      else
        (match DecodeVar(s)
         case None => Err(Malformed)
         case Some(Decoded(v, rest)) => Ok(Decoded(st.(params := p.(maxDatagramFrameSize := Some(v))), rest)))
    case PreferredAddr => ApplyPreferred(st, len, s)
    case OriginalDstCid =>
      (match ReadCid(len, p.originalDstCid.Some?, s)
       case None => Err(Malformed)
       case Some(Decoded(cid, rest)) => Ok(Decoded(st.(params := p.(originalDstCid := Some(cid))), rest)))
    case InitialSrcCid =>
      (match ReadCid(len, p.initialSrcCid.Some?, s)
       case None => Err(Malformed)
       case Some(Decoded(cid, rest)) => Ok(Decoded(st.(params := p.(initialSrcCid := Some(cid))), rest)))
    case RetrySrcCid =>
      (match ReadCid(len, p.retrySrcCid.Some?, s)
       case None => Err(Malformed)
       case Some(Decoded(cid, rest)) => Ok(Decoded(st.(params := p.(retrySrcCid := Some(cid))), rest)))
    case GreaseQuicBit => if len != 0 then Err(Malformed) else Ok(Decoded(st.(params := p.(greaseQuicBit := true)), s))
    case MinAckDelay =>
      (match DecodeVar(s)
       case None => Err(Malformed)
       case Some(Decoded(v, rest)) => Ok(Decoded(st.(params := p.(minAckDelay := Some(v))), rest)))
    case ObservedAddr => ApplyRole(st, len, s)
    case InitialMaxPathId => ApplyPathId(st, len, s)
    case N0NatTraversal =>
      if p.maxRemoteNatTraversalAddresses.Some? || len != 1 then Err(Malformed)
      else if s[0] == 0 then Err(IllegalValue)
      else Ok(Decoded(st.(params := p.(maxRemoteNatTraversalAddresses := Some(s[0]))), s[1..]))
  }

  lemma ApplyShrinks(st: Reading, id: Id, len: nat, s: seq<byte>)
    requires len <= |s|
    ensures Apply(st, id, len, s).Ok? ==> |Apply(st, id, len, s).value.rest| <= |s|
  {
    hide DecodeVar, ReadPreferred, Size;
    if id.PreferredAddr? && ReadPreferred(s[..len]).Ok? {
      assert |ReadPreferred(s[..len]).value.rest| <= len;
    }
  }

  lemma AddressesTake24(s: seq<byte>)
    ensures ReadAddresses(s).Some? ==> |s| >= 24 && ReadAddresses(s).value.rest == s[24..]
  {
    hide FromBE;
  }

  /** A preferred address takes 41 bytes and its CID, whose length is the 25th byte. */
  lemma PreferredTakes(s: seq<byte>)
    requires ReadPreferred(s).Ok?
    ensures |s| > 24 && |ReadPreferred(s).value.rest| == |s| - (41 + s[24] as nat)
  {
    hide ReadAddresses;
    AddressesTake24(s);
  }

  lemma VarTakes(s: seq<byte>)
    requires DecodeVar(s).Some?
    ensures s != [] && |DecodeVar(s).value.rest| == |s| - LengthOf(s[0])
  {
  }

  /** The value's own encoding, which ends by itself, is as long as the entry claims.  Only parameters
      that are variable-length integers and the preferred address have such an encoding. */
  predicate LengthIsTrue(id: Id, len: nat, s: seq<byte>)
    requires id.PreferredAddr? ==> |s| > 24
    requires id.IntParam? || id.MaxDatagramFrameSize? || id.MinAckDelay? || id.ObservedAddr? || id.InitialMaxPathId? ==> s != []
  {
    match id
    case PreferredAddr => len == 41 + s[24] as nat
    case IntParam(_) => len == LengthOf(s[0])
    case MaxDatagramFrameSize => len == LengthOf(s[0])
    case MinAckDelay => len == LengthOf(s[0])
    case ObservedAddr => len == LengthOf(s[0])
    case InitialMaxPathId => len == LengthOf(s[0])
    case _ => true
  }

  /** An accepted entry takes exactly the `len` bytes it claims if and only if its value's encoding has
      that length: integers that must have it are compared in their shortest form, the others not at
      all, and a preferred address may end early. */
  lemma TakesLenIffLengthIsTrue(st: Reading, id: Id, len: nat, s: seq<byte>)
    requires len <= |s| && Apply(st, id, len, s).Ok?
    ensures id.PreferredAddr? ==> |s| > 24
    ensures id.IntParam? || id.MaxDatagramFrameSize? || id.MinAckDelay? || id.ObservedAddr? || id.InitialMaxPathId? ==> s != []
    ensures |Apply(st, id, len, s).value.rest| == |s| - len <==> LengthIsTrue(id, len, s)
  {
    hide DecodeVar, ReadPreferred, Size, LengthOf;
    if DecodeVar(s).Some? {
      VarTakes(s);
    }
    if id.PreferredAddr? {
      PreferredTakes(s[..len]);
      assert s[..len][24] == s[24];
    }
  }

  /** An entry is refused as illegal, and not as malformed, if and only if it is well formed and first of
      its kind but its value has no meaning: a discovery role above 2, no NAT traversal addresses, or
      a preferred address with neither address. */
  lemma IllegalEntryIff(st: Reading, id: Id, len: nat, s: seq<byte>)
    requires len <= |s|
    ensures Apply(st, id, len, s) == Err(IllegalValue) <==>
            match id {
              case ObservedAddr =>
                st.params.addressDiscoveryRole.Disabled? && DecodeVar(s).Some? &&
                len == Size(DecodeVar(s).value.value) && DecodeVar(s).value.value > 2
              case N0NatTraversal => st.params.maxRemoteNatTraversalAddresses.None? && len == 1 && s[0] == 0
              case PreferredAddr => st.params.preferredAddress.None? && ReadPreferred(s[..len]) == Err(IllegalValue)
              case _ => false
            }
  {
    hide DecodeVar, ReadPreferred, Size;
  }

  /** An entry that lies: max_idle_timeout, claiming one byte and written in two, is accepted and leaves
      the reader one byte further than it claimed. */
  lemma LengthMayLie(st: Reading)
    requires 0 !in st.got
    ensures var r := Apply(st, IntParam(0), 1, [0x40, 5, 9]);
            r.Ok? && r.value.value.params.ints[0] == 5 && r.value.rest == [9]
  {
    var s: seq<byte> := [0x40, 5, 9];
    assert DecodeVar(s) == Some(Decoded(5, [9])) by {
      assert [s[0] % 64] + s[1..2] == [0, 5];
      assert [0, 5][..1] == [0];
      assert s[2..] == [9];
    }
    hide DecodeVar;
    assert Size(5) == 1;
  }

  /** One turn of the loop of `read`. */
  function ReadParam(st: Reading, s: seq<byte>): (r: Outcome) {
    match DecodeVar(s)
    case None => Err(Malformed)
    case Some(Decoded(number, s1)) =>
      match DecodeVar(s1)
      case None => Err(Malformed)
      case Some(Decoded(len, s2)) =>
        if |s2| < len then Err(Malformed)
        else
          match IdOf(number)
          case None => Ok(Decoded(st, s2[len..]))
          case Some(id) => Apply(st, id, len, s2)
  }

  lemma ReadParamShrinks(st: Reading, s: seq<byte>)
    ensures ReadParam(st, s).Ok? ==> |ReadParam(st, s).value.rest| < |s|
  {
    hide Apply, IdOf;
    if ReadParam(st, s).Ok? {
      var number := DecodeVar(s).value;
      var len := DecodeVar(number.rest).value;
      if IdOf(number.value).Some? {
        ApplyShrinks(st, IdOf(number.value).value, len.value, len.rest);
      }
    }
  }

  function ReadAll(st: Reading, s: seq<byte>): (r: Result<Params, Error>)
    decreases |s|
  {
    if s == [] then Ok(st.params)
    else
      ReadParamShrinks(st, s);
      match ReadParam(st, s)
      case Err(e) => Err(e)
      case Ok(Decoded(st', rest)) => ReadAll(st', rest)
  }

  const MAX_STREAM_COUNT: nat := 0x1000_0000_0000_0000

  /** The semantic checks at the end of `read`. */
  predicate Legal(side: Side, p: Params) {
    && p.ints[ACK_DELAY_EXPONENT] <= 20
    && p.ints[MAX_ACK_DELAY] < 0x4000
    && p.ints[ACTIVE_CONNECTION_ID_LIMIT] >= 2
    && p.ints[MAX_UDP_PAYLOAD_SIZE] >= 1200
    && p.ints[INITIAL_MAX_STREAMS_BIDI] <= MAX_STREAM_COUNT
    && p.ints[INITIAL_MAX_STREAMS_UNI] <= MAX_STREAM_COUNT
    && (p.minAckDelay.Some? ==> p.minAckDelay.value <= p.ints[MAX_ACK_DELAY] * 1000)
    && (side.Server? ==> p.originalDstCid.None? && p.preferredAddress.None? && p.retrySrcCid.None? && p.statelessResetToken.None?)
    && (p.preferredAddress.Some? ==> p.preferredAddress.value.cid != [])
  }

  function ReadSpec(side: Side, s: seq<byte>): (r: Result<Params, Error>) {
    match ReadAll(Reading(DEFAULT, {}), s)
    case Err(e) => Err(e)
    case Ok(p) => if Legal(side, p) then Ok(p) else Err(IllegalValue)
  }

  method Read(side: Side, s: seq<byte>) returns (r: Result<Params, Error>)
    ensures r == ReadSpec(side, s)
  {
    hide ReadParam, Legal;
    var st, left := Reading(DEFAULT, {}), s;
    while left != []
      invariant ReadAll(st, left) == ReadAll(Reading(DEFAULT, {}), s)
      decreases |left|
    {
      ReadParamShrinks(st, left);
      var turn := ReadParam(st, left);
      if turn.Err? {
        return Err(turn.error);
      }
      st, left := turn.value.value, turn.value.rest;
    }
    if !Legal(side, st.params) {
      return Err(IllegalValue);
    }
    return Ok(st.params);
  }
}
