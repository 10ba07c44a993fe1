/**
 Writing and reading transport parameters (noq-proto/src/transport_parameters.rs): every legal record
 comes back from every order of its parameters, with or without grease.
 */
module TransportRoundTrip {
  import opened Wrappers
  import opened Bytes
  import opened Net
  import opened VarInts
  import opened TransportParameters

  // ------------------------------------------------------------------ preferred address

  /** At least one address, and none that is all zero. */
  predicate Representable(a: PreferredAddress) {
    && (a.v4.Some? || a.v6.Some?)
    && a.v4 != Some(AddrV4(0, 0)) && a.v6 != Some(AddrV6(0, 0))
  }

  lemma AddressesRoundTrip(a4: AddrV4, a6: AddrV6, rest: seq<byte>)
    ensures ReadAddresses(BE(a4.ip, 4) + (BE(a4.port, 2) + (BE(a6.ip, 16) + (BE(a6.port, 2) + rest)))) == Some(Decoded((a4, a6), rest))
  {
    hide BE, GetBE;
    Pow256Values();
    GetBEOfBE(a4.ip, 4, BE(a4.port, 2) + (BE(a6.ip, 16) + (BE(a6.port, 2) + rest)));
    GetBEOfBE(a4.port, 2, BE(a6.ip, 16) + (BE(a6.port, 2) + rest));
    GetBEOfBE(a6.ip, 16, BE(a6.port, 2) + rest);
    GetBEOfBE(a6.port, 2, rest);
  }

  /** A preferred address comes back if and only if it is representable; without any address that is not
      all zero it is refused as illegal. */
  lemma PreferredRoundTrip(a: PreferredAddress)
    ensures ReadPreferred(WritePreferred(a)) == Ok(Decoded(a, [])) <==> Representable(a)
    ensures ReadPreferred(WritePreferred(a)) == Err(IllegalValue) <==>
            (a.v4.None? || a.v4.value == AddrV4(0, 0)) && (a.v6.None? || a.v6.value == AddrV6(0, 0))
  {
    hide ReadAddresses, BE, DecodeLongCid, EncodeLongCid;
    var v4 := if a.v4.Some? then a.v4.value else AddrV4(0, 0);
    var v6 := if a.v6.Some? then a.v6.value else AddrV6(0, 0);
    AddressesRoundTrip(v4, v6, EncodeLongCid(a.cid) + a.token);
    LongCidRoundTrip(a.cid, a.token);
    assert a.token[..16] == a.token && a.token[16..] == [];
  }

  // ------------------------------------------------------------------ what has been read so far

  /** The parameters in `done` from `p`, the others at their defaults. */
  ghost function At(p: Params, done: set<Id>): Params {
    Params(
      seq(11, i requires 0 <= i < 11 => if IntParam(i) in done then p.ints[i] else DEFAULTS[i]),
      DisableActiveMigration in done && p.disableActiveMigration,
      if MaxDatagramFrameSize in done then p.maxDatagramFrameSize else None,
      if InitialSrcCid in done then p.initialSrcCid else None,
      GreaseQuicBit in done && p.greaseQuicBit,
      if MinAckDelay in done then p.minAckDelay else None,
      if OriginalDstCid in done then p.originalDstCid else None,
      if RetrySrcCid in done then p.retrySrcCid else None,
      if StatelessResetToken in done then p.statelessResetToken else None,
      if PreferredAddr in done then p.preferredAddress else None,
      if ObservedAddr in done then p.addressDiscoveryRole else Disabled,
      if InitialMaxPathId in done then p.initialMaxPathId else None,
      if N0NatTraversal in done then p.maxRemoteNatTraversalAddresses else None)
  }

  ghost function Got(p: Params, done: set<Id>): set<IntIndex> {
    set i: IntIndex | i < 11 && IntParam(i) in done && p.ints[i] != DEFAULTS[i]
  }

  ghost function After(p: Params, done: set<Id>): Reading {
    Reading(At(p, done), Got(p, done))
  }

  lemma Start(p: Params)
    ensures After(p, {}) == Reading(DEFAULT, {})
  {
    assert At(p, {}).ints == DEFAULTS;
  }

  lemma Finish(p: Params, done: set<Id>)
    requires forall id: Id :: id in done
    ensures At(p, done) == p
  {
    assert At(p, done).ints == p.ints;
  }

  /** A parameter that is not written is at its default. */
  lemma NotWritten(p: Params, done: set<Id>, id: Id)
    requires Payload(p, id).None?
    ensures After(p, done + {id}) == After(p, done)
  {
    hide EncodeVar, WritePreferred, Got;
    if id.IntParam? {
      NotWrittenInt(p, done, id.index);
    } else {
      SameInts(p, done, id);
    }
  }

  lemma NotWrittenInt(p: Params, done: set<Id>, i: IntIndex)
    requires p.ints[i] == DEFAULTS[i]
    ensures At(p, done + {IntParam(i)}).ints == At(p, done).ints && Got(p, done + {IntParam(i)}) == Got(p, done)
  {
  }

  // ------------------------------------------------------------------ one parameter

  lemma AfterInt(p: Params, done: set<Id>, i: IntIndex)
    requires p.ints[i] != DEFAULTS[i] && IntParam(i) !in done
    ensures var st := After(p, done);
            i !in st.got && Reading(st.params.(ints := st.params.ints[i := p.ints[i]]), st.got + {i}) == After(p, done + {IntParam(i)})
  {
    var st := After(p, done);
    assert st.params.ints[i := p.ints[i]] == At(p, done + {IntParam(i)}).ints;
    assert st.got + {i} == Got(p, done + {IntParam(i)});
  }

  /** Parameters other than integers leave the integers alone. */
  lemma SameInts(p: Params, done: set<Id>, id: Id)
    requires !id.IntParam?
    ensures At(p, done + {id}).ints == At(p, done).ints && Got(p, done + {id}) == Got(p, done)
  {
  }

  lemma ApplyIntBack(p: Params, done: set<Id>, i: IntIndex, rest: seq<byte>)
    requires p.ints[i] != DEFAULTS[i] && IntParam(i) !in done
    ensures ApplyInt(After(p, done), i, Size(p.ints[i]), EncodeVar(p.ints[i]) + rest) == Ok(Decoded(After(p, done + {IntParam(i)}), rest))
  {
    hide DecodeVar, EncodeVar, Size, After;
    VarRoundTrip(p.ints[i], rest);
    AfterInt(p, done, i);
  }

  lemma ApplyVarBack(p: Params, done: set<Id>, id: Id, v: VarInt, rest: seq<byte>)
    requires id in {MaxDatagramFrameSize, MinAckDelay, ObservedAddr, InitialMaxPathId} && id !in done
    requires Payload(p, id) == Some(EncodeVar(v))
    requires id.MaxDatagramFrameSize? ==> p.maxDatagramFrameSize == Some(v)
    requires id.MinAckDelay? ==> p.minAckDelay == Some(v)
    requires id.ObservedAddr? ==> RoleNumber(p.addressDiscoveryRole) == Some(v)
    requires id.InitialMaxPathId? ==> p.initialMaxPathId == Some(v)
    ensures Apply(After(p, done), id, Size(v), EncodeVar(v) + rest) == Ok(Decoded(After(p, done + {id}), rest))
  {
    hide DecodeVar, EncodeVar, Got;
    VarRoundTrip(v, rest);
    SameInts(p, done, id);
  }

  lemma ApplyCidBack(p: Params, done: set<Id>, id: Id, cid: ConnectionId, rest: seq<byte>)
    requires id in {OriginalDstCid, InitialSrcCid, RetrySrcCid} && id !in done
    requires id.OriginalDstCid? ==> p.originalDstCid == Some(cid)
    requires id.InitialSrcCid? ==> p.initialSrcCid == Some(cid)
    requires id.RetrySrcCid? ==> p.retrySrcCid == Some(cid)
    ensures Apply(After(p, done), id, |cid|, cid + rest) == Ok(Decoded(After(p, done + {id}), rest))
  {
    hide Got;
    SameInts(p, done, id);
    assert (cid + rest)[..|cid|] == cid && (cid + rest)[|cid|..] == rest;
  }

  lemma ApplyFlagBack(p: Params, done: set<Id>, id: Id, rest: seq<byte>)
    requires id in {DisableActiveMigration, GreaseQuicBit} && id !in done && Payload(p, id) == Some([])
    ensures Apply(After(p, done), id, 0, [] + rest) == Ok(Decoded(After(p, done + {id}), rest))
  {
    hide Got;
    SameInts(p, done, id);
    assert [] + rest == rest;
  }

  lemma ApplyTokenBack(p: Params, done: set<Id>, token: ResetToken, rest: seq<byte>)
    requires StatelessResetToken !in done && p.statelessResetToken == Some(token)
    ensures Apply(After(p, done), StatelessResetToken, 16, token + rest) == Ok(Decoded(After(p, done + {StatelessResetToken}), rest))
  {
    hide Got;
    SameInts(p, done, StatelessResetToken);
    assert (token + rest)[..16] == token && (token + rest)[16..] == rest;
  }

  lemma ApplyNatBack(p: Params, done: set<Id>, n: NonZeroU8, rest: seq<byte>)
    requires N0NatTraversal !in done && p.maxRemoteNatTraversalAddresses == Some(n)
    ensures Apply(After(p, done), N0NatTraversal, 1, [n] + rest) == Ok(Decoded(After(p, done + {N0NatTraversal}), rest))
  {
    hide Got;
    SameInts(p, done, N0NatTraversal);
    assert ([n] + rest)[1..] == rest;
  }

  lemma ApplyPreferredBack(p: Params, done: set<Id>, a: PreferredAddress, rest: seq<byte>)
    requires PreferredAddr !in done && p.preferredAddress == Some(a) && Representable(a)
    ensures var b := WritePreferred(a);
            Apply(After(p, done), PreferredAddr, |b|, b + rest) == Ok(Decoded(After(p, done + {PreferredAddr}), rest))
  {
    hide Got, ReadPreferred, WritePreferred, Representable;
    SameInts(p, done, PreferredAddr);
    PreferredRoundTrip(a);
    var b := WritePreferred(a);
    assert (b + rest)[..|b|] == b && (b + rest)[|b|..] == rest;
  }

  /** A record whose preferred address, if any, can be told apart from none. */
  predicate Writable(p: Params) {
    p.preferredAddress.Some? ==> Representable(p.preferredAddress.value)
  }

  /** Reading the payload of any parameter sets that parameter and nothing else. */
  lemma ApplyBack(p: Params, done: set<Id>, id: Id, rest: seq<byte>)
    requires Writable(p) && id !in done && Payload(p, id).Some?
    ensures var b := Payload(p, id).value; Apply(After(p, done), id, |b|, b + rest) == Ok(Decoded(After(p, done + {id}), rest))
  {
    hide After, EncodeVar, WritePreferred, Representable;
    match id
    case IntParam(i) => ApplyIntBack(p, done, i, rest);
    case StatelessResetToken => ApplyTokenBack(p, done, p.statelessResetToken.value, rest);
    case DisableActiveMigration => ApplyFlagBack(p, done, id, rest);
    case MaxDatagramFrameSize => ApplyVarBack(p, done, id, p.maxDatagramFrameSize.value, rest);
    case PreferredAddr => ApplyPreferredBack(p, done, p.preferredAddress.value, rest);
    case OriginalDstCid => ApplyCidBack(p, done, id, p.originalDstCid.value, rest);
    case InitialSrcCid => ApplyCidBack(p, done, id, p.initialSrcCid.value, rest);
    case RetrySrcCid => ApplyCidBack(p, done, id, p.retrySrcCid.value, rest);
    case GreaseQuicBit => ApplyFlagBack(p, done, id, rest);
    case MinAckDelay => ApplyVarBack(p, done, id, p.minAckDelay.value, rest);
    case ObservedAddr => ApplyVarBack(p, done, id, RoleNumber(p.addressDiscoveryRole).value, rest);
    case InitialMaxPathId => ApplyVarBack(p, done, id, p.initialMaxPathId.value, rest);
    case N0NatTraversal => ApplyNatBack(p, done, p.maxRemoteNatTraversalAddresses.value, rest);
  }

  lemma ReadsEntry(st: Reading, number: VarInt, payload: seq<byte>, rest: seq<byte>)
    requires |payload| <= MAX_VARINT
    ensures ReadParam(st, Entry(number, payload) + rest) ==
            match IdOf(number)
            case None => Ok(Decoded(st, rest))
            case Some(id) => Apply(st, id, |payload|, payload + rest)
  {
    hide DecodeVar, EncodeVar, Apply, IdOf;
    Assoc4(EncodeVar(number), EncodeVar(|payload|), payload, rest);
    VarRoundTrip(number, EncodeVar(|payload|) + (payload + rest));
    VarRoundTrip(|payload|, payload + rest);
    assert (payload + rest)[|payload|..] == rest;
  }

  lemma EntryIsNotEmpty(number: VarInt, payload: seq<byte>)
    requires |payload| <= MAX_VARINT
    ensures Entry(number, payload) != []
  {
  }

  /** Grease is skipped, whatever it carries. */
  lemma SkipsGrease(st: Reading, g: Grease, rest: seq<byte>)
    requires GreaseOk(g)
    ensures ReadParam(st, Entry(g.id, g.payload) + rest) == Ok(Decoded(st, rest))
  {
    hide Entry, ReadParam, IdOf;
    ReadsEntry(st, g.id, g.payload, rest);
    ReservedIsNothingElse(g.id);
    assert (g.payload + rest)[|g.payload|..] == rest;
  }

  lemma ReadsOne(st: Reading, s: seq<byte>, st': Reading, rest: seq<byte>)
    requires s != [] && ReadParam(st, s) == Ok(Decoded(st', rest))
    ensures ReadAll(st, s) == ReadAll(st', rest)
  {
    hide ReadParam;
  }

  /** One place of the order: the reader catches up with the writer. */
  lemma CatchesUp(p: Params, grease: Option<Grease>, done: set<Id>, id: Id, rest: seq<byte>)
    requires Writable(p) && (grease.Some? ==> GreaseOk(grease.value)) && id !in done
    ensures ReadAll(After(p, done), WriteOne(p, grease, id) + rest) == ReadAll(After(p, done + {id}), rest)
  {
    hide After, ReadAll, ReadParam, Entry, Payload, Apply, GreaseOk;
    PayloadIsShort(p, id);
    var st := After(p, done);
    if id.Reserved? {
      ReservedIsNotWritten(p);
      NotWritten(p, done, id);
      if grease.Some? {
        Within(grease.value);
        EntryIsNotEmpty(grease.value.id, grease.value.payload);
        SkipsGrease(st, grease.value, rest);
        ReadsOne(st, Entry(grease.value.id, grease.value.payload) + rest, st, rest);
      } else {
        assert [] + rest == rest;
      }
    } else if Payload(p, id).Some? {
      var b := Payload(p, id).value;
      EntryIsNotEmpty(IdNumber(id), b);
      ReadsEntry(st, IdNumber(id), b, rest);
      IdOfNumber(id);
      ApplyBack(p, done, id, rest);
      ReadsOne(st, Entry(IdNumber(id), b) + rest, After(p, done + {id}), rest);
    } else {
      NotWritten(p, done, id);
      assert [] + rest == rest;
    }
  }

  lemma ReservedIsNotWritten(p: Params)
    ensures Payload(p, Reserved).None?
  {
  }

  lemma Within(g: Grease)
    requires GreaseOk(g)
    ensures |g.payload| <= MAX_VARINT
  {
  }

  // ------------------------------------------------------------------ all parameters

  ghost predicate Distinct(order: seq<Place>) {
    forall i, j :: 0 <= i < j < |order| ==> order[i] != order[j]
  }

  ghost predicate Permutation(order: seq<Place>) {
    Distinct(order) && forall n: Place :: n in order
  }

  lemma SupportedInjective(a: Place, b: Place)
    ensures Supported(a) == Supported(b) ==> a == b
  {
  }

  lemma SupportedCovers(id: Id)
    ensures exists n: Place :: Supported(n) == id
  {
    match id
    case IntParam(i) => assert Supported(i) == id;
    case Reserved => assert Supported(11) == id;
    case StatelessResetToken => assert Supported(12) == id;
    case DisableActiveMigration => assert Supported(13) == id;
    case MaxDatagramFrameSize => assert Supported(14) == id;
    case PreferredAddr => assert Supported(15) == id;
    case OriginalDstCid => assert Supported(16) == id;
    case InitialSrcCid => assert Supported(17) == id;
    case RetrySrcCid => assert Supported(18) == id;
    case GreaseQuicBit => assert Supported(19) == id;
    case MinAckDelay => assert Supported(20) == id;
    case ObservedAddr => assert Supported(21) == id;
    case InitialMaxPathId => assert Supported(22) == id;
    case N0NatTraversal => assert Supported(23) == id;
  }

  /** Parameters at the places of an order. */
  ghost function Ids(order: seq<Place>): set<Id> {
    if order == [] then {} else {Supported(order[0])} + Ids(order[1..])
  }

  lemma {:induction false} IdsHas(order: seq<Place>, n: Place)
    ensures n in order ==> Supported(n) in Ids(order)
    ensures Supported(n) in Ids(order) ==> n in order
    decreases |order|
  {
    hide Supported;
    if order != [] {
      SupportedInjective(n, order[0]);
      IdsHas(order[1..], n);
      assert n in order <==> n == order[0] || n in order[1..];
    }
  }

  lemma {:induction false} ReadsAll(p: Params, grease: Option<Grease>, done: set<Id>, order: seq<Place>)
    requires Writable(p) && (grease.Some? ==> GreaseOk(grease.value)) && Distinct(order) && done !! Ids(order)
    ensures ReadAll(After(p, done), WriteSpec(p, grease, order)) == Ok(At(p, done + Ids(order)))
    decreases |order|
  {
    hide Supported, WriteOne, At, Got, Writable, GreaseOk;
    if order == [] {
      assert done + {} == done;
    } else {
      var id, rest := Supported(order[0]), WriteSpec(p, grease, order[1..]);
      CatchesUp(p, grease, done, id, rest);
      IdsHas(order[1..], order[0]);
      ReadsAll(p, grease, done + {id}, order[1..]);
      assert (done + {id}) + Ids(order[1..]) == done + Ids(order);
    }
  }

  /** For every order of the 24 parameters and every record that can be written: the reader gets
      exactly the record back, or refuses it if and only if it is not legal for its side. */
  lemma ParametersRoundTrip(side: Side, p: Params, grease: Option<Grease>, order: seq<Place>)
    requires Writable(p) && (grease.Some? ==> GreaseOk(grease.value)) && Permutation(order)
    ensures ReadSpec(side, WriteSpec(p, grease, order)) == if Legal(side, p) then Ok(p) else Err(IllegalValue)
  {
    hide Supported, WriteSpec, ReadAll, Legal, At, Got;
    ReadsAll(p, grease, {}, order);
    Start(p);
    forall id: Id
      ensures id in Ids(order)
    {
      SupportedCovers(id);
      var n: Place :| Supported(n) == id;
      IdsHas(order, n);
    }
    assert {} + Ids(order) == Ids(order);
    Finish(p, Ids(order));
  }

  // ------------------------------------------------------------------ duplicates

  /** The parameter has been read. */
  predicate Seen(st: Reading, id: Id) {
    match id
    case IntParam(i) => i in st.got
    case Reserved => false
    case StatelessResetToken => st.params.statelessResetToken.Some?
    case DisableActiveMigration => st.params.disableActiveMigration
    case MaxDatagramFrameSize => st.params.maxDatagramFrameSize.Some?
    case PreferredAddr => st.params.preferredAddress.Some?
    case OriginalDstCid => st.params.originalDstCid.Some?
    case InitialSrcCid => st.params.initialSrcCid.Some?
    case RetrySrcCid => st.params.retrySrcCid.Some?
    case GreaseQuicBit => st.params.greaseQuicBit
    case MinAckDelay => st.params.minAckDelay.Some?
    case ObservedAddr => !st.params.addressDiscoveryRole.Disabled?
    case InitialMaxPathId => st.params.initialMaxPathId.Some?
    case N0NatTraversal => st.params.maxRemoteNatTraversalAddresses.Some?
  }

  /** What has been read stays read, and a parameter that is read counts as read. */
  lemma ReadingIsRemembered(st: Reading, id: Id, len: nat, s: seq<byte>, other: Id)
    requires len <= |s| && Apply(st, id, len, s).Ok?
    ensures var st' := Apply(st, id, len, s).value.value;
            (Seen(st, other) ==> Seen(st', other)) && (!id.Reserved? ==> Seen(st', id))
  {
    hide DecodeVar, ReadPreferred, Size;
  }

  /** A second occurrence is refused for every parameter but `grease_quic_bit` and `min_ack_delay`. */
  lemma DuplicatesAreRefused(st: Reading, id: Id, len: nat, s: seq<byte>)
    requires len <= |s| && Seen(st, id)
    ensures Apply(st, id, len, s).Ok? ==> id in {GreaseQuicBit, MinAckDelay}
    ensures id.GreaseQuicBit? && len == 0 ==> Apply(st, id, len, s).Ok?
    ensures id.MinAckDelay? && DecodeVar(s).Some? ==> Apply(st, id, len, s).Ok?
  {
    hide DecodeVar, ReadPreferred, Size;
  }

  /** The parameter at the front of the input, if it is a known one. */
  ghost function FirstId(s: seq<byte>): Option<Id> {
    if DecodeVar(s).Some? then IdOf(DecodeVar(s).value.value) else None
  }

  /** Known parameters in the order they are read. */
  ghost function IdsRead(st: Reading, s: seq<byte>): seq<Id>
    decreases |s|
  {
    if s == [] || ReadParam(st, s).Err? then []
    else
      ReadParamShrinks(st, s);
      var d := ReadParam(st, s).value;
      (if FirstId(s).Some? then [FirstId(s).value] else []) + IdsRead(d.value, d.rest)
  }

  const REPEATABLE: set<Id> := {Reserved, GreaseQuicBit, MinAckDelay}

  lemma StepRemembers(st: Reading, s: seq<byte>, other: Id)
    requires s != [] && ReadParam(st, s).Ok?
    ensures var id, st' := FirstId(s), ReadParam(st, s).value.value;
            && (Seen(st, other) ==> Seen(st', other))
            && (id.Some? && !id.value.Reserved? ==> Seen(st', id.value))
            && (id.Some? && Seen(st, id.value) ==> id.value in REPEATABLE)
  {
    hide Apply, Seen, IdOf;
    var number := DecodeVar(s).value;
    var len := DecodeVar(number.rest).value;
    hide DecodeVar;
    if IdOf(number.value).Some? {
      var id := IdOf(number.value).value;
      ReadingIsRemembered(st, id, len.value, len.rest, other);
      if Seen(st, id) {
        DuplicatesAreRefused(st, id, len.value, len.rest);
      }
    }
  }

  /** Accepted input: its first parameter is accepted, and so is the rest. */
  lemma AcceptedStep(st: Reading, s: seq<byte>)
    requires s != [] && ReadAll(st, s).Ok?
    ensures ReadParam(st, s).Ok? && |ReadParam(st, s).value.rest| < |s|
    ensures var d := ReadParam(st, s).value;
            && ReadAll(d.value, d.rest).Ok?
            && IdsRead(st, s) == (if FirstId(s).Some? then [FirstId(s).value] else []) + IdsRead(d.value, d.rest)
  {
    hide ReadParam, FirstId;
    ReadParamShrinks(st, s);
  }

  lemma {:induction false} SeenIsNotReadAgain(st: Reading, s: seq<byte>, id: Id)
    requires Seen(st, id) && id !in REPEATABLE && ReadAll(st, s).Ok?
    ensures id !in IdsRead(st, s)
    decreases |s|
  {
    hide ReadParam, Seen, FirstId, ReadAll;
    if s != [] {
      AcceptedStep(st, s);
      StepRemembers(st, s, id);
      SeenIsNotReadAgain(ReadParam(st, s).value.value, ReadParam(st, s).value.rest, id);
    }
  }

  lemma NothingFromNothing(st: Reading, s: seq<byte>)
    ensures IdsRead(st, s) != [] ==> s != []
  {
  }

  /** In input that is accepted no parameter occurs twice, except `grease_quic_bit`, `min_ack_delay`
      and the reserved one. */
  lemma {:induction false} AcceptedWithoutDuplicates(st: Reading, s: seq<byte>, i: nat, j: nat)
    requires ReadAll(st, s).Ok? && i < j < |IdsRead(st, s)| && IdsRead(st, s)[i] == IdsRead(st, s)[j]
    ensures IdsRead(st, s)[i] in REPEATABLE
    decreases |s|
  {
    hide ReadParam, Seen, FirstId, ReadAll, IdsRead;
    NothingFromNothing(st, s);
    AcceptedStep(st, s);
    var d, first := ReadParam(st, s).value, FirstId(s);
    var tail := IdsRead(d.value, d.rest);
    if first.None? {
      assert [] + tail == tail;
      AcceptedWithoutDuplicates(d.value, d.rest, i, j);
    } else if i > 0 {
      AcceptedWithoutDuplicates(d.value, d.rest, i - 1, j - 1);
    } else if first.value !in REPEATABLE {
      assert tail[j - 1] == first.value;
      StepRemembers(st, s, first.value);
      SeenIsNotReadAgain(d.value, d.rest, first.value);
    }
  }

  /** The same flag twice, and it is accepted. */
  lemma DuplicateFlagIsAccepted()
    ensures var e := Entry(IdNumber(GreaseQuicBit), []);
            ReadSpec(Client, e + (e + [])) == Ok(DEFAULT.(greaseQuicBit := true))
  {
    hide Entry, ReadParam, IdOf, DecodeVar;
    var e, st := Entry(IdNumber(GreaseQuicBit), []), Reading(DEFAULT, {});
    var st' := st.(params := DEFAULT.(greaseQuicBit := true));
    EntryIsNotEmpty(IdNumber(GreaseQuicBit), []);
    IdOfNumber(GreaseQuicBit);
    ReadsEntry(st, IdNumber(GreaseQuicBit), [], e + []);
    ReadsEntry(st', IdNumber(GreaseQuicBit), [], []);
    assert [] + (e + []) == e + [];
    ReadsOne(st, e + (e + []), st', e + []);
    ReadsOne(st', e + [], st', []);
  }
}
