/**
 Where datagrams go, over every run of an endpoint (noq-proto/src/endpoint.rs:147-267, 1119-1129):
 every owner of a connection ID gets its datagrams, every pending incoming connection its further
 ones, and what the operations do to who owns what.
 */
module EndpointRoutes {
  import opened Wrappers
  import opened Bytes
  import opened Net
  import opened Endpoints
  import opened EndpointRuns

  /** What `handle` hands to its caller. */
  datatype Event = Deliver(to: nat, path: nat) | NewConnection(incoming: Incoming) | NoEvent

  ghost function EventOf(e: State, config: ServerConfig, cidLen: nat, d: Datagram, idx: nat): Event {
    match LookupSpec(e, d)
    case Some(ToConnection(ch, path)) => Deliver(ch, path)
    case Some(ToIncoming(_)) => NoEvent
    case None =>
      if d.isInitial && Admitted(config, cidLen, |e.ids|, |e.buffers|, d) then NewConnection(Incoming(idx, d.dstCid)) else NoEvent
  }

  ghost predicate Reached(r: Run, config: ServerConfig) {
    IndexGood(r) && AdmissionGood(r.e, config)
  }

  lemma EveryRunReached(config: ServerConfig, cidLen: nat, ops: seq<Op>)
    ensures Reached(RunOps(START, config, cidLen, ops), config)
  {
    RunIndexGood(START, config, cidLen, ops);
    RunAdmission(START, config, cidLen, ops);
  }

  // ------------------------------------------------------------------ routing

  /** A live server connection was opened under this initial CID. */
  ghost predicate Serves(e: State, ch: nat, cid: ConnectionId) {
    ch in e.connections && e.connections[ch].isServer && e.connections[ch].initCid == cid
  }

  lemma OwnedIsFound(r: Run, config: ServerConfig, owner: Owner, d: Datagram)
    requires Reached(r, config) && Owns(r.e.connections, owner, d.dstCid)
    ensures LookupSpec(r.e, d) == Some(ToConnection(owner.ch, owner.path))
  {
    ScanOf(r, owner, d.dstCid);
    var s: nat :| HasSlot(r.e.connections, owner.ch, owner.path, s) && CidAt(r.e.connections, owner.ch, owner.path, s) == d.dstCid;
    assert SlotRouted(r.e.connections, r.e.ids, r.t, owner.ch, owner.path, s);
  }

  /** After any run, a datagram for a CID that a live connection has issued and not retired is delivered
      to that connection and path, whatever kind of packet it is, and changes nothing at the
      endpoint. */
  lemma OwnersGetTheirDatagrams(config: ServerConfig, cidLen: nat, ops: seq<Op>, d: Datagram, idx: nat, owner: Owner)
    ensures var r := RunOps(START, config, cidLen, ops);
            Owns(r.e.connections, owner, d.dstCid) ==>
              && LookupSpec(r.e, d) == Some(ToConnection(owner.ch, owner.path))
              && EventOf(r.e, config, cidLen, d, idx) == Deliver(owner.ch, owner.path)
              && HandleSpec(r.e, config, cidLen, d, idx) == r.e
  {
    EveryRunReached(config, cidLen, ops);
    var r := RunOps(START, config, cidLen, ops);
    if Owns(r.e.connections, owner, d.dstCid) {
      OwnedIsFound(r, config, owner, d);
    }
  }

  /** After any run, an Initial or 0-RTT packet for a CID that is neither issued nor leaked goes to the
      pending incoming connection it names, or to the live server connection that was opened
      under it. */
  lemma InitialsFindTheirAttempt(config: ServerConfig, cidLen: nat, ops: seq<Op>, d: Datagram, idx: nat, i: nat)
    ensures var r := RunOps(START, config, cidLen, ops);
            (d.isInitial || d.isZeroRtt) && |d.dstCid| > 0 && d.dstCid !in r.e.ids ==>
              && (Pending(r.e, Incoming(i, d.dstCid)) ==>
                    LookupSpec(r.e, d) == Some(ToIncoming(i)) && EventOf(r.e, config, cidLen, d, idx) == NoEvent)
              && (Serves(r.e, i, d.dstCid) ==>
                    LookupSpec(r.e, d) == Some(ToConnection(i, ZERO_PATH)) && EventOf(r.e, config, cidLen, d, idx) == Deliver(i, ZERO_PATH))
  {
    EveryRunReached(config, cidLen, ops);
  }

  /** After any run, a datagram has no route if and only if no live connection owns its CID, no failed
      session start left an entry for it, and it is not an Initial or 0-RTT packet under the
      initial CID of a pending incoming connection or a live server. */
  lemma UnroutedIff(config: ServerConfig, cidLen: nat, ops: seq<Op>, d: Datagram)
    ensures var r := RunOps(START, config, cidLen, ops);
            LookupSpec(r.e, d).None? <==>
              && (forall owner :: !Owns(r.e.connections, owner, d.dstCid))
              && (d.dstCid in r.t.leaked ==> d.dstCid == [])
              && ((d.isInitial || d.isZeroRtt) && d.dstCid != [] ==>
                    (forall i :: !Pending(r.e, Incoming(i, d.dstCid))) && (forall ch :: !Serves(r.e, ch, d.dstCid)))
  {
    EveryRunReached(config, cidLen, ops);
    var r := RunOps(START, config, cidLen, ops);
    if d.dstCid in r.e.ids {
      ScanOf(r, r.e.ids[d.dstCid], d.dstCid);
    }
    if owner :| Owns(r.e.connections, owner, d.dstCid) {
      OwnedIsFound(r, config, owner, d);
    }
    if d.dstCid in r.e.initial {
      JustifiedByName(r.e, d.dstCid);
    }
    if i :| Pending(r.e, Incoming(i, d.dstCid)) {
      assert d.dstCid != [] ==> d.dstCid in r.e.initial;
    }
    if ch :| Serves(r.e, ch, d.dstCid) {
      assert d.dstCid != [] ==> d.dstCid in r.e.initial;
    }
  }

  lemma JustifiedByName(e: State, cid: ConnectionId)
    requires InitialExact(e) && cid in e.initial
    ensures cid != [] && ((exists i :: Pending(e, Incoming(i, cid))) || (exists ch :: Serves(e, ch, cid)))
  {
    assert RouteJustified(e, cid, e.initial[cid]);
    match e.initial[cid]
    case ToIncoming(i) => assert Pending(e, Incoming(i, cid));
    case ToConnection(ch, _) => assert Serves(e, ch, cid);
  }

  // ------------------------------------------------------------------ admission

  /** After any run, a datagram without a route opens a pending incoming connection if and only if it
      is a well-formed Initial of at least 1200 bytes, its CID has at least eight bytes or is a
      Retry's of the length the endpoint issues, fewer attempts are pending than allowed, and CIDs of
      up to four bytes are not more than three quarters used up.  Then further Initial and 0-RTT
      packets under the same CID are routed to it, and its buffer is empty; otherwise nothing
      changes. */
  lemma FirstPacketOpensAttemptIff(config: ServerConfig, cidLen: nat, ops: seq<Op>, d: Datagram, idx: nat)
    ensures var e := RunOps(START, config, cidLen, ops).e;
            var e' := HandleSpec(e, config, cidLen, d, idx);
            var opens :=
              && d.isInitial && d.wellFormed && d.length >= 1200
              && (|d.dstCid| >= 8 || (d.hasToken && |d.dstCid| == cidLen))
              && |e.pending| < config.maxIncoming
              && (1 <= cidLen <= 4 ==> 4 * |e.ids| <= 3 * Pow256(cidLen));
            LookupSpec(e, d).None? ==>
              && (EventOf(e, config, cidLen, d, idx) == if opens then NewConnection(Incoming(idx, d.dstCid)) else NoEvent)
              && (!opens ==> e' == e)
              && (opens && idx !in e.pending ==>
                    && e'.pending == e.pending[idx := d.dstCid] && e'.buffers == e.buffers[idx := IncomingBuffer([], 0)]
                    && e'.connections == e.connections && e'.ids == e.ids
                    && (forall n: Datagram :: n.dstCid == d.dstCid != [] && (n.isInitial || n.isZeroRtt) ==>
                          LookupSpec(e', n) == Some(ToIncoming(idx))))
  {
    PendingConnectionsStayBounded(config, cidLen, ops);
    hide RunOps, InitialExact, Kept, Counted, CidsExhausted, Pow256, LookupSpec, IncomingSpec;
    var e := RunOps(START, config, cidLen, ops).e;
    Quarters(cidLen, |e.ids|);
    if LookupSpec(e, d).None? {
      OpensAttempt(e, d, idx);
    }
  }

  lemma OpensAttempt(e: State, d: Datagram, idx: nat)
    requires LookupSpec(e, d).None?
    ensures var e' := IncomingSpec(e, Incoming(idx, d.dstCid));
            && e'.pending == e.pending[idx := d.dstCid] && e'.buffers == e.buffers[idx := IncomingBuffer([], 0)]
            && e'.connections == e.connections && e'.ids == e.ids
            && (forall n: Datagram :: n.dstCid == d.dstCid != [] && (n.isInitial || n.isZeroRtt) ==>
                  LookupSpec(e', n) == Some(ToIncoming(idx)))
  {
  }

  lemma Quarters(cidLen: nat, used: nat)
    ensures !CidsExhausted(cidLen, used) <==> (1 <= cidLen <= 4 ==> 4 * used <= 3 * Pow256(cidLen))
  {
    Pow256Values();
  }

  // ------------------------------------------------------------------ datagrams of a pending attempt

  /** The limits allow another datagram. */
  ghost predicate Fits(e: State, config: ServerConfig, i: nat, length: nat)
    requires i in e.buffers
  {
    e.buffers[i].totalBytes + length <= config.incomingBufferSize && e.allBytes + length <= config.incomingBufferSizeTotal
  }

  /** The operation consumes the attempt. */
  ghost predicate Consumes(op: Op, i: nat) {
    (op.Accept? || op.Discard?) && op.incoming.idx == i
  }

  /** Lengths of the datagrams for attempt `i`, under CID `cid`, that arrive in a run and fit. */
  ghost function Arriving(r: Run, config: ServerConfig, cidLen: nat, ops: seq<Op>, i: nat, cid: ConnectionId): seq<nat>
    decreases |ops|
  {
    if ops == [] then []
    else
      var here :=
        if ops[0].Handle? && Allowed(r.e, ops[0]) && i in r.e.buffers &&
           ForAttempt(r.e, ops[0].datagram, cid) && Fits(r.e, config, i, ops[0].datagram.length)
        then [ops[0].datagram.length] else [];
      here + Arriving(Step(r, config, cidLen, ops[0]), config, cidLen, ops[1..], i, cid)
  }

  /** An Initial or 0-RTT packet under an initial CID that no connection has issued. */
  ghost predicate ForAttempt(e: State, d: Datagram, cid: ConnectionId) {
    (d.isInitial || d.isZeroRtt) && d.dstCid == cid && d.dstCid !in e.ids
  }

  ghost function Buffered(e: State, i: nat): seq<nat> {
    if i in e.buffers then e.buffers[i].datagrams else []
  }

  lemma HandleBuffers(r: Run, config: ServerConfig, cidLen: nat, d: Datagram, idx: nat, i: nat, cid: ConnectionId)
    requires AdmissionGood(r.e, config) && Pending(r.e, Incoming(i, cid)) && cid != [] && Allowed(r.e, Handle(d, idx))
    ensures var e' := HandleSpec(r.e, config, cidLen, d, idx);
            && i in r.e.buffers
            && Pending(e', Incoming(i, cid))
            && Buffered(e', i) == Buffered(r.e, i) + if ForAttempt(r.e, d, cid) && Fits(r.e, config, i, d.length) then [d.length] else []
  {
    AttemptRoute(r.e, config, d, i, cid);
    hide AdmissionGood, Admitted, LookupSpec, ForAttempt, InitialRoute;
    assert Buffered(r.e, i) + [] == Buffered(r.e, i);
  }

  /** The datagrams for a pending attempt are those routed to it. */
  lemma AttemptRoute(e: State, config: ServerConfig, d: Datagram, i: nat, cid: ConnectionId)
    requires AdmissionGood(e, config) && Pending(e, Incoming(i, cid)) && cid != []
    ensures i in e.buffers && (ForAttempt(e, d, cid) <==> LookupSpec(e, d) == Some(ToIncoming(i)))
  {
    assert cid in e.initial && e.initial[cid] == ToIncoming(i);
    if d.dstCid in e.initial && e.initial[d.dstCid] == ToIncoming(i) {
      assert RouteJustified(e, d.dstCid, e.initial[d.dstCid]);
    }
  }

  lemma OthersKeepBuffer(r: Run, config: ServerConfig, cidLen: nat, op: Op, i: nat, cid: ConnectionId)
    requires Allowed(r.e, op) && !op.Handle? && !Consumes(op, i) && Pending(r.e, Incoming(i, cid)) && i in r.e.buffers
    ensures var e' := StepState(r.e, config, cidLen, op);
            Pending(e', Incoming(i, cid)) && i in e'.buffers && e'.buffers[i] == r.e.buffers[i]
  {
    hide AcceptSpec, IssueAllSpec;
    match op
    case Connect(ch, remoteId, cid', starts) =>
      if starts {
        IssueAllKeeps(r.e.(connections := r.e.connections[ch := ConnectionMeta(remoteId, map[ZERO_PATH := NO_CIDS], false)]), ch, ZERO_PATH, [cid']);
      }
    case NeedIdentifiers(ch, path, cids) => IssueAllKeeps(r.e, ch, path, cids);
    case Retire(ch, path, seqno, more) =>
      if more.Some? {
        IssueAllKeeps(RetireSpec(r.e, ch, path, seqno), ch, path, [more.value]);
      }
    case Accept(incoming, handshake, ch, cids) => AcceptKeepsBuffer(r.e, incoming, handshake, ch, cids, i);
    case _ =>
  }

  lemma AcceptKeepsBuffer(e: State, incoming: Incoming, handshake: Handshake, ch: nat, cids: seq<ConnectionId>, i: nat)
    requires incoming.idx != i && i in e.pending && i in e.buffers
    ensures var e' := AcceptSpec(e, incoming, handshake, ch, cids);
            i in e'.pending && e'.pending[i] == e.pending[i] && i in e'.buffers && e'.buffers[i] == e.buffers[i]
  {
    var cleaned := CleanUpSpec(e, incoming);
    var meta := ConnectionMeta(incoming.dstCid, map[ZERO_PATH := NO_CIDS], true);
    IssueAllKeeps(cleaned.(connections := cleaned.connections[ch := meta]), ch, ZERO_PATH, cids);
  }

  /** From any reached state, until the attempt is accepted or dropped its buffer grows by exactly the
      datagrams that arrive for it and fit, in the order they arrive. */
  lemma {:induction false} BufferHoldsWhatArrived(
    r: Run, config: ServerConfig, cidLen: nat, ops: seq<Op>, i: nat, cid: ConnectionId)
    requires AdmissionGood(r.e, config) && Pending(r.e, Incoming(i, cid)) && cid != []
    requires forall k :: 0 <= k < |ops| ==> !Consumes(ops[k], i)
    ensures var e' := RunOps(r, config, cidLen, ops).e;
            && Pending(e', Incoming(i, cid))
            && Buffered(e', i) == Buffered(r.e, i) + Arriving(r, config, cidLen, ops, i, cid)
    decreases |ops|
  {
    hide StepState, StepTrace, AdmissionGood, ForAttempt, Fits, HandleSpec;
    if ops == [] {
      assert Buffered(r.e, i) + [] == Buffered(r.e, i);
    } else {
      var r' := Step(r, config, cidLen, ops[0]);
      StepAdmission(r, config, cidLen, ops[0]);
      OneStep(r, config, cidLen, ops[0], i, cid);
      BufferHoldsWhatArrived(r', config, cidLen, ops[1..], i, cid);
      var rest := Arriving(r', config, cidLen, ops[1..], i, cid);
      assert (Buffered(r.e, i) + Arriving(r, config, cidLen, [ops[0]], i, cid)) + rest ==
             Buffered(r.e, i) + (Arriving(r, config, cidLen, [ops[0]], i, cid) + rest);
      ArrivingFirst(r, config, cidLen, ops, i, cid);
    }
  }

  lemma ArrivingFirst(r: Run, config: ServerConfig, cidLen: nat, ops: seq<Op>, i: nat, cid: ConnectionId)
    requires ops != []
    ensures Arriving(r, config, cidLen, ops, i, cid) ==
            Arriving(r, config, cidLen, [ops[0]], i, cid) + Arriving(Step(r, config, cidLen, ops[0]), config, cidLen, ops[1..], i, cid)
  {
    hide Step, Allowed, ForAttempt, Fits;
    assert [ops[0]][1..] == [];
    assert Arriving(Step(r, config, cidLen, ops[0]), config, cidLen, [], i, cid) == [];
  }

  lemma OneStep(r: Run, config: ServerConfig, cidLen: nat, op: Op, i: nat, cid: ConnectionId)
    requires AdmissionGood(r.e, config) && Pending(r.e, Incoming(i, cid)) && cid != [] && !Consumes(op, i)
    ensures var e' := Step(r, config, cidLen, op).e;
            && Pending(e', Incoming(i, cid))
            && Buffered(e', i) == Buffered(r.e, i) + Arriving(r, config, cidLen, [op], i, cid)
  {
    var e' := Step(r, config, cidLen, op).e;
    assert i in r.e.buffers;
    if Allowed(r.e, op) {
      if op.Handle? {
        HandleBuffers(r, config, cidLen, op.datagram, op.idx, i, cid);
      } else {
        OthersKeepBuffer(r, config, cidLen, op, i, cid);
      }
    }
    hide AdmissionGood, StepState, ForAttempt, Fits, HandleSpec;
    assert [op][1..] == [];
    assert Arriving(Step(r, config, cidLen, op), config, cidLen, [], i, cid) == [];
    assert Buffered(r.e, i) + [] == Buffered(r.e, i);
  }

  // ------------------------------------------------------------------ who owns what

  /** A CID sits in this slot. */
  ghost predicate SlotHolds(e: State, ch: nat, path: nat, s: nat, cid: ConnectionId) {
    HasSlot(e.connections, ch, path, s) && CidAt(e.connections, ch, path, s) == cid
  }

  ghost function Issued(e: State, ch: nat, path: nat): nat {
    if ch in e.connections then e.connections[ch].Path(path).issued else 0
  }

  /** Nothing but the given path of the given connection differs. */
  ghost predicate SameElsewhere(e: State, e': State, ch: nat, path: nat) {
    && (forall c :: c in e.connections && c != ch ==> c in e'.connections && e'.connections[c] == e.connections[c])
    && (forall c :: c in e'.connections ==> c == ch || c in e.connections)
    && (forall p, s, cid :: p != path ==> (SlotHolds(e', ch, p, s, cid) <==> SlotHolds(e, ch, p, s, cid)))
  }

  lemma IssueSlots(e: State, ch: nat, path: nat, cid: ConnectionId)
    requires ch in e.connections
    ensures var e' := IssueSpec(e, ch, path, cid);
            && Issued(e', ch, path) == Issued(e, ch, path) + 1
            && SameElsewhere(e, e', ch, path)
            && (forall s, x :: SlotHolds(e', ch, path, s, x) <==>
                  if s == Issued(e, ch, path) then x == cid else SlotHolds(e, ch, path, s, x))
  {
  }

  /** The new CIDs take the next sequence numbers in order; nothing else changes owner. */
  lemma {:induction false} IssueAllSlots(e: State, ch: nat, path: nat, cids: seq<ConnectionId>)
    requires ch in e.connections
    ensures var e' := IssueAllSpec(e, ch, path, cids);
            var n := Issued(e, ch, path);
            && ch in e'.connections && Issued(e', ch, path) == n + |cids|
            && SameElsewhere(e, e', ch, path)
            && (forall s: nat, x :: SlotHolds(e', ch, path, s, x) <==>
                  if n <= s < n + |cids| then x == cids[s - n] else SlotHolds(e, ch, path, s, x))
    decreases |cids|
  {
    hide SlotHolds, Issued, SameElsewhere;
    if cids == [] {
      NothingElsewhere(e, ch, path);
    } else {
      var mid := IssueSpec(e, ch, path, cids[0]);
      IssueSlots(e, ch, path, cids[0]);
      IssueAllSlots(mid, ch, path, cids[1..]);
      SameElsewhereTwice(e, mid, IssueAllSpec(mid, ch, path, cids[1..]), ch, path);
    }
  }

  lemma NothingElsewhere(e: State, ch: nat, path: nat)
    ensures SameElsewhere(e, e, ch, path)
  {
  }

  lemma SameElsewhereTwice(e: State, e': State, e'': State, ch: nat, path: nat)
    requires SameElsewhere(e, e', ch, path) && SameElsewhere(e', e'', ch, path)
    ensures SameElsewhere(e, e'', ch, path)
  {
    hide SlotHolds;
  }

  lemma {:induction false} IssueAllIds(e: State, ch: nat, path: nat, cids: seq<ConnectionId>)
    requires ch in e.connections
    ensures var e' := IssueAllSpec(e, ch, path, cids);
            && (forall x :: x in e'.ids <==> x in e.ids || x in cids)
            && (forall x :: x in e.ids && x !in cids ==> e'.ids[x] == e.ids[x])
    decreases |cids|
  {
    if cids != [] {
      IssueAllIds(IssueSpec(e, ch, path, cids[0]), ch, path, cids[1..]);
      assert forall x :: x in cids <==> x == cids[0] || x in cids[1..];
    }
  }

  lemma BareHasNoSlots(e: State, ch: nat, initCid: ConnectionId, isServer: bool)
    ensures var bare := e.(connections := e.connections[ch := ConnectionMeta(initCid, map[ZERO_PATH := NO_CIDS], isServer)]);
            Issued(bare, ch, ZERO_PATH) == 0 && forall p, s, x :: !SlotHolds(bare, ch, p, s, x)
  {
  }

  /** A new connection owns its CIDs, from sequence number 0 on; all others are as they were. */
  ghost predicate JustAdded(e: State, e': State, ch: nat, initCid: ConnectionId, isServer: bool, cids: seq<ConnectionId>) {
    && ch in e'.connections && e'.connections[ch].isServer == isServer && e'.connections[ch].initCid == initCid
    && (forall p, s: nat, x :: SlotHolds(e', ch, p, s, x) <==> p == ZERO_PATH && s < |cids| && x == cids[s])
    && e'.connections - {ch} == e.connections
    && (forall x :: x in e'.ids <==> x in e.ids || x in cids)
    && (forall x :: x in e.ids && x !in cids ==> e'.ids[x] == e.ids[x])
    && e' == e.(connections := e'.connections, ids := e'.ids)
  }

  lemma AddConnectionOwns(e: State, ch: nat, initCid: ConnectionId, isServer: bool, cids: seq<ConnectionId>)
    requires ch !in e.connections
    ensures JustAdded(e, AddConnectionSpec(e, ch, initCid, isServer, cids), ch, initCid, isServer, cids)
  {
    var bare := e.(connections := e.connections[ch := ConnectionMeta(initCid, map[ZERO_PATH := NO_CIDS], isServer)]);
    IssueAllKeeps(bare, ch, ZERO_PATH, cids);
    IssueAllSlots(bare, ch, ZERO_PATH, cids);
    IssueAllIds(bare, ch, ZERO_PATH, cids);
    BareHasNoSlots(e, ch, initCid, isServer);
    var added := IssueAllSpec(bare, ch, ZERO_PATH, cids);
    OthersAreSame(e, bare, added, ch);
    hide IssueAllSpec, SlotHolds, Issued, SameElsewhere;
  }

  lemma OthersAreSame(e: State, bare: State, added: State, ch: nat)
    requires ch !in e.connections && bare.connections.Keys == e.connections.Keys + {ch}
    requires (forall c :: c in e.connections ==> bare.connections[c] == e.connections[c]) && SameElsewhere(bare, added, ch, ZERO_PATH)
    ensures added.connections - {ch} == e.connections
  {
    hide SlotHolds;
  }

  /** `connect` that succeeds: a client connection whose only CID, at sequence number 0, is the new one;
      no other connection changes. */
  lemma ConnectOwns(e: State, ch: nat, remoteId: ConnectionId, cid: ConnectionId)
    requires ch !in e.connections
    ensures var e' := ConnectSpec(e, ch, remoteId, cid, true);
            && ch in e'.connections && !e'.connections[ch].isServer && e'.connections[ch].initCid == remoteId
            && (forall p, s: nat, x :: SlotHolds(e', ch, p, s, x) <==> p == ZERO_PATH && s == 0 && x == cid)
            && e'.connections - {ch} == e.connections
            && e' == e.(connections := e'.connections, ids := e'.ids)
  {
    hide AddConnectionSpec, SlotHolds;
    AddConnectionOwns(e, ch, remoteId, false, [cid]);
  }

  /** `accept` that succeeds: a server connection under the attempt's CID, whose CIDs are the new ones
      from sequence number 0 on; the attempt is gone and no other connection changes. */
  lemma AcceptOwns(e: State, incoming: Incoming, ch: nat, cids: seq<ConnectionId>)
    requires ch !in e.connections
    ensures var e' := AcceptSpec(e, incoming, Completed, ch, cids);
            && Serves(e', ch, incoming.dstCid)
            && (forall p, s: nat, x :: SlotHolds(e', ch, p, s, x) <==> p == ZERO_PATH && s < |cids| && x == cids[s])
            && e'.connections - {ch} == e.connections
            && incoming.idx !in e'.pending && incoming.idx !in e'.buffers
  {
    hide AddConnectionSpec, SlotHolds;
    var cleaned := CleanUpSpec(e, incoming);
    AddConnectionOwns(cleaned, ch, incoming.dstCid, true, cids);
    var added := AddConnectionSpec(cleaned, ch, incoming.dstCid, true, cids);
    SameSlots(added, Routed(added, ch, incoming.dstCid));
  }

  lemma SameSlots(e: State, e': State)
    requires e.connections == e'.connections
    ensures forall ch, p, s, x :: SlotHolds(e, ch, p, s, x) <==> SlotHolds(e', ch, p, s, x)
  {
  }

  /** Setting a connection up and draining it again leaves index and connections as they were. */
  lemma SetUpAndDrained(e: State, ch: nat, initCid: ConnectionId, cids: seq<ConnectionId>)
    requires ch !in e.connections && Vacant(e.ids, cids) && initCid !in e.initial
    ensures DrainSpec(Routed(AddConnectionSpec(e, ch, initCid, true, cids), ch, initCid), ch) == e
  {
    hide AddConnectionSpec, SlotHolds, CidsOf, Vacant, WithoutInitial, InitialRoute;
    var added := AddConnectionSpec(e, ch, initCid, true, cids);
    AddConnectionOwns(e, ch, initCid, true, cids);
    SlotsAreCids(added, ch, cids);
    Subtracted(e.ids, added.ids, cids, CidsOf(added.connections[ch]));
    RoutedAndNot(e.initial, initCid, ch);
  }

  lemma Subtracted(ids: map<ConnectionId, Owner>, added: map<ConnectionId, Owner>, cids: seq<ConnectionId>, gone: set<ConnectionId>)
    requires Vacant(ids, cids) && (forall x :: x in gone <==> x in cids)
    requires (forall x :: x in added <==> x in ids || x in cids) && (forall x :: x in ids && x !in cids ==> added[x] == ids[x])
    ensures added - gone == ids
  {
    assert forall x :: x in cids ==> x !in ids;
  }

  lemma RoutedAndNot(initial: map<ConnectionId, Route>, cid: ConnectionId, ch: nat)
    requires cid !in initial
    ensures WithoutInitial(InitialRoute(initial, cid, ToConnection(ch, ZERO_PATH)), cid) == initial
  {
  }

  lemma SlotsAreCids(e: State, ch: nat, cids: seq<ConnectionId>)
    requires ch in e.connections
    requires forall p, s: nat, x :: SlotHolds(e, ch, p, s, x) <==> p == ZERO_PATH && s < |cids| && x == cids[s]
    ensures forall x :: x in CidsOf(e.connections[ch]) <==> x in cids
  {
    var tables := e.connections[ch].localCids;
    forall x | x in CidsOf(e.connections[ch]) ensures x in cids {
      var p, s :| p in tables && s in tables[p].cids && tables[p].cids[s] == x;
      assert SlotHolds(e, ch, p, s, x);
    }
    forall x | x in cids ensures x in CidsOf(e.connections[ch]) {
      var s :| 0 <= s < |cids| && cids[s] == x;
      assert SlotHolds(e, ch, ZERO_PATH, s, x);
    }
  }

  /** `accept` that is rejected or fails, like `refuse`, `retry` and `ignore`: the attempt is gone, with
      its buffer, bytes and route, and nothing else has changed. */
  lemma AcceptFails(r: Run, config: ServerConfig, incoming: Incoming, handshake: Handshake, ch: nat, cids: seq<ConnectionId>)
    requires Reached(r, config) && Allowed(r.e, Accept(incoming, handshake, ch, cids)) && !handshake.Completed?
    ensures var e' := AcceptSpec(r.e, incoming, handshake, ch, cids);
            && e' == CleanUpSpec(r.e, incoming)
            && e'.connections == r.e.connections && e'.ids == r.e.ids
            && e'.pending == r.e.pending - {incoming.idx} && e'.buffers == r.e.buffers - {incoming.idx}
            && incoming.idx in r.e.buffers && e'.allBytes == r.e.allBytes - r.e.buffers[incoming.idx].totalBytes
            && (forall d: Datagram :: d.dstCid == incoming.dstCid && d.dstCid !in e'.ids ==> LookupSpec(e', d).None?)
  {
    CleanUpInitial(r.e, incoming);
    assert [] !in r.e.initial && incoming.idx in r.e.buffers;
    hide IndexGood, AdmissionGood, AddConnectionSpec, DrainSpec, Routed;
    if handshake.Failed? {
      SetUpAndDrained(CleanUpSpec(r.e, incoming), ch, incoming.dstCid, cids);
    }
  }

  lemma RetireSlots(e: State, ch: nat, path: nat, seqno: nat)
    requires HasSlot(e.connections, ch, path, seqno)
    ensures var e' := RetireSpec(e, ch, path, seqno);
            && (forall s, x :: SlotHolds(e', ch, path, s, x) <==> s != seqno && SlotHolds(e, ch, path, s, x))
            && SameElsewhere(e, e', ch, path) && Issued(e', ch, path) == Issued(e, ch, path)
  {
  }

  lemma RetireUnroutes(e: State, ch: nat, path: nat, seqno: nat)
    requires HasSlot(e.connections, ch, path, seqno)
    ensures var (e', cid) := (RetireSpec(e, ch, path, seqno), CidAt(e.connections, ch, path, seqno));
            cid !in e'.ids && forall x :: x in e.ids && x != cid ==> x in e'.ids && e'.ids[x] == e.ids[x]
  {
  }

  /** Retiring a CID that is still there takes exactly that slot away, and the CID's route with it. */
  lemma RetireDisowns(r: Run, config: ServerConfig, ch: nat, path: nat, seqno: nat, cid: ConnectionId)
    requires Reached(r, config) && SlotHolds(r.e, ch, path, seqno, cid)
    ensures var e' := RetireSpec(r.e, ch, path, seqno);
            && (forall s, x :: SlotHolds(e', ch, path, s, x) <==> s != seqno && SlotHolds(r.e, ch, path, s, x))
            && SameElsewhere(r.e, e', ch, path) && Issued(e', ch, path) == Issued(r.e, ch, path)
            && cid !in e'.ids && (forall x :: x in r.e.ids && x != cid ==> x in e'.ids && e'.ids[x] == r.e.ids[x])
            && (forall owner :: !Owns(e'.connections, owner, cid))
  {
    var e' := RetireSpec(r.e, ch, path, seqno);
    RetireIndexed(r.e, r.t, ch, path, seqno);
    RetireSlots(r.e, ch, path, seqno);
    RetireUnroutes(r.e, ch, path, seqno);
    hide AdmissionGood, RetireSpec, SameElsewhere, Issued, Indexed, Owns;
    forall owner ensures !Owns(e'.connections, owner, cid) {
      ScanOf(Run(e', r.t, r.failures), owner, cid);
    }
  }

  /** A drained connection is gone, and with it every route of a CID it owned; all else stays. */
  lemma DrainDisowns(r: Run, config: ServerConfig, ch: nat, cid: ConnectionId)
    requires Reached(r, config) && ch in r.e.connections
    ensures var e' := DrainSpec(r.e, ch);
            && e'.connections == r.e.connections - {ch}
            && (cid in e'.ids <==> cid in r.e.ids && !(exists path :: Owns(r.e.connections, Owner(ch, path), cid)))
            && (cid in e'.ids ==> e'.ids[cid] == r.e.ids[cid])
            && (r.e.connections[ch].isServer ==> r.e.connections[ch].initCid !in e'.initial)
  {
    DrainedCids(r.e, r.t, ch);
    if cid in r.e.ids {
      ScanOf(r, r.e.ids[cid], cid);
    }
    forall path ensures Owns(r.e.connections, Owner(ch, path), cid) <==> cid in r.e.ids && r.e.ids[cid] == Owner(ch, path) && cid !in r.t.leaked {
      ScanOf(r, Owner(ch, path), cid);
    }
    assert [] !in r.e.initial;
  }
}
