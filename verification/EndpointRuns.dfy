/**
 What an endpoint keeps over every run of connects, events, datagrams and decisions on incoming
 connections (noq-proto/src/endpoint.rs).
 */
module EndpointRuns {
  import opened Wrappers
  import opened Net
  import opened Endpoints

  datatype Op =
    | Connect(ch: nat, remoteId: ConnectionId, cid: ConnectionId, sessionStarts: bool)
    | NeedIdentifiers(ch: nat, path: nat, cids: seq<ConnectionId>)
    | Retire(ch: nat, path: nat, seqno: nat, more: Option<ConnectionId>)
    | Drained(ch: nat)
    | Handle(datagram: Datagram, idx: nat)
    | Accept(incoming: Incoming, handshake: Handshake, ch: nat, cids: seq<ConnectionId>)
    | Discard(incoming: Incoming)

  /** The endpoint, the sequence numbers it issued, and how many sessions failed to start. */
  datatype Run = Run(e: State, t: Trace, failures: nat)

  const START: Run := Run(EMPTY, Trace(map[], {}), 0)

  ghost predicate Pending(e: State, incoming: Incoming) {
    incoming.idx in e.pending && e.pending[incoming.idx] == incoming.dstCid
  }

  /** Fresh slab keys and CIDs are vacant, events come from live connections, and an `Incoming` is
      consumed once. */
  ghost predicate Allowed(e: State, op: Op) {
    match op
    case Connect(ch, _, cid, _) => ch !in e.connections && Vacant(e.ids, [cid])
    case NeedIdentifiers(ch, _, cids) => ch in e.connections && Vacant(e.ids, cids)
    case Retire(ch, path, seqno, more) =>
      ch in e.connections && (more.Some? ==> Vacant(RetireSpec(e, ch, path, seqno).ids, [more.value]))
    case Drained(_) => true
    case Handle(_, idx) => idx !in e.buffers
    case Accept(incoming, _, ch, cids) => Pending(e, incoming) && ch !in e.connections && Vacant(e.ids, cids)
    case Discard(incoming) => Pending(e, incoming)
  }

  /** `RetireConnectionId`: a replacement is issued only if the CID was still there. */
  ghost function RetireEvent(e: State, ch: nat, path: nat, seqno: nat, more: Option<ConnectionId>): State
    requires ch in e.connections
  {
    var e' := RetireSpec(e, ch, path, seqno);
    if HasSlot(e.connections, ch, path, seqno) && more.Some? then IssueAllSpec(e', ch, path, [more.value]) else e'
  }

  ghost function StepState(e: State, config: ServerConfig, cidLen: nat, op: Op): State
    requires Allowed(e, op)
  {
    match op
    case Connect(ch, remoteId, cid, starts) => ConnectSpec(e, ch, remoteId, cid, starts)
    case NeedIdentifiers(ch, path, cids) => IssueAllSpec(e, ch, path, cids)
    case Retire(ch, path, seqno, more) => RetireEvent(e, ch, path, seqno, more)
    case Drained(ch) => DrainSpec(e, ch)
    case Handle(d, idx) => HandleSpec(e, config, cidLen, d, idx)
    case Accept(incoming, handshake, ch, cids) => AcceptSpec(e, incoming, handshake, ch, cids)
    case Discard(incoming) => CleanUpSpec(e, incoming)
  }

  ghost function StepTrace(e: State, t: Trace, op: Op): Trace
    requires Allowed(e, op)
  {
    match op
    case Connect(_, _, cid, starts) => if starts then Assign(t, 0, [cid]) else t.(leaked := t.leaked + {cid})
    case NeedIdentifiers(ch, path, cids) => Assign(t, e.connections[ch].Path(path).issued, cids)
    case Retire(ch, path, seqno, more) =>
      if HasSlot(e.connections, ch, path, seqno) && more.Some? then Assign(t, e.connections[ch].Path(path).issued, [more.value]) else t
    case Drained(_) => t
    case Handle(_, _) => t
    case Accept(_, handshake, _, cids) => if handshake.Rejected? then t else Assign(t, 0, cids)
    case Discard(_) => t
  }

  ghost function Step(r: Run, config: ServerConfig, cidLen: nat, op: Op): Run {
    if Allowed(r.e, op) then
      Run(StepState(r.e, config, cidLen, op), StepTrace(r.e, r.t, op),
          if op.Connect? && !op.sessionStarts then r.failures + 1 else r.failures)
    else r
  }

  ghost function RunOps(r: Run, config: ServerConfig, cidLen: nat, ops: seq<Op>): Run
    decreases |ops|
  {
    if ops == [] then r else RunOps(Step(r, config, cidLen, ops[0]), config, cidLen, ops[1..])
  }

  // ------------------------------------------------------------------ the CID index

  ghost predicate IndexGood(r: Run) {
    Indexed(r.e.connections, r.e.ids, r.t) && |r.t.leaked| == r.failures
  }

  lemma LeakIndexed(conns: Connections, ids: map<ConnectionId, Owner>, t: Trace, cid: ConnectionId, owner: Owner)
    requires Indexed(conns, ids, t) && cid !in ids
    ensures Indexed(conns, ids[cid := owner], t.(leaked := t.leaked + {cid}))
  {
  }

  lemma {:induction false} AssignKeepsLeaked(t: Trace, n: nat, cids: seq<ConnectionId>)
    ensures Assign(t, n, cids).leaked == t.leaked
    decreases |cids|
  {
    if cids != [] {
      AssignKeepsLeaked(t.(seqOf := t.seqOf[cids[0] := n]), n + 1, cids[1..]);
    }
  }

  lemma RetireEventIndexed(e: State, t: Trace, ch: nat, path: nat, seqno: nat, more: Option<ConnectionId>)
    requires Indexed(e.connections, e.ids, t) && Allowed(e, Retire(ch, path, seqno, more))
    ensures var e' := RetireEvent(e, ch, path, seqno, more);
            Indexed(e'.connections, e'.ids, StepTrace(e, t, Retire(ch, path, seqno, more)))
  {
    RetireIndexed(e, t, ch, path, seqno);
    if HasSlot(e.connections, ch, path, seqno) && more.Some? {
      IssueAllIndexed(RetireSpec(e, ch, path, seqno), t, ch, path, [more.value]);
    }
  }

  lemma AcceptIndexed(e: State, t: Trace, incoming: Incoming, handshake: Handshake, ch: nat, cids: seq<ConnectionId>)
    requires Indexed(e.connections, e.ids, t) && Allowed(e, Accept(incoming, handshake, ch, cids))
    ensures var e' := AcceptSpec(e, incoming, handshake, ch, cids);
            Indexed(e'.connections, e'.ids, StepTrace(e, t, Accept(incoming, handshake, ch, cids)))
  {
    if !handshake.Rejected? {
      var cleaned := CleanUpSpec(e, incoming);
      AddConnectionIndexed(cleaned, t, ch, incoming.dstCid, true, cids);
      DrainIndexed(Routed(AddConnectionSpec(cleaned, ch, incoming.dstCid, true, cids), ch, incoming.dstCid), Assign(t, 0, cids), ch);
    }
  }

  lemma StepIndexed(r: Run, config: ServerConfig, cidLen: nat, op: Op)
    requires Indexed(r.e.connections, r.e.ids, r.t)
    ensures var r' := Step(r, config, cidLen, op); Indexed(r'.e.connections, r'.e.ids, r'.t)
  {
    if Allowed(r.e, op) {
      match op
      case Connect(ch, remoteId, cid, starts) =>
        assert [cid][0] !in r.e.ids;
        if starts {
          AddConnectionIndexed(r.e, r.t, ch, remoteId, false, [cid]);
        } else {
          LeakIndexed(r.e.connections, r.e.ids, r.t, cid, Owner(ch, ZERO_PATH));
        }
      case NeedIdentifiers(ch, path, cids) => IssueAllIndexed(r.e, r.t, ch, path, cids);
      case Retire(ch, path, seqno, more) => RetireEventIndexed(r.e, r.t, ch, path, seqno, more);
      case Drained(ch) => DrainIndexed(r.e, r.t, ch);
      case Handle(_, _) =>
      case Accept(incoming, handshake, ch, cids) => AcceptIndexed(r.e, r.t, incoming, handshake, ch, cids);
      case Discard(_) =>
    }
  }

  /** Every step keeps the leaked entries, and only a failed session start adds one. */
  lemma StepLeaks(r: Run, config: ServerConfig, cidLen: nat, op: Op)
    requires IndexGood(r)
    ensures var r' := Step(r, config, cidLen, op); |r'.t.leaked| == r'.failures && r.t.leaked <= r'.t.leaked
  {
    if Allowed(r.e, op) {
      match op
      case Connect(ch, remoteId, cid, starts) =>
        assert [cid][0] !in r.e.ids;
        AssignKeepsLeaked(r.t, 0, [cid]);
      case NeedIdentifiers(ch, path, cids) => AssignKeepsLeaked(r.t, r.e.connections[ch].Path(path).issued, cids);
      case Retire(ch, path, seqno, more) =>
        if more.Some? {
          AssignKeepsLeaked(r.t, r.e.connections[ch].Path(path).issued, [more.value]);
        }
      case Drained(ch) =>
      case Handle(_, _) =>
      case Accept(incoming, handshake, ch, cids) => AssignKeepsLeaked(r.t, 0, cids);
      case Discard(_) =>
    }
  }

  lemma {:induction false} RunIndexGood(r: Run, config: ServerConfig, cidLen: nat, ops: seq<Op>)
    requires IndexGood(r)
    ensures var r' := RunOps(r, config, cidLen, ops); IndexGood(r') && r.t.leaked <= r'.t.leaked
    decreases |ops|
  {
    if ops != [] {
      StepIndexed(r, config, cidLen, ops[0]);
      StepLeaks(r, config, cidLen, ops[0]);
      RunIndexGood(Step(r, config, cidLen, ops[0]), config, cidLen, ops[1..]);
    }
  }

  /** A scan of the live connections finds the CID under this owner. */
  ghost predicate Owns(conns: Connections, owner: Owner, cid: ConnectionId) {
    exists s: nat :: HasSlot(conns, owner.ch, owner.path, s) && CidAt(conns, owner.ch, owner.path, s) == cid
  }

  /** The index agrees with a scan of the live connections. */
  ghost predicate AgreesWithScan(conns: Connections, ids: map<ConnectionId, Owner>) {
    forall owner: Owner, cid: ConnectionId :: Owns(conns, owner, cid) <==> cid in ids && ids[cid] == owner
  }

  lemma ScanOf(r: Run, owner: Owner, cid: ConnectionId)
    requires IndexGood(r)
    ensures Owns(r.e.connections, owner, cid) <==> cid in r.e.ids && r.e.ids[cid] == owner && cid !in r.t.leaked
  {
    if Owns(r.e.connections, owner, cid) {
      var s: nat :| HasSlot(r.e.connections, owner.ch, owner.path, s) && CidAt(r.e.connections, owner.ch, owner.path, s) == cid;
      assert SlotRouted(r.e.connections, r.e.ids, r.t, owner.ch, owner.path, s);
    }
    if cid in r.e.ids && r.e.ids[cid] == owner && cid !in r.t.leaked {
      assert HasSlot(r.e.connections, owner.ch, owner.path, r.t.seqOf[cid]);
    }
  }

  /** The index agrees with a scan of the live connections through every run, if and only if every
      session started. */
  lemma IndexIsExactIffEverySessionStarted(config: ServerConfig, cidLen: nat, ops: seq<Op>)
    ensures var r := RunOps(START, config, cidLen, ops);
            AgreesWithScan(r.e.connections, r.e.ids) <==> r.failures == 0
  {
    RunIndexGood(START, config, cidLen, ops);
    var r := RunOps(START, config, cidLen, ops);
    if r.failures == 0 {
      forall owner: Owner, cid: ConnectionId
        ensures Owns(r.e.connections, owner, cid) <==> cid in r.e.ids && r.e.ids[cid] == owner
      {
        ScanOf(r, owner, cid);
      }
    } else {
      var cid :| cid in r.t.leaked;
      ScanOf(r, r.e.ids[cid], cid);
    }
  }

  /** Whatever failed, no CID belongs to two connections, two paths or two sequence numbers. */
  lemma NoSharedCids(config: ServerConfig, cidLen: nat, ops: seq<Op>, ch: nat, path: nat, s: nat, ch': nat, path': nat, s': nat)
    requires var c := RunOps(START, config, cidLen, ops).e.connections;
             HasSlot(c, ch, path, s) && HasSlot(c, ch', path', s') && CidAt(c, ch, path, s) == CidAt(c, ch', path', s')
    ensures ch == ch' && path == path' && s == s'
  {
    RunIndexGood(START, config, cidLen, ops);
    var r := RunOps(START, config, cidLen, ops);
    assert SlotRouted(r.e.connections, r.e.ids, r.t, ch, path, s);
    assert SlotRouted(r.e.connections, r.e.ids, r.t, ch', path', s');
  }

  /** A vacant handle has no route but those a failed session start left, so when every session
      started a reused handle inherits none. */
  lemma VacantHandlesHaveNoRoutes(config: ServerConfig, cidLen: nat, ops: seq<Op>, ch: nat, cid: ConnectionId)
    requires var r := RunOps(START, config, cidLen, ops); ch !in r.e.connections && cid in r.e.ids && r.e.ids[cid].ch == ch
    ensures var r := RunOps(START, config, cidLen, ops); r.failures > 0 && cid in r.t.leaked
  {
    RunIndexGood(START, config, cidLen, ops);
  }

  /** The entry of a session that failed to start is never removed. */
  lemma LeaksArePermanent(config: ServerConfig, cidLen: nat, ops: seq<Op>, more: seq<Op>, cid: ConnectionId)
    requires cid in RunOps(START, config, cidLen, ops).t.leaked
    ensures cid in RunOps(RunOps(START, config, cidLen, ops), config, cidLen, more).e.ids
  {
    RunIndexGood(START, config, cidLen, ops);
    RunIndexGood(RunOps(START, config, cidLen, ops), config, cidLen, more);
  }

  /** A failed session start followed by a connection under the same handle: the new connection is
      routed a CID it never issued. */
  lemma LeakedRouteIsInherited(config: ServerConfig, cidLen: nat)
    ensures var a: ConnectionId, b: ConnectionId := [1], [2];
            var r := RunOps(START, config, cidLen, [Connect(0, b, a, false), Connect(0, b, b, true)]);
            0 in r.e.connections && a in r.e.ids && r.e.ids[a] == Owner(0, ZERO_PATH) && !Owns(r.e.connections, r.e.ids[a], a)
  {
    var a: ConnectionId, b: ConnectionId := [1], [2];
    var ops := [Connect(0, b, a, false), Connect(0, b, b, true)];
    var r1 := Step(START, config, cidLen, ops[0]);
    var r2 := Step(r1, config, cidLen, ops[1]);
    assert r1 == Run(EMPTY.(ids := map[a := Owner(0, ZERO_PATH)]), Trace(map[], {a}), 1);
    assert [b][1..] == [];
    assert RunOps(START, config, cidLen, ops) == r2 by {
      assert ops[1..][0] == ops[1];
      assert ops[1..][1..] == [];
      assert RunOps(r1, config, cidLen, ops[1..]) == RunOps(r2, config, cidLen, []) == r2;
    }
    RunIndexGood(START, config, cidLen, ops);
    ScanOf(r2, Owner(0, ZERO_PATH), a);
  }

  // ------------------------------------------------------------------ admission

  ghost predicate AdmissionGood(e: State, config: ServerConfig) {
    InitialExact(e) && Kept(e, config) && Counted(e, config)
  }

  /** Admission looks at the pending part of the state only. */
  lemma SameBuffers(e: State, e': State, config: ServerConfig)
    requires e'.buffers == e.buffers && e'.pending == e.pending && e'.allBytes == e.allBytes
    ensures Kept(e', config) == Kept(e, config) && Counted(e', config) == Counted(e, config)
  {
  }

  lemma SameRoutes(e: State, e': State)
    requires e'.initial == e.initial && e'.pending == e.pending && e'.connections == e.connections
    ensures InitialExact(e') == InitialExact(e)
  {
  }

  lemma BufferRoutes(e: State, config: ServerConfig, idx: nat, length: nat)
    requires InitialExact(e) && idx in e.buffers
    ensures InitialExact(BufferSpec(e, config, idx, length))
  {
    SameRoutes(e, BufferSpec(e, config, idx, length));
  }

  lemma BufferAdmission(e: State, config: ServerConfig, idx: nat, length: nat)
    requires AdmissionGood(e, config) && idx in e.buffers
    ensures AdmissionGood(BufferSpec(e, config, idx, length), config)
  {
    BufferKept(e, config, idx, length);
    BufferCounted(e, config, idx, length);
    BufferRoutes(e, config, idx, length);
  }

  lemma IncomingAdmission(e: State, config: ServerConfig, incoming: Incoming)
    requires AdmissionGood(e, config) && incoming.idx !in e.buffers && |e.buffers| < config.maxIncoming
    requires |incoming.dstCid| > 0 ==> incoming.dstCid !in e.initial
    ensures AdmissionGood(IncomingSpec(e, incoming), config)
  {
    IncomingInitial(e, incoming);
    IncomingKept(e, config, incoming);
    IncomingCounted(e, config, incoming);
  }

  lemma HandleAdmission(e: State, config: ServerConfig, cidLen: nat, d: Datagram, idx: nat)
    requires AdmissionGood(e, config) && idx !in e.buffers
    ensures AdmissionGood(HandleSpec(e, config, cidLen, d, idx), config)
  {
    match LookupSpec(e, d)
    case Some(ToConnection(_, _)) =>
    case Some(ToIncoming(i)) =>
      if i in e.buffers {
        BufferAdmission(e, config, i, d.length);
      }
    case None =>
      if d.isInitial && Admitted(config, cidLen, |e.ids|, |e.buffers|, d) {
        IncomingAdmission(e, config, Incoming(idx, d.dstCid));
      }
  }

  lemma DiscardAdmission(e: State, config: ServerConfig, incoming: Incoming)
    requires AdmissionGood(e, config) && Pending(e, incoming)
    ensures AdmissionGood(CleanUpSpec(e, incoming), config)
  {
    CleanUpInitial(e, incoming);
    CleanUpKept(e, config, incoming);
    CleanUpCounted(e, config, incoming);
  }

  lemma DrainAdmission(e: State, config: ServerConfig, ch: nat)
    requires AdmissionGood(e, config)
    ensures AdmissionGood(DrainSpec(e, ch), config)
  {
    DrainInitial(e, ch);
    SameBuffers(e, DrainSpec(e, ch), config);
  }

  lemma IssueAllAdmission(e: State, config: ServerConfig, ch: nat, path: nat, cids: seq<ConnectionId>)
    requires AdmissionGood(e, config) && ch in e.connections
    ensures AdmissionGood(IssueAllSpec(e, ch, path, cids), config)
  {
    IssueAllInitial(e, ch, path, cids);
    IssueAllKeeps(e, ch, path, cids);
    SameBuffers(e, IssueAllSpec(e, ch, path, cids), config);
  }

  lemma AddConnectionBuffers(e: State, config: ServerConfig, ch: nat, initCid: ConnectionId, isServer: bool, cids: seq<ConnectionId>)
    ensures var e' := AddConnectionSpec(e, ch, initCid, isServer, cids);
            Kept(e', config) == Kept(e, config) && Counted(e', config) == Counted(e, config)
  {
    var bare := e.(connections := e.connections[ch := ConnectionMeta(initCid, map[ZERO_PATH := NO_CIDS], isServer)]);
    IssueAllKeeps(bare, ch, ZERO_PATH, cids);
    SameBuffers(e, IssueAllSpec(bare, ch, ZERO_PATH, cids), config);
  }

  lemma AcceptAdmission(e: State, config: ServerConfig, incoming: Incoming, handshake: Handshake, ch: nat, cids: seq<ConnectionId>)
    requires AdmissionGood(e, config) && Allowed(e, Accept(incoming, handshake, ch, cids))
    ensures AdmissionGood(AcceptSpec(e, incoming, handshake, ch, cids), config)
  {
    DiscardAdmission(e, config, incoming);
    if !handshake.Rejected? {
      var cleaned := CleanUpSpec(e, incoming);
      var added := AddConnectionSpec(cleaned, ch, incoming.dstCid, true, cids);
      var routed := Routed(added, ch, incoming.dstCid);
      CleanUpInitial(e, incoming);
      ServerInitial(cleaned, ch, incoming.dstCid, cids);
      AddConnectionBuffers(cleaned, config, ch, incoming.dstCid, true, cids);
      SameBuffers(added, routed, config);
      DrainAdmission(routed, config, ch);
    }
  }

  lemma ConnectAdmission(e: State, config: ServerConfig, ch: nat, remoteId: ConnectionId, cid: ConnectionId, starts: bool)
    requires AdmissionGood(e, config) && ch !in e.connections
    ensures AdmissionGood(ConnectSpec(e, ch, remoteId, cid, starts), config)
  {
    if starts {
      ClientInitial(e, ch, remoteId, [cid]);
      AddConnectionBuffers(e, config, ch, remoteId, false, [cid]);
    } else {
      var e' := ConnectSpec(e, ch, remoteId, cid, starts);
      SameRoutes(e, e');
      SameBuffers(e, e', config);
    }
  }

  lemma RetireSpecAdmission(e: State, config: ServerConfig, ch: nat, path: nat, seqno: nat)
    requires AdmissionGood(e, config) && ch in e.connections
    ensures ch in RetireSpec(e, ch, path, seqno).connections && AdmissionGood(RetireSpec(e, ch, path, seqno), config)
  {
    RetireInitial(e, ch, path, seqno);
    SameBuffers(e, RetireSpec(e, ch, path, seqno), config);
  }

  lemma RetireAdmission(e: State, config: ServerConfig, ch: nat, path: nat, seqno: nat, more: Option<ConnectionId>)
    requires AdmissionGood(e, config) && ch in e.connections
    ensures AdmissionGood(RetireEvent(e, ch, path, seqno, more), config)
  {
    RetireSpecAdmission(e, config, ch, path, seqno);
    hide RetireSpec, IssueAllSpec, AdmissionGood;
    var e' := RetireSpec(e, ch, path, seqno);
    if HasSlot(e.connections, ch, path, seqno) && more.Some? {
      IssueAllAdmission(e', config, ch, path, [more.value]);
    }
  }

  lemma StepAdmission(r: Run, config: ServerConfig, cidLen: nat, op: Op)
    requires AdmissionGood(r.e, config)
    ensures AdmissionGood(Step(r, config, cidLen, op).e, config)
  {
    if Allowed(r.e, op) {
      match op
      case Connect(ch, remoteId, cid, starts) => ConnectAdmission(r.e, config, ch, remoteId, cid, starts);
      case NeedIdentifiers(ch, path, cids) => IssueAllAdmission(r.e, config, ch, path, cids);
      case Retire(ch, path, seqno, more) => RetireAdmission(r.e, config, ch, path, seqno, more);
      case Drained(ch) => DrainAdmission(r.e, config, ch);
      case Handle(d, idx) => HandleAdmission(r.e, config, cidLen, d, idx);
      case Accept(incoming, handshake, ch, cids) => AcceptAdmission(r.e, config, incoming, handshake, ch, cids);
      case Discard(incoming) => DiscardAdmission(r.e, config, incoming);
    }
  }

  lemma {:induction false} RunAdmission(r: Run, config: ServerConfig, cidLen: nat, ops: seq<Op>)
    requires AdmissionGood(r.e, config)
    ensures AdmissionGood(RunOps(r, config, cidLen, ops).e, config)
    decreases |ops|
  {
    if ops != [] {
      StepAdmission(r, config, cidLen, ops[0]);
      RunAdmission(Step(r, config, cidLen, ops[0]), config, cidLen, ops[1..]);
    }
  }

  /** Through every run the initial routes are exactly those of pending incoming connections and live
      servers, there are at most `maxIncoming` buffers within their limits, and the byte count is
      their sum and within its own. */
  lemma PendingConnectionsStayBounded(config: ServerConfig, cidLen: nat, ops: seq<Op>)
    ensures var e := RunOps(START, config, cidLen, ops).e;
            && InitialExact(e) && Kept(e, config) && Counted(e, config)
            && |e.pending| == |e.buffers| <= config.maxIncoming
  {
    RunAdmission(START, config, cidLen, ops);
    var e := RunOps(START, config, cidLen, ops).e;
    assert |e.pending.Keys| == |e.buffers.Keys|;
  }

  /** The route of any datagram: a pending incoming connection for that very CID with a buffer to keep
      it in, or a live connection, leaked entries aside. */
  lemma RoutesAreLive(config: ServerConfig, cidLen: nat, ops: seq<Op>, d: Datagram)
    ensures var r := RunOps(START, config, cidLen, ops);
            match LookupSpec(r.e, d)
            case Some(ToIncoming(i)) => i in r.e.buffers && Pending(r.e, Incoming(i, d.dstCid))
            case Some(ToConnection(ch, path)) =>
              || d.dstCid in r.t.leaked
              || Owns(r.e.connections, Owner(ch, path), d.dstCid)
              || (path == ZERO_PATH && ch in r.e.connections && r.e.connections[ch].isServer && r.e.connections[ch].initCid == d.dstCid)
            case None => true
  {
    RunAdmission(START, config, cidLen, ops);
    RunIndexGood(START, config, cidLen, ops);
    var r := RunOps(START, config, cidLen, ops);
    if d.dstCid in r.e.ids {
      ScanOf(r, r.e.ids[d.dstCid], d.dstCid);
    }
    if d.dstCid in r.e.initial {
      assert RouteJustified(r.e, d.dstCid, r.e.initial[d.dstCid]);
    }
  }
}
