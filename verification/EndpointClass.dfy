/**
 The endpoint as the object its callers update (noq-proto/src/endpoint.rs), proved against the
 specification functions of `Endpoints`.
 */
module EndpointObjects {
  import opened Wrappers
  import opened Net
  import opened Endpoints
  import opened EndpointRuns
  import opened EndpointRoutes

  datatype ConnectError = NoCidsLeft | InvalidRemoteAddress | UnsupportedVersion | SessionFailed

  /** Port 0, 0.0.0.0 and :: cannot be connected to. */
  predicate Unusable(a: SocketAddr) {
    a.port == 0 || a.ip == V4(0) || a.ip == V6(0)
  }

  /** A CID announced to the peer. */
  datatype IssuedCid = IssuedCid(path: nat, sequence: nat, id: ConnectionId)

  ghost function Announced(path: nat, first: nat, cids: seq<ConnectionId>): seq<IssuedCid> {
    seq(|cids|, i requires 0 <= i < |cids| => IssuedCid(path, first + i, cids[i]))
  }

  lemma AnnouncedAppend(path: nat, first: nat, cids: seq<ConnectionId>, cid: ConnectionId)
    ensures Announced(path, first, cids + [cid]) == Announced(path, first, cids) + [IssuedCid(path, first + |cids|, cid)]
  {
  }

  lemma AnnouncedOne(path: nat, first: nat, cid: ConnectionId)
    ensures Announced(path, first, [cid]) == [IssuedCid(path, first, cid)]
  {
  }

  lemma NothingIssued(e: State, ch: nat, path: nat, first: nat)
    requires ch in e.connections
    ensures IssueAllSpec(e, ch, path, []) == e && Announced(path, first, []) == []
  {
  }

  lemma {:induction false} IssueAllAppend(e: State, ch: nat, path: nat, cids: seq<ConnectionId>, cid: ConnectionId)
    requires ch in e.connections
    ensures var e' := IssueAllSpec(e, ch, path, cids);
            && ch in e'.connections
            && e'.connections[ch].Path(path).issued == e.connections[ch].Path(path).issued + |cids|
            && IssueAllSpec(e, ch, path, cids + [cid]) == IssueSpec(e', ch, path, cid)
    decreases |cids|
  {
    if cids == [] {
      assert IssueAllSpec(IssueSpec(e, ch, path, cid), ch, path, []) == IssueSpec(e, ch, path, cid);
    } else {
      IssueAllAppend(IssueSpec(e, ch, path, cids[0]), ch, path, cids[1..], cid);
      assert (cids + [cid])[1..] == cids[1..] + [cid];
    }
  }

  lemma {:induction false} StillVacant(e: State, ch: nat, path: nat, cids: seq<ConnectionId>, cid: ConnectionId)
    requires ch in e.connections && cid !in e.ids && cid !in cids
    ensures cid !in IssueAllSpec(e, ch, path, cids).ids
    decreases |cids|
  {
    if cids != [] {
      StillVacant(IssueSpec(e, ch, path, cids[0]), ch, path, cids[1..], cid);
    }
  }

  /** The tables `add_connection` writes out for the first CID and the preferred-address CID. */
  function FirstCids(cid: ConnectionId, preferred: Option<ConnectionId>): PathLocalCids {
    match preferred
    case None => PathLocalCids(1, map[0 := cid])
    case Some(second) => PathLocalCids(2, map[0 := cid, 1 := second])
  }

  function AsSeq(cid: ConnectionId, preferred: Option<ConnectionId>): seq<ConnectionId> {
    match preferred
    case None => [cid]
    case Some(second) => [cid, second]
  }

  ghost function RegisterSpec(ids: map<ConnectionId, Owner>, ch: nat, cid: ConnectionId, preferred: Option<ConnectionId>)
    : map<ConnectionId, Owner>
  {
    var ids' := ids[cid := Owner(ch, ZERO_PATH)];
    match preferred
    case None => ids'
    case Some(second) => ids'[second := Owner(ch, ZERO_PATH)]
  }

  lemma RegisteredAlready(ids: map<ConnectionId, Owner>, ch: nat, cid: ConnectionId, preferred: Option<ConnectionId>)
    requires Vacant(ids, AsSeq(cid, preferred))
    ensures RegisterSpec(ids, ch, cid, preferred)[cid := Owner(ch, ZERO_PATH)] == RegisterSpec(ids, ch, cid, preferred)
  {
    var r := RegisterSpec(ids, ch, cid, preferred);
    assert cid in r && r[cid] == Owner(ch, ZERO_PATH);
  }

  lemma IssueOne(e: State, ch: nat, path: nat, cid: ConnectionId)
    requires ch in e.connections
    ensures IssueAllSpec(e, ch, path, [cid]) == IssueSpec(e, ch, path, cid)
  {
    assert [cid][1..] == [];
  }

  lemma IssueTwo(e: State, ch: nat, path: nat, cid: ConnectionId, second: ConnectionId)
    requires ch in e.connections
    ensures IssueAllSpec(e, ch, path, [cid, second]) == IssueSpec(IssueSpec(e, ch, path, cid), ch, path, second)
  {
    assert [cid, second][1..] == [second];
    IssueOne(IssueSpec(e, ch, path, cid), ch, path, second);
  }

  lemma TablesOfTwo(initCid: ConnectionId, isServer: bool, cid: ConnectionId, second: ConnectionId)
    ensures var meta := ConnectionMeta(initCid, map[ZERO_PATH := NO_CIDS], isServer);
            Issue(Issue(meta, ZERO_PATH, cid), ZERO_PATH, second) == meta.(localCids := map[ZERO_PATH := FirstCids(cid, Some(second))])
  {
    var one := Issue(ConnectionMeta(initCid, map[ZERO_PATH := NO_CIDS], isServer), ZERO_PATH, cid);
    assert one.localCids == map[ZERO_PATH := FirstCids(cid, None)];
    assert one.localCids[ZERO_PATH].cids[1 := second] == map[0 := cid, 1 := second];
  }

  lemma AddConnectionWritesTables(e: State, ch: nat, initCid: ConnectionId, isServer: bool, cid: ConnectionId, preferred: Option<ConnectionId>)
    ensures AddConnectionSpec(e, ch, initCid, isServer, AsSeq(cid, preferred)) ==
            e.(connections := e.connections[ch := ConnectionMeta(initCid, map[ZERO_PATH := FirstCids(cid, preferred)], isServer)],
               ids := RegisterSpec(e.ids, ch, cid, preferred))
  {
    var meta := ConnectionMeta(initCid, map[ZERO_PATH := NO_CIDS], isServer);
    var bare := e.(connections := e.connections[ch := meta]);
    match preferred
    case None =>
      IssueOne(bare, ch, ZERO_PATH, cid);
      assert Issue(meta, ZERO_PATH, cid).localCids == map[ZERO_PATH := FirstCids(cid, None)];
      assert bare.connections[ch := Issue(meta, ZERO_PATH, cid)] == e.connections[ch := Issue(meta, ZERO_PATH, cid)];
    case Some(second) =>
      IssueTwo(bare, ch, ZERO_PATH, cid, second);
      TablesOfTwo(initCid, isServer, cid, second);
      var one, two := Issue(meta, ZERO_PATH, cid), Issue(Issue(meta, ZERO_PATH, cid), ZERO_PATH, second);
      assert bare.connections[ch := one][ch := two] == e.connections[ch := two];
  }

  lemma AcceptWritesTables(e: State, incoming: Incoming, ch: nat, cid: ConnectionId, preferred: Option<ConnectionId>)
    ensures AcceptSpec(e, incoming, Completed, ch, AsSeq(cid, preferred)) ==
            CleanUpSpec(e, incoming).(
              connections := e.connections[ch := ConnectionMeta(incoming.dstCid, map[ZERO_PATH := FirstCids(cid, preferred)], true)],
              ids := RegisterSpec(e.ids, ch, cid, preferred),
              initial := InitialRoute(e.initial, incoming.dstCid, ToConnection(ch, ZERO_PATH)))
  {
    AddConnectionWritesTables(CleanUpSpec(e, incoming), ch, incoming.dstCid, true, cid, preferred);
    assert InitialRoute(WithoutInitial(e.initial, incoming.dstCid), incoming.dstCid, ToConnection(ch, ZERO_PATH)) ==
           InitialRoute(e.initial, incoming.dstCid, ToConnection(ch, ZERO_PATH));
  }

  /** CIDs of the paths in `paths`. */
  ghost function CidsOn(meta: ConnectionMeta, paths: set<nat>): set<ConnectionId> {
    set path, seqno | path in paths && path in meta.localCids && seqno in meta.localCids[path].cids :: meta.localCids[path].cids[seqno]
  }

  lemma RouteHasBuffer(e: State, config: ServerConfig, d: Datagram, i: nat)
    requires AdmissionGood(e, config) && LookupSpec(e, d) == Some(ToIncoming(i))
    ensures i in e.buffers
  {
    assert RouteJustified(e, d.dstCid, e.initial[d.dstCid]);
  }

  lemma PendingHasBuffer(e: State, config: ServerConfig, incoming: Incoming)
    requires AdmissionGood(e, config) && Pending(e, incoming)
    ensures incoming.idx in e.buffers && e.buffers[incoming.idx].totalBytes <= e.allBytes
    ensures |incoming.dstCid| > 0 ==> incoming.dstCid in e.initial
  {
    NoUnderflow(e, config, incoming.idx);
  }

  class Endpoint {
    const serverConfig: ServerConfig
    const cidLen: nat
    var connections: Connections
    var connectionIds: map<ConnectionId, Owner>
    var connectionIdsInitial: map<ConnectionId, Route>
    var incomingBuffers: map<nat, IncomingBuffer>
    var allIncomingBuffersTotalBytes: nat
    /** `Incoming`s handed out and not yet consumed. */
    ghost var pending: map<nat, ConnectionId>

    ghost function View(): State
      reads this
    {
      State(connections, connectionIds, connectionIdsInitial, incomingBuffers, allIncomingBuffersTotalBytes, pending)
    }

    ghost predicate Valid()
      reads this
    {
      AdmissionGood(View(), serverConfig)
    }

    constructor (serverConfig: ServerConfig, cidLen: nat)
      ensures Valid() && View() == EMPTY && this.serverConfig == serverConfig && this.cidLen == cidLen
    {
      this.serverConfig, this.cidLen := serverConfig, cidLen;
      connections, connectionIds, connectionIdsInitial, incomingBuffers, allIncomingBuffersTotalBytes, pending :=
        map[], map[], map[], map[], 0, map[];
    }

    method Get(d: Datagram) returns (route: Option<Route>)
      ensures route == LookupSpec(View(), d)
    {
      if |d.dstCid| > 0 && d.dstCid in connectionIds {
        return Some(ToConnection(connectionIds[d.dstCid].ch, connectionIds[d.dstCid].path));
      }
      if (d.isInitial || d.isZeroRtt) && d.dstCid in connectionIdsInitial {
        return Some(connectionIdsInitial[d.dstCid]);
      }
      return None;
    }

    method KeepDatagram(idx: nat, length: nat)
      requires idx in incomingBuffers
      modifies this`incomingBuffers, this`allIncomingBuffersTotalBytes
      ensures View() == BufferSpec(old(View()), serverConfig, idx, length)
    {
      var buffer := incomingBuffers[idx];
      if buffer.totalBytes + length <= serverConfig.incomingBufferSize
         && allIncomingBuffersTotalBytes + length <= serverConfig.incomingBufferSizeTotal {
        incomingBuffers := incomingBuffers[idx := IncomingBuffer(buffer.datagrams + [length], buffer.totalBytes + length)];
        allIncomingBuffersTotalBytes := allIncomingBuffersTotalBytes + length;
      }
    }

    method OpenIncoming(incoming: Incoming)
      modifies this`incomingBuffers, this`connectionIdsInitial, this`pending
      ensures View() == IncomingSpec(old(View()), incoming)
    {
      incomingBuffers := incomingBuffers[incoming.idx := NO_DATAGRAMS];
      if |incoming.dstCid| > 0 {
        connectionIdsInitial := connectionIdsInitial[incoming.dstCid := ToIncoming(incoming.idx)];
      }
      pending := pending[incoming.idx := incoming.dstCid];
    }

    method Handle(d: Datagram, idx: nat) returns (event: Event)
      requires Valid() && idx !in incomingBuffers
      modifies this
      ensures Valid() && View() == HandleSpec(old(View()), serverConfig, cidLen, d, idx)
      ensures event == EventOf(old(View()), serverConfig, cidLen, d, idx)
    {
      HandleAdmission(View(), serverConfig, cidLen, d, idx);
      event := NoEvent;
      var route := Get(d);
      match route
      case Some(ToConnection(ch, path)) =>
        event := Deliver(ch, path);
      case Some(ToIncoming(i)) =>
        RouteHasBuffer(View(), serverConfig, d, i);
        KeepDatagram(i, d.length);
      case None =>
        if d.isInitial && Admitted(serverConfig, cidLen, |connectionIds|, |incomingBuffers|, d) {
          OpenIncoming(Incoming(idx, d.dstCid));
          event := NewConnection(Incoming(idx, d.dstCid));
        }
    }

    /** The entry is always there to remove. */
    method RemoveInitial(cid: ConnectionId)
      requires |cid| > 0 ==> cid in connectionIdsInitial
      modifies this`connectionIdsInitial
      ensures connectionIdsInitial == WithoutInitial(old(connectionIdsInitial), cid)
    {
      if |cid| > 0 {
        connectionIdsInitial := connectionIdsInitial - {cid};
      }
    }

    method DropIncoming(incoming: Incoming)
      requires incoming.idx in incomingBuffers && incomingBuffers[incoming.idx].totalBytes <= allIncomingBuffersTotalBytes
      requires |incoming.dstCid| > 0 ==> incoming.dstCid in connectionIdsInitial
      modifies this`incomingBuffers, this`connectionIdsInitial, this`pending, this`allIncomingBuffersTotalBytes
      ensures View() == CleanUpSpec(old(View()), incoming)
    {
      RemoveInitial(incoming.dstCid);
      TakeBuffer(incoming);
    }

    /** `refuse`, `retry` and `ignore`: the byte count never underflows. */
    method CleanUpIncoming(incoming: Incoming)
      requires Valid() && Pending(View(), incoming)
      modifies this
      ensures Valid() && View() == CleanUpSpec(old(View()), incoming)
    {
      DiscardAdmission(View(), serverConfig, incoming);
      PendingHasBuffer(View(), serverConfig, incoming);
      DropIncoming(incoming);
    }

    method NewCid(ch: nat, path: nat, cid: ConnectionId)
      requires cid !in connectionIds
      modifies this`connectionIds
      ensures View() == old(View()).(ids := old(connectionIds)[cid := Owner(ch, path)])
    {
      connectionIds := connectionIds[cid := Owner(ch, path)];
    }

    method IssueCid(ch: nat, path: nat, cid: ConnectionId) returns (issued: IssuedCid)
      requires ch in connections && cid !in connectionIds
      modifies this`connections, this`connectionIds
      ensures View() == IssueSpec(old(View()), ch, path, cid)
      ensures issued == IssuedCid(path, old(connections[ch].Path(path).issued), cid)
    {
      NewCid(ch, path, cid);
      issued := IssuedCid(path, connections[ch].Path(path).issued, cid);
      connections := connections[ch := Issue(connections[ch], path, cid)];
    }

    method IssueCids(ch: nat, path: nat, cids: seq<ConnectionId>) returns (issued: seq<IssuedCid>)
      requires ch in connections && Vacant(connectionIds, cids)
      modifies this`connections, this`connectionIds
      ensures View() == IssueAllSpec(old(View()), ch, path, cids)
      ensures issued == Announced(path, old(connections[ch].Path(path).issued), cids)
    {
      hide IssueAllSpec, Announced;
      ghost var e := View();
      ghost var first := connections[ch].Path(path).issued;
      NothingIssued(e, ch, path, first);
      issued := [];
      var i := 0;
      while i < |cids|
        invariant i <= |cids|
        invariant View() == IssueAllSpec(e, ch, path, cids[..i])
        invariant issued == Announced(path, first, cids[..i])
      {
        IssueAllAppend(e, ch, path, cids[..i], cids[i]);
        StillVacant(e, ch, path, cids[..i], cids[i]);
        AnnouncedAppend(path, first, cids[..i], cids[i]);
        assert cids[..i + 1] == cids[..i] + [cids[i]];
        var cid := IssueCid(ch, path, cids[i]);
        issued := issued + [cid];
        i := i + 1;
      }
      assert cids[..i] == cids;
    }

    method SendNewIdentifiers(ch: nat, path: nat, cids: seq<ConnectionId>) returns (issued: seq<IssuedCid>)
      requires Valid() && ch in connections && Vacant(connectionIds, cids)
      modifies this
      ensures Valid() && View() == IssueAllSpec(old(View()), ch, path, cids)
      ensures issued == Announced(path, old(connections[ch].Path(path).issued), cids)
    {
      IssueAllAdmission(View(), serverConfig, ch, path, cids);
      issued := IssueCids(ch, path, cids);
    }

    method RetireConnectionId(ch: nat, path: nat, seqno: nat, more: Option<ConnectionId>) returns (issued: seq<IssuedCid>)
      requires Valid() && Allowed(View(), Retire(ch, path, seqno, more))
      modifies this
      ensures Valid() && View() == RetireEvent(old(View()), ch, path, seqno, more)
      ensures issued == if HasSlot(old(connections), ch, path, seqno) && more.Some?
                        then [IssuedCid(path, old(connections[ch].Path(path).issued), more.value)] else []
    {
      hide AdmissionGood, IssueAllSpec, Announced, RetireSpec;
      RetireSpecAdmission(View(), serverConfig, ch, path, seqno);
      issued := [];
      var retired := StopRouting(ch, path, seqno);
      if retired && more.Some? {
        issued := SendNewIdentifiers(ch, path, [more.value]);
        AnnouncedOne(path, old(connections[ch].Path(path).issued), more.value);
      }
    }

    /** The CID goes, if it is still there; the number of CIDs issued so far stays. */
    method StopRouting(ch: nat, path: nat, seqno: nat) returns (retired: bool)
      requires ch in connections
      modifies this`connections, this`connectionIds
      ensures retired == HasSlot(old(connections), ch, path, seqno)
      ensures View() == RetireSpec(old(View()), ch, path, seqno)
      ensures ch in connections && connections[ch].Path(path).issued == old(connections[ch].Path(path).issued)
    {
      retired := path in connections[ch].localCids && seqno in connections[ch].localCids[path].cids;
      if retired {
        var cid := connections[ch].localCids[path].cids[seqno];
        connections := connections[ch := Unissue(connections[ch], path, seqno)];
        connectionIds := connectionIds - {cid};
      }
    }

    /** `ConnectionIndex::remove`, the CIDs. */
    method RemoveCids(meta: ConnectionMeta)
      modifies this`connectionIds
      ensures connectionIds == old(connectionIds) - CidsOf(meta)
    {
      var left := meta.localCids.Keys;
      while left != {}
        invariant left <= meta.localCids.Keys
        invariant connectionIds == old(connectionIds) - CidsOn(meta, meta.localCids.Keys - left)
        decreases left
      {
        var path :| path in left;
        ghost var ids := connectionIds;
        var cids := meta.localCids[path].cids.Values;
        ghost var all := cids;
        while cids != {}
          invariant cids <= all
          invariant connectionIds == ids - (all - cids)
          decreases cids
        {
          var cid :| cid in cids;
          connectionIds := connectionIds - {cid};
          cids := cids - {cid};
        }
        PathCids(meta, path, meta.localCids.Keys - left);
        left := left - {path};
        assert meta.localCids.Keys - left == meta.localCids.Keys - (left + {path}) + {path};
      }
      assert CidsOn(meta, meta.localCids.Keys) == CidsOf(meta);
    }

    method Drained(ch: nat)
      requires Valid()
      modifies this
      ensures Valid() && View() == DrainSpec(old(View()), ch)
    {
      DrainAdmission(View(), serverConfig, ch);
      ServerHasRoute(View(), serverConfig, ch);
      DrainConnection(ch);
    }

    method DrainConnection(ch: nat)
      requires ch in connections && connections[ch].isServer && |connections[ch].initCid| > 0 ==>
                 connections[ch].initCid in connectionIdsInitial
      modifies this
      ensures View() == DrainSpec(old(View()), ch)
    {
      if ch in connections {
        var meta := connections[ch];
        connections := connections - {ch};
        if meta.isServer {
          RemoveInitial(meta.initCid);
        }
        RemoveCids(meta);
        assert View() == DrainSpec(old(View()), ch);
      }
    }

    /** The CIDs were registered by `NewCid` before. */
    method AddConnection(ch: nat, initCid: ConnectionId, isServer: bool, cid: ConnectionId, preferred: Option<ConnectionId>)
      requires ch !in connections
      modifies this`connections, this`connectionIds
      ensures View() == old(View()).(
                connections := old(connections)[ch := ConnectionMeta(initCid, map[ZERO_PATH := FirstCids(cid, preferred)], isServer)],
                ids := old(connectionIds)[cid := Owner(ch, ZERO_PATH)])
    {
      var pathCids := PathLocalCids(1, map[0 := cid]);
      if preferred.Some? {
        pathCids := PathLocalCids(pathCids.issued + 1, pathCids.cids[pathCids.issued := preferred.value]);
      }
      connections := connections[ch := ConnectionMeta(initCid, map[ZERO_PATH := pathCids], isServer)];
      connectionIds := connectionIds[cid := Owner(ch, ZERO_PATH)];
    }

    /** Three refusals change nothing; a session that fails to start returns early, after its CID was
        registered. */
    method Connect(ch: nat, remote: SocketAddr, supported: bool, remoteId: ConnectionId, cid: ConnectionId, sessionStarts: bool)
      returns (r: Result<(), ConnectError>)
      requires Valid() && ch !in connections && Vacant(connectionIds, [cid])
      modifies this
      ensures Valid()
      ensures var exhausted := CidsExhausted(cidLen, |old(connectionIds)|);
              && (r == Err(NoCidsLeft) <==> exhausted)
              && (r == Err(InvalidRemoteAddress) <==> !exhausted && Unusable(remote))
              && (r == Err(UnsupportedVersion) <==> !exhausted && !Unusable(remote) && !supported)
              && (r.Ok? || r == Err(SessionFailed) ==> (r.Ok? <==> sessionStarts))
      ensures View() == if r.Ok? || r == Err(SessionFailed) then ConnectSpec(old(View()), ch, remoteId, cid, sessionStarts) else old(View())
    {
      hide AdmissionGood;
      if CidsExhausted(cidLen, |connectionIds|) {
        return Err(NoCidsLeft);
      }
      if Unusable(remote) {
        return Err(InvalidRemoteAddress);
      }
      if !supported {
        return Err(UnsupportedVersion);
      }
      ConnectAdmission(View(), serverConfig, ch, remoteId, cid, sessionStarts);
      AddConnectionWritesTables(View(), ch, remoteId, false, cid, None);
      assert [cid][0] !in connectionIds;
      NewCid(ch, ZERO_PATH, cid);
      if !sessionStarts {
        return Err(SessionFailed);
      }
      AddConnection(ch, remoteId, false, cid, None);
      assert View() == ConnectSpec(old(View()), ch, remoteId, cid, sessionStarts);
      return Ok(());
    }

    method RegisterCids(ch: nat, cid: ConnectionId, preferred: Option<ConnectionId>)
      requires Vacant(connectionIds, AsSeq(cid, preferred))
      modifies this`connectionIds
      ensures View() == old(View()).(ids := RegisterSpec(old(connectionIds), ch, cid, preferred))
    {
      assert AsSeq(cid, preferred)[0] !in connectionIds;
      if preferred.Some? {
        assert AsSeq(cid, preferred)[1] !in connectionIds && AsSeq(cid, preferred)[1] != AsSeq(cid, preferred)[0];
      }
      NewCid(ch, ZERO_PATH, cid);
      if preferred.Some? {
        NewCid(ch, ZERO_PATH, preferred.value);
      }
    }

    method SetUpServer(ghost e: State, incoming: Incoming, ch: nat, cid: ConnectionId, preferred: Option<ConnectionId>)
      requires ch !in e.connections && Vacant(e.ids, AsSeq(cid, preferred))
      requires View() == CleanUpSpec(e, incoming).(initial := e.initial)
      modifies this
      ensures View() == AcceptSpec(e, incoming, Completed, ch, AsSeq(cid, preferred))
      ensures |incoming.dstCid| > 0 ==> incoming.dstCid in connectionIdsInitial
      ensures ch in connections && connections[ch].initCid == incoming.dstCid
    {
      hide AcceptSpec, FirstCids, RegisterSpec, AsSeq;
      AcceptWritesTables(e, incoming, ch, cid, preferred);
      RegisteredAlready(e.ids, ch, cid, preferred);
      RegisterCids(ch, cid, preferred);
      AddConnection(ch, incoming.dstCid, true, cid, preferred);
      if |incoming.dstCid| > 0 {
        connectionIdsInitial := connectionIdsInitial[incoming.dstCid := ToConnection(ch, ZERO_PATH)];
      }
    }

    method TakeBuffer(incoming: Incoming)
      requires incoming.idx in incomingBuffers && incomingBuffers[incoming.idx].totalBytes <= allIncomingBuffersTotalBytes
      modifies this`incomingBuffers, this`pending, this`allIncomingBuffersTotalBytes
      ensures View() == CleanUpSpec(old(View()), incoming).(initial := old(connectionIdsInitial))
    {
      var buffer := incomingBuffers[incoming.idx];
      incomingBuffers := incomingBuffers - {incoming.idx};
      allIncomingBuffersTotalBytes := allIncomingBuffersTotalBytes - buffer.totalBytes;
      pending := pending - {incoming.idx};
    }

    /** The buffer goes first, then the attempt is rejected or the connection is set up; a failed
        handshake drains it again. */
    method AcceptIncoming(incoming: Incoming, handshake: Handshake, ch: nat, cid: ConnectionId, preferred: Option<ConnectionId>)
      returns (replayed: seq<nat>)
      requires incoming.idx in incomingBuffers && incomingBuffers[incoming.idx].totalBytes <= allIncomingBuffersTotalBytes
      requires |incoming.dstCid| > 0 ==> incoming.dstCid in connectionIdsInitial
      requires ch !in connections && Vacant(connectionIds, AsSeq(cid, preferred))
      modifies this
      ensures View() == AcceptSpec(old(View()), incoming, handshake, ch, AsSeq(cid, preferred))
      ensures replayed == if handshake.Completed? then Buffered(old(View()), incoming.idx) else []
    {
      ghost var e := View();
      replayed := incomingBuffers[incoming.idx].datagrams;
      TakeBuffer(incoming);
      if handshake.Rejected? {
        RemoveInitial(incoming.dstCid);
        return [];
      }
      SetUpServer(e, incoming, ch, cid, preferred);
      if handshake.Failed? {
        DrainConnection(ch);
        return [];
      }
    }

    /** The datagrams kept for the attempt are replayed, in order, to the connection it becomes. */
    method Accept(incoming: Incoming, handshake: Handshake, ch: nat, cid: ConnectionId, preferred: Option<ConnectionId>)
      returns (replayed: seq<nat>)
      requires Valid() && Allowed(View(), EndpointRuns.Accept(incoming, handshake, ch, AsSeq(cid, preferred)))
      modifies this
      ensures Valid() && View() == AcceptSpec(old(View()), incoming, handshake, ch, AsSeq(cid, preferred))
      ensures replayed == if handshake.Completed? then Buffered(old(View()), incoming.idx) else []
    {
      AcceptAdmission(View(), serverConfig, incoming, handshake, ch, AsSeq(cid, preferred));
      PendingHasBuffer(View(), serverConfig, incoming);
      replayed := AcceptIncoming(incoming, handshake, ch, cid, preferred);
    }
  }

  lemma ServerHasRoute(e: State, config: ServerConfig, ch: nat)
    requires AdmissionGood(e, config)
    ensures ch in e.connections && e.connections[ch].isServer && |e.connections[ch].initCid| > 0 ==>
              e.connections[ch].initCid in e.initial
  {
  }

  lemma PathCids(meta: ConnectionMeta, path: nat, paths: set<nat>)
    requires path in meta.localCids
    ensures CidsOn(meta, paths + {path}) == CidsOn(meta, paths) + meta.localCids[path].cids.Values
  {
    forall cid | cid in meta.localCids[path].cids.Values
      ensures cid in CidsOn(meta, paths + {path})
    {
      var s :| s in meta.localCids[path].cids && meta.localCids[path].cids[s] == cid;
    }
  }
}
