/**
 Routing and admission at an endpoint (noq-proto/src/endpoint.rs): the connection index, the live
 connections it speeds up the search of, and the buffers of pending incoming connections.

 The endpoint issues non-empty connection IDs.
 */
module Endpoints {
  import opened Wrappers
  import opened Net

  const ZERO_PATH: nat := 0

  /** Connection IDs issued for one path of one connection, by sequence number. */
  datatype PathLocalCids = PathLocalCids(issued: nat, cids: map<nat, ConnectionId>)

  const NO_CIDS: PathLocalCids := PathLocalCids(0, map[])

  datatype ConnectionMeta = ConnectionMeta(initCid: ConnectionId, localCids: map<nat, PathLocalCids>, isServer: bool) {
    function Path(path: nat): PathLocalCids {
      if path in localCids then localCids[path] else NO_CIDS
    }
  }

  datatype Owner = Owner(ch: nat, path: nat)

  datatype Route = ToIncoming(idx: nat) | ToConnection(ch: nat, path: nat)

  /** Datagrams kept for a pending incoming connection, by their lengths. */
  datatype IncomingBuffer = IncomingBuffer(datagrams: seq<nat>, totalBytes: nat)

  const NO_DATAGRAMS: IncomingBuffer := IncomingBuffer([], 0)

  /** An `Incoming` in the hands of the application. */
  datatype Incoming = Incoming(idx: nat, dstCid: ConnectionId)

  datatype ServerConfig = ServerConfig(maxIncoming: nat, incomingBufferSize: nat, incomingBufferSizeTotal: nat)

  type Connections = map<nat, ConnectionMeta>

  /** `pending` are the `Incoming`s the application has not yet accepted, refused, retried or
      ignored. */
  datatype State = State(
    connections: Connections,
    ids: map<ConnectionId, Owner>,
    initial: map<ConnectionId, Route>,
    buffers: map<nat, IncomingBuffer>,
    allBytes: int,
    pending: map<nat, ConnectionId>)

  const EMPTY: State := State(map[], map[], map[], map[], 0, map[])

  // ------------------------------------------------------------------ connections and their CIDs

  function Issue(meta: ConnectionMeta, path: nat, cid: ConnectionId): ConnectionMeta {
    var p := meta.Path(path);
    meta.(localCids := meta.localCids[path := PathLocalCids(p.issued + 1, p.cids[p.issued := cid])])
  }

  function Unissue(meta: ConnectionMeta, path: nat, seqno: nat): ConnectionMeta
    requires path in meta.localCids
  {
    meta.(localCids := meta.localCids[path := meta.localCids[path].(cids := meta.localCids[path].cids - {seqno})])
  }

  /** Register a new CID for a live connection. */
  ghost function IssueSpec(e: State, ch: nat, path: nat, cid: ConnectionId): State
    requires ch in e.connections
  {
    e.(connections := e.connections[ch := Issue(e.connections[ch], path, cid)], ids := e.ids[cid := Owner(ch, path)])
  }

  ghost function IssueAllSpec(e: State, ch: nat, path: nat, cids: seq<ConnectionId>): State
    requires ch in e.connections
    decreases |cids|
  {
    if cids == [] then e else IssueAllSpec(IssueSpec(e, ch, path, cids[0]), ch, path, cids[1..])
  }

  /** A new connection with its first CID and, for a server with a preferred address, a second. */
  ghost function AddConnectionSpec(e: State, ch: nat, initCid: ConnectionId, isServer: bool, cids: seq<ConnectionId>): State {
    IssueAllSpec(e.(connections := e.connections[ch := ConnectionMeta(initCid, map[ZERO_PATH := NO_CIDS], isServer)]), ch, ZERO_PATH, cids)
  }

  /** `connect`: the CID is registered before the session starts, and a failed start leaves it. */
  ghost function ConnectSpec(e: State, ch: nat, remoteId: ConnectionId, cid: ConnectionId, sessionStarts: bool): State {
    if sessionStarts then AddConnectionSpec(e, ch, remoteId, false, [cid])
    else e.(ids := e.ids[cid := Owner(ch, ZERO_PATH)])
  }

  ghost predicate HasSlot(conns: Connections, ch: nat, path: nat, seqno: nat) {
    ch in conns && path in conns[ch].localCids && seqno in conns[ch].localCids[path].cids
  }

  ghost function CidAt(conns: Connections, ch: nat, path: nat, seqno: nat): ConnectionId
    requires HasSlot(conns, ch, path, seqno)
  {
    conns[ch].localCids[path].cids[seqno]
  }

  /** `RetireConnectionId`: stop routing a CID, if it is still there. */
  ghost function RetireSpec(e: State, ch: nat, path: nat, seqno: nat): State {
    if HasSlot(e.connections, ch, path, seqno) then
      e.(connections := e.connections[ch := Unissue(e.connections[ch], path, seqno)],
         ids := e.ids - {CidAt(e.connections, ch, path, seqno)})
    else e
  }

  ghost function CidsOf(meta: ConnectionMeta): set<ConnectionId> {
    set path, seqno | path in meta.localCids && seqno in meta.localCids[path].cids :: meta.localCids[path].cids[seqno]
  }

  ghost function WithoutInitial(initial: map<ConnectionId, Route>, cid: ConnectionId): map<ConnectionId, Route> {
    if |cid| == 0 then initial else initial - {cid}
  }

  /** `Drained`: forget a connection and all its routes. */
  ghost function DrainSpec(e: State, ch: nat): State {
    if ch !in e.connections then e
    else
      var meta := e.connections[ch];
      e.(connections := e.connections - {ch},
         ids := e.ids - CidsOf(meta),
         initial := if meta.isServer then WithoutInitial(e.initial, meta.initCid) else e.initial)
  }

  // ------------------------------------------------------------------ pending incoming connections

  ghost function InitialRoute(initial: map<ConnectionId, Route>, cid: ConnectionId, route: Route): map<ConnectionId, Route> {
    if |cid| == 0 then initial else initial[cid := route]
  }

  /** A first packet that passed every check opens a buffer. */
  ghost function IncomingSpec(e: State, incoming: Incoming): State {
    e.(buffers := e.buffers[incoming.idx := NO_DATAGRAMS],
       initial := InitialRoute(e.initial, incoming.dstCid, ToIncoming(incoming.idx)),
       pending := e.pending[incoming.idx := incoming.dstCid])
  }

  /** A datagram for a pending incoming connection is kept only within both limits. */
  ghost function BufferSpec(e: State, config: ServerConfig, idx: nat, length: nat): State
    requires idx in e.buffers
  {
    var b := e.buffers[idx];
    if b.totalBytes + length <= config.incomingBufferSize && e.allBytes + length <= config.incomingBufferSizeTotal then
      e.(buffers := e.buffers[idx := IncomingBuffer(b.datagrams + [length], b.totalBytes + length)], allBytes := e.allBytes + length)
    else e
  }

  ghost function BytesOf(buffers: map<nat, IncomingBuffer>, idx: nat): nat {
    if idx in buffers then buffers[idx].totalBytes else 0
  }

  /** The buffer and the route of an `Incoming` go: `refuse`, `retry`, `ignore`, a failed `accept`. */
  ghost function CleanUpSpec(e: State, incoming: Incoming): State {
    e.(buffers := e.buffers - {incoming.idx},
       allBytes := e.allBytes - BytesOf(e.buffers, incoming.idx),
       initial := WithoutInitial(e.initial, incoming.dstCid),
       pending := e.pending - {incoming.idx})
  }

  /** `insert_initial`. */
  ghost function Routed(e: State, ch: nat, cid: ConnectionId): State {
    e.(initial := InitialRoute(e.initial, cid, ToConnection(ch, ZERO_PATH)))
  }

  datatype Handshake = Rejected | Failed | Completed

  /** `accept`: the attempt is rejected before a connection exists (stale, CIDs exhausted or not
      authentic), its handshake fails and the connection is drained again, or it goes through. */
  ghost function AcceptSpec(e: State, incoming: Incoming, handshake: Handshake, ch: nat, cids: seq<ConnectionId>): State {
    var cleaned := CleanUpSpec(e, incoming);
    if handshake.Rejected? then cleaned
    else
      var added := AddConnectionSpec(cleaned, ch, incoming.dstCid, true, cids);
      var routed := Routed(added, ch, incoming.dstCid);
      if handshake.Failed? then DrainSpec(routed, ch) else routed
  }

  // ------------------------------------------------------------------ datagrams

  /** What routing and admission look at in the first packet of a datagram; `wellFormed` says that it
      passes the checks on its contents. */
  datatype Datagram = Datagram(dstCid: ConnectionId, isInitial: bool, isZeroRtt: bool, hasToken: bool, length: nat, wellFormed: bool)

  const MIN_INITIAL_SIZE: nat := 1200

  /** The entry of the index for a datagram. */
  ghost function LookupSpec(e: State, d: Datagram): Option<Route> {
    if |d.dstCid| > 0 && d.dstCid in e.ids then Some(ToConnection(e.ids[d.dstCid].ch, e.ids[d.dstCid].path))
    else if (d.isInitial || d.isZeroRtt) && d.dstCid in e.initial then Some(e.initial[d.dstCid])
    else None
  }

  /** Three quarters of the space of connection IDs of up to four bytes are in use. */
  predicate CidsExhausted(cidLen: nat, used: nat) {
    match cidLen
    case 1 => used > 192
    case 2 => used > 49152
    case 3 => used > 12582912
    case 4 => used > 3221225472
    case _ => false
  }

  predicate Admitted(config: ServerConfig, cidLen: nat, used: nat, waiting: nat, d: Datagram) {
    && d.length >= MIN_INITIAL_SIZE
    && !CidsExhausted(cidLen, used)
    && waiting < config.maxIncoming
    && (|d.dstCid| >= 8 || (d.hasToken && |d.dstCid| == cidLen))
    && d.wellFormed
  }

  /** `handle`: route a datagram, keep it, or open a pending incoming connection for it. */
  ghost function HandleSpec(e: State, config: ServerConfig, cidLen: nat, d: Datagram, idx: nat): State {
    match LookupSpec(e, d)
    case Some(ToConnection(_, _)) => e
    case Some(ToIncoming(i)) => if i in e.buffers then BufferSpec(e, config, i, d.length) else e
    case None =>
      if d.isInitial && Admitted(config, cidLen, |e.ids|, |e.buffers|, d) then IncomingSpec(e, Incoming(idx, d.dstCid)) else e
  }

  // ------------------------------------------------------------------ exactness of the CID index

  /** Sequence number under which a CID was issued, and the CIDs of connections whose session never
      started. */
  datatype Trace = Trace(seqOf: map<ConnectionId, nat>, leaked: set<ConnectionId>)

  ghost predicate Sound(conns: Connections, ids: map<ConnectionId, Owner>, t: Trace) {
    forall cid :: cid in ids && cid !in t.leaked ==>
                    && cid in t.seqOf
                    && HasSlot(conns, ids[cid].ch, ids[cid].path, t.seqOf[cid])
                    && CidAt(conns, ids[cid].ch, ids[cid].path, t.seqOf[cid]) == cid
  }

  ghost predicate SlotRouted(conns: Connections, ids: map<ConnectionId, Owner>, t: Trace, ch: nat, path: nat, s: nat)
    requires HasSlot(conns, ch, path, s)
  {
    var cid := CidAt(conns, ch, path, s);
    cid in ids && ids[cid] == Owner(ch, path) && cid in t.seqOf && t.seqOf[cid] == s && cid !in t.leaked && |cid| > 0
  }

  ghost predicate Complete(conns: Connections, ids: map<ConnectionId, Owner>, t: Trace) {
    forall ch: nat, path: nat, s: nat :: HasSlot(conns, ch, path, s) ==> SlotRouted(conns, ids, t, ch, path, s)
  }

  ghost predicate Numbered(conns: Connections) {
    forall ch: nat, path: nat, s: nat :: HasSlot(conns, ch, path, s) ==> s < conns[ch].localCids[path].issued
  }

  /** Up to leaked entries, the index is the inverse of the tables of the live connections. */
  ghost predicate Indexed(conns: Connections, ids: map<ConnectionId, Owner>, t: Trace) {
    Sound(conns, ids, t) && Complete(conns, ids, t) && Numbered(conns) && t.leaked <= ids.Keys
  }

  lemma IssueIndexed(e: State, t: Trace, ch: nat, path: nat, cid: ConnectionId)
    requires Indexed(e.connections, e.ids, t) && ch in e.connections && cid !in e.ids && |cid| > 0
    ensures var e' := IssueSpec(e, ch, path, cid);
            Indexed(e'.connections, e'.ids, t.(seqOf := t.seqOf[cid := e.connections[ch].Path(path).issued]))
  {
    var n := e.connections[ch].Path(path).issued;
    var e', t' := IssueSpec(e, ch, path, cid), t.(seqOf := t.seqOf[cid := n]);
    forall c: nat, p: nat, s: nat
      ensures HasSlot(e'.connections, c, p, s) <==> HasSlot(e.connections, c, p, s) || (c == ch && p == path && s == n)
      ensures HasSlot(e.connections, c, p, s) ==> CidAt(e'.connections, c, p, s) == CidAt(e.connections, c, p, s)
    {
    }
    assert HasSlot(e'.connections, ch, path, n) && CidAt(e'.connections, ch, path, n) == cid;
  }

  /** CIDs from the generator: non-empty, and vacant when they are registered. */
  ghost predicate Vacant(ids: map<ConnectionId, Owner>, cids: seq<ConnectionId>) {
    && (forall i :: 0 <= i < |cids| ==> cids[i] !in ids && |cids[i]| > 0)
    && (forall i, j :: 0 <= i < j < |cids| ==> cids[i] != cids[j])
  }

  /** Sequence numbers after issuing `cids` from number `n` on. */
  ghost function Assign(t: Trace, n: nat, cids: seq<ConnectionId>): Trace
    decreases |cids|
  {
    if cids == [] then t else Assign(t.(seqOf := t.seqOf[cids[0] := n]), n + 1, cids[1..])
  }

  lemma {:induction false} IssueAllIndexed(e: State, t: Trace, ch: nat, path: nat, cids: seq<ConnectionId>)
    requires Indexed(e.connections, e.ids, t) && ch in e.connections && Vacant(e.ids, cids)
    ensures var e' := IssueAllSpec(e, ch, path, cids);
            Indexed(e'.connections, e'.ids, Assign(t, e.connections[ch].Path(path).issued, cids))
    decreases |cids|
  {
    if cids != [] {
      var n := e.connections[ch].Path(path).issued;
      IssueIndexed(e, t, ch, path, cids[0]);
      IssueAllIndexed(IssueSpec(e, ch, path, cids[0]), t.(seqOf := t.seqOf[cids[0] := n]), ch, path, cids[1..]);
    }
  }

  lemma BareConnectionIndexed(conns: Connections, ids: map<ConnectionId, Owner>, t: Trace, ch: nat, meta: ConnectionMeta)
    requires Indexed(conns, ids, t) && ch !in conns && meta.localCids == map[ZERO_PATH := NO_CIDS]
    ensures Indexed(conns[ch := meta], ids, t)
  {
    var conns' := conns[ch := meta];
    forall c: nat, p: nat, s: nat
      ensures HasSlot(conns', c, p, s) <==> HasSlot(conns, c, p, s)
      ensures HasSlot(conns, c, p, s) ==> CidAt(conns', c, p, s) == CidAt(conns, c, p, s)
    {
    }
  }

  lemma AddConnectionIndexed(e: State, t: Trace, ch: nat, initCid: ConnectionId, isServer: bool, cids: seq<ConnectionId>)
    requires Indexed(e.connections, e.ids, t) && ch !in e.connections && Vacant(e.ids, cids)
    ensures var e' := AddConnectionSpec(e, ch, initCid, isServer, cids);
            Indexed(e'.connections, e'.ids, Assign(t, 0, cids))
  {
    var meta := ConnectionMeta(initCid, map[ZERO_PATH := NO_CIDS], isServer);
    BareConnectionIndexed(e.connections, e.ids, t, ch, meta);
    IssueAllIndexed(e.(connections := e.connections[ch := meta]), t, ch, ZERO_PATH, cids);
  }

  lemma RetireIndexed(e: State, t: Trace, ch: nat, path: nat, seqno: nat)
    requires Indexed(e.connections, e.ids, t)
    ensures var e' := RetireSpec(e, ch, path, seqno); Indexed(e'.connections, e'.ids, t)
  {
    if HasSlot(e.connections, ch, path, seqno) {
      var e' := RetireSpec(e, ch, path, seqno);
      forall c: nat, p: nat, s: nat
        ensures HasSlot(e'.connections, c, p, s) <==> HasSlot(e.connections, c, p, s) && !(c == ch && p == path && s == seqno)
        ensures HasSlot(e'.connections, c, p, s) ==> CidAt(e'.connections, c, p, s) == CidAt(e.connections, c, p, s)
      {
      }
      assert SlotRouted(e.connections, e.ids, t, ch, path, seqno);
    }
  }

  lemma DrainIndexed(e: State, t: Trace, ch: nat)
    requires Indexed(e.connections, e.ids, t)
    ensures var e' := DrainSpec(e, ch); Indexed(e'.connections, e'.ids, t)
  {
    if ch in e.connections {
      var e' := DrainSpec(e, ch);
      forall c: nat, p: nat, s: nat
        ensures HasSlot(e'.connections, c, p, s) <==> HasSlot(e.connections, c, p, s) && c != ch
        ensures HasSlot(e'.connections, c, p, s) ==> CidAt(e'.connections, c, p, s) == CidAt(e.connections, c, p, s)
      {
      }
      DrainedCids(e, t, ch);
    }
  }

  /** The CIDs of a connection are exactly the index entries that name it, leaks aside. */
  lemma DrainedCids(e: State, t: Trace, ch: nat)
    requires Indexed(e.connections, e.ids, t) && ch in e.connections
    ensures forall cid :: cid in CidsOf(e.connections[ch]) <==> cid in e.ids && cid !in t.leaked && e.ids[cid].ch == ch
  {
    forall cid | cid in CidsOf(e.connections[ch])
      ensures cid in e.ids && cid !in t.leaked && e.ids[cid].ch == ch
    {
      var tables := e.connections[ch].localCids;
      var path, s :| path in tables && s in tables[path].cids && tables[path].cids[s] == cid;
      assert HasSlot(e.connections, ch, path, s);
      assert SlotRouted(e.connections, e.ids, t, ch, path, s);
    }
  }

  // ------------------------------------------------------------------ exactness of the initial routes

  ghost predicate PendingRouted(e: State) {
    forall i :: i in e.pending && |e.pending[i]| > 0 ==>
                  e.pending[i] in e.initial && e.initial[e.pending[i]] == ToIncoming(i)
  }

  ghost predicate ServersRouted(e: State) {
    forall ch :: ch in e.connections && e.connections[ch].isServer && |e.connections[ch].initCid| > 0 ==>
                   && e.connections[ch].initCid in e.initial
                   && e.initial[e.connections[ch].initCid] == ToConnection(ch, ZERO_PATH)
  }

  ghost predicate RouteJustified(e: State, cid: ConnectionId, route: Route) {
    match route
    case ToIncoming(i) => i in e.pending && e.pending[i] == cid
    case ToConnection(ch, path) =>
      path == ZERO_PATH && ch in e.connections && e.connections[ch].isServer && e.connections[ch].initCid == cid
  }

  ghost predicate InitialJustified(e: State) {
    forall cid :: cid in e.initial ==> |cid| > 0 && RouteJustified(e, cid, e.initial[cid])
  }

  /** The initial routes are exactly the non-empty initial CIDs of pending incoming connections and of
      live server connections. */
  ghost predicate InitialExact(e: State) {
    PendingRouted(e) && ServersRouted(e) && InitialJustified(e)
  }

  lemma IncomingInitial(e: State, incoming: Incoming)
    requires InitialExact(e) && incoming.idx !in e.pending
    requires |incoming.dstCid| > 0 ==> incoming.dstCid !in e.initial
    ensures InitialExact(IncomingSpec(e, incoming))
  {
    var e' := IncomingSpec(e, incoming);
    assert e'.connections == e.connections;
    assert PendingRouted(e');
    assert ServersRouted(e');
  }

  lemma CleanUpInitial(e: State, incoming: Incoming)
    requires InitialExact(e) && incoming.idx in e.pending && e.pending[incoming.idx] == incoming.dstCid
    ensures InitialExact(CleanUpSpec(e, incoming))
    ensures |incoming.dstCid| > 0 ==> incoming.dstCid in e.initial && incoming.dstCid !in CleanUpSpec(e, incoming).initial
  {
  }

  lemma DrainInitial(e: State, ch: nat)
    requires InitialExact(e)
    ensures InitialExact(DrainSpec(e, ch))
  {
  }

  /** Issuing CIDs touches neither initial CIDs nor sides, routes or buffers. */
  lemma {:induction false} IssueAllKeeps(e: State, ch: nat, path: nat, cids: seq<ConnectionId>)
    requires ch in e.connections
    ensures var e' := IssueAllSpec(e, ch, path, cids);
            && e' == e.(connections := e'.connections, ids := e'.ids)
            && e'.connections.Keys == e.connections.Keys
            && (forall c :: c in e.connections ==>
                  e'.connections[c].initCid == e.connections[c].initCid && e'.connections[c].isServer == e.connections[c].isServer)
    decreases |cids|
  {
    if cids != [] {
      IssueAllKeeps(IssueSpec(e, ch, path, cids[0]), ch, path, cids[1..]);
    }
  }

  lemma SameFacesInitial(e: State, e': State)
    requires InitialExact(e) && e'.initial == e.initial && e'.pending == e.pending
    requires e'.connections.Keys == e.connections.Keys
    requires forall c :: c in e.connections ==>
               e'.connections[c].initCid == e.connections[c].initCid && e'.connections[c].isServer == e.connections[c].isServer
    ensures InitialExact(e')
  {
  }

  lemma IssueAllInitial(e: State, ch: nat, path: nat, cids: seq<ConnectionId>)
    requires InitialExact(e) && ch in e.connections
    ensures InitialExact(IssueAllSpec(e, ch, path, cids))
  {
    IssueAllKeeps(e, ch, path, cids);
    SameFacesInitial(e, IssueAllSpec(e, ch, path, cids));
  }

  lemma ClientInitial(e: State, ch: nat, initCid: ConnectionId, cids: seq<ConnectionId>)
    requires InitialExact(e) && ch !in e.connections
    ensures InitialExact(AddConnectionSpec(e, ch, initCid, false, cids))
  {
    var bare := e.(connections := e.connections[ch := ConnectionMeta(initCid, map[ZERO_PATH := NO_CIDS], false)]);
    assert InitialExact(bare);
    IssueAllInitial(bare, ch, ZERO_PATH, cids);
  }

  lemma BareServerInitial(e: State, ch: nat, initCid: ConnectionId)
    requires InitialExact(e) && ch !in e.connections && (|initCid| > 0 ==> initCid !in e.initial)
    ensures var bare := e.(connections := e.connections[ch := ConnectionMeta(initCid, map[ZERO_PATH := NO_CIDS], true)]);
            InitialExact(Routed(bare, ch, initCid))
  {
    var e' := Routed(e.(connections := e.connections[ch := ConnectionMeta(initCid, map[ZERO_PATH := NO_CIDS], true)]), ch, initCid);
    assert PendingRouted(e');
    assert ServersRouted(e');
  }

  lemma ServerInitial(e: State, ch: nat, initCid: ConnectionId, cids: seq<ConnectionId>)
    requires InitialExact(e) && ch !in e.connections && (|initCid| > 0 ==> initCid !in e.initial)
    ensures InitialExact(Routed(AddConnectionSpec(e, ch, initCid, true, cids), ch, initCid))
  {
    var bare := e.(connections := e.connections[ch := ConnectionMeta(initCid, map[ZERO_PATH := NO_CIDS], true)]);
    BareServerInitial(e, ch, initCid);
    hide InitialExact;
    IssueAllKeeps(bare, ch, ZERO_PATH, cids);
    SameFacesInitial(Routed(bare, ch, initCid), Routed(AddConnectionSpec(e, ch, initCid, true, cids), ch, initCid));
  }

  lemma RetireInitial(e: State, ch: nat, path: nat, seqno: nat)
    requires InitialExact(e)
    ensures InitialExact(RetireSpec(e, ch, path, seqno))
  {
    if HasSlot(e.connections, ch, path, seqno) {
      SameFacesInitial(e, RetireSpec(e, ch, path, seqno));
    }
  }

  // ------------------------------------------------------------------ the byte count

  ghost function SumBytes(buffers: map<nat, IncomingBuffer>): nat
    decreases |buffers|
  {
    if buffers == map[] then 0
    else
      var i :| i in buffers;
      buffers[i].totalBytes + SumBytes(buffers - {i})
  }

  lemma {:induction false} SumBytesWithout(buffers: map<nat, IncomingBuffer>, i: nat)
    requires i in buffers
    ensures SumBytes(buffers) == buffers[i].totalBytes + SumBytes(buffers - {i})
    decreases |buffers|
  {
    var j :| j in buffers && SumBytes(buffers) == buffers[j].totalBytes + SumBytes(buffers - {j});
    if i != j {
      SumBytesWithout(buffers - {j}, i);
      SumBytesWithout(buffers - {i}, j);
      assert buffers - {j} - {i} == buffers - {i} - {j};
    }
  }

  ghost function SumSeq(s: seq<nat>): nat {
    if s == [] then 0 else SumSeq(s[..|s| - 1]) + s[|s| - 1]
  }

  ghost predicate BufferOk(b: IncomingBuffer, config: ServerConfig) {
    b.totalBytes == SumSeq(b.datagrams) <= config.incomingBufferSize
  }

  ghost predicate AllOk(buffers: map<nat, IncomingBuffer>, config: ServerConfig) {
    forall i :: i in buffers ==> BufferOk(buffers[i], config)
  }

  /** Every pending incoming connection has a live buffer, there are not too many of them, and none
      is over its limit. */
  ghost predicate Kept(e: State, config: ServerConfig) {
    e.buffers.Keys == e.pending.Keys && |e.buffers| <= config.maxIncoming && AllOk(e.buffers, config)
  }

  /** The byte count is the sum over the buffers and within its limit. */
  ghost predicate Counted(e: State, config: ServerConfig) {
    e.allBytes == SumBytes(e.buffers) <= config.incomingBufferSizeTotal
  }

  /** Taking a buffer's bytes off the count never underflows. */
  lemma NoUnderflow(e: State, config: ServerConfig, i: nat)
    requires Counted(e, config) && i in e.buffers
    ensures e.buffers[i].totalBytes <= e.allBytes
  {
    SumBytesWithout(e.buffers, i);
  }

  lemma SumBytesWith(buffers: map<nat, IncomingBuffer>, i: nat, b: IncomingBuffer)
    ensures SumBytes(buffers[i := b]) == b.totalBytes + SumBytes(buffers - {i})
  {
    SumBytesWithout(buffers[i := b], i);
    assert buffers[i := b] - {i} == buffers - {i};
  }

  lemma IncomingKept(e: State, config: ServerConfig, incoming: Incoming)
    requires Kept(e, config) && incoming.idx !in e.buffers && |e.buffers| < config.maxIncoming
    ensures Kept(IncomingSpec(e, incoming), config)
  {
  }

  lemma IncomingCounted(e: State, config: ServerConfig, incoming: Incoming)
    requires Counted(e, config) && incoming.idx !in e.buffers
    ensures Counted(IncomingSpec(e, incoming), config)
  {
    SumBytesWith(e.buffers, incoming.idx, NO_DATAGRAMS);
    assert e.buffers - {incoming.idx} == e.buffers;
  }

  lemma BufferKept(e: State, config: ServerConfig, idx: nat, length: nat)
    requires Kept(e, config) && idx in e.buffers
    ensures Kept(BufferSpec(e, config, idx, length), config)
  {
    var b, e' := e.buffers[idx], BufferSpec(e, config, idx, length);
    assert (b.datagrams + [length])[..|b.datagrams|] == b.datagrams;
    assert BufferOk(e'.buffers[idx], config);
    assert |e'.buffers.Keys| == |e.buffers.Keys|;
  }

  lemma BufferCounted(e: State, config: ServerConfig, idx: nat, length: nat)
    requires Counted(e, config) && idx in e.buffers
    ensures Counted(BufferSpec(e, config, idx, length), config)
  {
    var e' := BufferSpec(e, config, idx, length);
    SumBytesWithout(e.buffers, idx);
    SumBytesWith(e.buffers, idx, e'.buffers[idx]);
    assert e'.buffers == e.buffers[idx := e'.buffers[idx]];
  }

  lemma CleanUpKept(e: State, config: ServerConfig, incoming: Incoming)
    requires Kept(e, config) && incoming.idx in e.buffers
    ensures Kept(CleanUpSpec(e, incoming), config)
  {
    assert (e.buffers - {incoming.idx}).Keys == e.buffers.Keys - {incoming.idx};
  }

  lemma CleanUpCounted(e: State, config: ServerConfig, incoming: Incoming)
    requires Counted(e, config) && incoming.idx in e.buffers
    ensures Counted(CleanUpSpec(e, incoming), config)
  {
    SumBytesWithout(e.buffers, incoming.idx);
  }
}
