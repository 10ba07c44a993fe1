/**
 The ADD_ADDRESS / REMOVE_ADDRESS exchange (noq-proto/src/n0_nat_traversal.rs:489-534, 690-710): the
 server numbers its addresses, the client keeps a table by number, and the frames in between arrive
 in order and exactly once.
 */
module NatAdvertise {
  import opened Wrappers
  import opened Net
  import opened NatCommon
  import C = NatClients
  import CR = NatClientRuns

  datatype Frame = AddAddress(id: nat, addr: SocketAddr) | RemoveAddress(id: nat)

  /** The server's own addresses, in canonical form, with their ids. */
  datatype Server = Server(local: map<SocketAddr, nat>, nextId: nat)

  ghost function AddLocalSpec(s: Server, maxLocal: nat, addr: SocketAddr): (Server, Result<Option<Frame>, Error>)
    requires s.nextId <= MAX_VARINT
  {
    var a := ToCanonical(addr);
    if a in s.local then (s, Ok(None))
    else if |s.local| < maxLocal then
      (Server(s.local[a := s.nextId], SaturatingAdd(s.nextId, 1)), Ok(Some(AddAddress(s.nextId, a))))
    else (s, Err(TooManyAddresses))
  }

  ghost function RemoveLocalSpec(s: Server, addr: SocketAddr): (Server, Option<Frame>) {
    var a := ToCanonical(addr);
    (s.(local := s.local - {a}), if a in s.local then Some(RemoveAddress(s.local[a])) else None)
  }

  class ServerAddresses {
    const maxLocalAddresses: nat
    var localAddresses: map<SocketAddr, nat>
    var nextLocalAddrId: nat

    ghost function View(): Server
      reads this
    {
      Server(localAddresses, nextLocalAddrId)
    }

    constructor (maxLocalAddresses: nat)
      ensures View() == Server(map[], 0) && this.maxLocalAddresses == maxLocalAddresses
    {
      this.maxLocalAddresses := maxLocalAddresses;
      localAddresses, nextLocalAddrId := map[], 0;
    }

    method AddLocalAddress(addr: SocketAddr) returns (r: Result<Option<Frame>, Error>)
      requires nextLocalAddrId <= MAX_VARINT
      modifies this
      ensures (View(), r) == AddLocalSpec(old(View()), maxLocalAddresses, addr)
    {
      var a := ToCanonical(addr);
      var allowNew := |localAddresses| < maxLocalAddresses;
      if a in localAddresses {
        return Ok(None);
      } else if allowNew {
        var id := nextLocalAddrId;
        nextLocalAddrId := SaturatingAdd(nextLocalAddrId, 1);
        localAddresses := localAddresses[a := id];
        return Ok(Some(AddAddress(id, a)));
      }
      return Err(TooManyAddresses);
    }

    method RemoveLocalAddress(addr: SocketAddr) returns (r: Option<Frame>)
      modifies this`localAddresses
      ensures (View(), r) == RemoveLocalSpec(old(View()), addr)
    {
      var a := ToCanonical(addr);
      if a !in localAddresses {
        assert localAddresses - {a} == localAddresses;
        return None;
      }
      r := Some(RemoveAddress(localAddresses[a]));
      localAddresses := localAddresses - {a};
    }
  }

  // ------------------------------------------------------------------ the exchange

  /** Server, frames in flight (oldest first), client, the ids of all ADD_ADDRESS frames sent, and
      whether one of them went to a second address while the first still had it. */
  datatype World = World(server: Server, queue: seq<Frame>, client: C.Client, issued: seq<nat>, clashed: bool)

  const START: World := World(Server(map[], 0), [], C.FRESH, [], false)

  datatype Op =
    | ServerAdd(addr: SocketAddr)
    | ServerRemove(addr: SocketAddr)
    | Deliver
    | ClientOp(op: CR.Op)

  /** The client's table changes only through frames. */
  ghost predicate Allowed(w: World, op: Op) {
    match op
    case ServerAdd(_) => w.server.nextId <= MAX_VARINT
    case ServerRemove(_) => true
    case Deliver => w.queue != []
    case ClientOp(c) => !c.AddRemote? && !c.RemoveRemote? && CR.Allowed(w.client, c) && w.client.round <= MAX_VARINT
  }

  /** The id counter has reached its end and the last id is taken. */
  ghost predicate LastIdTaken(s: Server) {
    s.nextId == MAX_VARINT && exists a :: a in s.local && s.local[a] == MAX_VARINT
  }

  ghost function Receive(c: C.Client, maxRemote: nat, f: Frame): C.Client {
    match f
    case AddAddress(id, addr) => C.AddRemoteSpec(c, maxRemote, id, addr).0
    case RemoveAddress(id) => C.RemoveRemoteSpec(c, id).0
  }

  ghost function Step(w: World, serverMaxLocal: nat, clientMaxRemote: nat, clientMaxLocal: nat, op: Op): World {
    if !Allowed(w, op) then w
    else
      match op
      case ServerAdd(addr) =>
        var (server, r) := AddLocalSpec(w.server, serverMaxLocal, addr);
        if r.Ok? && r.value.Some? then
          World(server, w.queue + [r.value.value], w.client, w.issued + [r.value.value.id], w.clashed || LastIdTaken(w.server))
        else w.(server := server)
      case ServerRemove(addr) =>
        var (server, r) := RemoveLocalSpec(w.server, addr);
        if r.Some? then w.(server := server, queue := w.queue + [r.value]) else w.(server := server)
      case Deliver => w.(client := Receive(w.client, clientMaxRemote, w.queue[0]), queue := w.queue[1..])
      case ClientOp(c) => w.(client := CR.Apply(w.client, clientMaxRemote, clientMaxLocal, c))
  }

  ghost function RunOps(w: World, serverMaxLocal: nat, clientMaxRemote: nat, clientMaxLocal: nat, ops: seq<Op>): World
    decreases |ops|
  {
    if ops == [] then w
    else RunOps(Step(w, serverMaxLocal, clientMaxRemote, clientMaxLocal, ops[0]), serverMaxLocal, clientMaxRemote, clientMaxLocal, ops[1..])
  }

  // ------------------------------------------------------------------ tables

  type Table = map<nat, SocketAddr>

  /** The addresses the client knows, by id. */
  ghost function TableOf(c: C.Client): Table {
    map i | i in c.remote :: c.remote[i].addr
  }

  ghost function Applied(t: Table, f: Frame): Table {
    match f
    case AddAddress(id, addr) => t[id := addr]
    case RemoveAddress(id) => t - {id}
  }

  ghost function AppliedAll(t: Table, queue: seq<Frame>): Table
    decreases |queue|
  {
    if queue == [] then t else AppliedAll(Applied(t, queue[0]), queue[1..])
  }

  /** A frame that makes sense on a table: a fresh id with room for it, or a known id. */
  ghost predicate Sensible(t: Table, f: Frame, max: nat) {
    match f
    case AddAddress(id, addr) => id !in t && |t| < max && IsCanonical(addr)
    case RemoveAddress(id) => id in t
  }

  ghost predicate AllSensible(t: Table, queue: seq<Frame>, max: nat)
    decreases |queue|
  {
    queue == [] || (Sensible(t, queue[0], max) && AllSensible(Applied(t, queue[0]), queue[1..], max))
  }

  lemma {:induction false} AppendFrame(t: Table, queue: seq<Frame>, f: Frame, max: nat)
    requires AllSensible(t, queue, max) && Sensible(AppliedAll(t, queue), f, max)
    ensures AppliedAll(t, queue + [f]) == Applied(AppliedAll(t, queue), f)
    ensures AllSensible(t, queue + [f], max)
    decreases |queue|
  {
    if queue == [] {
      assert queue + [f] == [f];
      assert AppliedAll(t, [f]) == AppliedAll(Applied(t, f), []);
    } else {
      assert (queue + [f])[1..] == queue[1..] + [f];
      AppendFrame(Applied(t, queue[0]), queue[1..], f, max);
    }
  }

  /** `t` maps ids to addresses exactly as `local` maps addresses to ids. */
  ghost predicate Inverse(t: Table, local: map<SocketAddr, nat>) {
    KnowsAll(t, local) && KnowsOnly(t, local) && |t| == |local|
  }

  ghost predicate KnowsAll(t: Table, local: map<SocketAddr, nat>) {
    forall a :: a in local ==> local[a] in t && t[local[a]] == a
  }

  ghost predicate KnowsOnly(t: Table, local: map<SocketAddr, nat>) {
    forall i :: i in t ==> t[i] in local && local[t[i]] == i
  }

  ghost predicate IdsBelow(local: map<SocketAddr, nat>, bound: nat) {
    forall a :: a in local ==> local[a] < bound
  }

  /** Ids are handed out as 0, 1, 2 and so on, up to the largest variable-length integer. */
  ghost predicate Numbered(issued: seq<nat>, nextId: nat) {
    && nextId == Capped(|issued|)
    && (forall k :: 0 <= k < |issued| ==> issued[k] == Capped(k))
  }

  /** The client, once the frames in flight have arrived, has the server's table inverted. */
  ghost predicate Agree(w: World) {
    Inverse(AppliedAll(TableOf(w.client), w.queue), w.server.local)
  }

  ghost predicate Inv(w: World, serverMaxLocal: nat) {
    && Numbered(w.issued, w.server.nextId)
    && IdsBelow(w.server.local, |w.issued|)
    && (|w.issued| <= MAX_VARINT + 1 ==> !w.clashed)
    && (!w.clashed ==> Agree(w) && AllSensible(TableOf(w.client), w.queue, serverMaxLocal))
  }

  /** A sensible frame does to the client's table what it says and is never refused. */
  lemma ReceiveApplies(c: C.Client, maxRemote: nat, f: Frame, max: nat)
    requires Sensible(TableOf(c), f, max) && max <= maxRemote
    ensures TableOf(Receive(c, maxRemote, f)) == Applied(TableOf(c), f)
    ensures f.AddAddress? ==> C.AddRemoteSpec(c, maxRemote, f.id, f.addr).1 == Ok(Some(f.addr))
  {
    assert TableOf(c).Keys == c.remote.Keys;
    assert |TableOf(c)| == |TableOf(c).Keys| == |c.remote.Keys| == |c.remote|;
    if f.AddAddress? {
      assert ToCanonical(f.addr) == f.addr;
    }
  }

  lemma InverseAdd(t: Table, local: map<SocketAddr, nat>, id: nat, a: SocketAddr)
    requires Inverse(t, local) && id !in t && a !in local
    ensures Inverse(t[id := a], local[a := id])
  {
    hide KnowsAll, KnowsOnly;
    AddKnowsAll(t, local, id, a);
    AddKnowsOnly(t, local, id, a);
    OneMore(t, id, a);
    OneMore(local, a, id);
  }

  lemma OneMore<K, V>(m: map<K, V>, k: K, v: V)
    requires k !in m
    ensures |m[k := v]| == |m| + 1
  {
    assert m[k := v].Keys == m.Keys + {k};
  }

  lemma AddKnowsAll(t: Table, local: map<SocketAddr, nat>, id: nat, a: SocketAddr)
    requires KnowsAll(t, local) && id !in t
    ensures KnowsAll(t[id := a], local[a := id])
  {
  }

  lemma AddKnowsOnly(t: Table, local: map<SocketAddr, nat>, id: nat, a: SocketAddr)
    requires KnowsOnly(t, local) && a !in local
    ensures KnowsOnly(t[id := a], local[a := id])
  {
  }

  lemma InverseRemove(t: Table, local: map<SocketAddr, nat>, a: SocketAddr)
    requires Inverse(t, local) && a in local
    ensures Inverse(t - {local[a]}, local - {a})
  {
    assert (t - {local[a]}).Keys == t.Keys - {local[a]};
    assert (local - {a}).Keys == local.Keys - {a};
  }

  /** No operation of the client other than receiving frames changes what it knows. */
  lemma ClientOpKeepsTable(c: C.Client, maxRemote: nat, maxLocal: nat, op: CR.Op)
    requires CR.Allowed(c, op) && c.round <= MAX_VARINT && !op.AddRemote? && !op.RemoveRemote?
    ensures TableOf(CR.Apply(c, maxRemote, maxLocal, op)) == TableOf(c)
  {
    var c' := CR.Apply(c, maxRemote, maxLocal, op);
    assert c'.remote.Keys == c.remote.Keys;
    assert forall i :: i in c.remote ==> c'.remote[i].addr == c.remote[i].addr;
  }

  /** The next id is new to the table, unless it is the last one and taken. */
  lemma NextIdIsFresh(t: Table, s: Server, issued: nat)
    requires Inverse(t, s.local) && IdsBelow(s.local, issued) && s.nextId == Capped(issued) && !LastIdTaken(s)
    ensures s.nextId !in t && |t| == |s.local|
  {
  }

  lemma IdsStayBelow(local: map<SocketAddr, nat>, n: nat, id: nat, a: SocketAddr)
    requires IdsBelow(local, n) && id <= n
    ensures IdsBelow(local[a := id], n + 1) && IdsBelow(local - {a}, n)
  {
  }

  /** Before 2^62 addresses have been added, the last id cannot be taken. */
  lemma LastIdComesLast(s: Server, issued: nat)
    requires IdsBelow(s.local, issued) && issued <= MAX_VARINT
    ensures !LastIdTaken(s)
  {
  }

  lemma ServerAddKeepsInv(w: World, serverMaxLocal: nat, clientMaxRemote: nat, clientMaxLocal: nat, addr: SocketAddr)
    requires Inv(w, serverMaxLocal)
    ensures Inv(Step(w, serverMaxLocal, clientMaxRemote, clientMaxLocal, ServerAdd(addr)), serverMaxLocal)
  {
    hide Inverse, IdsBelow, AllSensible, AppliedAll, TableOf, LastIdTaken;
    var a, t, id := ToCanonical(addr), AppliedAll(TableOf(w.client), w.queue), w.server.nextId;
    if a !in w.server.local && |w.server.local| < serverMaxLocal {
      IdsStayBelow(w.server.local, |w.issued|, id, a);
      if |w.issued| <= MAX_VARINT {
        LastIdComesLast(w.server, |w.issued|);
      }
      if !w.clashed && !LastIdTaken(w.server) {
        CanonicalUndoesLocal(addr, true);
        NextIdIsFresh(t, w.server, |w.issued|);
        InverseAdd(t, w.server.local, id, a);
        AppendFrame(TableOf(w.client), w.queue, AddAddress(id, a), serverMaxLocal);
      }
    }
  }

  lemma ServerRemoveKeepsInv(w: World, serverMaxLocal: nat, clientMaxRemote: nat, clientMaxLocal: nat, addr: SocketAddr)
    requires Inv(w, serverMaxLocal)
    ensures Inv(Step(w, serverMaxLocal, clientMaxRemote, clientMaxLocal, ServerRemove(addr)), serverMaxLocal)
  {
    hide KnowsOnly, IdsBelow, AllSensible, AppliedAll, TableOf;
    var a, t := ToCanonical(addr), AppliedAll(TableOf(w.client), w.queue);
    IdsStayBelow(w.server.local, |w.issued|, 0, a);
    if a !in w.server.local {
      assert w.server.local - {a} == w.server.local;
    } else if !w.clashed {
      InverseRemove(t, w.server.local, a);
      assert KnowsAll(t, w.server.local);
      AppendFrame(TableOf(w.client), w.queue, RemoveAddress(w.server.local[a]), serverMaxLocal);
    }
  }

  lemma StepKeepsInv(w: World, serverMaxLocal: nat, clientMaxRemote: nat, clientMaxLocal: nat, op: Op)
    requires Inv(w, serverMaxLocal) && serverMaxLocal <= clientMaxRemote
    ensures Inv(Step(w, serverMaxLocal, clientMaxRemote, clientMaxLocal, op), serverMaxLocal)
  {
    match op {
      case ServerAdd(addr) => ServerAddKeepsInv(w, serverMaxLocal, clientMaxRemote, clientMaxLocal, addr);
      case ServerRemove(addr) => ServerRemoveKeepsInv(w, serverMaxLocal, clientMaxRemote, clientMaxLocal, addr);
      case Deliver =>
        if w.queue != [] && !w.clashed {
          ReceiveApplies(w.client, clientMaxRemote, w.queue[0], serverMaxLocal);
        }
      case ClientOp(c) =>
        if Allowed(w, op) {
          ClientOpKeepsTable(w.client, clientMaxRemote, clientMaxLocal, c);
        }
    }
  }

  lemma {:induction false} RunKeepsInv(w: World, serverMaxLocal: nat, clientMaxRemote: nat, clientMaxLocal: nat, ops: seq<Op>)
    requires Inv(w, serverMaxLocal) && serverMaxLocal <= clientMaxRemote
    ensures Inv(RunOps(w, serverMaxLocal, clientMaxRemote, clientMaxLocal, ops), serverMaxLocal)
    decreases |ops|
  {
    if ops != [] {
      StepKeepsInv(w, serverMaxLocal, clientMaxRemote, clientMaxLocal, ops[0]);
      RunKeepsInv(Step(w, serverMaxLocal, clientMaxRemote, clientMaxLocal, ops[0]), serverMaxLocal, clientMaxRemote, clientMaxLocal, ops[1..]);
    }
  }

  /** In every run without a clash: the client's table with the frames in flight applied is the
      server's table inverted, so once the frames have arrived the two agree; and the client never
      refuses an address.  There is no clash in the first 2^62 additions. */
  lemma TablesStayInverse(serverMaxLocal: nat, clientMaxRemote: nat, clientMaxLocal: nat, ops: seq<Op>)
    requires serverMaxLocal <= clientMaxRemote
    ensures var w := RunOps(START, serverMaxLocal, clientMaxRemote, clientMaxLocal, ops);
            && (|w.issued| <= MAX_VARINT + 1 ==> !w.clashed)
            && (!w.clashed ==>
                  && Inverse(AppliedAll(TableOf(w.client), w.queue), w.server.local)
                  && (w.queue == [] ==> Inverse(TableOf(w.client), w.server.local))
                  && (w.queue != [] && w.queue[0].AddAddress? ==>
                        C.AddRemoteSpec(w.client, clientMaxRemote, w.queue[0].id, w.queue[0].addr).1 == Ok(Some(w.queue[0].addr)))
                  && (w.queue != [] && w.queue[0].RemoveAddress? ==>
                        w.queue[0].id in TableOf(w.client)
                        && C.RemoveRemoteSpec(w.client, w.queue[0].id).1 == Some(TableOf(w.client)[w.queue[0].id])))
  {
    StartInv(serverMaxLocal);
    RunKeepsInv(START, serverMaxLocal, clientMaxRemote, clientMaxLocal, ops);
    var w := RunOps(START, serverMaxLocal, clientMaxRemote, clientMaxLocal, ops);
    if !w.clashed && w.queue != [] {
      ReceiveApplies(w.client, clientMaxRemote, w.queue[0], serverMaxLocal);
    }
  }

  lemma StartInv(serverMaxLocal: nat)
    ensures Inv(START, serverMaxLocal)
  {
    assert TableOf(C.FRESH) == map[];
  }

  /** In every run ids are handed out in order, the counter staying at its largest value once it gets
      there; so they are all different exactly while there are at most 2^62 of them. */
  lemma IdsDistinctIff(serverMaxLocal: nat, clientMaxRemote: nat, clientMaxLocal: nat, ops: seq<Op>)
    requires serverMaxLocal <= clientMaxRemote
    ensures var issued := RunOps(START, serverMaxLocal, clientMaxRemote, clientMaxLocal, ops).issued;
            && (forall k :: 0 <= k < |issued| ==> issued[k] == if k <= MAX_VARINT then k else MAX_VARINT)
            && ((forall i, j :: 0 <= i < j < |issued| ==> issued[i] != issued[j]) <==> |issued| <= MAX_VARINT + 1)
  {
    StartInv(serverMaxLocal);
    RunKeepsInv(START, serverMaxLocal, clientMaxRemote, clientMaxLocal, ops);
    var issued := RunOps(START, serverMaxLocal, clientMaxRemote, clientMaxLocal, ops).issued;
    if |issued| > MAX_VARINT + 1 {
      assert issued[MAX_VARINT] == issued[MAX_VARINT + 1];
    }
  }

  // ------------------------------------------------------------------ what the client gets to know

  lemma {:induction false} RunEndsIn(w: World, serverMaxLocal: nat, clientMaxRemote: nat, clientMaxLocal: nat, ops: seq<Op>)
    requires ops != []
    ensures var n := |ops| - 1;
            RunOps(w, serverMaxLocal, clientMaxRemote, clientMaxLocal, ops) ==
            Step(RunOps(w, serverMaxLocal, clientMaxRemote, clientMaxLocal, ops[..n]), serverMaxLocal, clientMaxRemote, clientMaxLocal, ops[n])
    decreases |ops|
  {
    hide Step;
    var n := |ops| - 1;
    if n == 0 {
      assert ops[1..] == [] && ops[..0] == [];
    } else {
      RunEndsIn(Step(w, serverMaxLocal, clientMaxRemote, clientMaxLocal, ops[0]), serverMaxLocal, clientMaxRemote, clientMaxLocal, ops[1..]);
      assert ops[1..][..n - 1] == ops[..n][1..];
    }
  }

  /** Before operation `j` of the run there is room for one more address, or `a` is known. */
  ghost predicate Adds(serverMaxLocal: nat, clientMaxRemote: nat, clientMaxLocal: nat, ops: seq<Op>, j: nat, a: SocketAddr)
    requires j < |ops|
  {
    && ops[j].ServerAdd? && ToCanonical(ops[j].addr) == a
    && var local := RunOps(START, serverMaxLocal, clientMaxRemote, clientMaxLocal, ops[..j]).server.local;
    a in local || |local| < serverMaxLocal
  }

  ghost predicate Drops(op: Op, a: SocketAddr) {
    op.ServerRemove? && ToCanonical(op.addr) == a
  }

  /** The server was told of `a` and had room for it, and was not told to remove it since. */
  ghost predicate Added(serverMaxLocal: nat, clientMaxRemote: nat, clientMaxLocal: nat, ops: seq<Op>, a: SocketAddr) {
    exists j :: 0 <= j < |ops| && Adds(serverMaxLocal, clientMaxRemote, clientMaxLocal, ops, j, a)
                && forall k :: j < k < |ops| ==> !Drops(ops[k], a)
  }

  lemma AddedEndsIn(serverMaxLocal: nat, clientMaxRemote: nat, clientMaxLocal: nat, ops: seq<Op>, a: SocketAddr)
    requires ops != []
    ensures var n := |ops| - 1;
            Added(serverMaxLocal, clientMaxRemote, clientMaxLocal, ops, a) <==>
            || Adds(serverMaxLocal, clientMaxRemote, clientMaxLocal, ops, n, a)
            || (!Drops(ops[n], a) && Added(serverMaxLocal, clientMaxRemote, clientMaxLocal, ops[..n], a))
  {
    hide RunOps;
    var n := |ops| - 1;
    var init := ops[..n];
    forall j | 0 <= j < n
      ensures Adds(serverMaxLocal, clientMaxRemote, clientMaxLocal, ops, j, a) <==>
              Adds(serverMaxLocal, clientMaxRemote, clientMaxLocal, init, j, a)
    {
      assert init[..j] == ops[..j];
    }
    if j :| 0 <= j < n && Adds(serverMaxLocal, clientMaxRemote, clientMaxLocal, init, j, a) && forall k :: j < k < n ==> !Drops(init[k], a) {
      assert Adds(serverMaxLocal, clientMaxRemote, clientMaxLocal, ops, j, a);
    }
    if j :| 0 <= j < |ops| && Adds(serverMaxLocal, clientMaxRemote, clientMaxLocal, ops, j, a) && forall k :: j < k < |ops| ==> !Drops(ops[k], a) {
      assert j < n ==> Adds(serverMaxLocal, clientMaxRemote, clientMaxLocal, init, j, a) && forall k :: j < k < n ==> !Drops(init[k], a);
    }
  }

  lemma StepServer(w: World, serverMaxLocal: nat, clientMaxRemote: nat, clientMaxLocal: nat, op: Op, a: SocketAddr)
    requires w.server.nextId <= MAX_VARINT
    ensures var s := Step(w, serverMaxLocal, clientMaxRemote, clientMaxLocal, op).server;
            && s.nextId <= MAX_VARINT
            && (a in s.local <==>
                  || (op.ServerAdd? && ToCanonical(op.addr) == a && (a in w.server.local || |w.server.local| < serverMaxLocal))
                  || (!Drops(op, a) && a in w.server.local))
  {
    hide ToCanonical, Receive, CR.Apply, CR.Allowed;
  }

  lemma NothingAdded(serverMaxLocal: nat, clientMaxRemote: nat, clientMaxLocal: nat, a: SocketAddr)
    ensures !Added(serverMaxLocal, clientMaxRemote, clientMaxLocal, [], a)
  {
  }

  /** After any run the server's addresses are exactly those added and not removed since. */
  lemma {:induction false} ServerAddressesAreThoseAdded(
    serverMaxLocal: nat, clientMaxRemote: nat, clientMaxLocal: nat, ops: seq<Op>, a: SocketAddr)
    ensures var w := RunOps(START, serverMaxLocal, clientMaxRemote, clientMaxLocal, ops);
            && w.server.nextId <= MAX_VARINT
            && (a in w.server.local <==> Added(serverMaxLocal, clientMaxRemote, clientMaxLocal, ops, a))
    decreases |ops|
  {
    hide Added, Step;
    if ops == [] {
      NothingAdded(serverMaxLocal, clientMaxRemote, clientMaxLocal, a);
    } else {
      var n := |ops| - 1;
      var w := RunOps(START, serverMaxLocal, clientMaxRemote, clientMaxLocal, ops[..n]);
      ServerAddressesAreThoseAdded(serverMaxLocal, clientMaxRemote, clientMaxLocal, ops[..n], a);
      RunEndsIn(START, serverMaxLocal, clientMaxRemote, clientMaxLocal, ops);
      StepServer(w, serverMaxLocal, clientMaxRemote, clientMaxLocal, ops[n], a);
      AddedEndsIn(serverMaxLocal, clientMaxRemote, clientMaxLocal, ops, a);
    }
  }

  /** After any run without a clash, once all frames have arrived, the client knows an address if and
      only if the server was told of it, had room for it, and was not told to remove it since. */
  lemma ClientKnowsWhatServerAdded(serverMaxLocal: nat, clientMaxRemote: nat, clientMaxLocal: nat, ops: seq<Op>, a: SocketAddr)
    requires serverMaxLocal <= clientMaxRemote
    ensures var w := RunOps(START, serverMaxLocal, clientMaxRemote, clientMaxLocal, ops);
            !w.clashed && w.queue == [] ==>
              (C.IdsOf(w.client, a) != {} <==> Added(serverMaxLocal, clientMaxRemote, clientMaxLocal, ops, a))
  {
    TablesStayInverse(serverMaxLocal, clientMaxRemote, clientMaxLocal, ops);
    ServerAddressesAreThoseAdded(serverMaxLocal, clientMaxRemote, clientMaxLocal, ops, a);
    hide RunOps, Added;
    var w := RunOps(START, serverMaxLocal, clientMaxRemote, clientMaxLocal, ops);
    if !w.clashed && w.queue == [] {
      var t := TableOf(w.client);
      if a in w.server.local {
        assert t[w.server.local[a]] == a;
        assert w.server.local[a] in C.IdsOf(w.client, a);
      }
      if i :| i in C.IdsOf(w.client, a) {
        assert t[i] == a;
      }
    }
  }

  // ------------------------------------------------------------------ clashes

  /** The tables agree now and after every operation. */
  ghost predicate AlwaysAgree(w: World, serverMaxLocal: nat, clientMaxRemote: nat, clientMaxLocal: nat, ops: seq<Op>)
    decreases |ops|
  {
    && Agree(w)
    && (ops != [] ==>
          AlwaysAgree(Step(w, serverMaxLocal, clientMaxRemote, clientMaxLocal, ops[0]), serverMaxLocal, clientMaxRemote, clientMaxLocal, ops[1..]))
  }

  /** A clash leaves two addresses with one id, and no table is the inverse of that. */
  lemma ClashDisagrees(w: World, serverMaxLocal: nat, clientMaxRemote: nat, clientMaxLocal: nat, op: Op)
    requires !w.clashed && Step(w, serverMaxLocal, clientMaxRemote, clientMaxLocal, op).clashed
    ensures !Agree(Step(w, serverMaxLocal, clientMaxRemote, clientMaxLocal, op))
  {
    hide AppliedAll, TableOf;
    var w' := Step(w, serverMaxLocal, clientMaxRemote, clientMaxLocal, op);
    var a, local := ToCanonical(op.addr), w'.server.local;
    var b :| b in w.server.local && w.server.local[b] == MAX_VARINT;
    assert a != b && local[a] == local[b] == MAX_VARINT;
  }

  lemma {:induction false} ClashesLast(w: World, serverMaxLocal: nat, clientMaxRemote: nat, clientMaxLocal: nat, ops: seq<Op>)
    requires w.clashed
    ensures RunOps(w, serverMaxLocal, clientMaxRemote, clientMaxLocal, ops).clashed
    decreases |ops|
  {
    if ops != [] {
      ClashesLast(Step(w, serverMaxLocal, clientMaxRemote, clientMaxLocal, ops[0]), serverMaxLocal, clientMaxRemote, clientMaxLocal, ops[1..]);
    }
  }

  lemma {:induction false} AgreeUntilClash(w: World, serverMaxLocal: nat, clientMaxRemote: nat, clientMaxLocal: nat, ops: seq<Op>)
    requires Inv(w, serverMaxLocal) && serverMaxLocal <= clientMaxRemote && !w.clashed
    ensures AlwaysAgree(w, serverMaxLocal, clientMaxRemote, clientMaxLocal, ops) <==>
            !RunOps(w, serverMaxLocal, clientMaxRemote, clientMaxLocal, ops).clashed
    decreases |ops|
  {
    hide Step, Agree;
    if ops != [] {
      var w' := Step(w, serverMaxLocal, clientMaxRemote, clientMaxLocal, ops[0]);
      StepKeepsInv(w, serverMaxLocal, clientMaxRemote, clientMaxLocal, ops[0]);
      if w'.clashed {
        ClashDisagrees(w, serverMaxLocal, clientMaxRemote, clientMaxLocal, ops[0]);
        ClashesLast(w', serverMaxLocal, clientMaxRemote, clientMaxLocal, ops[1..]);
      } else {
        AgreeUntilClash(w', serverMaxLocal, clientMaxRemote, clientMaxLocal, ops[1..]);
      }
    }
  }

  /** The tables agree throughout a run if and only if the server never adds an address with the
      counter at its end and the last id taken. */
  lemma AgreeIffNoClash(serverMaxLocal: nat, clientMaxRemote: nat, clientMaxLocal: nat, ops: seq<Op>)
    requires serverMaxLocal <= clientMaxRemote
    ensures AlwaysAgree(START, serverMaxLocal, clientMaxRemote, clientMaxLocal, ops) <==>
            !RunOps(START, serverMaxLocal, clientMaxRemote, clientMaxLocal, ops).clashed
  {
    StartInv(serverMaxLocal);
    AgreeUntilClash(START, serverMaxLocal, clientMaxRemote, clientMaxLocal, ops);
  }

  /** An address is added and removed `n` times. */
  function Churn(a: SocketAddr, n: nat): seq<Op> {
    if n == 0 then [] else [ServerAdd(a), ServerRemove(a)] + Churn(a, n - 1)
  }

  ghost predicate Churned(w: World, n: nat) {
    w.server == Server(map[], Capped(n)) && |w.issued| == n
  }

  lemma ChurnOnce(w: World, serverMaxLocal: nat, clientMaxRemote: nat, clientMaxLocal: nat, a: SocketAddr, n: nat)
    requires Churned(w, n) && serverMaxLocal >= 1
    ensures var w' := Step(w, serverMaxLocal, clientMaxRemote, clientMaxLocal, ServerAdd(a));
            Churned(Step(w', serverMaxLocal, clientMaxRemote, clientMaxLocal, ServerRemove(a)), n + 1)
  {
    hide ToCanonical;
    var w' := Step(w, serverMaxLocal, clientMaxRemote, clientMaxLocal, ServerAdd(a));
    assert w'.server.local - {ToCanonical(a)} == map[];
  }

  lemma TwoSteps(w: World, serverMaxLocal: nat, clientMaxRemote: nat, clientMaxLocal: nat, x: Op, y: Op, rest: seq<Op>)
    ensures var w' := Step(Step(w, serverMaxLocal, clientMaxRemote, clientMaxLocal, x), serverMaxLocal, clientMaxRemote, clientMaxLocal, y);
            RunOps(w, serverMaxLocal, clientMaxRemote, clientMaxLocal, [x, y] + rest) ==
            RunOps(w', serverMaxLocal, clientMaxRemote, clientMaxLocal, rest)
  {
    hide Step;
    var ops := [x, y] + rest;
    assert ops[0] == x && ops[1..] == [y] + rest;
    assert ([y] + rest)[1..] == rest;
  }

  lemma {:induction false} ChurnsThen(
    w: World, serverMaxLocal: nat, clientMaxRemote: nat, clientMaxLocal: nat, a: SocketAddr, n: nat, k: nat, rest: seq<Op>)
    returns (w': World)
    requires Churned(w, n) && serverMaxLocal >= 1
    ensures Churned(w', n + k)
    ensures RunOps(w, serverMaxLocal, clientMaxRemote, clientMaxLocal, Churn(a, k) + rest) ==
            RunOps(w', serverMaxLocal, clientMaxRemote, clientMaxLocal, rest)
    decreases k
  {
    hide Step, RunOps;
    if k == 0 {
      assert Churn(a, 0) + rest == rest;
      w' := w;
    } else {
      var w1 := Step(w, serverMaxLocal, clientMaxRemote, clientMaxLocal, ServerAdd(a));
      var w2 := Step(w1, serverMaxLocal, clientMaxRemote, clientMaxLocal, ServerRemove(a));
      ChurnOnce(w, serverMaxLocal, clientMaxRemote, clientMaxLocal, a, n);
      w' := ChurnsThen(w2, serverMaxLocal, clientMaxRemote, clientMaxLocal, a, n + 1, k - 1, rest);
      assert Churn(a, k) + rest == [ServerAdd(a), ServerRemove(a)] + (Churn(a, k - 1) + rest);
      TwoSteps(w, serverMaxLocal, clientMaxRemote, clientMaxLocal, ServerAdd(a), ServerRemove(a), Churn(a, k - 1) + rest);
    }
  }

  /** A run that does clash: after 2^62 - 1 additions, all withdrawn again, the next two addresses get
      the same id. */
  lemma SaturatedIdsCollide(a: SocketAddr, b: SocketAddr, serverMaxLocal: nat, clientMaxRemote: nat, clientMaxLocal: nat)
    requires IsCanonical(a) && IsCanonical(b) && a != b && 2 <= serverMaxLocal <= clientMaxRemote
    ensures var ops := Churn(a, MAX_VARINT) + [ServerAdd(a), ServerAdd(b)];
            var w := RunOps(START, serverMaxLocal, clientMaxRemote, clientMaxLocal, ops);
            && w.clashed && |w.issued| == MAX_VARINT + 2
            && w.server.local == map[a := MAX_VARINT, b := MAX_VARINT]
            && !AlwaysAgree(START, serverMaxLocal, clientMaxRemote, clientMaxLocal, ops)
  {
    hide Churn, AlwaysAgree;
    var last := [ServerAdd(a), ServerAdd(b)];
    var w := ChurnsThen(START, serverMaxLocal, clientMaxRemote, clientMaxLocal, a, 0, MAX_VARINT, last);
    TwoSteps(w, serverMaxLocal, clientMaxRemote, clientMaxLocal, ServerAdd(a), ServerAdd(b), []);
    assert last + [] == last;
    LastTwoCollide(w, a, b, serverMaxLocal, clientMaxRemote, clientMaxLocal);
    AgreeIffNoClash(serverMaxLocal, clientMaxRemote, clientMaxLocal, Churn(a, MAX_VARINT) + last);
  }

  lemma LastTwoCollide(w: World, a: SocketAddr, b: SocketAddr, serverMaxLocal: nat, clientMaxRemote: nat, clientMaxLocal: nat)
    requires Churned(w, MAX_VARINT) && IsCanonical(a) && IsCanonical(b) && a != b && 2 <= serverMaxLocal
    ensures var w1 := Step(w, serverMaxLocal, clientMaxRemote, clientMaxLocal, ServerAdd(a));
            var w2 := Step(w1, serverMaxLocal, clientMaxRemote, clientMaxLocal, ServerAdd(b));
            w2.clashed && |w2.issued| == MAX_VARINT + 2 && w2.server.local == map[a := MAX_VARINT, b := MAX_VARINT]
  {
    assert ToCanonical(a) == a && ToCanonical(b) == b;
    hide ToCanonical;
    var w1 := Step(w, serverMaxLocal, clientMaxRemote, clientMaxLocal, ServerAdd(a));
    assert w1.server.local == map[a := MAX_VARINT];
    assert |w1.server.local| == |w1.server.local.Keys| == |{a}|;
  }
}
