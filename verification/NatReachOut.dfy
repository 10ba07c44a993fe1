/**
 The REACH_OUT exchange as a two-party protocol (noq-proto/src/n0_nat_traversal.rs:352-439, 723-806):
 a client, a server and a network that may lose, duplicate and reorder frames.
 */
module NatReachOut {
  import opened Wrappers
  import opened Net
  import opened NatCommon
  import C = NatClients
  import CR = NatClientRuns
  import S = NatServers

  /** Client, server, every frame ever sent, the frames that reached the server, the addresses the
      client advertised under each round number, and the numbers of the rounds it started. */
  datatype World = World(
    client: C.Client,
    server: S.Probing,
    network: set<ReachOut>,
    delivered: set<ReachOut>,
    advertised: map<nat, set<SocketAddr>>,
    rounds: seq<nat>)
  {
    ghost function Advertised(round: nat): set<SocketAddr> {
      if round in advertised then advertised[round] else {}
    }
  }

  const START: World := World(C.FRESH, S.IDLE, {}, {}, map[], [])

  datatype Limits = Limits(clientMaxLocal: nat, clientMaxRemote: nat, serverMaxRemote: nat, ipv6: bool)

  datatype Op =
    | ClientOp(c: CR.Op)
    | ServerOp(s: S.Op)  // `Receive(f)` delivers a frame

  /** A frame can be delivered, any number of times, only once it has been sent; each side uses its
      own operations properly. */
  ghost predicate Allowed(w: World, op: Op) {
    match op
    case ClientOp(c) => CR.Allowed(w.client, c) && w.client.round <= MAX_VARINT
    case ServerOp(s) => S.Allowed(w.server, s) && (s.Receive? ==> s.f in w.network)
  }

  /** The frames that starting a round hands out. */
  ghost function Sent(c: C.Client, ipv6: bool): set<ReachOut>
    requires c.round <= MAX_VARINT
  {
    var r := C.InitiateSpec(c, ipv6).1;
    if r.Ok? then r.value.0 else {}
  }

  ghost function Step(w: World, lim: Limits, op: Op): World {
    if !Allowed(w, op) then w
    else
      match op
      case ClientOp(c) =>
        var client := CR.Apply(w.client, lim.clientMaxRemote, lim.clientMaxLocal, c);
        if c.Initiate? && w.client.local != {} then
          w.(client := client,
             network := w.network + Sent(w.client, c.ipv6),
             advertised := w.advertised[client.round := w.Advertised(client.round) + w.client.local],
             rounds := w.rounds + [client.round])
        else w.(client := client)
      case ServerOp(s) =>
        w.(server := S.Apply(w.server, lim.serverMaxRemote, lim.ipv6, s),
           delivered := if s.Receive? then w.delivered + {s.f} else w.delivered)
  }

  ghost function RunOps(w: World, lim: Limits, ops: seq<Op>): World
    decreases |ops|
  {
    if ops == [] then w else RunOps(Step(w, lim, ops[0]), lim, ops[1..])
  }

  // ------------------------------------------------------------------ what the server knows

  /** The local forms of the frames of one round. */
  ghost function Mapped(frames: set<ReachOut>, round: nat, ipv6: bool): set<SocketAddr> {
    set f | f in frames && f.round == round && ToLocal(f.addr, ipv6).Some? :: ToLocal(f.addr, ipv6).value
  }

  /** The server's remotes come from frames of its round. */
  ghost predicate Heard(s: S.Probing, delivered: set<ReachOut>, ipv6: bool) {
    && s.remotes.Keys <= Mapped(delivered, s.round, ipv6)
    && (s.round > 0 ==> s.remotes.Keys != {})
  }

  ghost predicate NoneNewer(s: S.Probing, delivered: set<ReachOut>, ipv6: bool) {
    forall f :: f in delivered && ToLocal(f.addr, ipv6).Some? ==> f.round <= s.round
  }

  /** The server is in the newest round it heard of and its remotes are exactly the addresses it
      heard of in that round. */
  ghost predicate Exact(s: S.Probing, delivered: set<ReachOut>, ipv6: bool) {
    && NoneNewer(s, delivered, ipv6)
    && Heard(s, delivered, ipv6)
    && s.remotes.Keys == Mapped(delivered, s.round, ipv6)
  }

  /** What a frame does to the round and the set of remotes. */
  lemma ReceiveKeys(s: S.Probing, maxRemote: nat, f: ReachOut, ipv6: bool)
    ensures var (s', r) := S.ReachOutSpec(s, maxRemote, f, ipv6);
            var local := ToLocal(f.addr, ipv6);
            && s'.round == (if local.Some? && f.round > s.round then f.round else s.round)
            && s'.remotes.Keys ==
               if local.None? || f.round < s.round then s.remotes.Keys
               else if f.round > s.round then {local.value}
               else if r.Ok? then s.remotes.Keys + {local.value}
               else s.remotes.Keys
  {
    hide ToLocal, S.Enlist;
    var local := ToLocal(f.addr, ipv6);
    if local.Some? {
      EnlistKeys(s, local.value);
      EnlistKeys(S.Probing(f.round, map[], map[], {}), local.value);
    }
  }

  lemma EnlistKeys(s: S.Probing, remote: SocketAddr)
    ensures var s' := S.Enlist(s, remote); s'.round == s.round && s'.remotes.Keys == s.remotes.Keys + {remote}
    ensures remote in s.remotes ==> s.remotes.Keys + {remote} == s.remotes.Keys
    ensures s.remotes == map[] ==> s.remotes.Keys + {remote} == {remote}
  {
  }

  /** Accepted or refused, a frame adds at most itself to what the server knows. */
  lemma ReceiveHeard(s: S.Probing, maxRemote: nat, f: ReachOut, ipv6: bool, delivered: set<ReachOut>)
    requires Heard(s, delivered, ipv6)
    ensures Heard(S.ReachOutSpec(s, maxRemote, f, ipv6).0, delivered + {f}, ipv6)
  {
    hide ToLocal, Mapped, S.ReachOutSpec;
    var s' := S.ReachOutSpec(s, maxRemote, f, ipv6).0;
    ReceiveKeys(s, maxRemote, f, ipv6);
    MappedAdd(delivered, f, s'.round, ipv6);
  }

  lemma NothingFromNewRound(s: S.Probing, delivered: set<ReachOut>, round: nat, ipv6: bool)
    requires NoneNewer(s, delivered, ipv6) && round > s.round
    ensures Mapped(delivered, round, ipv6) == {}
  {
  }

  lemma NoneNewerAdd(s: S.Probing, s': S.Probing, delivered: set<ReachOut>, f: ReachOut, ipv6: bool)
    requires NoneNewer(s, delivered, ipv6) && s.round <= s'.round && (ToLocal(f.addr, ipv6).Some? ==> f.round <= s'.round)
    ensures NoneNewer(s', delivered + {f}, ipv6)
  {
  }

  lemma ReceiveExact(s: S.Probing, maxRemote: nat, f: ReachOut, ipv6: bool, delivered: set<ReachOut>)
    requires Exact(s, delivered, ipv6) && S.ReachOutSpec(s, maxRemote, f, ipv6).1.Ok?
    ensures Exact(S.ReachOutSpec(s, maxRemote, f, ipv6).0, delivered + {f}, ipv6)
  {
    hide ToLocal, Mapped, NoneNewer, S.ReachOutSpec;
    var s' := S.ReachOutSpec(s, maxRemote, f, ipv6).0;
    var local := ToLocal(f.addr, ipv6);
    ReceiveKeys(s, maxRemote, f, ipv6);
    MappedAdd(delivered, f, s'.round, ipv6);
    NoneNewerAdd(s, s', delivered, f, ipv6);
    if local.Some? && f.round > s.round {
      NothingFromNewRound(s, delivered, f.round, ipv6);
    }
  }

  lemma MappedAdd(frames: set<ReachOut>, f: ReachOut, round: nat, ipv6: bool)
    ensures Mapped(frames + {f}, round, ipv6)
         == Mapped(frames, round, ipv6) + (if f.round == round && ToLocal(f.addr, ipv6).Some? then {ToLocal(f.addr, ipv6).value} else {})
  {
  }

  /** Only frames change the server's round and remotes. */
  lemma OwnSteps(s: S.Probing, maxRemote: nat, ipv6: bool, op: S.Op)
    requires S.Probed(s) && S.Allowed(s, op) && !op.Receive?
    ensures var s' := S.Apply(s, maxRemote, ipv6, op);
            s'.round == s.round && s'.remotes.Keys == s.remotes.Keys
  {
  }

  /** The order and the number of deliveries do not matter: what was delivered determines the round
      and the remotes. */
  lemma DeliveredDetermines(s1: S.Probing, s2: S.Probing, delivered: set<ReachOut>, ipv6: bool)
    requires Exact(s1, delivered, ipv6) && Exact(s2, delivered, ipv6)
    ensures s1.round == s2.round && s1.remotes.Keys == s2.remotes.Keys
  {
    if s1.round > 0 {
      var r :| r in s1.remotes.Keys;
      assert r in Mapped(delivered, s1.round, ipv6);
    }
    if s2.round > 0 {
      var r :| r in s2.remotes.Keys;
      assert r in Mapped(delivered, s2.round, ipv6);
    }
  }

  ghost function DeliverAll(s: S.Probing, maxRemote: nat, ipv6: bool, frames: seq<ReachOut>): S.Probing
    decreases |frames|
  {
    if frames == [] then s else DeliverAll(S.ReachOutSpec(s, maxRemote, frames[0], ipv6).0, maxRemote, ipv6, frames[1..])
  }

  ghost function AsSet(frames: seq<ReachOut>): set<ReachOut> {
    set f | f in frames
  }

  /** No round has more addresses than the server takes. */
  ghost predicate Fits(frames: set<ReachOut>, maxRemote: nat, ipv6: bool) {
    forall round :: |Mapped(frames, round, ipv6)| <= maxRemote
  }

  lemma {:induction false} DeliverAllExact(s: S.Probing, maxRemote: nat, ipv6: bool, frames: seq<ReachOut>, before: set<ReachOut>)
    requires Exact(s, before, ipv6) && Fits(before + AsSet(frames), maxRemote, ipv6)
    ensures Exact(DeliverAll(s, maxRemote, ipv6, frames), before + AsSet(frames), ipv6)
    decreases |frames|
  {
    if frames == [] {
      assert before + AsSet(frames) == before;
    } else {
      var f := frames[0];
      assert before + AsSet(frames) == (before + {f}) + AsSet(frames[1..]);
      FrameFits(s, maxRemote, f, ipv6, before, before + AsSet(frames));
      ReceiveExact(s, maxRemote, f, ipv6, before);
      DeliverAllExact(S.ReachOutSpec(s, maxRemote, f, ipv6).0, maxRemote, ipv6, frames[1..], before + {f});
    }
  }

  /** There is room for every frame whose round fits. */
  lemma FrameFits(s: S.Probing, maxRemote: nat, f: ReachOut, ipv6: bool, before: set<ReachOut>, all: set<ReachOut>)
    requires Exact(s, before, ipv6) && before <= all && f in all
    requires |Mapped(all, s.round, ipv6)| <= maxRemote
    ensures S.ReachOutSpec(s, maxRemote, f, ipv6).1.Ok?
  {
    var local := ToLocal(f.addr, ipv6);
    if f.round == s.round && local.Some? && local.value !in s.remotes {
      assert s.remotes.Keys + {local.value} <= Mapped(all, s.round, ipv6);
      SubsetSize(s.remotes.Keys + {local.value}, Mapped(all, s.round, ipv6));
      assert |s.remotes.Keys + {local.value}| == |s.remotes| + 1;
    }
  }

  lemma SubsetSize<T>(a: set<T>, b: set<T>)
    requires a <= b
    ensures |a| <= |b|
  {
    if a != {} {
      var x :| x in a;
      SubsetSize(a - {x}, b - {x});
    }
  }

  /** Two servers that receive the same frames, in any order and with any repetitions, end in the
      same round with the same remotes. */
  lemma ReorderingIsHarmless(maxRemote: nat, ipv6: bool, one: seq<ReachOut>, other: seq<ReachOut>)
    requires AsSet(one) == AsSet(other) && Fits(AsSet(one), maxRemote, ipv6)
    ensures var s1, s2 := DeliverAll(S.IDLE, maxRemote, ipv6, one), DeliverAll(S.IDLE, maxRemote, ipv6, other);
            s1.round == s2.round && s1.remotes.Keys == s2.remotes.Keys
  {
    assert {} + AsSet(one) == AsSet(one);
    assert {} + AsSet(other) == AsSet(other);
    DeliverAllExact(S.IDLE, maxRemote, ipv6, one, {});
    DeliverAllExact(S.IDLE, maxRemote, ipv6, other, {});
    DeliveredDetermines(DeliverAll(S.IDLE, maxRemote, ipv6, one), DeliverAll(S.IDLE, maxRemote, ipv6, other), AsSet(one), ipv6);
  }

  // ------------------------------------------------------------------ safety of every run

  /** Rounds are numbered 1, 2, 3 and so on, up to the largest variable-length integer. */
  ghost predicate Numbered(w: World) {
    && w.client.round == Capped(|w.rounds|)
    && (forall k :: 0 <= k < |w.rounds| ==> w.rounds[k] == Capped(k + 1))
  }

  /** Every frame sent carries an address that was advertised under its round number, and no round
      number is ahead of the client. */
  ghost predicate Honest(w: World) {
    && (forall r :: r in w.advertised ==> r <= w.client.round)
    && (forall f :: f in w.network ==> f.round in w.advertised && f.addr in w.advertised[f.round])
    && w.delivered <= w.network
  }

  /** No round number advertises more addresses than the client may have. */
  ghost predicate Modest(w: World, lim: Limits) {
    forall r :: r in w.advertised ==> |w.advertised[r]| <= lim.clientMaxLocal
  }

  /** While no number has been used twice, rounds are modest and the server knows exactly what it heard. */
  ghost predicate Inv(w: World, lim: Limits) {
    && |w.client.local| <= lim.clientMaxLocal
    && Numbered(w)
    && Honest(w)
    && S.Probed(w.server)
    && Heard(w.server, w.delivered, lim.ipv6)
    && (|w.rounds| <= MAX_VARINT && lim.clientMaxLocal <= lim.serverMaxRemote ==>
          Modest(w, lim) && Exact(w.server, w.delivered, lim.ipv6))
  }

  /** Local forms of a set of addresses. */
  ghost function Image(addrs: set<SocketAddr>, ipv6: bool): set<SocketAddr> {
    set a | a in addrs && ToLocal(a, ipv6).Some? :: ToLocal(a, ipv6).value
  }

  lemma {:induction false} ImageSize(addrs: set<SocketAddr>, ipv6: bool)
    ensures |Image(addrs, ipv6)| <= |addrs|
  {
    hide ToLocal;
    if addrs != {} {
      var a :| a in addrs;
      ImageSize(addrs - {a}, ipv6);
      var rest := Image(addrs - {a}, ipv6);
      if ToLocal(a, ipv6).Some? {
        assert Image(addrs, ipv6) == rest + {ToLocal(a, ipv6).value};
      } else {
        assert Image(addrs, ipv6) == rest;
      }
    }
  }

  /** What was sent in one round maps into what the round advertised. */
  lemma RoundMaps(w: World, round: nat, ipv6: bool)
    requires Honest(w)
    ensures Mapped(w.network, round, ipv6) <= Image(w.Advertised(round), ipv6)
  {
  }

  lemma RoundFits(w: World, lim: Limits, round: nat)
    requires Honest(w) && Modest(w, lim)
    ensures |Mapped(w.network, round, lim.ipv6)| <= lim.clientMaxLocal
  {
    hide Mapped, Image;
    RoundMaps(w, round, lim.ipv6);
    ImageSize(w.Advertised(round), lim.ipv6);
    SubsetSize(Mapped(w.network, round, lim.ipv6), Image(w.Advertised(round), lim.ipv6));
  }

  /** A delivered frame is never refused for lack of room. */
  lemma NeverTooMany(w: World, lim: Limits, f: ReachOut)
    requires Honest(w) && Modest(w, lim) && Exact(w.server, w.delivered, lim.ipv6)
    requires lim.clientMaxLocal <= lim.serverMaxRemote && f in w.network
    ensures S.ReachOutSpec(w.server, lim.serverMaxRemote, f, lim.ipv6).1.Ok?
  {
    RoundFits(w, lim, w.server.round);
    FrameFits(w.server, lim.serverMaxRemote, f, lim.ipv6, w.delivered, w.network);
  }

  lemma LocalStaysSmall(c: C.Client, lim: Limits, op: CR.Op)
    requires c.round <= MAX_VARINT && CR.Allowed(c, op) && |c.local| <= lim.clientMaxLocal
    ensures |CR.Apply(c, lim.clientMaxRemote, lim.clientMaxLocal, op).local| <= lim.clientMaxLocal
  {
    hide ToCanonical, ToLocal, C.LocalForms, C.IdsOf;
    if op.AddLocal? || op.RemoveLocal? {
      var a := ToCanonical(op.addr);
      SubsetSize(c.local - {a}, c.local);
      assert a in c.local ==> c.local + {a} == c.local;
    }
  }

  lemma RoundMoves(c: C.Client, lim: Limits, op: CR.Op)
    requires c.round <= MAX_VARINT && CR.Allowed(c, op)
    ensures CR.Apply(c, lim.clientMaxRemote, lim.clientMaxLocal, op).round ==
            if op.Initiate? && c.local != {} then Capped(c.round + 1) else c.round
  {
    hide ToCanonical, ToLocal, C.LocalForms, C.IdsOf;
  }

  /** Starting a round hands out one frame for each local address, under the new round's number. */
  lemma FramesOfRound(c: C.Client, ipv6: bool)
    requires c.round <= MAX_VARINT && c.local != {}
    ensures forall f :: f in Sent(c, ipv6) <==> f.round == Capped(c.round + 1) && f.addr in c.local
  {
    hide C.LocalForms, C.RestartAll;
  }

  lemma ClientStepHonest(w: World, lim: Limits, c: CR.Op)
    requires Numbered(w) && Honest(w) && Allowed(w, ClientOp(c))
    ensures Numbered(Step(w, lim, ClientOp(c))) && Honest(Step(w, lim, ClientOp(c)))
  {
    RoundMoves(w.client, lim, c);
    hide CR.Apply, CR.Allowed;
    var w' := Step(w, lim, ClientOp(c));
    if c.Initiate? && w.client.local != {} {
      assert w'.rounds == w.rounds + [w'.client.round];
      FramesOfRound(w.client, c.ipv6);
    }
  }

  /** A number not used before advertises only what the client has now. */
  lemma ClientStepModest(w: World, lim: Limits, c: CR.Op)
    requires Numbered(w) && Honest(w) && Modest(w, lim) && |w.client.local| <= lim.clientMaxLocal
    requires Allowed(w, ClientOp(c)) && |Step(w, lim, ClientOp(c)).rounds| <= MAX_VARINT
    ensures Modest(Step(w, lim, ClientOp(c)), lim)
  {
    RoundMoves(w.client, lim, c);
    hide CR.Apply, CR.Allowed;
    var w' := Step(w, lim, ClientOp(c));
    if c.Initiate? && w.client.local != {} {
      assert w'.client.round !in w.advertised;
      assert {} + w.client.local == w.client.local;
    }
  }

  lemma ClientStepKeepsInv(w: World, lim: Limits, c: CR.Op)
    requires Inv(w, lim) && Allowed(w, ClientOp(c))
    ensures Inv(Step(w, lim, ClientOp(c)), lim)
  {
    LocalStaysSmall(w.client, lim, c);
    ClientStepHonest(w, lim, c);
    hide CR.Apply, CR.Allowed, Heard, Exact, Honest, Numbered, Modest;
    var w' := Step(w, lim, ClientOp(c));
    if |w'.rounds| <= MAX_VARINT && lim.clientMaxLocal <= lim.serverMaxRemote {
      ClientStepModest(w, lim, c);
    }
  }

  lemma ServerStepKeepsInv(w: World, lim: Limits, s: S.Op)
    requires Inv(w, lim) && Allowed(w, ServerOp(s))
    ensures Inv(Step(w, lim, ServerOp(s)), lim)
  {
    hide S.ReachOutSpec, S.RetrySpec, S.SentSpec, S.ResponseSpec, Mapped;
    ServerProbed(w.server, lim, s);
    if s.Receive? {
      ReceiveHeard(w.server, lim.serverMaxRemote, s.f, lim.ipv6, w.delivered);
      if |w.rounds| <= MAX_VARINT && lim.clientMaxLocal <= lim.serverMaxRemote {
        NeverTooMany(w, lim, s.f);
        ReceiveExact(w.server, lim.serverMaxRemote, s.f, lim.ipv6, w.delivered);
      }
    } else {
      OwnSteps(w.server, lim.serverMaxRemote, lim.ipv6, s);
    }
  }

  lemma ServerProbed(s: S.Probing, lim: Limits, op: S.Op)
    requires S.Probed(s) && S.Allowed(s, op)
    ensures S.Probed(S.Apply(s, lim.serverMaxRemote, lim.ipv6, op))
  {
  }

  lemma {:induction false} RunKeepsInv(w: World, lim: Limits, ops: seq<Op>)
    requires Inv(w, lim)
    ensures Inv(RunOps(w, lim, ops), lim)
    decreases |ops|
  {
    hide Inv;
    if ops != [] {
      if Allowed(w, ops[0]) {
        match ops[0] {
          case ClientOp(c) => ClientStepKeepsInv(w, lim, c);
          case ServerOp(s) => ServerStepKeepsInv(w, lim, s);
        }
      }
      RunKeepsInv(Step(w, lim, ops[0]), lim, ops[1..]);
    }
  }

  /** With REACH_OUT frames lost, duplicated and reordered at will, and however many rounds are
      started: the server's round never passes the client's, and every server remote is the local form
      of an address the client advertised under exactly the server's current round number.  For the
      first 2^62 - 1 rounds the server moreover knows exactly what it heard of the newest round it
      heard of, and no REACH_OUT frame is ever refused. */
  lemma ReachOutIsSafe(lim: Limits, ops: seq<Op>)
    ensures var w := RunOps(START, lim, ops);
            && w.server.round <= w.client.round
            && (w.server.round > 0 ==> w.server.round in w.advertised)
            && w.server.remotes.Keys <= Image(w.Advertised(w.server.round), lim.ipv6)
            && (|w.rounds| <= MAX_VARINT && lim.clientMaxLocal <= lim.serverMaxRemote ==>
                  && Exact(w.server, w.delivered, lim.ipv6)
                  && forall f :: f in w.network ==> S.ReachOutSpec(w.server, lim.serverMaxRemote, f, lim.ipv6).1.Ok?)
  {
    hide Image, S.ReachOutSpec;
    StartInv(lim);
    RunKeepsInv(START, lim, ops);
    var w := RunOps(START, lim, ops);
    RoundMaps(w, w.server.round, lim.ipv6);
    MappedMonotone(w.delivered, w.network, w.server.round, lim.ipv6);
    if |w.rounds| <= MAX_VARINT && lim.clientMaxLocal <= lim.serverMaxRemote {
      forall f | f in w.network
        ensures S.ReachOutSpec(w.server, lim.serverMaxRemote, f, lim.ipv6).1.Ok?
      {
        NeverTooMany(w, lim, f);
      }
    }
    if w.server.round > 0 {
      var r :| r in w.server.remotes.Keys;
      assert r in Mapped(w.network, w.server.round, lim.ipv6);
    }
  }

  lemma StartInv(lim: Limits)
    ensures Inv(START, lim)
  {
  }

  lemma MappedMonotone(a: set<ReachOut>, b: set<ReachOut>, round: nat, ipv6: bool)
    requires a <= b
    ensures Mapped(a, round, ipv6) <= Mapped(b, round, ipv6)
  {
  }

  // ------------------------------------------------------------------ a new round arrives

  /** One frame per address. */
  lemma {:induction false} FrameCount(frames: set<ReachOut>, addrs: set<SocketAddr>, round: nat)
    requires forall f :: f in frames <==> f.round == round && f.addr in addrs
    ensures |frames| == |addrs|
    decreases addrs
  {
    if addrs == {} {
      assert frames == {};
    } else {
      var a :| a in addrs;
      FrameCount(frames - {ReachOut(round, a)}, addrs - {a}, round);
    }
  }

  /** After any run, starting a round fails, and changes nothing, if and only if the client has no local
      address.  Otherwise it hands out exactly one frame for each local address, under the number of
      the client's round after the call, and names exactly the addresses it will probe: the local
      forms of the advertised ones. */
  lemma NewRoundIsAnnounced(lim: Limits, ops: seq<Op>, ipv6: bool)
    ensures var w := RunOps(START, lim, ops);
            && w.client.round <= MAX_VARINT
            && var (c, r) := C.InitiateSpec(w.client, ipv6);
            && (r.Err? <==> w.client.local == {})
            && (r.Err? ==> c == w.client && r.error == NotEnoughAddresses)
            && (r.Ok? ==>
                  && c.round == (if w.client.round < MAX_VARINT then w.client.round + 1 else MAX_VARINT)
                  && (forall f :: f in r.value.0 <==> f.round == c.round && f.addr in w.client.local)
                  && |r.value.0| == |w.client.local|
                  && r.value.1 == c.pending
                  && c.challenges == map[] && c.local == w.client.local
                  && (forall p :: p in r.value.1 <==>
                        exists i :: i in w.client.remote && ToLocal(w.client.remote[i].addr, ipv6) == Some(p)))
  {
    StartInv(lim);
    RunKeepsInv(START, lim, ops);
    var w := RunOps(START, lim, ops);
    var (c, r) := C.InitiateSpec(w.client, ipv6);
    if w.client.local != {} {
      hide RunOps, ToLocal, C.RestartAll, Inv;
      FramesOfRound(w.client, ipv6);
      FrameCount(r.value.0, w.client.local, c.round);
      forall p | exists i :: i in w.client.remote && ToLocal(w.client.remote[i].addr, ipv6) == Some(p)
        ensures p in r.value.1
      {
        var i :| i in w.client.remote && ToLocal(w.client.remote[i].addr, ipv6) == Some(p);
        assert i in w.client.remote.Keys;
      }
    }
  }

  /** After any run, a server that is in an older round and receives one of the new round's frames,
      for an address its socket can reach, is then in the client's round, and knows and queues exactly
      that address. */
  lemma NewRoundIsAdopted(lim: Limits, ops: seq<Op>, ipv6: bool, f: ReachOut)
    ensures var w := RunOps(START, lim, ops);
            && w.client.round <= MAX_VARINT
            && var c := C.InitiateSpec(w.client, ipv6).0;
            && var s := S.ReachOutSpec(w.server, lim.serverMaxRemote, f, lim.ipv6);
            f in Sent(w.client, ipv6) && w.server.round < c.round && ToLocal(f.addr, lim.ipv6).Some? ==>
              && s.1.Ok? && s.0.round == c.round
              && s.0.remotes.Keys == s.0.pending == {ToLocal(f.addr, lim.ipv6).value}
              && s.0.challenges == map[]
  {
    NewRoundIsAnnounced(lim, ops, ipv6);
    hide RunOps, ToLocal, C.InitiateSpec;
    var w := RunOps(START, lim, ops);
    ReceiveKeys(w.server, lim.serverMaxRemote, f, lim.ipv6);
  }

  // ------------------------------------------------------------------ saturation

  /** In every run the rounds are numbered from 1 on, the number staying at its largest value once it
      gets there; so they all have different numbers exactly while there are fewer than 2^62 of them. */
  lemma RoundsDistinctIff(lim: Limits, ops: seq<Op>)
    ensures var rounds := RunOps(START, lim, ops).rounds;
            && (forall k :: 0 <= k < |rounds| ==> rounds[k] == if k < MAX_VARINT then k + 1 else MAX_VARINT)
            && ((forall i, j :: 0 <= i < j < |rounds| ==> rounds[i] != rounds[j]) <==> |rounds| <= MAX_VARINT)
  {
    StartInv(lim);
    RunKeepsInv(START, lim, ops);
    var rounds := RunOps(START, lim, ops).rounds;
    if |rounds| > MAX_VARINT {
      assert rounds[MAX_VARINT - 1] == rounds[MAX_VARINT];
    }
  }

  /** `n` rounds, nothing else happening. */
  function Rounds(ipv6: bool, n: nat): seq<Op> {
    if n == 0 then [] else [ClientOp(CR.Initiate(ipv6))] + Rounds(ipv6, n - 1)
  }

  lemma {:induction false} RunsCompose(w: World, lim: Limits, xs: seq<Op>, ys: seq<Op>)
    ensures RunOps(w, lim, xs + ys) == RunOps(RunOps(w, lim, xs), lim, ys)
    decreases |xs|
  {
    if xs == [] {
      assert xs + ys == ys;
    } else {
      assert (xs + ys)[1..] == xs[1..] + ys;
      RunsCompose(Step(w, lim, xs[0]), lim, xs[1..], ys);
    }
  }

  /** The server has heard nothing and the client, with the one address `a`, has started `n` rounds. */
  ghost predicate Waiting(w: World, a: SocketAddr, n: nat) {
    && w.client.local == {a} && w.client.round == Capped(n) && |w.rounds| == n
    && (n > 0 ==> ReachOut(w.client.round, a) in w.network)
    && w.server == S.IDLE
  }

  lemma OneRound(w: World, lim: Limits, ipv6: bool, a: SocketAddr, n: nat)
    requires Waiting(w, a, n)
    ensures Waiting(Step(w, lim, ClientOp(CR.Initiate(ipv6))), a, n + 1)
  {
    RoundMoves(w.client, lim, CR.Initiate(ipv6));
  }

  lemma {:induction false} RoundsWait(w: World, lim: Limits, ipv6: bool, a: SocketAddr, n: nat, k: nat)
    requires Waiting(w, a, n)
    ensures Waiting(RunOps(w, lim, Rounds(ipv6, k)), a, n + k)
    decreases k
  {
    hide Waiting, Step;
    if k > 0 {
      OneRound(w, lim, ipv6, a, n);
      RoundsWait(Step(w, lim, ClientOp(CR.Initiate(ipv6))), lim, ipv6, a, n + 1, k - 1);
      var ops := Rounds(ipv6, k);
      assert ops[0] == ClientOp(CR.Initiate(ipv6)) && ops[1..] == Rounds(ipv6, k - 1);
    }
  }

  /** The client changes its only address and starts another round, between the deliveries of the two
      rounds' frames. */
  function SwapAddress(a: SocketAddr, b: SocketAddr, ipv6: bool): seq<Op> {
    [ServerOp(S.Receive(ReachOut(MAX_VARINT, a))), ClientOp(CR.RemoveLocal(a)), ClientOp(CR.AddLocal(b)), ClientOp(CR.Initiate(ipv6))]
  }

  /** In round 2^62 the number repeats and the exchange does fail: a server with room for as many
      addresses as the client may have refuses the frame of that round. */
  lemma SaturatedRoundsCollide(ipv6: bool)
    ensures var a, b := SocketAddr(V4(1), 1), SocketAddr(V4(2), 1);
            var ops := [ClientOp(CR.AddLocal(a))] + (Rounds(ipv6, MAX_VARINT) + SwapAddress(a, b, ipv6));
            var w := RunOps(START, Limits(1, 0, 1, ipv6), ops);
            && |w.rounds| == MAX_VARINT + 1
            && ReachOut(MAX_VARINT, b) in w.network
            && S.ReachOutSpec(w.server, 1, ReachOut(MAX_VARINT, b), ipv6).1 == Err(TooManyAddresses)
  {
    hide RunOps, Rounds, SwapAddress;
    var a, b := SocketAddr(V4(1), 1), SocketAddr(V4(2), 1);
    var lim := Limits(1, 0, 1, ipv6);
    var swap := SwapAddress(a, b, ipv6);
    var ops := [ClientOp(CR.AddLocal(a))] + (Rounds(ipv6, MAX_VARINT) + swap);
    var w0 := Step(START, lim, ClientOp(CR.AddLocal(a)));
    FirstAddress(lim, a);
    RunsStep(START, lim, ClientOp(CR.AddLocal(a)), Rounds(ipv6, MAX_VARINT) + swap);
    RunsCompose(w0, lim, Rounds(ipv6, MAX_VARINT), swap);
    RoundsWait(w0, lim, ipv6, a, 0, MAX_VARINT);
    SwapIsRefused(RunOps(w0, lim, Rounds(ipv6, MAX_VARINT)), a, b, ipv6);
  }

  lemma RunsStep(w: World, lim: Limits, op: Op, rest: seq<Op>)
    ensures RunOps(w, lim, [op] + rest) == RunOps(Step(w, lim, op), lim, rest)
  {
    assert ([op] + rest)[1..] == rest;
  }

  lemma FirstAddress(lim: Limits, a: SocketAddr)
    requires IsCanonical(a) && lim.clientMaxLocal >= 1
    ensures Waiting(Step(START, lim, ClientOp(CR.AddLocal(a))), a, 0)
  {
    assert ToCanonical(a) == a;
    assert {} + {a} == {a};
  }

  lemma SwapIsRefused(w: World, a: SocketAddr, b: SocketAddr, ipv6: bool)
    requires Waiting(w, a, MAX_VARINT) && a == SocketAddr(V4(1), 1) && b == SocketAddr(V4(2), 1)
    ensures var w' := RunOps(w, Limits(1, 0, 1, ipv6), SwapAddress(a, b, ipv6));
            && |w'.rounds| == MAX_VARINT + 1
            && ReachOut(MAX_VARINT, b) in w'.network
            && S.ReachOutSpec(w'.server, 1, ReachOut(MAX_VARINT, b), ipv6).1 == Err(TooManyAddresses)
  {
    hide RunOps, C.LocalForms, C.RestartAll;
    var lim := Limits(1, 0, 1, ipv6);
    var x, y := ServerOp(S.Receive(ReachOut(MAX_VARINT, a))), ClientOp(CR.RemoveLocal(a));
    var z, i := ClientOp(CR.AddLocal(b)), ClientOp(CR.Initiate(ipv6));
    var w1 := Step(w, lim, x);
    var w2 := Step(w1, lim, y);
    var w3 := Step(w2, lim, z);
    var w4 := Step(w3, lim, i);
    assert RunOps(w, lim, SwapAddress(a, b, ipv6)) == w4 by {
      assert SwapAddress(a, b, ipv6) == [x] + ([y] + ([z] + ([i] + [])));
      RunsStep(w, lim, x, [y] + ([z] + ([i] + [])));
      RunsStep(w1, lim, y, [z] + ([i] + []));
      RunsStep(w2, lim, z, [i] + []);
      RunsStep(w3, lim, i, []);
      NoOps(w4, lim);
    }
    FirstFrame(w.server, a, ipv6);
    assert w3.client.local == {b} && w3.client.round == MAX_VARINT;
    RoundMoves(w3.client, lim, CR.Initiate(ipv6));
    SecondFrame(w4.server, a, b, ipv6);
  }

  lemma NoOps(w: World, lim: Limits)
    ensures RunOps(w, lim, []) == w
  {
  }

  lemma FirstFrame(s: S.Probing, a: SocketAddr, ipv6: bool)
    requires s == S.IDLE && a.ip.V4?
    ensures var s' := S.ReachOutSpec(s, 1, ReachOut(MAX_VARINT, a), ipv6).0;
            s'.round == MAX_VARINT && s'.remotes.Keys == {ToLocal(a, ipv6).value}
  {
  }

  lemma SecondFrame(s: S.Probing, a: SocketAddr, b: SocketAddr, ipv6: bool)
    requires a.ip.V4? && b.ip.V4? && a != b && s.round == MAX_VARINT && s.remotes.Keys == {ToLocal(a, ipv6).value}
    ensures S.ReachOutSpec(s, 1, ReachOut(MAX_VARINT, b), ipv6).1 == Err(TooManyAddresses)
  {
    assert |s.remotes| == |s.remotes.Keys| == 1;
    CanonicalUndoesLocal(a, ipv6);
    CanonicalUndoesLocal(b, ipv6);
  }
}
