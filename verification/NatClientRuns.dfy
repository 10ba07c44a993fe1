/** Whole runs of the NAT traversal client: which responses open a path, and how long it probes. */
module NatClientRuns {
  import opened Wrappers
  import opened Net
  import opened NatCommon
  import opened NatLog
  import opened NatClients

  datatype Op =
    | AddLocal(addr: SocketAddr)
    | RemoveLocal(addr: SocketAddr)
    | AddRemote(id: nat, addr: SocketAddr)
    | RemoveRemote(id: nat)
    | Initiate(ipv6: bool)
    | Retry(ipv6: bool)
    | Send(remote: SocketAddr, challenge: u64)
    | Respond(path: FourTuple, challenge: u64, id: nat)

  /** Probes go only to queued addresses; a response finds some advertisement if there is one. */
  ghost predicate Allowed(c: Client, op: Op) {
    match op
    case Send(remote, _) => remote in c.pending
    case Respond(path, _, id) =>
      var ids := IdsOf(c, ToCanonical(path.remote));
      ids == {} || id in ids
    case _ => true
  }

  ghost function Apply(c: Client, maxRemote: nat, maxLocal: nat, op: Op): Client
    requires c.round <= MAX_VARINT
  {
    match op
    case AddLocal(addr) => AddLocalSpec(c, maxLocal, addr).0
    case RemoveLocal(addr) => RemoveLocalSpec(c, addr)
    case AddRemote(id, addr) => AddRemoteSpec(c, maxRemote, id, addr).0
    case RemoveRemote(id) => RemoveRemoteSpec(c, id).0
    case Initiate(ipv6) => InitiateSpec(c, ipv6).0
    case Retry(ipv6) => RetrySpec(c, ipv6).0
    case Send(remote, challenge) => SentSpec(c, remote, challenge)
    case Respond(path, challenge, id) => ResponseSpec(c, path, challenge, id).0
  }

  ghost predicate Matches(c: Client, remote: SocketAddr, challenge: u64) {
    challenge in c.challenges && c.challenges[challenge] == remote
  }

  ghost function Events(c: Client, op: Op): seq<Event> {
    match op
    case Initiate(ipv6) => if c.local == {} then [] else [RoundStarted, ProbesQueued(LocalForms(c.remote, c.remote.Keys, ipv6))]
    case Retry(ipv6) => [ProbesQueued(LocalForms(c.remote, DueIds(c.remote), ipv6))]
    case Send(remote, challenge) => [ProbeSent(remote, challenge)]
    case Respond(path, challenge, id) =>
      if Matches(c, path.remote, challenge)
      then [ProbeAnswered(path.remote, challenge, ResponseSpec(c, path, challenge, id).1)]
      else []
    case _ => []
  }

  datatype Run = Run(c: Client, log: seq<Event>)

  const START: Run := Run(FRESH, [])

  ghost function Step(run: Run, maxRemote: nat, maxLocal: nat, op: Op): Run {
    if run.c.round > MAX_VARINT || !Allowed(run.c, op) then run
    else Run(Apply(run.c, maxRemote, maxLocal, op), run.log + Events(run.c, op))
  }

  ghost function RunOps(run: Run, maxRemote: nat, maxLocal: nat, ops: seq<Op>): Run
    decreases |ops|
  {
    if ops == [] then run else RunOps(Step(run, maxRemote, maxLocal, ops[0]), maxRemote, maxLocal, ops[1..])
  }

  // ------------------------------------------------------------------ the log as reference

  /** Some canonical address has `remote` as its local form. */
  ghost predicate IsLocalForm(remote: SocketAddr) {
    exists a, ipv6 :: IsCanonical(a) && ToLocal(a, ipv6) == Some(remote)
  }

  ghost predicate Tracked(run: Run) {
    && (forall x :: Live(run.log, x) == if x in run.c.challenges then Some(run.c.challenges[x]) else None)
    && (forall r :: r in run.c.pending <==> Waiting(run.log, r))
    && (forall i :: i in run.c.remote ==> IsCanonical(run.c.remote[i].addr))
    && (forall r :: r in run.c.pending ==> IsLocalForm(r))
    && (forall x :: x in run.c.challenges ==> IsLocalForm(run.c.challenges[x]))
    && run.c.round <= MAX_VARINT
  }

  lemma StepTracksLog(run: Run, maxRemote: nat, maxLocal: nat, op: Op, x: u64)
    requires Tracked(run)
    ensures var run' := Step(run, maxRemote, maxLocal, op);
            Live(run'.log, x) == if x in run'.c.challenges then Some(run'.c.challenges[x]) else None
  {
    hide ToLocal, ToCanonical, LocalForms, IsLocalForm, Live, Waiting;
    if Allowed(run.c, op) {
      var events := Events(run.c, op);
      if events == [] {
        assert run.log + [] == run.log;
      } else {
        LiveAppend(run.log, events[0], x);
        assert |events| == 2 ==> run.log + events == (run.log + [events[0]]) + [events[1]];
        LiveAppend(run.log + [events[0]], events[|events| - 1], x);
      }
    }
  }

  lemma StepTracksQueue(run: Run, maxRemote: nat, maxLocal: nat, op: Op, r: SocketAddr)
    requires Tracked(run)
    ensures var run' := Step(run, maxRemote, maxLocal, op);
            r in run'.c.pending <==> Waiting(run'.log, r)
  {
    hide ToLocal, ToCanonical, LocalForms, IsLocalForm, Live, Waiting;
    if Allowed(run.c, op) {
      var events := Events(run.c, op);
      if events == [] {
        assert run.log + [] == run.log;
      } else {
        WaitingAppend(run.log, events[0], r);
        assert |events| == 2 ==> run.log + events == (run.log + [events[0]]) + [events[1]];
        WaitingAppend(run.log + [events[0]], events[|events| - 1], r);
      }
    }
  }

  lemma LocalFormsAreLocal(remote: map<nat, Candidate>, ids: set<nat>, ipv6: bool)
    requires forall i :: i in remote ==> IsCanonical(remote[i].addr)
    ensures forall r :: r in LocalForms(remote, ids, ipv6) ==> IsLocalForm(r)
  {
  }

  lemma StepTracks(run: Run, maxRemote: nat, maxLocal: nat, op: Op)
    requires Tracked(run)
    ensures Tracked(Step(run, maxRemote, maxLocal, op))
  {
    forall x
      ensures var run' := Step(run, maxRemote, maxLocal, op);
              Live(run'.log, x) == if x in run'.c.challenges then Some(run'.c.challenges[x]) else None
    {
      StepTracksLog(run, maxRemote, maxLocal, op, x);
    }
    forall r ensures var run' := Step(run, maxRemote, maxLocal, op); r in run'.c.pending <==> Waiting(run'.log, r) {
      StepTracksQueue(run, maxRemote, maxLocal, op, r);
    }
    StepTracksForms(run, maxRemote, maxLocal, op);
  }

  lemma StepTracksForms(run: Run, maxRemote: nat, maxLocal: nat, op: Op)
    requires Tracked(run)
    ensures var c' := Step(run, maxRemote, maxLocal, op).c;
            && (forall i :: i in c'.remote ==> IsCanonical(c'.remote[i].addr))
            && (forall r :: r in c'.pending ==> IsLocalForm(r))
            && (forall x :: x in c'.challenges ==> IsLocalForm(c'.challenges[x]))
            && c'.round <= MAX_VARINT
  {
    hide ToLocal, ToCanonical, LocalForms, IsLocalForm;
    match op {
      case AddRemote(_, addr) => CanonicalUndoesLocal(addr, true);
      case Respond(path, _, _) => CanonicalUndoesLocal(path.remote, true);
      case Initiate(ipv6) => LocalFormsAreLocal(run.c.remote, run.c.remote.Keys, ipv6);
      case Retry(ipv6) => LocalFormsAreLocal(run.c.remote, DueIds(run.c.remote), ipv6);
      case _ =>
    }
  }

  lemma {:induction false} RunTracks(run: Run, maxRemote: nat, maxLocal: nat, ops: seq<Op>)
    requires Tracked(run)
    ensures Tracked(RunOps(run, maxRemote, maxLocal, ops))
    decreases |ops|
  {
    if ops != [] {
      StepTracks(run, maxRemote, maxLocal, ops[0]);
      RunTracks(Step(run, maxRemote, maxLocal, ops[0]), maxRemote, maxLocal, ops[1..]);
    }
  }

  /** After any run, a response offers a path exactly when its challenge is live for that very remote
      (sent to it in the current round and not answered since) and the address behind the remote is
      still advertised; that address is the one whose probe was sent, because canonicalising undoes
      the mapping to the socket's family.  Answering uses the challenge up. */
  lemma PathsOpenOnlyOnLiveChallenges(
    maxRemote: nat, maxLocal: nat, ops: seq<Op>, path: FourTuple, challenge: u64, id: nat)
    ensures var run := RunOps(START, maxRemote, maxLocal, ops);
            var (c', offered) := ResponseSpec(run.c, path, challenge, id);
            && (offered <==> Live(run.log, challenge) == Some(path.remote) && IdsOf(run.c, ToCanonical(path.remote)) != {})
            && (offered ==> c'.toOpen == run.c.toOpen + [path])
            && (!offered ==> c'.toOpen == run.c.toOpen)
            && (Live(run.log, challenge) == Some(path.remote) ==> challenge !in c'.challenges)
            && (Live(run.log, challenge) != Some(path.remote) ==> c' == run.c)
            && (offered && Allowed(run.c, Respond(path, challenge, id)) ==>
                  id in run.c.remote && c'.remote == run.c.remote[id := run.c.remote[id].(probe := Succeeded)])
            && (!offered ==> c'.remote == run.c.remote)
    ensures var run := RunOps(START, maxRemote, maxLocal, ops);
            forall a, ipv6 :: IsCanonical(a) && ToLocal(a, ipv6) == Some(path.remote) ==>
                                (ResponseSpec(run.c, path, challenge, id).1 <==>
                                 Live(run.log, challenge) == Some(path.remote) && IdsOf(run.c, a) != {})
  {
    RunTracks(START, maxRemote, maxLocal, ops);
    forall a, ipv6 | IsCanonical(a) && ToLocal(a, ipv6) == Some(path.remote)
      ensures ToCanonical(path.remote) == a
    {
      CanonicalUndoesLocal(a, ipv6);
    }
  }

  /** After any run, exactly the remotes that were queued in this round and not probed since are waiting
      for a probe. */
  lemma QueueIsWhatWaits(maxRemote: nat, maxLocal: nat, ops: seq<Op>, r: SocketAddr)
    ensures var run := RunOps(START, maxRemote, maxLocal, ops);
            r in run.c.pending <==> Waiting(run.log, r)
  {
    RunTracks(START, maxRemote, maxLocal, ops);
  }

  /** Every live challenge was sent to the local form of some canonical address. */
  lemma LiveChallengesAreLocalForms(maxRemote: nat, maxLocal: nat, ops: seq<Op>, challenge: u64)
    ensures var run := RunOps(START, maxRemote, maxLocal, ops);
            Live(run.log, challenge).Some? ==> IsLocalForm(Live(run.log, challenge).value)
  {
    RunTracks(START, maxRemote, maxLocal, ops);
  }

  // ------------------------------------------------------------------ offers are counted

  ghost function Sends(log: seq<Event>, x: u64): nat {
    if log == [] then 0
    else Sends(log[..|log| - 1], x) + var e := log[|log| - 1]; if e.ProbeSent? && e.challenge == x then 1 else 0
  }

  ghost function Offers(log: seq<Event>, x: u64): nat {
    if log == [] then 0
    else Offers(log[..|log| - 1], x) + var e := log[|log| - 1]; if e.ProbeAnswered? && e.challenge == x && e.offered then 1 else 0
  }

  lemma CountsAppend(log: seq<Event>, e: Event, x: u64)
    ensures Sends(log + [e], x) == Sends(log, x) + if e.ProbeSent? && e.challenge == x then 1 else 0
    ensures Offers(log + [e], x) == Offers(log, x) + if e.ProbeAnswered? && e.challenge == x && e.offered then 1 else 0
  {
    assert (log + [e])[..|log|] == log;
  }

  /** An unanswered challenge holds back one of its sendings. */
  ghost predicate Backed(run: Run, x: u64) {
    Offers(run.log, x) + (if x in run.c.challenges then 1 else 0) <= Sends(run.log, x)
  }

  lemma StepBacks(run: Run, maxRemote: nat, maxLocal: nat, op: Op, x: u64)
    requires Backed(run, x)
    ensures Backed(Step(run, maxRemote, maxLocal, op), x)
  {
    hide Sends, Offers, ToLocal, ToCanonical, IdsOf, LocalForms;
    if run.c.round <= MAX_VARINT && Allowed(run.c, op) {
      var events := Events(run.c, op);
      if events == [] {
        assert run.log + [] == run.log;
      } else {
        CountsAppend(run.log, events[0], x);
        assert |events| == 2 ==> run.log + events == (run.log + [events[0]]) + [events[1]];
        CountsAppend(run.log + [events[0]], events[|events| - 1], x);
      }
    }
  }

  lemma {:induction false} RunBacks(run: Run, maxRemote: nat, maxLocal: nat, ops: seq<Op>, x: u64)
    requires Backed(run, x)
    ensures Backed(RunOps(run, maxRemote, maxLocal, ops), x)
    decreases |ops|
  {
    hide Backed, Step;
    if ops != [] {
      StepBacks(run, maxRemote, maxLocal, ops[0], x);
      RunBacks(Step(run, maxRemote, maxLocal, ops[0]), maxRemote, maxLocal, ops[1..], x);
    }
  }

  /** In every run, a challenge offers a path at most once per sending of it, however often and from
      wherever it is answered. */
  lemma OffersNeverExceedSends(maxRemote: nat, maxLocal: nat, ops: seq<Op>, x: u64)
    ensures var log := RunOps(START, maxRemote, maxLocal, ops).log;
            Offers(log, x) <= Sends(log, x)
  {
    RunBacks(START, maxRemote, maxLocal, ops, x);
  }

  // ------------------------------------------------------------------ local addresses

  lemma {:induction false} RunEndsIn(run: Run, maxRemote: nat, maxLocal: nat, ops: seq<Op>)
    requires ops != []
    ensures var n := |ops| - 1;
            RunOps(run, maxRemote, maxLocal, ops) == Step(RunOps(run, maxRemote, maxLocal, ops[..n]), maxRemote, maxLocal, ops[n])
    decreases |ops|
  {
    hide Step;
    var n := |ops| - 1;
    if n == 0 {
      assert ops[1..] == [] && ops[..0] == [];
    } else {
      RunEndsIn(Step(run, maxRemote, maxLocal, ops[0]), maxRemote, maxLocal, ops[1..]);
      assert ops[1..][..n - 1] == ops[..n][1..];
    }
  }

  /** Operation `j` of the run adds the local address `a`. */
  ghost predicate Adds(maxRemote: nat, maxLocal: nat, ops: seq<Op>, j: nat, a: SocketAddr)
    requires j < |ops|
  {
    && ops[j].AddLocal? && ToCanonical(ops[j].addr) == a
    && AddLocalSpec(RunOps(START, maxRemote, maxLocal, ops[..j]).c, maxLocal, ops[j].addr).1.Ok?
  }

  ghost predicate Drops(op: Op, a: SocketAddr) {
    op.RemoveLocal? && ToCanonical(op.addr) == a
  }

  /** `a` was added, and not removed since. */
  ghost predicate Added(maxRemote: nat, maxLocal: nat, ops: seq<Op>, a: SocketAddr) {
    exists j :: 0 <= j < |ops| && Adds(maxRemote, maxLocal, ops, j, a) && forall k :: j < k < |ops| ==> !Drops(ops[k], a)
  }

  lemma AddedEndsIn(maxRemote: nat, maxLocal: nat, ops: seq<Op>, a: SocketAddr)
    requires ops != []
    ensures var n := |ops| - 1;
            Added(maxRemote, maxLocal, ops, a) <==>
            Adds(maxRemote, maxLocal, ops, n, a) || (!Drops(ops[n], a) && Added(maxRemote, maxLocal, ops[..n], a))
  {
    hide RunOps;
    var n := |ops| - 1;
    var init := ops[..n];
    forall j | 0 <= j < n ensures Adds(maxRemote, maxLocal, ops, j, a) <==> Adds(maxRemote, maxLocal, init, j, a) {
      assert init[..j] == ops[..j];
    }
    if j :| 0 <= j < n && Adds(maxRemote, maxLocal, init, j, a) && forall k :: j < k < n ==> !Drops(init[k], a) {
      assert Adds(maxRemote, maxLocal, ops, j, a);
    }
    if j :| 0 <= j < |ops| && Adds(maxRemote, maxLocal, ops, j, a) && forall k :: j < k < |ops| ==> !Drops(ops[k], a) {
      assert j < n ==> Adds(maxRemote, maxLocal, init, j, a) && forall k :: j < k < n ==> !Drops(init[k], a);
    }
  }

  lemma StepLocal(run: Run, maxRemote: nat, maxLocal: nat, op: Op, a: SocketAddr)
    requires run.c.round <= MAX_VARINT
    ensures var c' := Step(run, maxRemote, maxLocal, op).c;
            && (a in c'.local <==>
                  || (op.AddLocal? && ToCanonical(op.addr) == a && AddLocalSpec(run.c, maxLocal, op.addr).1.Ok?)
                  || (!Drops(op, a) && a in run.c.local))
            && c'.round <= MAX_VARINT
  {
    hide ToLocal, ToCanonical, LocalForms, IdsOf, DueIds, RetryAll, RestartAll;
  }

  /** After any run the local addresses are exactly those added and not removed since, in canonical
      form. */
  lemma {:induction false} LocalAddressesAreThoseAdded(maxRemote: nat, maxLocal: nat, ops: seq<Op>, a: SocketAddr)
    ensures RunOps(START, maxRemote, maxLocal, ops).c.round <= MAX_VARINT
    ensures a in RunOps(START, maxRemote, maxLocal, ops).c.local <==> Added(maxRemote, maxLocal, ops, a)
    decreases |ops|
  {
    hide Added, Step;
    if ops == [] {
      assert !Added(maxRemote, maxLocal, [], a) by {
        NothingAdded(maxRemote, maxLocal, a);
      }
    } else {
      var n := |ops| - 1;
      LocalAddressesAreThoseAdded(maxRemote, maxLocal, ops[..n], a);
      RunEndsIn(START, maxRemote, maxLocal, ops);
      StepLocal(RunOps(START, maxRemote, maxLocal, ops[..n]), maxRemote, maxLocal, ops[n], a);
      AddedEndsIn(maxRemote, maxLocal, ops, a);
    }
  }

  lemma NothingAdded(maxRemote: nat, maxLocal: nat, a: SocketAddr)
    ensures !Added(maxRemote, maxLocal, [], a)
  {
  }

  /** There is always room for a known address, and for another one below the limit. */
  lemma LocalAddressesAreLimited(maxRemote: nat, maxLocal: nat, ops: seq<Op>, addr: SocketAddr)
    ensures var c := RunOps(START, maxRemote, maxLocal, ops).c;
            && |c.local| <= maxLocal
            && (AddLocalSpec(c, maxLocal, addr).1.Err? <==> ToCanonical(addr) !in c.local && |c.local| == maxLocal)
            && (AddLocalSpec(c, maxLocal, addr).1.Err? ==> AddLocalSpec(c, maxLocal, addr) == (c, Err(TooManyAddresses)))
    decreases |ops|
  {
    RunLimited(START, maxRemote, maxLocal, ops);
  }

  lemma {:induction false} RunLimited(run: Run, maxRemote: nat, maxLocal: nat, ops: seq<Op>)
    requires |run.c.local| <= maxLocal
    ensures |RunOps(run, maxRemote, maxLocal, ops).c.local| <= maxLocal
    decreases |ops|
  {
    hide Step;
    if ops != [] {
      StepLimited(run, maxRemote, maxLocal, ops[0]);
      RunLimited(Step(run, maxRemote, maxLocal, ops[0]), maxRemote, maxLocal, ops[1..]);
    }
  }

  lemma StepLimited(run: Run, maxRemote: nat, maxLocal: nat, op: Op)
    requires |run.c.local| <= maxLocal
    ensures |Step(run, maxRemote, maxLocal, op).c.local| <= maxLocal
  {
    hide ToLocal, ToCanonical, LocalForms, IdsOf, DueIds, RetryAll, RestartAll;
    if op.AddLocal? || op.RemoveLocal? {
      var a := ToCanonical(op.addr);
      assert a in run.c.local ==> run.c.local + {a} == run.c.local && run.c.local - {a} + {a} == run.c.local;
      assert a !in run.c.local ==> run.c.local - {a} == run.c.local;
    }
  }

  // ------------------------------------------------------------------ advertised addresses

  /** What the server last said of an id: an ADD_ADDRESS that the client had room for, and no
      REMOVE_ADDRESS since. */
  ghost function Advertised(maxRemote: nat, maxLocal: nat, ops: seq<Op>, id: nat): Option<SocketAddr>
    decreases |ops|
  {
    if ops == [] then None
    else
      var before, last := ops[..|ops| - 1], ops[|ops| - 1];
      var prior := Advertised(maxRemote, maxLocal, before, id);
      if last == RemoveRemote(id) then None
      else if last.AddRemote? && last.id == id && (prior.Some? || |RunOps(START, maxRemote, maxLocal, before).c.remote| < maxRemote)
      then Some(ToCanonical(last.addr))
      else prior
  }

  ghost function AddressOf(c: Client, id: nat): Option<SocketAddr> {
    if id in c.remote then Some(c.remote[id].addr) else None
  }

  lemma StepAdvertised(run: Run, maxRemote: nat, maxLocal: nat, op: Op, id: nat)
    requires run.c.round <= MAX_VARINT
    ensures AddressOf(Step(run, maxRemote, maxLocal, op).c, id) ==
            if op == RemoveRemote(id) then None
            else if op.AddRemote? && op.id == id && (id in run.c.remote || |run.c.remote| < maxRemote) then Some(ToCanonical(op.addr))
            else AddressOf(run.c, id)
  {
    hide ToLocal, ToCanonical, LocalForms, DueIds;
  }

  /** After any run the client knows under each id exactly the address last advertised under it. */
  lemma {:induction false} KnownIsLastAdvertised(maxRemote: nat, maxLocal: nat, ops: seq<Op>, id: nat)
    ensures AddressOf(RunOps(START, maxRemote, maxLocal, ops).c, id) == Advertised(maxRemote, maxLocal, ops, id)
    decreases |ops|
  {
    hide Step;
    if ops != [] {
      var before := ops[..|ops| - 1];
      KnownIsLastAdvertised(maxRemote, maxLocal, before, id);
      LocalAddressesAreThoseAdded(maxRemote, maxLocal, before, SocketAddr(V4(0), 0));
      RunEndsIn(START, maxRemote, maxLocal, ops);
      StepAdvertised(RunOps(START, maxRemote, maxLocal, before), maxRemote, maxLocal, ops[|ops| - 1], id);
    }
  }

  /** The answer to an advertisement: the address if it is news, nothing if it is a repetition, and an
      error, with nothing changed, exactly if there is no room for a new id. */
  lemma AdvertisementAnswered(maxRemote: nat, maxLocal: nat, ops: seq<Op>, id: nat, addr: SocketAddr)
    ensures var c := RunOps(START, maxRemote, maxLocal, ops).c;
            var known := Advertised(maxRemote, maxLocal, ops, id);
            var (c', r) := AddRemoteSpec(c, maxRemote, id, addr);
            && (r.Err? <==> known.None? && |c.remote| >= maxRemote)
            && (r.Err? ==> c' == c && r.error == TooManyAddresses)
            && (r.Ok? ==> r.value == if known == Some(ToCanonical(addr)) then None else Some(ToCanonical(addr)))
            && (r == Ok(None) ==> c' == c)
            && (r.Ok? && r.value.Some? ==> c'.remote == c.remote[id := Candidate(ToCanonical(addr), Active(10))])
            && RemoveRemoteSpec(c, id).1 == known
  {
    KnownIsLastAdvertised(maxRemote, maxLocal, ops, id);
    hide ToCanonical, RunOps, Advertised;
  }

  // ------------------------------------------------------------------ retries run dry

  /** The state after `k` calls of `queue_retries`, all queued probes being sent in between. */
  ghost function AfterRetries(c: Client, ipv6: bool, k: nat): Client {
    if k == 0 then c.(pending := {}) else RetrySpec(AfterRetries(c, ipv6, k - 1), ipv6).0.(pending := {})
  }

  /** A candidate can be probed and has more than `k` retries left. */
  ghost predicate Lasts(x: Candidate, ipv6: bool, k: nat) {
    x.probe.Active? && x.probe.remaining > k && ToLocal(x.addr, ipv6).Some?
  }

  ghost predicate Shifted(before: map<nat, Candidate>, after: map<nat, Candidate>, ipv6: bool, k: nat) {
    && before.Keys == after.Keys
    && (forall i :: i in before ==> after[i].addr == before[i].addr)
    && (forall i, m: nat, n: nat :: i in before && n == m + k ==>
                                      (Lasts(after[i], ipv6, m) <==> Lasts(before[i], ipv6, n)))
  }

  lemma {:induction false} AfterRetriesIs(c: Client, ipv6: bool, k: nat)
    ensures AfterRetries(c, ipv6, k).pending == {}
    ensures Shifted(c.remote, AfterRetries(c, ipv6, k).remote, ipv6, k)
  {
    if k > 0 {
      AfterRetriesIs(c, ipv6, k - 1);
      var t := AfterRetries(c, ipv6, k - 1);
      forall i, m: nat, n: nat | i in t.remote && n == m + k
        ensures Lasts(RetryAll(t.remote, ipv6)[i], ipv6, m) <==> Lasts(c.remote[i], ipv6, n)
      {
        assert Lasts(Retried(t.remote[i], ipv6), ipv6, m) <==> Lasts(t.remote[i], ipv6, m + 1);
      }
    }
  }

  /** With queued probes sent and no new frames, call number `k + 1` of `queue_retries` returns true
      exactly while some reachable candidate has more than `k` retries left. */
  lemma RetriesRunDry(c: Client, ipv6: bool, k: nat)
    ensures RetrySpec(AfterRetries(c, ipv6, k), ipv6).1 <==> exists i :: i in c.remote && Lasts(c.remote[i], ipv6, k)
  {
    AfterRetriesIs(c, ipv6, k);
    var t := AfterRetries(c, ipv6, k);
    var forms := LocalForms(t.remote, DueIds(t.remote), ipv6);
    if i :| i in c.remote && Lasts(c.remote[i], ipv6, k) {
      assert Lasts(t.remote[i], ipv6, 0);
      assert ToLocal(t.remote[i].addr, ipv6).value in forms;
    }
    if r :| r in forms {
      var i :| i in DueIds(t.remote) && i in t.remote && ToLocal(t.remote[i].addr, ipv6).Some? && ToLocal(t.remote[i].addr, ipv6).value == r;
      assert Lasts(t.remote[i], ipv6, 0);
      assert Lasts(c.remote[i], ipv6, k);
    }
  }

  ghost predicate AtMostTen(c: Client) {
    forall i :: i in c.remote && c.remote[i].probe.Active? ==> c.remote[i].probe.remaining <= MAX_NAT_PROBE_ATTEMPTS
  }

  lemma StepAtMostTen(run: Run, maxRemote: nat, maxLocal: nat, op: Op)
    requires AtMostTen(run.c)
    ensures AtMostTen(Step(run, maxRemote, maxLocal, op).c)
  {
    hide ToLocal, ToCanonical, LocalForms;
  }

  lemma {:induction false} RunAtMostTen(run: Run, maxRemote: nat, maxLocal: nat, ops: seq<Op>)
    requires AtMostTen(run.c)
    ensures AtMostTen(RunOps(run, maxRemote, maxLocal, ops).c)
    decreases |ops|
  {
    hide AtMostTen, Step;
    if ops != [] {
      StepAtMostTen(run, maxRemote, maxLocal, ops[0]);
      RunAtMostTen(Step(run, maxRemote, maxLocal, ops[0]), maxRemote, maxLocal, ops[1..]);
    }
  }

  /** After any run, with queued probes sent and no new frames, at most ten calls return true. */
  lemma NoEleventhRetry(maxRemote: nat, maxLocal: nat, ops: seq<Op>, ipv6: bool, k: nat)
    requires k >= MAX_NAT_PROBE_ATTEMPTS
    ensures !RetrySpec(AfterRetries(RunOps(START, maxRemote, maxLocal, ops).c, ipv6, k), ipv6).1
  {
    RunAtMostTen(START, maxRemote, maxLocal, ops);
    RetriesRunDry(RunOps(START, maxRemote, maxLocal, ops).c, ipv6, k);
  }
}
