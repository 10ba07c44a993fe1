/** Whole runs of the NAT traversal server against a log: which responses it recognises, which remotes
    wait for a probe, and how many it takes. */
module NatServerRuns {
  import opened Wrappers
  import opened Net
  import opened NatCommon
  import opened NatLog
  import opened NatServers

  /** The server and the log of its probes. */
  datatype Logged = Logged(s: Probing, log: seq<Event>)

  const IDLE_LOG: Logged := Logged(IDLE, [])

  ghost predicate Matches(s: Probing, remote: SocketAddr, challenge: u64) {
    challenge in s.challenges && s.challenges[challenge] == remote
  }

  /** A frame of a newer round starts that round with its address; a new address of the current round
      joins it while there is room. */
  ghost function Events(s: Probing, maxRemote: nat, ipv6: bool, op: Op): seq<Event> {
    match op
    case Receive(f) =>
      var local := ToLocal(f.addr, ipv6);
      if local.None? || f.round < s.round then []
      else if f.round > s.round then [RoundStarted, ProbesQueued({local.value})]
      else if local.value in s.remotes || |s.remotes| >= maxRemote then []
      else [ProbesQueued({local.value})]
    case Retry => [ProbesQueued(DueRemotes(s))]
    case Send(remote, challenge) => [ProbeSent(remote, challenge)]
    case Respond(remote, challenge) => if Matches(s, remote, challenge) then [ProbeAnswered(remote, challenge, true)] else []
  }

  ghost function StepLog(l: Logged, maxRemote: nat, ipv6: bool, op: Op): Logged {
    if !Allowed(l.s, op) then l
    else Logged(Apply(l.s, maxRemote, ipv6, op), l.log + Events(l.s, maxRemote, ipv6, op))
  }

  ghost function RunLog(l: Logged, maxRemote: nat, ipv6: bool, ops: seq<Op>): Logged
    decreases |ops|
  {
    if ops == [] then l else RunLog(StepLog(l, maxRemote, ipv6, ops[0]), maxRemote, ipv6, ops[1..])
  }

  /** A round may start with an address even where there is room for none. */
  ghost predicate WithinLimit(s: Probing, maxRemote: nat) {
    |s.remotes| <= if maxRemote == 0 then 1 else maxRemote
  }

  ghost predicate Tracked(l: Logged, maxRemote: nat) {
    && (forall x :: Live(l.log, x) == if x in l.s.challenges then Some(l.s.challenges[x]) else None)
    && (forall r :: r in l.s.pending <==> Waiting(l.log, r))
    && Probed(l.s)
    && WithinLimit(l.s, maxRemote)
  }

  lemma AppendAtMostTwo(log: seq<Event>, events: seq<Event>, x: u64, r: SocketAddr)
    requires |events| <= 2
    ensures events == [] ==> log + events == log
    ensures |events| == 1 ==>
              && Live(log + events, x) == Live(log + [events[0]], x)
              && Waiting(log + events, r) == Waiting(log + [events[0]], r)
    ensures |events| == 2 ==>
              && Live(log + events, x) == Live((log + [events[0]]) + [events[1]], x)
              && Waiting(log + events, r) == Waiting((log + [events[0]]) + [events[1]], r)
  {
    if |events| == 2 {
      assert log + events == (log + [events[0]]) + [events[1]];
    } else if |events| == 1 {
      assert events == [events[0]];
    } else {
      assert log + [] == log;
    }
  }

  lemma StepTracksBoth(l: Logged, maxRemote: nat, ipv6: bool, op: Op, x: u64, r: SocketAddr)
    requires Tracked(l, maxRemote)
    ensures var l' := StepLog(l, maxRemote, ipv6, op);
            && Live(l'.log, x) == (if x in l'.s.challenges then Some(l'.s.challenges[x]) else None)
            && (r in l'.s.pending <==> Waiting(l'.log, r))
  {
    hide ToLocal, Live, Waiting;
    if Allowed(l.s, op) {
      var events := Events(l.s, maxRemote, ipv6, op);
      AppendAtMostTwo(l.log, events, x, r);
      if events != [] {
        LiveAppend(l.log, events[0], x);
        WaitingAppend(l.log, events[0], r);
        LiveAppend(l.log + [events[0]], events[|events| - 1], x);
        WaitingAppend(l.log + [events[0]], events[|events| - 1], r);
      }
    }
  }

  lemma EnlistWithin(s: Probing, maxRemote: nat, r: SocketAddr)
    requires Probed(s) && (s.remotes == map[] || |s.remotes| < maxRemote)
    ensures Probed(Enlist(s, r)) && WithinLimit(Enlist(s, r), maxRemote)
  {
    var s' := Enlist(s, r);
    assert s'.remotes.Keys == s.remotes.Keys + {r};
    assert |s'.remotes| == |s'.remotes.Keys| && |s.remotes| == |s.remotes.Keys|;
  }

  lemma StepWithin(s: Probing, maxRemote: nat, ipv6: bool, op: Op)
    requires Probed(s) && WithinLimit(s, maxRemote) && Allowed(s, op)
    ensures Probed(Apply(s, maxRemote, ipv6, op)) && WithinLimit(Apply(s, maxRemote, ipv6, op), maxRemote)
  {
    hide ToLocal, Enlist;
    if op.Receive? {
      var local := ToLocal(op.f.addr, ipv6);
      if local.Some? && op.f.round > s.round {
        EnlistWithin(Probing(op.f.round, map[], map[], {}), maxRemote, local.value);
      } else if local.Some? && |s.remotes| < maxRemote {
        EnlistWithin(s, maxRemote, local.value);
      }
    } else {
      OwnStepsWithin(s, maxRemote, ipv6, op);
    }
  }

  lemma OwnStepsWithin(s: Probing, maxRemote: nat, ipv6: bool, op: Op)
    requires Probed(s) && Allowed(s, op) && !op.Receive?
    ensures var s' := Apply(s, maxRemote, ipv6, op); Probed(s') && |s'.remotes| == |s.remotes|
  {
    var s' := Apply(s, maxRemote, ipv6, op);
    assert s'.remotes.Keys == s.remotes.Keys;
    assert |s'.remotes| == |s'.remotes.Keys| && |s.remotes| == |s.remotes.Keys|;
  }

  lemma StepTracks(l: Logged, maxRemote: nat, ipv6: bool, op: Op)
    requires Tracked(l, maxRemote)
    ensures Tracked(StepLog(l, maxRemote, ipv6, op), maxRemote)
  {
    hide Live, Waiting, Apply, Events;
    var l' := StepLog(l, maxRemote, ipv6, op);
    forall x ensures Live(l'.log, x) == if x in l'.s.challenges then Some(l'.s.challenges[x]) else None {
      StepTracksBoth(l, maxRemote, ipv6, op, x, SocketAddr(V4(0), 0));
    }
    forall r ensures r in l'.s.pending <==> Waiting(l'.log, r) {
      StepTracksBoth(l, maxRemote, ipv6, op, 0, r);
    }
    if Allowed(l.s, op) {
      StepWithin(l.s, maxRemote, ipv6, op);
    }
  }

  lemma {:induction false} RunTracks(l: Logged, maxRemote: nat, ipv6: bool, ops: seq<Op>)
    requires Tracked(l, maxRemote)
    ensures Tracked(RunLog(l, maxRemote, ipv6, ops), maxRemote)
    decreases |ops|
  {
    hide Tracked, StepLog;
    if ops != [] {
      StepTracks(l, maxRemote, ipv6, ops[0]);
      RunTracks(StepLog(l, maxRemote, ipv6, ops[0]), maxRemote, ipv6, ops[1..]);
    }
  }

  /** After any run, a response is recognised if and only if its challenge is live for that very remote:
      sent to it in the current round and not answered since.  Recognising it uses the challenge up and
      marks exactly this remote, which is one of the round's, as reached. */
  lemma ResponsesToLiveChallengesAreRecognised(maxRemote: nat, ipv6: bool, ops: seq<Op>, remote: SocketAddr, challenge: u64)
    ensures var l := RunLog(IDLE_LOG, maxRemote, ipv6, ops);
            var (s, ok) := ResponseSpec(l.s, remote, challenge);
            && (ok <==> Live(l.log, challenge) == Some(remote))
            && (!ok ==> s == l.s)
            && (ok ==>
                  && remote in l.s.remotes && s.remotes.Keys == l.s.remotes.Keys
                  && s.remotes[remote].Succeeded? && challenge !in s.challenges
                  && (forall r :: r in l.s.remotes && r != remote ==> s.remotes[r] == l.s.remotes[r])
                  && s.pending == l.s.pending && s.round == l.s.round)
  {
    RunTracks(IDLE_LOG, maxRemote, ipv6, ops);
  }

  /** After any run, exactly the remotes that were queued in this round and not probed since wait for a
      probe, and they are remotes of this round; there are no more of those than the limit, or one. */
  lemma QueueIsWhatWaits(maxRemote: nat, ipv6: bool, ops: seq<Op>, r: SocketAddr)
    ensures var l := RunLog(IDLE_LOG, maxRemote, ipv6, ops);
            && (r in l.s.pending <==> Waiting(l.log, r))
            && (r in l.s.pending ==> r in l.s.remotes)
            && |l.s.remotes| <= if maxRemote == 0 then 1 else maxRemote
  {
    RunTracks(IDLE_LOG, maxRemote, ipv6, ops);
  }

  /** After any run, a frame of the current or a newer round for an address the socket can reach leaves
      that address among the remotes, queued with nine retries left if it is new there, unless the
      round is full: then, and only then, it is refused and changes nothing. */
  lemma ReachableAddressesAreEnlisted(maxRemote: nat, ipv6: bool, ops: seq<Op>, f: ReachOut)
    ensures var s := RunLog(IDLE_LOG, maxRemote, ipv6, ops).s;
            var (s', r) := ReachOutSpec(s, maxRemote, f, ipv6);
            var local := ToLocal(f.addr, ipv6);
            && (f.round < s.round || local.None? ==> s' == s && r.Ok?)
            && (f.round >= s.round && local.Some? ==>
                  && s'.round == (if r.Ok? then f.round else s.round)
                  && (r.Ok? ==> local.value in s'.remotes)
                  && (r.Ok? && (f.round > s.round || local.value !in s.remotes) ==>
                        s'.remotes[local.value] == Active(MAX_NAT_PROBE_ATTEMPTS - 1) && local.value in s'.pending)
                  && (r.Err? <==> f.round == s.round && local.value !in s.remotes && |s.remotes| >= maxRemote)
                  && (r.Err? ==> s' == s && r.error == TooManyAddresses))
  {
    hide ToLocal;
  }
}
