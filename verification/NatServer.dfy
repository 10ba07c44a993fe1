/**
 The server side of NAT traversal (noq-proto/src/n0_nat_traversal.rs:633-807): it learns the
 client's addresses from REACH_OUT frames, grouped into rounds, and probes each a bounded number of
 times.
 */
module NatServers {
  import opened Wrappers
  import opened Net
  import opened NatCommon

  /** The part of the server's state that REACH_OUT frames and probes act on. */
  datatype Probing = Probing(
    round: nat,
    remotes: map<SocketAddr, Probe>,
    challenges: map<u64, SocketAddr>,
    pending: set<SocketAddr>)

  const IDLE: Probing := Probing(0, map[], map[], {})

  // ------------------------------------------------------------------ operations

  ghost function ReachOutSpec(s: Probing, maxRemote: nat, f: ReachOut, ipv6: bool): (Probing, Result<(), Error>) {
    var local := ToLocal(f.addr, ipv6);
    if f.round < s.round || local.None? then (s, Ok(()))
    else if f.round > s.round then (Enlist(Probing(f.round, map[], map[], {}), local.value), Ok(()))
    else if local.value in s.remotes then (s, Ok(()))
    else if |s.remotes| >= maxRemote then (s, Err(TooManyAddresses))
    else (Enlist(s, local.value), Ok(()))
  }

  ghost function Enlist(s: Probing, remote: SocketAddr): Probing {
    s.(remotes := s.remotes[remote := Active(MAX_NAT_PROBE_ATTEMPTS - 1)], pending := s.pending + {remote})
  }

  ghost function DueRemotes(s: Probing): set<SocketAddr> {
    set r | r in s.remotes && Due(s.remotes[r])
  }

  ghost function RetrySpec(s: Probing): (Probing, bool) {
    var pending := s.pending + DueRemotes(s);
    (s.(remotes := map r | r in s.remotes :: Tick(s.remotes[r]), pending := pending), pending != {})
  }

  ghost function SentSpec(s: Probing, remote: SocketAddr, challenge: u64): Probing {
    s.(pending := s.pending - {remote}, challenges := s.challenges[challenge := remote])
  }

  ghost function ResponseSpec(s: Probing, remote: SocketAddr, challenge: u64): (Probing, bool) {
    if challenge in s.challenges && s.challenges[challenge] == remote
    then (s.(challenges := s.challenges - {challenge}, remotes := s.remotes[remote := Succeeded]), true)
    else (s, false)
  }

  class ServerProbing {
    const maxRemoteAddresses: nat
    var round: nat
    var remotes: map<SocketAddr, Probe>
    var sentChallenges: map<u64, SocketAddr>
    var pendingProbes: set<SocketAddr>

    ghost function View(): Probing
      reads this
    {
      Probing(round, remotes, sentChallenges, pendingProbes)
    }

    constructor (maxRemoteAddresses: nat)
      ensures View() == IDLE && this.maxRemoteAddresses == maxRemoteAddresses
    {
      this.maxRemoteAddresses := maxRemoteAddresses;
      round, remotes, sentChallenges, pendingProbes := 0, map[], map[], {};
    }

    method HandleReachOut(f: ReachOut, ipv6: bool) returns (r: Result<(), Error>)
      modifies this
      ensures (View(), r) == ReachOutSpec(old(View()), maxRemoteAddresses, f, ipv6)
    {
      if f.round < round {
        return Ok(());
      }
      var local := ToLocal(f.addr, ipv6);
      if local.None? {
        return Ok(());
      }
      if f.round > round {
        round := f.round;
        remotes, sentChallenges, pendingProbes := map[], map[], {};
      } else if local.value in remotes {
        // nothing new
        return Ok(());
      } else if |remotes| >= maxRemoteAddresses {
        return Err(TooManyAddresses);
      }
      remotes := remotes[local.value := Active(MAX_NAT_PROBE_ATTEMPTS - 1)];
      pendingProbes := pendingProbes + {local.value};
      return Ok(());
    }

    method QueueRetries() returns (queued: bool)
      modifies this`remotes, this`pendingProbes
      ensures (View(), queued) == RetrySpec(old(View()))
    {
      ghost var s := View();
      var left := remotes.Keys;
      while left != {}
        invariant left <= s.remotes.Keys == remotes.Keys
        invariant forall r :: r in remotes ==> remotes[r] == if r in left then s.remotes[r] else Tick(s.remotes[r])
        invariant pendingProbes == s.pending + (DueRemotes(s) - left)
        decreases left
      {
        var remote :| remote in left;
        if Due(remotes[remote]) {
          remotes := remotes[remote := Active(remotes[remote].remaining - 1)];
          pendingProbes := pendingProbes + {remote};
        }
        left := left - {remote};
      }
      assert remotes == RetrySpec(s).0.remotes;
      assert DueRemotes(s) - left == DueRemotes(s);
      return pendingProbes != {};
    }

    method NextProbeAddr() returns (r: Option<SocketAddr>)
      ensures r.None? <==> View().pending == {}
      ensures r.Some? ==> r.value in View().pending
    {
      if pendingProbes == {} {
        return None;
      }
      var remote :| remote in pendingProbes;
      return Some(remote);
    }

    method MarkProbeSent(remote: SocketAddr, challenge: u64)
      modifies this`pendingProbes, this`sentChallenges
      ensures View() == SentSpec(old(View()), remote, challenge)
    {
      pendingProbes := pendingProbes - {remote};
      sentChallenges := sentChallenges[challenge := remote];
    }

    method HandlePathResponse(src: SocketAddr, challenge: u64) returns (ok: bool)
      modifies this`sentChallenges, this`remotes
      ensures (View(), ok) == ResponseSpec(old(View()), src, challenge)
    {
      if challenge in sentChallenges && sentChallenges[challenge] == src {
        sentChallenges := sentChallenges - {challenge};
        remotes := remotes[src := Succeeded];
        return true;
      }
      return false;
    }
  }

  // ------------------------------------------------------------------ a round's budget of probes

  datatype Op =
    | Receive(f: ReachOut)
    | Retry
    | Send(remote: SocketAddr, challenge: u64)
    | Respond(remote: SocketAddr, challenge: u64)

  /** Probes are sent only to what `next_probe_addr` returned. */
  ghost predicate Allowed(s: Probing, op: Op) {
    op.Send? ==> op.remote in s.pending
  }

  /** The server, with the number of times each remote was queued and probed in the current round. */
  datatype Run = Run(s: Probing, queued: map<SocketAddr, nat>, sent: map<SocketAddr, nat>) {
    ghost function Queued(r: SocketAddr): nat { if r in queued then queued[r] else 0 }
    ghost function Sent(r: SocketAddr): nat { if r in sent then sent[r] else 0 }
  }

  const START: Run := Run(IDLE, map[], map[])

  ghost function Apply(s: Probing, maxRemote: nat, ipv6: bool, op: Op): Probing {
    match op
    case Receive(f) => ReachOutSpec(s, maxRemote, f, ipv6).0
    case Retry => RetrySpec(s).0
    case Send(remote, challenge) => SentSpec(s, remote, challenge)
    case Respond(remote, challenge) => ResponseSpec(s, remote, challenge).0
  }

  ghost function Step(run: Run, maxRemote: nat, ipv6: bool, op: Op): Run {
    var s := run.s;
    if !Allowed(s, op) then run
    else
      var s' := Apply(s, maxRemote, ipv6, op);
      match op
      case Receive(f) =>
        if s' == s then run
        else
          var remote := ToLocal(f.addr, ipv6).value;
          if s'.round != s.round then Run(s', map[remote := 1], map[])
          else Run(s', run.queued[remote := run.Queued(remote) + 1], run.sent)
      case Retry => Run(s', run.queued + (map r | r in DueRemotes(s) :: run.Queued(r) + 1), run.sent)
      case Send(remote, _) => Run(s', run.queued, run.sent[remote := run.Sent(remote) + 1])
      case Respond(_, _) => Run(s', run.queued, run.sent)
  }

  /** What has been queued plus what is left makes up the budget; a probe is sent at most once per queueing. */
  ghost predicate Accounted(run: Run, r: SocketAddr) {
    && (r !in run.s.remotes ==> run.Queued(r) == run.Sent(r) == 0)
    && (r in run.s.remotes && run.s.remotes[r].Active? ==>
          run.Queued(r) + run.s.remotes[r].remaining == MAX_NAT_PROBE_ATTEMPTS)
    && run.Queued(r) <= MAX_NAT_PROBE_ATTEMPTS
    && run.Sent(r) + (if r in run.s.pending then 1 else 0) <= run.Queued(r)
  }

  /** Probes are queued for and sent to remotes of this round only. */
  ghost predicate Probed(s: Probing) {
    s.pending <= s.remotes.Keys && forall c :: c in s.challenges ==> s.challenges[c] in s.remotes
  }

  lemma StepAccounts(run: Run, maxRemote: nat, ipv6: bool, op: Op, r: SocketAddr)
    requires Accounted(run, r) && Probed(run.s)
    ensures Accounted(Step(run, maxRemote, ipv6, op), r) && Probed(Step(run, maxRemote, ipv6, op).s)
  {
    if Allowed(run.s, op) {
      match op {
        case Receive(f) => ReceiveAccounts(run, maxRemote, ipv6, f, r);
        case Retry => RetryAccounts(run, maxRemote, ipv6, r);
        case _ => SendAccounts(run, maxRemote, ipv6, op, r);
      }
    }
  }

  lemma ReceiveAccounts(run: Run, maxRemote: nat, ipv6: bool, f: ReachOut, r: SocketAddr)
    requires Accounted(run, r) && Probed(run.s)
    ensures Accounted(Step(run, maxRemote, ipv6, Receive(f)), r) && Probed(Step(run, maxRemote, ipv6, Receive(f)).s)
  {
    var s' := ReachOutSpec(run.s, maxRemote, f, ipv6).0;
    if s' != run.s {
      var remote := ToLocal(f.addr, ipv6).value;
      if f.round > run.s.round {
        EnlistAccounts(Run(Probing(f.round, map[], map[], {}), map[], map[]), remote, r);
      } else {
        EnlistAccounts(run, remote, r);
      }
    }
  }

  lemma EnlistAccounts(run: Run, remote: SocketAddr, r: SocketAddr)
    requires Accounted(run, r) && Probed(run.s) && remote !in run.s.remotes
    ensures var run' := Run(Enlist(run.s, remote), run.queued[remote := run.Queued(remote) + 1], run.sent);
            Accounted(run', r) && Probed(run'.s)
  {
  }

  lemma RetryAccounts(run: Run, maxRemote: nat, ipv6: bool, r: SocketAddr)
    requires Accounted(run, r) && Probed(run.s)
    ensures Accounted(Step(run, maxRemote, ipv6, Retry), r) && Probed(Step(run, maxRemote, ipv6, Retry).s)
  {
    assert r in DueRemotes(run.s) <==> r in run.s.remotes && Due(run.s.remotes[r]);
  }

  lemma SendAccounts(run: Run, maxRemote: nat, ipv6: bool, op: Op, r: SocketAddr)
    requires Accounted(run, r) && Probed(run.s) && (op.Send? || op.Respond?)
    ensures Accounted(Step(run, maxRemote, ipv6, op), r) && Probed(Step(run, maxRemote, ipv6, op).s)
  {
  }

  ghost function RunOps(run: Run, maxRemote: nat, ipv6: bool, ops: seq<Op>): Run
    decreases |ops|
  {
    if ops == [] then run else RunOps(Step(run, maxRemote, ipv6, ops[0]), maxRemote, ipv6, ops[1..])
  }

  lemma {:induction false} RunAccounts(run: Run, maxRemote: nat, ipv6: bool, ops: seq<Op>, r: SocketAddr)
    requires Accounted(run, r) && Probed(run.s)
    ensures Accounted(RunOps(run, maxRemote, ipv6, ops), r) && Probed(RunOps(run, maxRemote, ipv6, ops).s)
    decreases |ops|
  {
    if ops != [] {
      StepAccounts(run, maxRemote, ipv6, ops[0], r);
      RunAccounts(Step(run, maxRemote, ipv6, ops[0]), maxRemote, ipv6, ops[1..], r);
    }
  }

  /** In every run, whatever frames, responses and retries occur, no remote is queued or probed more
      than MAX_NAT_PROBE_ATTEMPTS times in one round. */
  lemma AtMostTenProbesPerRound(maxRemote: nat, ipv6: bool, ops: seq<Op>, r: SocketAddr)
    ensures var run := RunOps(START, maxRemote, ipv6, ops);
            run.Sent(r) <= run.Queued(r) <= MAX_NAT_PROBE_ATTEMPTS
  {
    RunAccounts(START, maxRemote, ipv6, ops, r);
  }

  /** The remote answered in the round `round`, and neither its state nor its number of queueings has
      changed since. */
  ghost predicate StaysAnswered(run: Run, round: nat, r: SocketAddr, queued: nat) {
    run.s.round == round ==> r in run.s.remotes && run.s.remotes[r].Succeeded? && run.Queued(r) == queued
  }

  lemma StepStaysAnswered(run: Run, maxRemote: nat, ipv6: bool, op: Op, round: nat, r: SocketAddr, queued: nat)
    requires StaysAnswered(run, round, r, queued) && run.s.round >= round
    ensures var run' := Step(run, maxRemote, ipv6, op);
            StaysAnswered(run', round, r, queued) && run'.s.round >= run.s.round
  {
    hide ToLocal;
    assert DueRemotes(run.s) <= run.s.remotes.Keys;
  }

  /** Whatever happens after a remote answered, while the round lasts it stays answered and is not
      queued again; rounds never go back. */
  lemma {:induction false} AnsweredIsNotRequeued(
    run: Run, maxRemote: nat, ipv6: bool, ops: seq<Op>, round: nat, r: SocketAddr, queued: nat)
    requires StaysAnswered(run, round, r, queued) && run.s.round >= round
    ensures var run' := RunOps(run, maxRemote, ipv6, ops);
            StaysAnswered(run', round, r, queued) && run'.s.round >= run.s.round
    decreases |ops|
  {
    hide StaysAnswered, Step;
    if ops != [] {
      StepStaysAnswered(run, maxRemote, ipv6, ops[0], round, r, queued);
      AnsweredIsNotRequeued(Step(run, maxRemote, ipv6, ops[0]), maxRemote, ipv6, ops[1..], round, r, queued);
    }
  }

  /** In every run, once a response from `r` is accepted, `r` is not queued again until the round
      changes. */
  lemma SucceededIsNotRequeued(maxRemote: nat, ipv6: bool, before: seq<Op>, after: seq<Op>, r: SocketAddr, challenge: u64)
    ensures var run := RunOps(START, maxRemote, ipv6, before);
            var run' := RunOps(Step(run, maxRemote, ipv6, Respond(r, challenge)), maxRemote, ipv6, after);
            ResponseSpec(run.s, r, challenge).1 && run'.s.round == run.s.round ==>
              r in run'.s.remotes && run'.s.remotes[r].Succeeded? && run'.Queued(r) == run.Queued(r)
  {
    var run := RunOps(START, maxRemote, ipv6, before);
    if ResponseSpec(run.s, r, challenge).1 {
      var answered := Step(run, maxRemote, ipv6, Respond(r, challenge));
      AnsweredIsNotRequeued(answered, maxRemote, ipv6, after, run.s.round, r, run.Queued(r));
    }
  }

  // ------------------------------------------------------------------ retries run dry

  ghost function TickBy(p: Probe, k: nat): Probe {
    if p.Succeeded? then p else Active(if p.remaining >= k then p.remaining - k else 0)
  }

  /** The state after `k` calls of `queue_retries`, all queued probes being sent in between. */
  ghost function AfterRetries(s: Probing, k: nat): Probing {
    if k == 0 then s.(pending := {}) else RetrySpec(AfterRetries(s, k - 1)).0.(pending := {})
  }

  lemma {:induction false} AfterRetriesIs(s: Probing, k: nat)
    ensures AfterRetries(s, k).pending == {}
    ensures AfterRetries(s, k).remotes == map r | r in s.remotes :: TickBy(s.remotes[r], k)
  {
    if k > 0 {
      AfterRetriesIs(s, k - 1);
    }
  }

  /** With queued probes sent and no new frames, call number `k + 1` of `queue_retries` returns true
      exactly while some remote has more than `k` retries left; within a run that is never after the
      ninth call. */
  lemma RetriesRunDry(s: Probing, k: nat)
    ensures RetrySpec(AfterRetries(s, k)).1 <==>
            exists r :: r in s.remotes && s.remotes[r].Active? && s.remotes[r].remaining > k
  {
    AfterRetriesIs(s, k);
    var t := AfterRetries(s, k);
    if r :| r in s.remotes && s.remotes[r].Active? && s.remotes[r].remaining > k {
      assert r in DueRemotes(t);
    }
    if r :| r in DueRemotes(t) {
      assert s.remotes[r].Active? && s.remotes[r].remaining > k;
    }
  }

  lemma NoTenthRetry(maxRemote: nat, ipv6: bool, ops: seq<Op>, k: nat)
    requires k >= MAX_NAT_PROBE_ATTEMPTS - 1
    ensures !RetrySpec(AfterRetries(RunOps(START, maxRemote, ipv6, ops).s, k)).1
  {
    var s := RunOps(START, maxRemote, ipv6, ops).s;
    RetriesRunDry(s, k);
    BudgetLeft(START, maxRemote, ipv6, ops);
  }

  ghost predicate LessThanTen(s: Probing) {
    forall r :: r in s.remotes && s.remotes[r].Active? ==> s.remotes[r].remaining < MAX_NAT_PROBE_ATTEMPTS
  }

  lemma {:induction false} BudgetLeft(run: Run, maxRemote: nat, ipv6: bool, ops: seq<Op>)
    requires LessThanTen(run.s)
    ensures LessThanTen(RunOps(run, maxRemote, ipv6, ops).s)
    decreases |ops|
  {
    if ops != [] {
      StepBudget(run, maxRemote, ipv6, ops[0]);
      BudgetLeft(Step(run, maxRemote, ipv6, ops[0]), maxRemote, ipv6, ops[1..]);
    }
  }

  lemma StepBudget(run: Run, maxRemote: nat, ipv6: bool, op: Op)
    requires LessThanTen(run.s)
    ensures LessThanTen(Step(run, maxRemote, ipv6, op).s)
  {
    var s' := Apply(run.s, maxRemote, ipv6, op);
    assert LessThanTen(s');
  }
}
