/**
 What happened to the probes of one side of NAT traversal, as a log, and what the log says of now:
 which challenges may still be answered and which remotes still wait for a probe.
 */
module NatLog {
  import opened Wrappers
  import opened Net

  datatype Event =
    | RoundStarted
    | ProbesQueued(remotes: set<SocketAddr>)
    | ProbeSent(remote: SocketAddr, challenge: u64)
    | ProbeAnswered(remote: SocketAddr, challenge: u64, offered: bool)

  /** Where challenge `x` was sent to, if that was the last thing that happened to it in the current
      round. */
  ghost function Live(log: seq<Event>, x: u64): Option<SocketAddr> {
    if log == [] then None
    else
      var before, last := log[..|log| - 1], log[|log| - 1];
      if !Settles(last, x) then Live(before, x)
      else if last.ProbeSent? then Some(last.remote)
      else None
  }

  ghost predicate Settles(e: Event, x: u64) {
    e.RoundStarted? || (e.ProbeAnswered? && e.challenge == x) || (e.ProbeSent? && e.challenge == x)
  }

  /** What being live means: there is a sending of this very challenge to this very remote after
      which no round started and the challenge was neither answered nor sent again. */
  lemma {:induction false} LiveMeans(log: seq<Event>, x: u64, remote: SocketAddr)
    ensures Live(log, x) == Some(remote) <==>
            exists j :: 0 <= j < |log| && log[j] == ProbeSent(remote, x) && forall k :: j < k < |log| ==> !Settles(log[k], x)
  {
    if log != [] {
      var init, last := log[..|log| - 1], log[|log| - 1];
      LiveMeans(init, x, remote);
      if Settles(last, x) {
        if last == ProbeSent(remote, x) {
          assert log[|log| - 1] == ProbeSent(remote, x);
        }
      } else {
        if j :| 0 <= j < |init| && init[j] == ProbeSent(remote, x) && forall k :: j < k < |init| ==> !Settles(init[k], x) {
          assert log[j] == ProbeSent(remote, x);
          assert forall k :: j < k < |log| ==> !Settles(log[k], x);
        }
        if j :| 0 <= j < |log| && log[j] == ProbeSent(remote, x) && forall k :: j < k < |log| ==> !Settles(log[k], x) {
          assert init[j] == ProbeSent(remote, x);
        }
      }
    }
  }

  lemma LiveAppend(log: seq<Event>, e: Event, x: u64)
    ensures Live(log + [e], x) == if !Settles(e, x) then Live(log, x) else if e.ProbeSent? then Some(e.remote) else None
  {
    assert (log + [e])[..|log|] == log;
  }

  /** A remote waits for a probe: it was queued in the current round and not probed since. */
  ghost predicate Waiting(log: seq<Event>, r: SocketAddr) {
    && log != []
    && var before, last := log[..|log| - 1], log[|log| - 1];
    if Queues(last, r) then true else if Dequeues(last, r) then false else Waiting(before, r)
  }

  ghost predicate Queues(e: Event, r: SocketAddr) {
    e.ProbesQueued? && r in e.remotes
  }

  ghost predicate Dequeues(e: Event, r: SocketAddr) {
    e.RoundStarted? || (e.ProbeSent? && e.remote == r)
  }

  lemma {:induction false} WaitingMeans(log: seq<Event>, r: SocketAddr)
    ensures Waiting(log, r) <==>
            exists j :: 0 <= j < |log| && Queues(log[j], r) && forall k :: j < k < |log| ==> !Dequeues(log[k], r)
  {
    if log != [] {
      var init, last := log[..|log| - 1], log[|log| - 1];
      WaitingMeans(init, r);
      if Queues(last, r) {
        assert Queues(log[|log| - 1], r);
      } else if !Dequeues(last, r) {
        if j :| 0 <= j < |init| && Queues(init[j], r) && forall k :: j < k < |init| ==> !Dequeues(init[k], r) {
          assert Queues(log[j], r);
          assert forall k :: j < k < |log| ==> !Dequeues(log[k], r);
        }
        if j :| 0 <= j < |log| && Queues(log[j], r) && forall k :: j < k < |log| ==> !Dequeues(log[k], r) {
          assert Queues(init[j], r);
        }
      }
    }
  }

  lemma WaitingAppend(log: seq<Event>, e: Event, r: SocketAddr)
    ensures Waiting(log + [e], r) <==> Queues(e, r) || (!Dequeues(e, r) && Waiting(log, r))
  {
    assert (log + [e])[..|log|] == log;
  }
}
