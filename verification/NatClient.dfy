/**
 The client side of NAT traversal (noq-proto/src/n0_nat_traversal.rs:286-599): it advertises its own
 addresses in rounds, keeps the server's advertised addresses by their ids, probes them, and offers
 a path for opening when a probe is answered.
 */
module NatClients {
  import opened Wrappers
  import opened Net
  import opened NatCommon

  /** An advertised server address, in canonical form, and the state of its probing. */
  datatype Candidate = Candidate(addr: SocketAddr, probe: Probe)

  datatype FourTuple = FourTuple(remote: SocketAddr, localIp: Option<IpAddr>)

  datatype Client = Client(
    local: set<SocketAddr>,
    remote: map<nat, Candidate>,
    round: nat,
    challenges: map<u64, SocketAddr>,
    pending: set<SocketAddr>,
    toOpen: seq<FourTuple>)

  const FRESH: Client := Client({}, map[], 0, map[], {}, [])

  // ------------------------------------------------------------------ operations

  ghost function AddLocalSpec(c: Client, maxLocal: nat, addr: SocketAddr): (Client, Result<(), Error>) {
    var a := ToCanonical(addr);
    if |c.local| < maxLocal || a in c.local then (c.(local := c.local + {a}), Ok(()))
    else (c, Err(TooManyAddresses))
  }

  ghost function RemoveLocalSpec(c: Client, addr: SocketAddr): Client {
    c.(local := c.local - {ToCanonical(addr)})
  }

  /** What starting a round does to one candidate. */
  function Restart(x: Candidate, ipv6: bool): Candidate {
    x.(probe := Active(if ToLocal(x.addr, ipv6).Some? then MAX_NAT_PROBE_ATTEMPTS - 1 else 0))
  }

  /** What a retry does to one candidate. */
  function Retried(x: Candidate, ipv6: bool): Candidate {
    if !Due(x.probe) then x
    else x.(probe := Active(if ToLocal(x.addr, ipv6).Some? then x.probe.remaining - 1 else 0))
  }

  ghost function RestartAll(remote: map<nat, Candidate>, ipv6: bool): map<nat, Candidate> {
    map i | i in remote :: Restart(remote[i], ipv6)
  }

  ghost function RetryAll(remote: map<nat, Candidate>, ipv6: bool): map<nat, Candidate> {
    map i | i in remote :: Retried(remote[i], ipv6)
  }

  /** Local forms of the candidates with ids in `ids`. */
  ghost function LocalForms(remote: map<nat, Candidate>, ids: set<nat>, ipv6: bool): set<SocketAddr> {
    set i | i in ids && i in remote && ToLocal(remote[i].addr, ipv6).Some? :: ToLocal(remote[i].addr, ipv6).value
  }

  ghost function DueIds(remote: map<nat, Candidate>): set<nat> {
    set i | i in remote && Due(remote[i].probe)
  }

  ghost function Frames(local: set<SocketAddr>, round: nat): set<ReachOut> {
    set a | a in local :: ReachOut(round, a)
  }

  /** A new round; the result is its REACH_OUT frames and the addresses that will be probed. */
  ghost function InitiateSpec(c: Client, ipv6: bool): (Client, Result<(set<ReachOut>, set<SocketAddr>), Error>)
    requires c.round <= MAX_VARINT
  {
    if c.local == {} then (c, Err(NotEnoughAddresses))
    else
      var round := SaturatingAdd(c.round, 1);
      var pending := LocalForms(c.remote, c.remote.Keys, ipv6);
      (c.(round := round, challenges := map[], pending := pending, remote := RestartAll(c.remote, ipv6)),
       Ok((Frames(c.local, round), pending)))
  }

  ghost function RetrySpec(c: Client, ipv6: bool): (Client, bool) {
    var pending := c.pending + LocalForms(c.remote, DueIds(c.remote), ipv6);
    (c.(remote := RetryAll(c.remote, ipv6), pending := pending), pending != {})
  }

  ghost function SentSpec(c: Client, remote: SocketAddr, challenge: u64): Client {
    c.(pending := c.pending - {remote}, challenges := c.challenges[challenge := remote])
  }

  ghost function AddRemoteSpec(c: Client, maxRemote: nat, id: nat, addr: SocketAddr)
    : (Client, Result<Option<SocketAddr>, Error>)
  {
    var a := ToCanonical(addr);
    var c' := c.(remote := c.remote[id := Candidate(a, Active(MAX_NAT_PROBE_ATTEMPTS))]);
    if id in c.remote then (if c.remote[id].addr == a then (c, Ok(None)) else (c', Ok(Some(a))))
    else if |c.remote| < maxRemote then (c', Ok(Some(a)))
    else (c, Err(TooManyAddresses))
  }

  ghost function RemoveRemoteSpec(c: Client, id: nat): (Client, Option<SocketAddr>) {
    (c.(remote := c.remote - {id}), if id in c.remote then Some(c.remote[id].addr) else None)
  }

  /** Ids under which an address is advertised. */
  ghost function IdsOf(c: Client, addr: SocketAddr): set<nat> {
    set i | i in c.remote && c.remote[i].addr == addr
  }

  /** `id` is the advertisement the search finds first, if there is one. */
  ghost function ResponseSpec(c: Client, path: FourTuple, challenge: u64, id: nat): (Client, bool) {
    if challenge !in c.challenges || c.challenges[challenge] != path.remote then (c, false)
    else
      var a := ToCanonical(path.remote);
      var c' := c.(challenges := c.challenges - {challenge});
      if IdsOf(c, a) == {} then (c', false)
      else (c'.(remote := c.remote[id := Candidate(a, Succeeded)], toOpen := c.toOpen + [path]), true)
  }

  class ClientState {
    const maxRemoteAddresses: nat
    const maxLocalAddresses: nat
    var remoteAddresses: map<nat, Candidate>
    var localAddresses: set<SocketAddr>
    var round: nat
    var sentChallenges: map<u64, SocketAddr>
    var pendingProbes: set<SocketAddr>
    var pathsToBeOpened: seq<FourTuple>

    ghost function View(): Client
      reads this
    {
      Client(localAddresses, remoteAddresses, round, sentChallenges, pendingProbes, pathsToBeOpened)
    }

    constructor (maxRemoteAddresses: nat, maxLocalAddresses: nat)
      ensures View() == FRESH
      ensures this.maxRemoteAddresses == maxRemoteAddresses && this.maxLocalAddresses == maxLocalAddresses
    {
      this.maxRemoteAddresses, this.maxLocalAddresses := maxRemoteAddresses, maxLocalAddresses;
      remoteAddresses, localAddresses, round := map[], {}, 0;
      sentChallenges, pendingProbes, pathsToBeOpened := map[], {}, [];
    }

    method AddLocalAddress(addr: SocketAddr) returns (r: Result<(), Error>)
      modifies this`localAddresses
      ensures (View(), r) == AddLocalSpec(old(View()), maxLocalAddresses, addr)
    {
      var a := ToCanonical(addr);
      if |localAddresses| < maxLocalAddresses {
        localAddresses := localAddresses + {a};
        return Ok(());
      } else if a in localAddresses {
        // a known address needs no room
        assert localAddresses + {a} == localAddresses;
        return Ok(());
      }
      return Err(TooManyAddresses);
    }

    method RemoveLocalAddress(addr: SocketAddr)
      modifies this`localAddresses
      ensures View() == RemoveLocalSpec(old(View()), addr)
    {
      localAddresses := localAddresses - {ToCanonical(addr)};
    }

    /** Every candidate starts over, and those the socket can reach are queued. */
    method RestartProbes(ipv6: bool)
      requires pendingProbes == {}
      modifies this`remoteAddresses, this`pendingProbes
      ensures remoteAddresses == RestartAll(old(remoteAddresses), ipv6)
      ensures pendingProbes == LocalForms(old(remoteAddresses), old(remoteAddresses).Keys, ipv6)
    {
      hide ToLocal;
      ghost var before := remoteAddresses;
      var left := remoteAddresses.Keys;
      while left != {}
        invariant left <= before.Keys == remoteAddresses.Keys
        invariant forall i :: i in before ==> remoteAddresses[i] == if i in left then before[i] else Restart(before[i], ipv6)
        invariant pendingProbes == LocalForms(before, before.Keys - left, ipv6)
        decreases left
      {
        var id :| id in left;
        var local := ToLocal(remoteAddresses[id].addr, ipv6);
        assert before.Keys - (left - {id}) == (before.Keys - left) + {id};
        if local.Some? {
          pendingProbes := pendingProbes + {local.value};
          remoteAddresses := remoteAddresses[id := remoteAddresses[id].(probe := Active(MAX_NAT_PROBE_ATTEMPTS - 1))];
        } else {
          remoteAddresses := remoteAddresses[id := remoteAddresses[id].(probe := Active(0))];
        }
        left := left - {id};
      }
      assert before.Keys - left == before.Keys;
      assert remoteAddresses == RestartAll(before, ipv6);
    }

    method InitiateRound(ipv6: bool) returns (r: Result<(set<ReachOut>, set<SocketAddr>), Error>)
      requires round <= MAX_VARINT
      modifies this
      ensures (View(), r) == InitiateSpec(old(View()), ipv6)
    {
      hide RestartAll, LocalForms;
      if localAddresses == {} {
        return Err(NotEnoughAddresses);
      }
      round := SaturatingAdd(round, 1);
      sentChallenges := map[];
      pendingProbes := {};
      RestartProbes(ipv6);
      var frames := set a | a in localAddresses :: ReachOut(round, a);
      assert frames == Frames(localAddresses, round);
      return Ok((frames, pendingProbes));
    }

    method QueueRetries(ipv6: bool) returns (queued: bool)
      modifies this`remoteAddresses, this`pendingProbes
      ensures (View(), queued) == RetrySpec(old(View()), ipv6)
    {
      ghost var before := remoteAddresses;
      var left := remoteAddresses.Keys;
      while left != {}
        invariant left <= before.Keys == remoteAddresses.Keys
        invariant forall i :: i in before ==> remoteAddresses[i] == if i in left then before[i] else Retried(before[i], ipv6)
        invariant pendingProbes == old(pendingProbes) + LocalForms(before, DueIds(before) - left, ipv6)
        decreases left
      {
        var id :| id in left;
        var x := remoteAddresses[id];
        if Due(x.probe) {
          assert DueIds(before) - (left - {id}) == (DueIds(before) - left) + {id};
          var local := ToLocal(x.addr, ipv6);
          if local.Some? {
            pendingProbes := pendingProbes + {local.value};
            remoteAddresses := remoteAddresses[id := x.(probe := Active(x.probe.remaining - 1))];
          } else {
            remoteAddresses := remoteAddresses[id := x.(probe := Active(0))];
          }
        } else {
          assert DueIds(before) - (left - {id}) == DueIds(before) - left;
        }
        left := left - {id};
      }
      assert DueIds(before) - left == DueIds(before);
      assert remoteAddresses == RetryAll(before, ipv6);
      return pendingProbes != {};
    }

    method MarkProbeSent(remote: SocketAddr, challenge: u64)
      modifies this`pendingProbes, this`sentChallenges
      ensures View() == SentSpec(old(View()), remote, challenge)
    {
      pendingProbes := pendingProbes - {remote};
      sentChallenges := sentChallenges[challenge := remote];
    }

    method AddRemoteAddress(id: nat, addr: SocketAddr) returns (r: Result<Option<SocketAddr>, Error>)
      modifies this`remoteAddresses
      ensures (View(), r) == AddRemoteSpec(old(View()), maxRemoteAddresses, id, addr)
    {
      var a := ToCanonical(addr);
      var allowNew := |remoteAddresses| < maxRemoteAddresses;
      if id in remoteAddresses {
        if remoteAddresses[id].addr != a {
          remoteAddresses := remoteAddresses[id := Candidate(a, Active(MAX_NAT_PROBE_ATTEMPTS))];
          return Ok(Some(a));
        }
        return Ok(None);
      } else if allowNew {
        remoteAddresses := remoteAddresses[id := Candidate(a, Active(MAX_NAT_PROBE_ATTEMPTS))];
        return Ok(Some(a));
      }
      return Err(TooManyAddresses);
    }

    method RemoveRemoteAddress(id: nat) returns (r: Option<SocketAddr>)
      modifies this`remoteAddresses
      ensures (View(), r) == RemoveRemoteSpec(old(View()), id)
    {
      if id !in remoteAddresses {
        assert remoteAddresses - {id} == remoteAddresses;
        return None;
      }
      r := Some(remoteAddresses[id].addr);
      remoteAddresses := remoteAddresses - {id};
    }

    /** A response to the remote that was sent this challenge offers a path to an advertised address. */
    method HandlePathResponse(path: FourTuple, challenge: u64) returns (ok: bool, ghost found: nat)
      modifies this
      ensures IdsOf(old(View()), ToCanonical(path.remote)) != {} ==> found in IdsOf(old(View()), ToCanonical(path.remote))
      ensures (View(), ok) == ResponseSpec(old(View()), path, challenge, found)
    {
      ghost var c := View();
      found := if IdsOf(c, ToCanonical(path.remote)) == {} then 0 else PickId(c, ToCanonical(path.remote));
      if challenge in sentChallenges && sentChallenges[challenge] == path.remote {
        sentChallenges := sentChallenges - {challenge};
        var remote := ToCanonical(path.remote);
        var left := remoteAddresses.Keys;
        while left != {}
          invariant left <= remoteAddresses.Keys
          invariant IdsOf(c, remote) <= left
          decreases left
        {
          var id :| id in left;
          if remoteAddresses[id].addr == remote {
            remoteAddresses := remoteAddresses[id := Candidate(remote, Succeeded)];
            pathsToBeOpened := pathsToBeOpened + [path];
            assert id in IdsOf(c, remote);
            return true, id;
          }
          left := left - {id};
        }
        assert IdsOf(c, remote) == {};
      }
      return false, found;
    }

    method PopPendingPathOpen() returns (r: Option<FourTuple>)
      modifies this`pathsToBeOpened
      ensures r.None? <==> old(View()).toOpen == []
      ensures View() == old(View()).(toOpen := View().toOpen)
      ensures r.Some? ==> old(View()).toOpen == View().toOpen + [r.value]
      ensures r.None? ==> View() == old(View())
    {
      if pathsToBeOpened == [] {
        return None;
      }
      r := Some(pathsToBeOpened[|pathsToBeOpened| - 1]);
      pathsToBeOpened := pathsToBeOpened[..|pathsToBeOpened| - 1];
    }
  }

  ghost function PickId(c: Client, addr: SocketAddr): (id: nat)
    requires IdsOf(c, addr) != {}
    ensures id in IdsOf(c, addr)
  {
    var id :| id in IdsOf(c, addr);
    id
  }
}
