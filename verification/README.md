# noq-proto in Dafny

A model of the protocol core of noq, a QUIC implementation without I/O, and proofs of what it keeps
over whole runs and whole byte strings. `dafny verify dfyconfig.toml` checks everything.

The model follows the components of `noq-proto`:

- **NAT traversal** (`Nat*.dfy`): client and server as state machines joined by a network that loses,
  duplicates and reorders REACH_OUT frames, and by an ordered stream of ADD_ADDRESS and
  REMOVE_ADDRESS frames.
- **Endpoint** (`Endpoint*.dfy`): the connection index beside the connections it indexes, and the
  buffers of pending incoming connections beside their byte count.
- **CID window** (`Cid*.dfy`): the five-slot ring buffer against a map from sequence numbers to
  connection IDs (sections 5.1.1, 5.1.2 and 19.15 of RFC 9000).
- **Tokens** (`BloomTokenLog.dfy`, `Token*.dfy`): the replay log of section 8.1.4 of
  RFC 9000, the token codec and `from_header`, and the LRU cache of received tokens.
- **Wire format** (`VarInt.dfy`, `Packet*.dfy`, `Coalescing.dfy`, `RangeSet.dfy`, `Ack.dfy`, `Frame*.dfy`,
  `Transport*.dfy`, `WireExamples.dfy`): sections 12, 16, 17, 18 and 19 of RFC 9000.
- **ClientHello** (`ClientHello.dfy`, `Alpn.dfy`): reassembly of CRYPTO frames and the search for ALPN
  names, section 4.1.2 of RFC 8446 and section 3.1 of RFC 7301.

Each stateful component has three layers. Specification functions on values say what an operation
does. A class with the fields of the source refines them: every method equates its new state and its
result with the specification applied to the old state. Lemmas about the specification, from one step
to every run, say what the source promises. A run is a fold of operations over a state; an operation
whose caller breaks the caller's side of the contract (a fresh slab key, a well-formed frame, an
`Incoming` consumed once) is skipped.

Time, randomness and allocation are parameters: clock readings, generated connection IDs, slab keys,
challenges, and whether the set of the token log outgrows its budget. Header protection, packet
protection, token keys, hash functions and nonce fingerprints are abstract functions with the laws
the proofs need.

Where a property one would expect does not hold, the model keeps the code's behaviour and states the
exact condition, with a concrete run or input:

- `connect` registers a CID before the session can fail to start. The index agrees with a scan of the
  connections if and only if no session failed, and the stale route outlives the handle.
- The NAT traversal counters saturate at 2^62 - 1. Rounds have different numbers if and only if there
  are fewer than 2^62, ids if and only if there are at most 2^62, and the tables of addresses agree if
  and only if no address is added with the counter at its end and the last id taken. The runs that
  collide are given.
- A CID reserved for another path stays reserved if and only if no frame retires part of the reserved
  region; such a frame makes it active, or lets it be reserved again.
- The client's ten attempts belong to an advertisement, not to an address: an address gets ten probes
  a round for being held when the round starts and ten for each advertisement within it, no more, and
  that many in some run for every number of advertisements.
- A token's issue time is truncated to seconds: the token comes back unchanged if and only if it was
  issued at a whole second not before the epoch.
- Packet number expansion is exact if and only if the number is in the window, with its own rule when
  the window would start below zero.
- A frame attribution `Unknown` with a known identifier, or `Known(PADDING)`, does not survive.
- The encoder of close frames keeps two bytes for an error code that may take eight: the frame stays
  within the limit it is given if and only if the code takes at most two bytes more than the reason
  leaves unused.
- An accepted transport parameter may take another number of bytes than it claims, if and only if its
  value's own encoding has another length.
- `grease_quic_bit` and `min_ack_delay` may occur twice in transport parameters; every other known
  parameter may not.
- An all-zero preferred address comes back as none.
- The iterator over ALPN names stops at a truncated name if and only if nothing follows its length.

## Model

| member | source | states |
|---|---|---|
| `NatCommon.CanonicalUndoesLocal` | noq-proto/src/n0_nat_traversal.rs:59-94 | canonicalising undoes the mapping to the socket family for every canonical address, and an address is unreachable only for an IPv4 socket and a proper IPv6 address |
| `NatServers.ServerProbing.HandleReachOut` | noq-proto/src/n0_nat_traversal.rs:723-755 | a REACH_OUT frame changes round, remotes, queue and challenges exactly as `ReachOutSpec` says, with the error for too many addresses |
| `NatServers.ServerProbing.QueueRetries` | noq-proto/src/n0_nat_traversal.rs:761-772 | the loop re-queues exactly the remotes with retries left and takes one retry off each |
| `NatServers.ServerProbing.NextProbeAddr` | noq-proto/src/n0_nat_traversal.rs:777-779 | an address is offered if and only if some probe is queued, and it is a queued one |
| `NatServers.ServerProbing.MarkProbeSent` | noq-proto/src/n0_nat_traversal.rs:782-785 | the probe leaves the queue and its challenge is remembered for that remote |
| `NatServers.ServerProbing.HandlePathResponse` | noq-proto/src/n0_nat_traversal.rs:790-806 | only the response to a challenge sent to that very remote succeeds, and it uses the challenge up |
| `NatServers.AtMostTenProbesPerRound` | noq-proto/src/n0_nat_traversal.rs:601-620 | in every run, within one round a remote is probed at most as often as it is queued, and queued at most ten times |
| `NatServers.RunAccounts` | noq-proto/src/n0_nat_traversal.rs:744-785 | through every run, times queued plus retries left make up the budget of every active remote |
| `NatServers.SucceededIsNotRequeued` | noq-proto/src/n0_nat_traversal.rs:761-806 | in every run, once a response from a remote is accepted, the remote stays answered and its number of queueings stays the same, whatever happens, until the round changes |
| `NatServers.AnsweredIsNotRequeued` | noq-proto/src/n0_nat_traversal.rs:723-806 | the same from any state in which a remote has answered; the round never goes back |
| `NatServers.RetriesRunDry` | noq-proto/src/n0_nat_traversal.rs:761-772 | with queued probes sent, call k + 1 of `queue_retries` returns true if and only if some remote has more than k retries left |
| `NatServers.NoTenthRetry` | noq-proto/src/n0_nat_traversal.rs:744-772 | after any run at most nine further calls of `queue_retries` on the server return true |
| `NatServerRuns.ResponsesToLiveChallengesAreRecognised` | noq-proto/src/n0_nat_traversal.rs:790-806 | after any run a response is recognised if and only if its challenge was sent to exactly that remote in the current round and not answered since; it is then used up and exactly that remote is marked as reached |
| `NatServerRuns.QueueIsWhatWaits` | noq-proto/src/n0_nat_traversal.rs:723-785 | after any run exactly the remotes queued in this round and not probed since wait for a probe, and there are no more remotes than the limit, or one |
| `NatServerRuns.ReachableAddressesAreEnlisted` | noq-proto/src/n0_nat_traversal.rs:723-755 | a frame of the current or a newer round for a reachable address leaves it known, and queued with nine retries left if it is new; it is refused if and only if the round is full |
| `NatLog.LiveMeans` | noq-proto/src/n0_nat_traversal.rs:398-400 | a challenge is live for a remote if and only if the log has a sending of it to that remote after which no round started and it was neither answered nor sent again |
| `NatLog.WaitingMeans` | noq-proto/src/n0_nat_traversal.rs:777-785 | a remote waits if and only if the log has a queueing of it after which no round started and no probe was sent to it |
| `NatClients.ClientState.AddLocalAddress` | noq-proto/src/n0_nat_traversal.rs:352-364 | a local address is added in canonical form unless the limit is reached |
| `NatClients.ClientState.RemoveLocalAddress` | noq-proto/src/n0_nat_traversal.rs:366-369 | the canonical form leaves the set of local addresses |
| `NatClients.ClientState.RestartProbes` | noq-proto/src/n0_nat_traversal.rs:403-413 | the loop restarts every known candidate and queues exactly the local forms of those the socket can reach |
| `NatClients.ClientState.InitiateRound` | noq-proto/src/n0_nat_traversal.rs:390-439 | a round clears challenges and queue, restarts every candidate, sends one REACH_OUT per local address in the new round, and reports exactly the addresses it queued |
| `NatClients.ClientState.QueueRetries` | noq-proto/src/n0_nat_traversal.rs:447-463 | the loop queues exactly the local forms of candidates that are due, and says whether anything is queued |
| `NatClients.ClientState.MarkProbeSent` | noq-proto/src/n0_nat_traversal.rs:473-476 | the probe leaves the queue and its challenge is remembered for that remote |
| `NatClients.ClientState.AddRemoteAddress` | noq-proto/src/n0_nat_traversal.rs:489-512 | an advertised address is stored canonically with a fresh budget; repeats and overflow are told apart |
| `NatClients.ClientState.RemoveRemoteAddress` | noq-proto/src/n0_nat_traversal.rs:517-524 | the withdrawn address is forgotten and handed back |
| `NatClients.ClientState.HandlePathResponse` | noq-proto/src/n0_nat_traversal.rs:547-588 | a path is offered exactly for a response to a challenge sent to that remote while its address is advertised |
| `NatClients.ClientState.PopPendingPathOpen` | noq-proto/src/n0_nat_traversal.rs:591-593 | the path offered last leaves first, the others stay in order, and nothing else changes |
| `NatClientRuns.PathsOpenOnlyOnLiveChallenges` | noq-proto/src/n0_nat_traversal.rs:547-588 | after any run a response opens a path if and only if its challenge is live for exactly that remote and the address behind it is still advertised; answering uses the challenge up and marks exactly that advertisement as reached |
| `NatClientRuns.OffersNeverExceedSends` | noq-proto/src/n0_nat_traversal.rs:473-588 | in every run, and for every challenge, the paths offered on it are at most the probes sent with it |
| `NatClientRuns.QueueIsWhatWaits` | noq-proto/src/n0_nat_traversal.rs:403-476 | after any run exactly the remotes queued in this round and not probed since wait for a probe |
| `NatClientRuns.LocalAddressesAreThoseAdded` | noq-proto/src/n0_nat_traversal.rs:352-369 | after any run the local addresses are exactly those added while there was room, and not removed since, in canonical form |
| `NatClientRuns.LocalAddressesAreLimited` | noq-proto/src/n0_nat_traversal.rs:352-364 | after any run there are no more local addresses than the limit, and one more is refused if and only if it is unknown and the limit is reached |
| `NatClientRuns.KnownIsLastAdvertised` | noq-proto/src/n0_nat_traversal.rs:489-524 | after any run the client knows under each id exactly the address last advertised under it |
| `NatClientRuns.AdvertisementAnswered` | noq-proto/src/n0_nat_traversal.rs:489-524 | news gives the address and a fresh budget of ten, a repetition gives nothing, no room for a new id is the only error, and a withdrawal gives back the address |
| `NatClientRuns.LiveChallengesAreLocalForms` | noq-proto/src/n0_nat_traversal.rs:403-413 | every live challenge was sent to the local form of a canonical address |
| `NatClientRuns.RetriesRunDry` | noq-proto/src/n0_nat_traversal.rs:447-463 | with queued probes sent, call k + 1 of `queue_retries` returns true if and only if some reachable candidate has more than k retries left |
| `NatClientRuns.NoEleventhRetry` | noq-proto/src/n0_nat_traversal.rs:447-463 | after any run at most ten calls of `queue_retries` on the client return true |
| `NatClientBudget.BookWatches` | noq-proto/src/n0_nat_traversal.rs:386-507 | the ledger of queueings, probes and advertisements goes along with every run of the client without changing it |
| `NatClientBudget.RunAccounts` | noq-proto/src/n0_nat_traversal.rs:386-507 | through every run the ledger balances: for every id, and for every address, what was queued and what is left is within what the round and its advertisements pay for, and every queueing is sent at most once |
| `NatClientBudget.AtMostTenPerAdvertisement` | noq-proto/src/n0_nat_traversal.rs:447-507 | in every run an id is queued at most ten times since the round started or it was last advertised, and what was queued and what is left are within ten |
| `NatClientBudget.ProbesArePaidFor` | noq-proto/src/n0_nat_traversal.rs:386-507 | in every run the probes sent to an address in one round are at most the calls that queued it, and those at most ten if the address was held when the round started, plus ten for every advertisement of it accepted as news in the round |
| `NatClientBudget.EleventhNeedsAnotherAdvertisement` | noq-proto/src/n0_nat_traversal.rs:386-507 | an address is queued more than ten times in one round only if it is advertised in that round: once more if it was held at the start, twice otherwise |
| `NatClientBudget.BoundIsAttained` | noq-proto/src/n0_nat_traversal.rs:386-507 | for every number of further advertisements some run of a single round sends exactly that many probes, ten for each |
| `NatClientBudget.TwentyProbesInOneRound` | noq-proto/src/n0_nat_traversal.rs:489-524 | one address, withdrawn and advertised once more, gets twenty probes in the first round (concrete run) |
| `NatClientBudget.AnsweredIsNotRequeued` | noq-proto/src/n0_nat_traversal.rs:447-588 | a candidate that answered stays answered and is not queued again, whatever happens, until a round starts or its id is advertised anew |
| `NatReachOut.ReachOutIsSafe` | noq-proto/src/n0_nat_traversal.rs:352-439 | with REACH_OUT lost, duplicated and reordered at will: the server round never passes the client round, and every server remote is the local form of an address advertised under exactly that round number; while fewer than 2^62 rounds have started the server knows exactly what it heard of the newest round, and no frame is refused |
| `NatReachOut.NewRoundIsAnnounced` | noq-proto/src/n0_nat_traversal.rs:390-439 | after any run starting a round fails if and only if there is no local address; otherwise it hands out exactly one frame per local address, each with the number of the round after the call, and exactly the local forms of the advertised addresses to probe |
| `NatReachOut.NewRoundIsAdopted` | noq-proto/src/n0_nat_traversal.rs:723-755 | after any run a server in an older round that receives one of those frames, for an address it can reach, is then in that round and knows and queues exactly that address |
| `NatReachOut.ReorderingIsHarmless` | noq-proto/src/n0_nat_traversal.rs:723-755 | servers that receive the same frames in any order and with any repetition end in the same round with the same remotes |
| `NatReachOut.DeliverAllExact` | noq-proto/src/n0_nat_traversal.rs:723-755 | the server is in the newest round it heard of and its remotes are exactly the local forms of the addresses of that round |
| `NatReachOut.NeverTooMany` | noq-proto/src/n0_nat_traversal.rs:744-755 | a delivered frame always finds room when the server takes as many addresses as the client may have |
| `NatReachOut.RoundsDistinctIff` | noq-proto/src/n0_nat_traversal.rs:398-400 | in every run round number k is the smaller of k and 2^62 - 1, and all rounds have different numbers if and only if there are fewer than 2^62 |
| `NatReachOut.SaturatedRoundsCollide` | noq-proto/src/n0_nat_traversal.rs:398-400 | the run of 2^62 rounds whose last two share a number, and in which a legitimate frame is then refused |
| `NatAdvertise.ServerAddresses.AddLocalAddress` | noq-proto/src/n0_nat_traversal.rs:690-703 | a new address takes the next id; a known one is not announced again; the limit is an error |
| `NatAdvertise.ServerAddresses.RemoveLocalAddress` | noq-proto/src/n0_nat_traversal.rs:705-710 | the id of the withdrawn address is announced, if it was known |
| `NatAdvertise.TablesStayInverse` | noq-proto/src/n0_nat_traversal.rs:489-534 | in every run in which no address is added with the id counter at its end and the last id taken, and so in the first 2^62 additions, the client table with the frames in flight applied is the inverse of the server table, and the client never refuses an address |
| `NatAdvertise.ServerAddressesAreThoseAdded` | noq-proto/src/n0_nat_traversal.rs:690-710 | after any run the addresses of the server are exactly those added while there was room and not removed since |
| `NatAdvertise.ClientKnowsWhatServerAdded` | noq-proto/src/n0_nat_traversal.rs:489-710 | after any run without a clash, once all frames have arrived, the client knows an address if and only if the server was told of it, had room, and was not told to remove it since |
| `NatAdvertise.IdsDistinctIff` | noq-proto/src/n0_nat_traversal.rs:690-703 | in every run id number k, from 0, is the smaller of k and 2^62 - 1, and all ids are different if and only if there are at most 2^62 |
| `NatAdvertise.AgreeIffNoClash` | noq-proto/src/n0_nat_traversal.rs:690-703 | the tables agree throughout a run if and only if no address is added with the id counter at its end and the last id taken |
| `NatAdvertise.SaturatedIdsCollide` | noq-proto/src/n0_nat_traversal.rs:690-703 | the run of 2^62 + 1 additions whose last two addresses hold the same id, so that the tables disagree |
| `EndpointRuns.IndexIsExactIffEverySessionStarted` | noq-proto/src/endpoint.rs:330-430 | through every run the CID index agrees with a scan of all live connections if and only if no session failed to start |
| `EndpointRuns.NoSharedCids` | noq-proto/src/endpoint.rs:417-430 | in every reachable state no CID belongs to two connections, two paths or two sequence numbers |
| `EndpointRuns.VacantHandlesHaveNoRoutes` | noq-proto/src/endpoint.rs:1094-1116 | a vacant handle has no route other than those of failed session starts, so a reused handle inherits none |
| `EndpointRuns.LeaksArePermanent` | noq-proto/src/endpoint.rs:351-362 | the route of a session that failed to start is never removed |
| `EndpointRuns.LeakedRouteIsInherited` | noq-proto/src/endpoint.rs:351-362 | a failed session start followed by a connection under the same handle routes the new connection a CID it never issued (concrete run) |
| `EndpointRuns.RunIndexGood` | noq-proto/src/endpoint.rs:93-144 | through every run the index is the inverse of the CID tables up to leaks, and there is exactly one leak per failed session start |
| `EndpointRuns.PendingConnectionsStayBounded` | noq-proto/src/endpoint.rs:217-236 | through every run the initial routes are exactly those of pending incomings and live servers, buffers and pending incomings correspond and stay within `max_incoming`, each buffer within its limit, and the byte count is their sum within its own limit |
| `EndpointRuns.RoutesAreLive` | noq-proto/src/endpoint.rs:1119-1129 | in every reachable state a datagram routes by CID to a pending incoming for that very CID with a live buffer, or to a live owner of the CID, leaks aside |
| `EndpointRoutes.OwnersGetTheirDatagrams` | noq-proto/src/endpoint.rs:1119-1124 | after any run a datagram for a CID that a live connection has issued and not retired is delivered to exactly that connection and path |
| `EndpointRoutes.InitialsFindTheirAttempt` | noq-proto/src/endpoint.rs:1125-1129 | after any run an Initial or 0-RTT packet for a CID that is not issued goes to the pending incoming connection it names, or to the live server opened under it |
| `EndpointRoutes.UnroutedIff` | noq-proto/src/endpoint.rs:1119-1129 | after any run a datagram has no route by CID if and only if no live connection, leaked entry, pending incoming connection or live server has its CID |
| `EndpointRoutes.FirstPacketOpensAttemptIff` | noq-proto/src/endpoint.rs:432-514 | after any run an unrouted datagram opens a pending incoming connection if and only if it is a well-formed Initial of 1200 bytes with a long enough CID, there is room, and CIDs are not three quarters used up; further packets under its CID then go there |
| `EndpointRoutes.BufferHoldsWhatArrived` | noq-proto/src/endpoint.rs:217-236 | until it is accepted or dropped, the buffer of a pending incoming connection grows by exactly the datagrams that arrive for it and fit, in order |
| `EndpointRoutes.IssueAllSlots` | noq-proto/src/endpoint.rs:387-414 | new CIDs take the next sequence numbers of their path in order, and no other CID changes owner |
| `EndpointRoutes.ConnectOwns` | noq-proto/src/endpoint.rs:330-384 | a successful connect gives a client connection that owns exactly the new CID, at sequence number 0, and changes no other connection |
| `EndpointRoutes.AcceptOwns` | noq-proto/src/endpoint.rs:630-672 | a successful accept gives a server connection under the CID of the attempt that owns exactly the new CIDs, from sequence number 0 on, and ends the attempt |
| `EndpointRoutes.AcceptFails` | noq-proto/src/endpoint.rs:672-688 | an accept that is rejected or fails leaves what dropping the attempt leaves: its buffer, bytes and route are gone and nothing else has changed |
| `EndpointRoutes.RetireDisowns` | noq-proto/src/endpoint.rs:119-131 | a retired CID has no owner and no route, and no other CID is touched |
| `EndpointRoutes.DrainDisowns` | noq-proto/src/endpoint.rs:132-141 | a drained connection is gone with exactly the routes of the CIDs it owned |
| `Endpoints.NoUnderflow` | noq-proto/src/endpoint.rs:797-801 | taking a buffer off the byte count never underflows |
| `Endpoints.IssueIndexed` | noq-proto/src/endpoint.rs:387-430 | issuing a vacant CID keeps the index and the tables inverse |
| `Endpoints.AddConnectionIndexed` | noq-proto/src/endpoint.rs:803-874 | adding a connection with its first CIDs keeps the index and the tables inverse |
| `Endpoints.RetireIndexed` | noq-proto/src/endpoint.rs:119-131 | retiring a CID keeps the index and the tables inverse |
| `Endpoints.DrainIndexed` | noq-proto/src/endpoint.rs:132-141 | draining a connection keeps the index and the tables inverse |
| `Endpoints.DrainedCids` | noq-proto/src/endpoint.rs:1099-1109 | the CIDs of a connection are exactly the index entries that name it, leaks aside |
| `Endpoints.CleanUpInitial` | noq-proto/src/endpoint.rs:1047-1053 | removing the route of a pending incoming finds the entry and keeps the initial routes exact |
| `Endpoints.ServerInitial` | noq-proto/src/endpoint.rs:1056-1064 | a server connection takes over its initial CID and the initial routes stay exact |
| `Endpoints.BufferCounted` | noq-proto/src/endpoint.rs:217-236 | keeping a datagram within both limits keeps the byte count equal to the sum over buffers |
| `Endpoints.CleanUpCounted` | noq-proto/src/endpoint.rs:797-801 | dropping a buffer keeps the byte count equal to the sum over the others |
| `EndpointObjects.Endpoint.Get` | noq-proto/src/endpoint.rs:1119-1129 | the route of a datagram: issued CIDs first, then initial CIDs for Initial and 0-RTT packets |
| `EndpointObjects.Endpoint.Handle` | noq-proto/src/endpoint.rs:147-267 | a datagram is delivered, kept, or opens a pending incoming as `HandleSpec` and `EventOf` say, and the admission invariant is kept |
| `EndpointObjects.Endpoint.KeepDatagram` | noq-proto/src/endpoint.rs:217-236 | a datagram is kept if and only if both byte limits allow it |
| `EndpointObjects.Endpoint.OpenIncoming` | noq-proto/src/endpoint.rs:512-514 | an admitted first packet opens an empty buffer and routes its initial CID to it |
| `EndpointObjects.Endpoint.CleanUpIncoming` | noq-proto/src/endpoint.rs:721-801 | refuse, retry and ignore remove buffer, bytes and route of the incoming and nothing else |
| `EndpointObjects.Endpoint.SendNewIdentifiers` | noq-proto/src/endpoint.rs:387-414 | the loop registers every new CID under consecutive sequence numbers and announces exactly those |
| `EndpointObjects.Endpoint.RetireConnectionId` | noq-proto/src/endpoint.rs:119-131 | a CID that is still there is unrouted, and only then replaced: exactly the new CID is announced, under the next sequence number |
| `EndpointObjects.Endpoint.RemoveCids` | noq-proto/src/endpoint.rs:1099-1109 | the nested loops remove exactly the CIDs of the connection from the index |
| `EndpointObjects.Endpoint.Drained` | noq-proto/src/endpoint.rs:132-141 | the connection, its CIDs and, for a server, its initial route go, and nothing else |
| `EndpointObjects.Endpoint.AddConnection` | noq-proto/src/endpoint.rs:803-874 | the connection appears with its first CID at 0 and the preferred-address CID at 1 |
| `EndpointObjects.Endpoint.Connect` | noq-proto/src/endpoint.rs:330-384 | exhausted CIDs, an unusable address or version are refused in that order and change nothing; otherwise a session that starts gives a connection, and one that does not leaves its CID registered |
| `EndpointObjects.Endpoint.AcceptIncoming` | noq-proto/src/endpoint.rs:535-688 | accept drops the buffer, then rejects, sets up, or sets up and drains the connection as `AcceptSpec` says, and replays the kept datagrams in order exactly if it succeeds |
| `EndpointObjects.Endpoint.Accept` | noq-proto/src/endpoint.rs:535-688 | accepting any pending incoming keeps the admission invariant and replays what was kept for it |
| `CidQueues.CidQueue.constructor` | noq-proto/src/cid_queue.rs:45-54 | a new queue holds just the initial CID, active at sequence number 0 |
| `CidQueues.CidQueue.Insert` | noq-proto/src/cid_queue.rs:60-109 | the ring buffer refines insertion into the map from sequence numbers to CIDs, with both errors, the retired range and the reset token |
| `CidQueues.CidQueue.ClearAndRecord` | noq-proto/src/cid_queue.rs:74-81 | discarding retired slots and writing the new one act on the map through every wraparound |
| `CidQueues.CidQueue.Activate` | noq-proto/src/cid_queue.rs:87-98 | the cursor moves to the first CID held at or after the retirement edge |
| `CidQueues.CidQueue.Next` | noq-proto/src/cid_queue.rs:113-125 | the ring buffer refines moving to the first CID past the reserved region |
| `CidQueues.CidQueue.NextReserved` | noq-proto/src/cid_queue.rs:131-136 | the ring buffer refines reserving the first available CID |
| `CidQueues.CidQueue.FirstFromActive` | noq-proto/src/cid_queue.rs:148-153 | the iterator yields the first occupied slot from the cursor |
| `CidQueues.CidQueue.SecondFromReserved` | noq-proto/src/cid_queue.rs:162-167 | the second item from the reserved cursor is the first available CID, if there is one |
| `CidQueues.CidQueue.ReservedLen` | noq-proto/src/cid_queue.rs:170-176 | the distance between the cursors, below the buffer length |
| `CidQueues.CidQueue.UpdateInitialCid` | noq-proto/src/cid_queue.rs:179-182 | only the CID at sequence number 0 changes |
| `CidQueues.CidQueue.Active` | noq-proto/src/cid_queue.rs:185-187 | the active slot is always occupied and is returned |
| `CidQueues.InsertKeepsInv` | noq-proto/src/cid_queue.rs:60-109 | insert keeps active and last reserved slots occupied and everything in the window, so no unwrap fails |
| `CidQueues.NextKeepsInv` | noq-proto/src/cid_queue.rs:113-136 | next and next_reserved keep the same invariant |
| `CidQueues.SurvivorExists` | noq-proto/src/cid_queue.rs:91-94 | a retirement always leaves a CID to activate |
| `CidQueues.HeldOrRetiredExactlyOnce` | noq-proto/src/cid_queue.rs:60-136 | over any run every accepted sequence number is either held or in exactly one returned range; the ranges are non-empty, at most five long, increasing and disjoint |
| `CidLedgers.HeldIsWhatWasSaid` | noq-proto/src/cid_queue.rs:60-82 | after any run every held sequence number has the CID and token of the last frame accepted for it |
| `CidLedgers.InsertHandsOutActiveToken` | noq-proto/src/cid_queue.rs:60-109 | after any run a frame is refused exactly below the active number or five above; a retirement hands out the numbers from the active one on, up to five, and the token of the frame that announced the CID active from then on, the first one not retired |
| `CidLedgers.NextHandsOutActiveToken` | noq-proto/src/cid_queue.rs:113-125 | after any run next moves to the first CID past the reserved ones, if there is one, handing out its announced token and every number before it |
| `CidLedgers.NextReservedLends` | noq-proto/src/cid_queue.rs:131-136 | after any run the CID lent out is the announced one of the first number past the reserved ones, not the active one, and not lent before unless a frame has retired into the reserved region |
| `CidLedgers.InsertSeparatesIff` | noq-proto/src/cid_queue.rs:87-98 | an accepted frame keeps lent CIDs neither active nor available if and only if it does not retire part of the reserved region |
| `CidLedgers.LentStaysReserved` | noq-proto/src/cid_queue.rs:60-136 | through every run without such a frame a CID that was lent and not retired is neither active nor lent again |
| `CidLedgers.LentBecomesActive` | noq-proto/src/cid_queue.rs:87-98 | a frame that retires 0 while 1 is lent makes the lent CID active (concrete run) |
| `TokenLogs.BloomTokenLog.CheckAndInsert` | noq-proto/src/bloom_token_log.rs:57-119 | period turnover, double turnover and both filters act exactly as `CheckSpec` says |
| `TokenLogs.BloomTokenLog.FilterCheckAndInsert` | noq-proto/src/bloom_token_log.rs:154-189 | membership, growth and the loop that converts the set to a Bloom filter act exactly as `FilterSpec` says |
| `TokenLogs.StepRemembers` | noq-proto/src/bloom_token_log.rs:57-119 | every call keeps what is remembered, remembers what it accepts, and accepts only what it did not remember |
| `TokenLogs.NoReplay` | noq-proto/src/bloom_token_log.rs:57-189 | no run accepts the same nonce and issue time twice, across turnovers and set-to-Bloom conversion |
| `TokenLogs.NoFalseAlarm` | noq-proto/src/bloom_token_log.rs:57-119 | while no set overflows, every decision of a run is that of an exact ledger of used tokens |
| `TokenLogs.LedgerTracks` | noq-proto/src/bloom_token_log.rs:57-119 | while no set overflows, the filters hold exactly the fingerprints used in their periods |
| `TokenLedgers.FilterRefusesIff` | noq-proto/src/bloom_token_log.rs:154-189 | a filter refuses what it has seen; as a set nothing else, as a Bloom filter exactly the fingerprints all of whose bits were set by those it has seen |
| `TokenLedgers.RefusedOnlyIfCovered` | noq-proto/src/bloom_token_log.rs:57-189 | over any run, overflowing or not, a token that is not out of date and whose fingerprint was not presented in its period is refused only if every bit it sets was set by others of its period |
| `Tokens.TokenRoundTrip` | noq-proto/src/token.rs:215-274 | decoding undoes encoding for every token, up to truncation of the issue time |
| `Tokens.TokenRoundTripExact` | noq-proto/src/token.rs:344-354 | a token comes back unchanged if and only if it was issued at a whole second not before the epoch |
| `Tokens.IpRoundTrip` | noq-proto/src/token.rs:323-342 | IP addresses of both families survive |
| `Tokens.Present` | noq-proto/src/token.rs:115-189 | every branch of `from_header`, with the log it updates, is that of `FromHeader` |
| `Tokens.ValidatesAtMostOnce` | noq-proto/src/token.rs:164-187 | over any run of arriving packets NEW_TOKEN tokens with the same nonce and issue time validate an address at most once, whatever their bytes and wherever they come from |
| `Tokens.ValidatedIsBacked` | noq-proto/src/token.rs:146-187 | a validated address is backed by an unexpired Retry token for this address or an unexpired NEW_TOKEN token for this IP |
| `TokenRuns.RetryTokenIsWorth` | noq-proto/src/token.rs:142-162 | a Retry token from the address it was sent to, while it lasts, gives exactly both connection IDs and a validated address; otherwise an error; the log is not touched |
| `TokenRuns.ValidationTokenIsWorth` | noq-proto/src/token.rs:163-187 | a NEW_TOKEN token from its IP address, while it lasts, validates if and only if the log lets it through; otherwise it is ignored |
| `TokenRuns.ErrorIff` | noq-proto/src/token.rs:115-162 | presenting bytes is an error if and only if they are a Retry token for another address or out of date |
| `TokenRuns.UnusedTokensValidate` | noq-proto/src/token.rs:163-187 | over any run without overflow a good NEW_TOKEN token validates if and only if an exact ledger of the tokens used before says it is unused |
| `TokenRuns.FirstTokenValidates` | noq-proto/src/token.rs:163-187 | the first good NEW_TOKEN token a server sees validates |
| `TokenCaches.TokenCache.Store` | noq-proto/src/token_memory_cache.rs:69-113 | lookup table and LRU slab refine storing into the ordered list of server queues |
| `TokenCaches.TokenCache.Take` | noq-proto/src/token_memory_cache.rs:115-130 | lookup table and LRU slab refine taking the oldest token of a server |
| `TokenCaches.TokenCache.Evict` | noq-proto/src/token_memory_cache.rs:94-110 | the least recently used server goes, from slab and lookup alike |
| `TokenCaches.SlabTouched` | noq-proto/src/token_memory_cache.rs:85-93 | touching a slot keeps lookup and slab in bijection and moves its server to the end |
| `TokenCaches.StoreStaysOk` | noq-proto/src/token_memory_cache.rs:69-113 | no queue is empty or over its limit and there are not too many servers |
| `TokenCaches.StoredTokensComeBackOnceInOrder` | noq-proto/src/token_memory_cache.rs:172-219 | over any run and for every server stored tokens are taken, held or dropped exactly once, come back first in first out, and eviction takes the least recently touched server |
| `VarInts.VarRoundTrip` | noq-proto/src/varint.rs:164-217 | decoding undoes encoding for every value and leaves what follows |
| `VarInts.VarReencodes` | noq-proto/src/varint.rs:164-199 | longer encodings are accepted; re-encoding gives the same bytes if and only if they were minimal |
| `VarInts.TaggedBytes` | noq-proto/src/varint.rs:202-217 | the bytes are the big-endian integer with the length tag in the two top bits |
| `Net.SaturatingAdd` | noq-proto/src/varint.rs:52-56 | the sum, or the largest value if and only if the sum exceeds it |
| `Bytes.GetBEOfBE` | noq-proto/src/coding.rs:45-90 | fixed-width integers come back with the input after them |
| `Net.LongCidRoundTrip` | noq-proto/src/shared.rs:127-139 | a connection ID in long form comes back with the input after it |
| `PacketNumbers.NumberRoundTrip` | noq-proto/src/packet.rs:771-791 | the peer reads the low bits that fit the width, also of a 24-bit number held in 32 bits |
| `PacketNumbers.ExpandExact` | noq-proto/src/packet.rs:807-836 | expansion gives back a number if and only if it lies in the window around the expected one, or among the first numbers when that window starts below zero |
| `PacketNumbers.NumberSurvivesTheWire` | noq-proto/src/packet.rs:746-836 | for every number that can be encoded, what the receiver expands is the number if and only if it is in the window of the chosen width |
| `PacketNumbers.AcknowledgedReceiverRecovers` | noq-proto/src/packet.rs:746-836 | a receiver that has seen what was acknowledged and is less than half a window past the number recovers it |
| `PacketNumbers.NoOverflow` | noq-proto/src/packet.rs:818-835 | no intermediate sum of expansion leaves 64 bits while numbers are below 2^62 |
| `PacketNumbers.NewIsShortest` | noq-proto/src/packet.rs:746-769 | the width sent is the least that holds twice the distance from what was acknowledged, and the bits are the low ones |
| `WireExamples.PacketNumberExamples` | noq-proto/src/packet.rs:746-836 | the sample packet numbers of appendices A.2 and A.3 of RFC 9000 |
| `WireExamples.VarIntExamples` | noq-proto/src/varint.rs:164-217 | the sample integers of appendix A.1 of RFC 9000 |
| `WireExamples.LongVarIntExample` | noq-proto/src/varint.rs:202-217 | the eight-byte sample integer of appendix A.1 of RFC 9000 |
| `Packets.Split` | noq-proto/src/connection/mod.rs:4109-4143 | the coalescing loop yields the packets up to the first malformed one |
| `Packets.SplitPartitions` | noq-proto/src/packet.rs:35-59 | on arbitrary bytes the packets are consecutive non-empty pieces of the datagram, and all of it if none is malformed |
| `Packets.NewSplits` | noq-proto/src/packet.rs:45-58 | a packet and its rest make up the datagram |
| `Packets.NewInRange` | noq-proto/src/packet.rs:634-709 | token and packet number positions lie within the packet |
| `Packets.Finish` | noq-proto/src/packet.rs:516-545 | length, packet protection and header protection are applied in place in that order |
| `Coalescing.DecodeFieldsLong` | noq-proto/src/packet.rs:634-709 | version, connection IDs, token and length of Initial, 0-RTT and Handshake packets are read back whatever protection did to the masked bits |
| `Coalescing.DecodeFieldsShort` | noq-proto/src/packet.rs:640-650 | spin bit and connection ID of a short packet are read back whatever protection did to the masked bits |
| `Coalescing.TwoByteLength` | noq-proto/src/packet.rs:528-533 | the reserved two-byte length field reads back as any length below 2^14 |
| `Coalescing.NewFindsCarried` | noq-proto/src/packet.rs:35-59 | bytes that show a header are cut exactly where the packet ends |
| `Coalescing.FinishWritesPacket` | noq-proto/src/packet.rs:304-545 | encoding a header, appending the body and finishing gives the packet on the wire |
| `Coalescing.FinishRecovers` | noq-proto/src/packet.rs:109-216 | finishing recovers header, token, packet number bits, header bytes and payload |
| `Coalescing.PayloadOpens` | noq-proto/src/connection/packet_crypto.rs:205-251 | the number the receiver expands is the one the payload was sealed under if and only if that lies in the window of the width sent; then the payload opens under that path, number and the recovered header bytes to the original body |
| `Coalescing.CoalescedPacketsArrive` | noq-proto/src/packet.rs:35-216 | for every list of Initial, 0-RTT and Handshake packets with at most one short packet at the end, and all lawful keys, every packet of the datagram is recovered |
| `Coalescing.UnprotectedArrivesIff` | noq-proto/src/packet.rs:634-709 | Retry and Version Negotiation packets come back if and only if the receiver can read them |
| `PacketErrors.UnknownVersionIsReported` | noq-proto/src/packet.rs:652-677 | a long-header packet of an unsupported version is reported with its version and both connection IDs, whatever protection did to it |
| `PacketErrors.UnknownRetryIsReported` | noq-proto/src/packet.rs:652-677 | so is a Retry |
| `PacketErrors.CutShortIsRefused` | noq-proto/src/packet.rs:45-58 | a packet cut off anywhere after its header is refused |
| `PacketErrors.FixedBitIsRequired` | noq-proto/src/packet.rs:640-643 | without the fixed bit a packet is refused unless the receiver has offered to take it |
| `PacketErrors.TooShortToSample` | noq-proto/src/packet.rs:200-216 | a packet too short for a header protection sample is refused |
| `WireExamples.LongHeaderLayout` | noq-proto/src/packet.rs:303-360 | the positions of first byte, version and connection IDs in every Initial, 0-RTT and Handshake header |
| `RangeSets.ArrayRangeSet.Insert` | noq-proto/src/range_set/array_range_set.rs:103-163 | insertion in place is `InsertSpec`, keeps the list canonical, and reports whether it changed |
| `RangeSets.ArrayRangeSet.MergeFollowing` | noq-proto/src/range_set/array_range_set.rs:143-152 | the inner loop absorbs exactly the following ranges it reaches |
| `RangeSets.InsertAdds` | noq-proto/src/range_set/array_range_set.rs:103-163 | the result holds exactly the old elements and those of the range |
| `RangeSets.InsertCanonical` | noq-proto/src/range_set/array_range_set.rs:103-163 | sorted, disjoint and non-adjacent ranges stay so |
| `RangeSets.CanonicalIsUnique` | noq-proto/src/range_set/array_range_set.rs:103-163 | a set has exactly one canonical list of ranges |
| `RangeSets.InsertionsCommute` | noq-proto/src/range_set/array_range_set.rs:103-163 | the order of two insertions does not matter |
| `Acks.WriteBlocks` | noq-proto/src/frame.rs:1204-1212 | the encoder loop over the ranges in reverse writes count, sizes and gaps |
| `Acks.ReadAckBlocks` | noq-proto/src/frame.rs:1760-1792 | the decoder loop is `ReadBlocks`, and runs at most once per input byte whatever count is claimed |
| `Acks.AcceptedBlocks` | noq-proto/src/frame.rs:1760-1792 | on arbitrary bytes an accepted list is canonical, has as many blocks as announced, tops out at `largest`, and took at least a byte per block |
| `Acks.AckRoundTrip` | noq-proto/src/frame.rs:1190-1217 | every non-empty set of packet numbers below 2^62 comes back with its maximum as `largest` |
| `Acks.LargestIsMaximum` | noq-proto/src/frame.rs:1194-1196 | the end of the last range is the maximum of the set |
| `WireExamples.AckExample` | noq-proto/src/frame.rs:1190-1217 | the bytes of an ACK of 0, 1 and 5 (concrete input) |
| `FrameTypes.TypeOfId` | noq-proto/src/frame.rs:143-177 | every frame type is recognised by its identifier |
| `FrameTypes.IdOfType` | noq-proto/src/frame.rs:143-177 | no identifier is recognised as a type with another identifier |
| `FrameTypes.MaybeFrameRoundTrip` | noq-proto/src/frame.rs:283-311 | an attribution survives the wire if and only if it is neither PADDING nor an unknown identifier that is known |
| `Frames.FieldRoundTrip` | noq-proto/src/frame.rs:1535-1711 | every kind of field the reader knows is read back, including ACK ranges, connection IDs, addresses and length-prefixed bytes |
| `Frames.NewCidRoundTrip` | noq-proto/src/frame.rs:1974-2027 | NEW_CONNECTION_ID is read back for every sequence number, retirement, non-empty CID and token |
| `Frames.ReadFits` | noq-proto/src/frame.rs:1974-2003 | whatever is read fits its field: path IDs below 2^32, retirement not above the sequence number, CIDs of 1 to 20 bytes, canonical ACK ranges |
| `Frames.FrameRoundTrip` | noq-proto/src/frame.rs:1527-1711 | fields written in the order the reader takes them are read back, with what follows the frame if it delimits itself |
| `Frames.LayoutsAreWellLaid` | noq-proto/src/frame.rs:1693-1709 | only STREAM and DATAGRAM frames without length do not delimit themselves |
| `Frames.FrameListRoundTrip` | noq-proto/src/frame.rs:1496-1736 | a list of frames so written, of which only the last may lack a length, is iterated back exactly |
| `Frames.ItemsAreBounded` | noq-proto/src/frame.rs:1718-1736 | on arbitrary bytes there is at most one item per byte, every frame is valid, and an error is the single last item |
| `Frames.Iter.Next` | noq-proto/src/frame.rs:1718-1736 | one item off everything still to come, and nothing after an error |
| `Frames.StreamRoundTrip` | noq-proto/src/frame.rs:1306-1348 | the STREAM encoder writes a frame that reads back as the same stream, offset, fin and data, and delimits itself if and only if it has a length |
| `WireExamples.StreamExample` | noq-proto/src/frame.rs:1306-1348 | the bytes of two STREAM frames with all and with no flags (concrete input) |
| `FrameCuts.TryNextExtends` | noq-proto/src/frame.rs:1527-1711 | what is read or refused does not depend on what follows, unless the input ran out |
| `FrameCuts.CutFrameIsRefused` | noq-proto/src/frame.rs:1527-1711 | every frame that delimits itself, cut anywhere, is refused for running out of input |
| `FrameCuts.CutListYieldsPrefix` | noq-proto/src/frame.rs:1496-1736 | however a list of such frames is cut, exactly the frames before the cut come out, and one error if the cut is not between two frames |
| `FrameCuts.UnknownTypeIsRefused` | noq-proto/src/frame.rs:1527-1535 | an unknown identifier ends the list with that one error, attributed to it |
| `FrameCuts.NewCidMalformedIff` | noq-proto/src/frame.rs:1974-2003 | NEW_CONNECTION_ID is malformed if and only if it retires past its own number or its CID is empty or too long |
| `FrameCodecs.SpellsAddresses` | noq-proto/src/frame.rs:2164-2178 | the encoders of OBSERVED_ADDRESS, ADD_ADDRESS and REACH_OUT, which choose the type by address family, write what the reader turns into the same record |
| `FrameCodecs.SpellsAboutPaths` | noq-proto/src/frame.rs:2164-2493 | the encoders of the path, challenge, response and address frames write what the reader turns into the same record |
| `FrameCodecs.SpellsPlainAck` | noq-proto/src/frame.rs:1077-1117 | ACK and PATH_ACK without ECN counts read back as the same path, delay and ranges |
| `FrameCodecs.SpellsEcnAck` | noq-proto/src/frame.rs:1190-1259 | ACK and PATH_ACK with ECN counts take the ECN types and read back with the same counts |
| `FrameCodecs.SpellsClose` | noq-proto/src/frame.rs:935-988 | both close frames read back with the code, the type blamed and the part of the reason that was sent |
| `FrameCodecs.CloseFitsIff` | noq-proto/src/frame.rs:935-988 | a close frame stays within its limit if and only if its code takes at most two bytes more than the reason leaves unused |
| `FrameCodecs.CloseMayOverrun` | noq-proto/src/frame.rs:979-988 | a four-byte application error code makes ten bytes out of a limit of eight (concrete input) |
| `FrameCodecs.SpellsNewCid` | noq-proto/src/frame.rs:2015-2027 | (PATH_)NEW_CONNECTION_ID takes its type from the path ID and reads back |
| `FrameCodecs.SpellsRetire` | noq-proto/src/frame.rs:811-819 | (PATH_)RETIRE_CONNECTION_ID takes its type from the path ID and reads back |
| `FrameCodecs.SpellsBasic` | noq-proto/src/frame.rs:620-1871 | the encoders of every remaining frame, stream control and limits by direction, CRYPTO, NEW_TOKEN, DATAGRAM, ACK_FREQUENCY and signals, write what the reader turns into the same record |
| `FrameCodecs.EncoderAgreesWithReader` | noq-proto/src/frame.rs:582-2493 | every encoder, on every record and whatever type it chooses, writes a frame that the reader turns into that record, a close reason cut to what was sent; only a STREAM frame without length does not delimit itself |
| `FrameCodecs.MessageListRoundTrip` | noq-proto/src/frame.rs:1496-1736 | every list of records, each written by its own encoder and only the last a STREAM frame without length, is iterated back: as many frames, no error, the same records |
| `TransportParameters.Write` | noq-proto/src/transport_parameters.rs:329-447 | the loop writes the parameters in the given order |
| `TransportParameters.Read` | noq-proto/src/transport_parameters.rs:450-613 | the loop and the final checks are `ReadSpec` |
| `TransportParameters.ReservedIsNothingElse` | noq-proto/src/transport_parameters.rs:693-764 | no supported identifier other than the reserved one has the form 31 N + 27 |
| `TransportParameters.IdOfNumber` | noq-proto/src/transport_parameters.rs:772-808 | every supported identifier is recognised |
| `TransportParameters.TakesLenIffLengthIsTrue` | noq-proto/src/transport_parameters.rs:468-579 | an accepted entry takes exactly the bytes its length claims if and only if the encoding of its value has that length: always for fixed-size values and CIDs, by the tag of the integer for integers, by the length byte of the CID for a preferred address |
| `TransportParameters.LengthMayLie` | noq-proto/src/transport_parameters.rs:562-576 | an integer parameter that claims one byte and takes two is accepted (concrete input) |
| `TransportParameters.IllegalEntryIff` | noq-proto/src/transport_parameters.rs:481-560 | an entry is illegal rather than malformed if and only if its value has no meaning: a role above 2, no NAT traversal addresses, or a preferred address without address |
| `TransportRoundTrip.PreferredRoundTrip` | noq-proto/src/transport_parameters.rs:247-299 | a preferred address comes back if and only if it has an address and none that is all zero, and is illegal if and only if it has none |
| `TransportRoundTrip.SkipsGrease` | noq-proto/src/transport_parameters.rs:660-683 | a reserved parameter is skipped whatever it carries |
| `TransportRoundTrip.ApplyBack` | noq-proto/src/transport_parameters.rs:481-578 | reading the payload of any parameter sets that parameter and nothing else |
| `TransportRoundTrip.ParametersRoundTrip` | noq-proto/src/transport_parameters.rs:329-613 | for every order of the 24 parameters, with or without grease, the reader gets exactly the record back, or refuses it if and only if it is not legal for its side |
| `TransportLegal.ClientReadsServers` | noq-proto/src/transport_parameters.rs:581-613 | a client gets every record within the limits of section 18.2 of RFC 9000 back, whatever server-only parameters it has |
| `TransportLegal.ServerReadsClients` | noq-proto/src/transport_parameters.rs:600-604 | a server gets it back if and only if the four server-only parameters are absent, and refuses it otherwise |
| `TransportLegal.OutOfRangeIsRefused` | noq-proto/src/transport_parameters.rs:581-613 | both sides refuse every record outside the limits |
| `TransportLegal.FirstIllegalValues` | noq-proto/src/transport_parameters.rs:584-599 | each limit refuses its first illegal value: 21, 2^14, 1, 1199, 2^60 + 1 and one microsecond too many |
| `TransportLegal.LastLegalValues` | noq-proto/src/transport_parameters.rs:584-599 | each limit takes its last legal value |
| `TransportLegal.AcceptedIsInRange` | noq-proto/src/transport_parameters.rs:581-613 | whatever the bytes, what is accepted is within the limits and, on a server, without server-only parameters |
| `TransportLegal.NothingMeansDefaults` | noq-proto/src/transport_parameters.rs:35-67 | no parameters give the defaults |
| `TransportLegal.ParameterNumbers` | noq-proto/src/transport_parameters.rs:693-764 | the numbers of the parameters on the wire |
| `TransportRoundTrip.AcceptedWithoutDuplicates` | noq-proto/src/transport_parameters.rs:468-579 | in accepted input no parameter occurs twice except `grease_quic_bit`, `min_ack_delay` and the reserved one |
| `TransportRoundTrip.DuplicatesAreRefused` | noq-proto/src/transport_parameters.rs:468-579 | a second occurrence is accepted only for `grease_quic_bit` and `min_ack_delay` |
| `TransportRoundTrip.DuplicateFlagIsAccepted` | noq-proto/src/transport_parameters.rs:517-520 | `grease_quic_bit` twice is accepted (concrete input) |
| `ClientHello.Assemble` | noq-proto/src/endpoint.rs:1378-1393 | sorting and the loop over CRYPTO frames are `AssembleSpec` |
| `ClientHello.SortSorts` | noq-proto/src/endpoint.rs:1379-1379 | the frames are sorted by offset and are the same frames |
| `ClientHello.AssemblesIffGapless` | noq-proto/src/endpoint.rs:1378-1393 | reassembly succeeds if and only if every byte below every frame is covered, and reaches exactly as far as the frames |
| `ClientHello.PiecesReassemble` | noq-proto/src/endpoint.rs:1378-1393 | overlapping and reordered pieces that cover a stream give back the stream |
| `ClientHello.FindAlpn` | noq-proto/src/endpoint.rs:1400-1430 | the search loop over extensions is `FindAlpnSpec` |
| `ClientHello.FindsAlpn` | noq-proto/src/endpoint.rs:1400-1472 | in every well-formed ClientHello the protocol list of the first ALPN extension is found, and nothing if there is none |
| `ClientHello.IncomingAlpns.Next` | noq-proto/src/endpoint.rs:1357-1373 | one name, or one error, off everything still to come |
| `ClientHello.NamesRoundTrip` | noq-proto/src/endpoint.rs:1357-1373 | every list of names is iterated back in order |
| `ClientHello.ErrorEndsIff` | noq-proto/src/endpoint.rs:1364-1369 | a truncated name ends the iteration if and only if nothing follows its length byte |
| `ClientHello.ErrorIsNotTheEnd` | noq-proto/src/endpoint.rs:1364-1369 | after a truncated name the iterator goes on and reads its bytes as further names (concrete input) |
| `Alpns.FindNames` | noq-proto/src/endpoint.rs:1308-1335 | the loop over frames, the fast path and the slow path are `AlpnsSpec` |
| `Alpns.FastPathAgrees` | noq-proto/src/endpoint.rs:1324-1334 | the single-frame fast path gives what reassembly gives |
| `Alpns.NamesComeOut` | noq-proto/src/endpoint.rs:1308-1373 | however a packet cuts a ClientHello into overlapping, reordered CRYPTO pieces that cover it, its ALPN names come out in order |

## Left out

- Cryptography: keys, AEAD, header protection, HMAC and hashing are abstract functions with laws.
- Routing of connections with zero-length local CIDs by address, and the reset-token table: entries are overwritten without an ownership check, so exactness is not promised there.
- An endpoint without a server configuration, and replacing the configuration between calls.
- EndpointObjects.Endpoint.Handle: the version negotiation, stateless reset and close packets sent back are not modelled; such a datagram gives no event.
- EndpointObjects.Endpoint.Drained: the entries by address and by reset token that also go are not part of the model.
- The retry loop of `new_cid`: the CID it ends with is a parameter that is vacant; termination depends on the generator.
- EndpointObjects.Endpoint.NewCid: takes the vacant CID the generator loop ends with.
- Internals of `Slab`, `LruSlab` and the Bloom filter: a map with fresh keys, an order of keys, and a set of bits with an arbitrary hash.
- Alignment of the token log with memory sizes: whether an insertion outgrows the set's budget is a parameter of each call.
- Frames.Iter.constructor: `Iter::new` refuses an empty payload; the model iterates over nothing instead.
- ClientHello.SortSorts: `sort_by_key` is a function on values, not an in-place sort.
- Frame-type queries (`ty`, `is_ack_eliciting`, `is_1rtt`), size bounds and displays: single-branch facts.
- `TransportParameters::new`, resumption checks and `issue_cids_limit`: single-branch facts.
- Flow label and scope of IPv6 socket addresses, which the wire does not carry.
- `ArrayRangeSet` beyond insertion: removal, iteration over a sub-range and the inline representation.
- Connection state machine, streams, loss detection, congestion control, pacing and MTU discovery.
- Sockets, timers, async drivers and locks of the crates around `noq-proto`.
