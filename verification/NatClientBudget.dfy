/**
 How often the NAT traversal client probes an address (noq-proto/src/n0_nat_traversal.rs:386-507).  The
 ten attempts belong to an advertisement, not to an address: the ledger below counts, over any run,
 what was queued and sent in the current round and which advertisements paid for it.
 */
module NatClientBudget {
  import opened Wrappers
  import opened Net
  import opened NatCommon
  import opened NatClients
  import opened NatClientRuns

  /** The client and the ledger of its current round: the calls that queued probes (`turns`), the
      addresses held when the round started, the advertisements accepted as news since then and their
      ids, the queueings of each id since the round started or it was last advertised, and for each
      canonical address the calls that queued it and the probes sent to it. */
  datatype Book = Book(
    c: Client,
    turns: nat,
    held: set<SocketAddr>,
    added: multiset<SocketAddr>,
    renewed: set<nat>,
    queued: multiset<nat>,
    calls: multiset<SocketAddr>,
    sent: multiset<SocketAddr>)

  const OPEN: Book := Book(FRESH, 0, {}, multiset{}, {}, multiset{}, multiset{}, multiset{})

  ghost function Reachable(remote: map<nat, Candidate>, ids: set<nat>, ipv6: bool): set<nat> {
    set i | i in ids && i in remote && ToLocal(remote[i].addr, ipv6).Some?
  }

  ghost function Addresses(remote: map<nat, Candidate>, ids: set<nat>): set<SocketAddr> {
    set i | i in ids && i in remote :: remote[i].addr
  }

  /** The advertisement is new to the client, or changes the address of a known id. */
  ghost predicate IsNews(c: Client, maxRemote: nat, id: nat, addr: SocketAddr) {
    var r := AddRemoteSpec(c, maxRemote, id, addr).1;
    r.Ok? && r.value.Some?
  }

  ghost function Record(b: Book, maxRemote: nat, maxLocal: nat, op: Op): Book
    requires b.c.round <= MAX_VARINT
  {
    var b' := b.(c := Apply(b.c, maxRemote, maxLocal, op));
    match op
    case Initiate(ipv6) =>
      if b.c.local == {} then b'
      else
        var ids := Reachable(b.c.remote, b.c.remote.Keys, ipv6);
        Book(b'.c, 1, Addresses(b.c.remote, b.c.remote.Keys), multiset{}, {},
             multiset(ids), multiset(Addresses(b.c.remote, ids)), multiset{})
    case Retry(ipv6) =>
      var ids := Reachable(b.c.remote, DueIds(b.c.remote), ipv6);
      b'.(turns := b.turns + 1,
          queued := b.queued + multiset(ids),
          calls := b.calls + multiset(Addresses(b.c.remote, ids)))
    case Send(remote, _) => b'.(sent := b.sent + multiset{ToCanonical(remote)})
    case AddRemote(id, addr) =>
      if !IsNews(b.c, maxRemote, id, addr) then b'
      else b'.(added := b.added + multiset{ToCanonical(addr)}, renewed := b.renewed + {id}, queued := b.queued[id := 0])
    case _ => b'
  }

  ghost function StepBook(b: Book, maxRemote: nat, maxLocal: nat, op: Op): Book {
    if b.c.round > MAX_VARINT || !Allowed(b.c, op) then b else Record(b, maxRemote, maxLocal, op)
  }

  ghost function RunBook(b: Book, maxRemote: nat, maxLocal: nat, ops: seq<Op>): Book
    decreases |ops|
  {
    if ops == [] then b else RunBook(StepBook(b, maxRemote, maxLocal, ops[0]), maxRemote, maxLocal, ops[1..])
  }

  /** The ledger only watches: its client is the client of the plain run. */
  lemma {:induction false} BookWatches(b: Book, run: Run, maxRemote: nat, maxLocal: nat, ops: seq<Op>)
    requires b.c == run.c
    ensures RunBook(b, maxRemote, maxLocal, ops).c == RunOps(run, maxRemote, maxLocal, ops).c
    decreases |ops|
  {
    if ops != [] {
      BookWatches(StepBook(b, maxRemote, maxLocal, ops[0]), Step(run, maxRemote, maxLocal, ops[0]), maxRemote, maxLocal, ops[1..]);
    }
  }

  // ------------------------------------------------------------------ retries left

  ghost function Left(x: Candidate): nat {
    if x.probe.Active? then x.probe.remaining else 0
  }

  /** Retries left of the ids in `ids`, together. */
  ghost function Total(remote: map<nat, Candidate>, ids: set<nat>): nat
    requires ids <= remote.Keys
  {
    if ids == {} then 0 else
      var i :| i in ids;
      Left(remote[i]) + Total(remote, ids - {i})
  }

  lemma {:induction false} TotalSplits(remote: map<nat, Candidate>, ids: set<nat>, i: nat)
    requires ids <= remote.Keys && i in ids
    ensures Total(remote, ids) == Left(remote[i]) + Total(remote, ids - {i})
    decreases ids
  {
    var j :| j in ids && Total(remote, ids) == Left(remote[j]) + Total(remote, ids - {j});
    if i != j {
      TotalSplits(remote, ids - {j}, i);
      TotalSplits(remote, ids - {i}, j);
      assert ids - {i} - {j} == ids - {j} - {i};
    }
  }

  /** Fewer ids with no more retries each have no more in total, and strictly fewer if one lost some. */
  lemma {:induction false} TotalShrinks(
    remote: map<nat, Candidate>, ids: set<nat>, remote': map<nat, Candidate>, ids': set<nat>)
    requires ids' <= ids <= remote.Keys && ids' <= remote'.Keys
    requires forall i :: i in ids' ==> Left(remote'[i]) <= Left(remote[i])
    ensures Total(remote', ids') <= Total(remote, ids)
    ensures (exists i :: i in ids' && Left(remote'[i]) < Left(remote[i])) ==> Total(remote', ids') < Total(remote, ids)
    decreases ids
  {
    if ids != {} {
      var i :| i in ids;
      TotalSplits(remote, ids, i);
      TotalShrinks(remote, ids - {i}, remote', ids' - {i});
      if i in ids' {
        TotalSplits(remote', ids', i);
      } else {
        assert ids' - {i} == ids';
      }
    }
  }

  // ------------------------------------------------------------------ the accounts

  /** Ids of `a` that were advertised since the round started. */
  ghost function RenewedIds(b: Book, a: SocketAddr): set<nat> {
    b.renewed * IdsOf(b.c, a)
  }

  ghost function QueuedFor(pending: set<SocketAddr>, a: SocketAddr): set<SocketAddr> {
    set r | r in pending && ToCanonical(r) == a
  }

  /** What the round itself pays for: one queueing per turn, ten at most, of an address held at its start. */
  ghost function Base(b: Book, a: SocketAddr): nat {
    if a !in b.held then 0 else if b.turns <= MAX_NAT_PROBE_ATTEMPTS then b.turns else MAX_NAT_PROBE_ATTEMPTS
  }

  /** Queueings and what renewed advertisements have left are within what was paid for; each queueing
      is sent at most once. */
  ghost predicate AddressAccounted(b: Book, a: SocketAddr) {
    && b.calls[a] + Total(b.c.remote, RenewedIds(b, a)) <= Base(b, a) + MAX_NAT_PROBE_ATTEMPTS * b.added[a]
    && b.calls[a] <= b.turns
    && b.sent[a] + |QueuedFor(b.c.pending, a)| <= b.calls[a]
  }

  ghost predicate IdAccounted(b: Book, i: nat) {
    && b.queued[i] <= MAX_NAT_PROBE_ATTEMPTS
    && (i in b.c.remote ==> b.queued[i] + Left(b.c.remote[i]) <= MAX_NAT_PROBE_ATTEMPTS)
    && (i in b.c.remote ==> IsCanonical(b.c.remote[i].addr))
    && (i in b.c.remote && i !in b.renewed ==>
          && b.c.remote[i].addr in b.held
          && (Left(b.c.remote[i]) > 0 ==> b.turns + Left(b.c.remote[i]) <= MAX_NAT_PROBE_ATTEMPTS))
  }

  ghost predicate Accounted(b: Book) {
    && b.c.round <= MAX_VARINT
    && (forall i: nat :: IdAccounted(b, i))
    && (forall a: SocketAddr :: AddressAccounted(b, a))
  }

  lemma StepAccountsId(b: Book, maxRemote: nat, maxLocal: nat, op: Op, i: nat)
    requires Accounted(b)
    ensures IdAccounted(StepBook(b, maxRemote, maxLocal, op), i)
  {
    hide ToLocal, ToCanonical, LocalForms, AddressAccounted;
    assert IdAccounted(b, i);
    if Allowed(b.c, op) {
      match op {
        case Initiate(ipv6) => InitiateAccountsId(b, maxRemote, maxLocal, ipv6, i);
        case Retry(ipv6) =>
        case AddRemote(_, addr) => CanonicalUndoesLocal(addr, true);
        case Respond(path, _, _) => CanonicalUndoesLocal(path.remote, true);
        case _ =>
      }
    }
  }

  lemma InitiateAccountsId(b: Book, maxRemote: nat, maxLocal: nat, ipv6: bool, i: nat)
    requires b.c.round <= MAX_VARINT && IdAccounted(b, i)
    ensures IdAccounted(Record(b, maxRemote, maxLocal, Initiate(ipv6)), i)
  {
    hide ToLocal, LocalForms;
    assert i in b.c.remote ==> b.c.remote[i].addr in Addresses(b.c.remote, b.c.remote.Keys);
  }

  /** A form queued for `a` is the local form of `a`. */
  lemma FormsOf(remote: map<nat, Candidate>, ids: set<nat>, ipv6: bool, a: SocketAddr)
    requires ids <= remote.Keys && forall i :: i in remote ==> IsCanonical(remote[i].addr)
    ensures var forms := QueuedFor(LocalForms(remote, ids, ipv6), a);
            var queued := a in Addresses(remote, Reachable(remote, ids, ipv6));
            && (queued ==> ToLocal(a, ipv6).Some? && forms == {ToLocal(a, ipv6).value})
            && (!queued ==> forms == {})
  {
    hide ToLocal, ToCanonical;
    forall i | i in remote
      ensures ToLocal(remote[i].addr, ipv6).Some? ==> ToCanonical(ToLocal(remote[i].addr, ipv6).value) == remote[i].addr
    {
      CanonicalUndoesLocal(remote[i].addr, ipv6);
    }
    var forms := QueuedFor(LocalForms(remote, ids, ipv6), a);
    forall r | r in forms
      ensures a in Addresses(remote, Reachable(remote, ids, ipv6)) && Some(r) == ToLocal(a, ipv6)
    {
      var i :| i in ids && i in remote && ToLocal(remote[i].addr, ipv6) == Some(r);
      assert i in Reachable(remote, ids, ipv6);
    }
    if a in Addresses(remote, Reachable(remote, ids, ipv6)) {
      var i :| i in Reachable(remote, ids, ipv6) && remote[i].addr == a;
      assert ToLocal(a, ipv6).value in LocalForms(remote, ids, ipv6);
    }
  }

  lemma CanonicalAddresses(b: Book)
    requires Accounted(b)
    ensures forall i :: i in b.c.remote ==> IsCanonical(b.c.remote[i].addr)
  {
    forall i | i in b.c.remote ensures IsCanonical(b.c.remote[i].addr) {
      assert IdAccounted(b, i);
    }
  }

  lemma InitiateAccounts(b: Book, maxRemote: nat, maxLocal: nat, ipv6: bool, a: SocketAddr)
    requires Accounted(b) && b.c.local != {}
    ensures AddressAccounted(Record(b, maxRemote, maxLocal, Initiate(ipv6)), a)
  {
    hide ToLocal, ToCanonical;
    CanonicalAddresses(b);
    FormsOf(b.c.remote, b.c.remote.Keys, ipv6, a);
    var b' := Record(b, maxRemote, maxLocal, Initiate(ipv6));
    assert RenewedIds(b', a) == {};
    var ids := Reachable(b.c.remote, b.c.remote.Keys, ipv6);
    assert a in Addresses(b.c.remote, ids) ==> a in b'.held;
  }

  /** If a retry queues `a` for an id advertised in this round, that id pays; otherwise the round does. */
  lemma RetryPays(b: Book, ipv6: bool, a: SocketAddr)
    requires Accounted(b)
    ensures var c' := RetrySpec(b.c, ipv6).0;
            var b' := b.(c := c', turns := b.turns + 1);
            var n := if a in Addresses(b.c.remote, Reachable(b.c.remote, DueIds(b.c.remote), ipv6)) then 1 else 0;
            n + Total(c'.remote, RenewedIds(b', a)) + Base(b, a) <= Total(b.c.remote, RenewedIds(b, a)) + Base(b', a)
  {
    hide ToLocal;
    var c' := RetrySpec(b.c, ipv6).0;
    var b' := b.(c := c', turns := b.turns + 1);
    assert RenewedIds(b', a) == RenewedIds(b, a);
    TotalShrinks(b.c.remote, RenewedIds(b, a), c'.remote, RenewedIds(b', a));
    var ids := Reachable(b.c.remote, DueIds(b.c.remote), ipv6);
    if a in Addresses(b.c.remote, ids) {
      var i :| i in ids && b.c.remote[i].addr == a;
      assert IdAccounted(b, i);
      if i in b.renewed {
        assert i in RenewedIds(b', a) && Left(c'.remote[i]) < Left(b.c.remote[i]);
      }
    }
  }

  lemma RetryAccounts(b: Book, maxRemote: nat, maxLocal: nat, ipv6: bool, a: SocketAddr)
    requires Accounted(b)
    ensures AddressAccounted(Record(b, maxRemote, maxLocal, Retry(ipv6)), a)
  {
    hide ToLocal, ToCanonical, Total, LocalForms, QueuedFor, IdAccounted, Reachable, Addresses, RenewedIds;
    assert AddressAccounted(b, a);
    CanonicalAddresses(b);
    FormsOf(b.c.remote, DueIds(b.c.remote), ipv6, a);
    RetryPays(b, ipv6, a);
    var b' := Record(b, maxRemote, maxLocal, Retry(ipv6));
    QueuedForBoth(b.c.pending, LocalForms(b.c.remote, DueIds(b.c.remote), ipv6), a);
    RenewedIdsOf(b', b.(c := b'.c, turns := b.turns + 1), a);
  }

  lemma QueuedForBoth(pending: set<SocketAddr>, forms: set<SocketAddr>, a: SocketAddr)
    ensures |QueuedFor(pending + forms, a)| <= |QueuedFor(pending, a)| + |QueuedFor(forms, a)|
  {
    hide ToCanonical;
    var x, y := QueuedFor(pending, a), QueuedFor(forms, a);
    assert QueuedFor(pending + forms, a) == x + y;
    assert |x + y| == |x| + |y| - |x * y|;
  }

  lemma RenewedIdsOf(b: Book, b': Book, a: SocketAddr)
    requires b.c == b'.c && b.renewed == b'.renewed
    ensures RenewedIds(b, a) == RenewedIds(b', a)
  {
  }

  lemma SendAccounts(b: Book, maxRemote: nat, maxLocal: nat, remote: SocketAddr, x: u64, a: SocketAddr)
    requires Accounted(b) && remote in b.c.pending
    ensures AddressAccounted(Record(b, maxRemote, maxLocal, Send(remote, x)), a)
  {
    hide ToCanonical, Total;
    assert AddressAccounted(b, a);
    var b' := Record(b, maxRemote, maxLocal, Send(remote, x));
    assert RenewedIds(b', a) == RenewedIds(b, a);
    if ToCanonical(remote) == a {
      assert QueuedFor(b'.c.pending, a) == QueuedFor(b.c.pending, a) - {remote};
    } else {
      assert QueuedFor(b'.c.pending, a) == QueuedFor(b.c.pending, a);
    }
  }

  /** A fresh budget for one more id. */
  lemma TotalGains(remote: map<nat, Candidate>, ids: set<nat>, id: nat, x: Candidate)
    requires ids <= remote.Keys && id !in ids
    ensures Total(remote[id := x], ids + {id}) <= Total(remote, ids) + Left(x)
  {
    var remote' := remote[id := x];
    TotalSplits(remote', ids + {id}, id);
    assert ids + {id} - {id} == ids;
    TotalShrinks(remote, ids, remote', ids);
  }

  lemma TotalForgets(remote: map<nat, Candidate>, ids: set<nat>, id: nat, x: Candidate)
    requires ids <= remote.Keys
    ensures Total(remote[id := x], ids - {id}) <= Total(remote, ids)
  {
    TotalShrinks(remote, ids, remote[id := x], ids - {id});
  }

  lemma AdvertiseAccounts(b: Book, maxRemote: nat, maxLocal: nat, id: nat, addr: SocketAddr, a: SocketAddr)
    requires Accounted(b)
    ensures AddressAccounted(Record(b, maxRemote, maxLocal, AddRemote(id, addr)), a)
  {
    hide ToCanonical, Total, QueuedFor, IdAccounted;
    assert AddressAccounted(b, a);
    var b' := Record(b, maxRemote, maxLocal, AddRemote(id, addr));
    var ids, ids' := RenewedIds(b, a), RenewedIds(b', a);
    var x := Candidate(ToCanonical(addr), Active(MAX_NAT_PROBE_ATTEMPTS));
    if !IsNews(b.c, maxRemote, id, addr) {
      assert ids' == ids;
    } else if x.addr == a {
      assert ids' == ids + {id};
      TotalGains(b.c.remote, ids, id, x);
    } else {
      assert ids' == ids - {id};
      TotalForgets(b.c.remote, ids, id, x);
    }
  }

  /** Nothing else queues, sends or renews. */
  lemma RestAccounts(b: Book, maxRemote: nat, maxLocal: nat, op: Op, a: SocketAddr)
    requires Accounted(b) && Allowed(b.c, op)
    requires op.AddLocal? || op.RemoveLocal? || op.RemoveRemote? || op.Respond? || (op.Initiate? && b.c.local == {})
    ensures AddressAccounted(Record(b, maxRemote, maxLocal, op), a)
  {
    hide ToCanonical;
    assert AddressAccounted(b, a);
    var b' := Record(b, maxRemote, maxLocal, op);
    assert RenewedIds(b', a) <= RenewedIds(b, a);
    TotalShrinks(b.c.remote, RenewedIds(b, a), b'.c.remote, RenewedIds(b', a));
  }

  lemma StepAccounts(b: Book, maxRemote: nat, maxLocal: nat, op: Op)
    requires Accounted(b)
    ensures Accounted(StepBook(b, maxRemote, maxLocal, op))
  {
    hide Total, IdAccounted, AddressAccounted, Record;
    var b' := StepBook(b, maxRemote, maxLocal, op);
    forall i: nat ensures IdAccounted(b', i) {
      StepAccountsId(b, maxRemote, maxLocal, op, i);
    }
    forall a: SocketAddr ensures AddressAccounted(b', a) {
      if Allowed(b.c, op) {
        match op {
          case Initiate(ipv6) =>
            if b.c.local == {} {
              RestAccounts(b, maxRemote, maxLocal, op, a);
            } else {
              InitiateAccounts(b, maxRemote, maxLocal, ipv6, a);
            }
          case Retry(ipv6) => RetryAccounts(b, maxRemote, maxLocal, ipv6, a);
          case Send(remote, x) => SendAccounts(b, maxRemote, maxLocal, remote, x, a);
          case AddRemote(id, addr) => AdvertiseAccounts(b, maxRemote, maxLocal, id, addr, a);
          case _ => RestAccounts(b, maxRemote, maxLocal, op, a);
        }
      }
    }
    StepKeepsRound(b, maxRemote, maxLocal, op);
  }

  lemma StepKeepsRound(b: Book, maxRemote: nat, maxLocal: nat, op: Op)
    requires b.c.round <= MAX_VARINT
    ensures StepBook(b, maxRemote, maxLocal, op).c.round <= MAX_VARINT
  {
  }

  lemma {:induction false} RunAccounts(b: Book, maxRemote: nat, maxLocal: nat, ops: seq<Op>)
    requires Accounted(b)
    ensures Accounted(RunBook(b, maxRemote, maxLocal, ops))
    decreases |ops|
  {
    hide Accounted;
    if ops != [] {
      StepAccounts(b, maxRemote, maxLocal, ops[0]);
      RunAccounts(StepBook(b, maxRemote, maxLocal, ops[0]), maxRemote, maxLocal, ops[1..]);
    }
  }

  lemma OpenAccounted()
    ensures Accounted(OPEN)
  {
    forall a: SocketAddr ensures AddressAccounted(OPEN, a) {
      assert RenewedIds(OPEN, a) == {};
      assert QueuedFor(OPEN.c.pending, a) == {};
    }
  }

  /** In every run, an id is queued at most ten times between advertisements and round starts: what
      was queued and what is left stay within ten. */
  lemma AtMostTenPerAdvertisement(maxRemote: nat, maxLocal: nat, ops: seq<Op>, i: nat)
    ensures var b := RunBook(OPEN, maxRemote, maxLocal, ops);
            && b.queued[i] <= MAX_NAT_PROBE_ATTEMPTS
            && (i in b.c.remote && b.c.remote[i].probe.Active? ==>
                  b.queued[i] + b.c.remote[i].probe.remaining <= MAX_NAT_PROBE_ATTEMPTS)
  {
    OpenAccounted();
    RunAccounts(OPEN, maxRemote, maxLocal, ops);
    assert IdAccounted(RunBook(OPEN, maxRemote, maxLocal, ops), i);
  }

  /** In every run, the probes sent to an address in one round are at most the calls that queued it,
      and those are at most ten for the round if the address was held when it started, plus ten for
      every advertisement of the address accepted as news since. */
  lemma ProbesArePaidFor(maxRemote: nat, maxLocal: nat, ops: seq<Op>, a: SocketAddr)
    ensures var b := RunBook(OPEN, maxRemote, maxLocal, ops);
            && b.sent[a] <= b.calls[a] <= b.turns
            && b.calls[a] <= MAX_NAT_PROBE_ATTEMPTS * ((if a in b.held then 1 else 0) + b.added[a])
  {
    OpenAccounted();
    RunAccounts(OPEN, maxRemote, maxLocal, ops);
    assert AddressAccounted(RunBook(OPEN, maxRemote, maxLocal, ops), a);
  }

  /** More than ten queueings of an address in one round need an advertisement of it within the round:
      one more if the client held the address when the round started, two otherwise. */
  lemma EleventhNeedsAnotherAdvertisement(maxRemote: nat, maxLocal: nat, ops: seq<Op>, a: SocketAddr)
    ensures var b := RunBook(OPEN, maxRemote, maxLocal, ops);
            b.calls[a] > MAX_NAT_PROBE_ATTEMPTS ==> b.added[a] >= (if a in b.held then 1 else 2)
  {
    ProbesArePaidFor(maxRemote, maxLocal, ops, a);
  }

  // ------------------------------------------------------------------ answered candidates

  /** Neither a new round nor an advertisement of `i`. */
  ghost predicate LeavesAlone(op: Op, i: nat) {
    !op.Initiate? && !(op.AddRemote? && op.id == i)
  }

  ghost predicate Rests(b: Book, i: nat, queued: nat) {
    b.queued[i] == queued && (i in b.c.remote ==> b.c.remote[i].probe.Succeeded?)
  }

  lemma StepRests(b: Book, maxRemote: nat, maxLocal: nat, op: Op, i: nat, queued: nat)
    requires Rests(b, i, queued) && LeavesAlone(op, i)
    ensures Rests(StepBook(b, maxRemote, maxLocal, op), i, queued)
  {
    hide ToLocal, ToCanonical, LocalForms, Addresses;
  }

  /** A candidate that answered stays answered and is not queued again, whatever happens, until a new
      round starts or its id is advertised anew. */
  lemma {:induction false} AnsweredIsNotRequeued(b: Book, maxRemote: nat, maxLocal: nat, ops: seq<Op>, i: nat, queued: nat)
    requires Rests(b, i, queued) && forall k :: 0 <= k < |ops| ==> LeavesAlone(ops[k], i)
    ensures Rests(RunBook(b, maxRemote, maxLocal, ops), i, queued)
    decreases |ops|
  {
    hide Rests, StepBook, LeavesAlone;
    if ops != [] {
      StepRests(b, maxRemote, maxLocal, ops[0], i, queued);
      AnsweredIsNotRequeued(StepBook(b, maxRemote, maxLocal, ops[0]), maxRemote, maxLocal, ops[1..], i, queued);
    }
  }

  // ------------------------------------------------------------------ the bound is attained

  lemma {:induction false} RunsCompose(b: Book, maxRemote: nat, maxLocal: nat, xs: seq<Op>, ys: seq<Op>)
    ensures RunBook(b, maxRemote, maxLocal, xs + ys) == RunBook(RunBook(b, maxRemote, maxLocal, xs), maxRemote, maxLocal, ys)
    decreases |xs|
  {
    if xs == [] {
      assert xs + ys == ys;
    } else {
      assert (xs + ys)[1..] == xs[1..] + ys;
      RunsCompose(StepBook(b, maxRemote, maxLocal, xs[0]), maxRemote, maxLocal, xs[1..], ys);
    }
  }

  /** `k` retries, each queued probe being sent. */
  function Attempts(r: SocketAddr, ipv6: bool, k: nat): seq<Op> {
    if k == 0 then [] else [Retry(ipv6), Send(r, 0)] + Attempts(r, ipv6, k - 1)
  }

  /** The address is withdrawn and advertised under the next id, `n` times, and probed until the retries run dry. */
  function Readvertised(a: SocketAddr, r: SocketAddr, ipv6: bool, id: nat, n: nat): seq<Op>
    decreases n
  {
    if n == 0 then []
    else [RemoveRemote(id), AddRemote(id + 1, a)] + (Attempts(r, ipv6, MAX_NAT_PROBE_ATTEMPTS) + Readvertised(a, r, ipv6, id + 1, n - 1))
  }

  function WholeRound(a: SocketAddr, r: SocketAddr, own: SocketAddr, ipv6: bool, n: nat): seq<Op> {
    [AddRemote(0, a), AddLocal(own), Initiate(ipv6), Send(r, 0)] + (Attempts(r, ipv6, MAX_NAT_PROBE_ATTEMPTS - 1) + Readvertised(a, r, ipv6, 0, n))
  }

  /** One candidate is left, nothing is queued, and the round has seen `n` more advertisements and `m` probes. */
  ghost predicate Probing(b: Book, id: nat, a: SocketAddr, left: nat, n: nat, m: nat) {
    && b.c.remote == map[id := Candidate(a, Active(left))]
    && b.c.pending == {}
    && b.c.round == 1
    && b.held == {a}
    && b.added[a] == n
    && b.sent[a] == m
  }

  lemma OneRetry(c: Client, id: nat, a: SocketAddr, r: SocketAddr, ipv6: bool, left: nat)
    requires c.remote == map[id := Candidate(a, Active(left))] && left > 0 && c.pending == {} && ToLocal(a, ipv6) == Some(r)
    ensures RetrySpec(c, ipv6).0 == c.(remote := map[id := Candidate(a, Active(left - 1))], pending := {r})
  {
    hide ToLocal;
    assert DueIds(c.remote) == {id};
    assert LocalForms(c.remote, {id}, ipv6) == {r};
    assert RetryAll(c.remote, ipv6) == map[id := Candidate(a, Active(left - 1))];
  }

  lemma OneAttempt(b: Book, maxRemote: nat, maxLocal: nat, id: nat, a: SocketAddr, r: SocketAddr, ipv6: bool, left: nat, n: nat, m: nat)
    requires Probing(b, id, a, left, n, m) && left > 0 && IsCanonical(a) && ToLocal(a, ipv6) == Some(r)
    ensures var b' := StepBook(StepBook(b, maxRemote, maxLocal, Retry(ipv6)), maxRemote, maxLocal, Send(r, 0));
            Probing(b', id, a, left - 1, n, m + 1)
  {
    hide ToLocal, ToCanonical;
    CanonicalUndoesLocal(a, ipv6);
    OneRetry(b.c, id, a, r, ipv6, left);
    hide RetrySpec, Reachable, Addresses;
  }

  lemma {:induction false} AttemptsSend(
    b: Book, maxRemote: nat, maxLocal: nat, id: nat, a: SocketAddr, r: SocketAddr, ipv6: bool, left: nat, n: nat, m: nat, k: nat)
    requires Probing(b, id, a, left, n, m) && k <= left && IsCanonical(a) && ToLocal(a, ipv6) == Some(r)
    ensures Probing(RunBook(b, maxRemote, maxLocal, Attempts(r, ipv6, k)), id, a, left - k, n, m + k)
    decreases k
  {
    hide Probing, StepBook, ToLocal;
    if k > 0 {
      var b1 := StepBook(b, maxRemote, maxLocal, Retry(ipv6));
      var b2 := StepBook(b1, maxRemote, maxLocal, Send(r, 0));
      OneAttempt(b, maxRemote, maxLocal, id, a, r, ipv6, left, n, m);
      AttemptsSend(b2, maxRemote, maxLocal, id, a, r, ipv6, left - 1, n, m + 1, k - 1);
      TwoSteps(b, maxRemote, maxLocal, Retry(ipv6), Send(r, 0), Attempts(r, ipv6, k - 1));
    }
  }

  lemma TwoSteps(b: Book, maxRemote: nat, maxLocal: nat, x: Op, y: Op, rest: seq<Op>)
    ensures RunBook(b, maxRemote, maxLocal, [x, y] + rest) ==
            RunBook(StepBook(StepBook(b, maxRemote, maxLocal, x), maxRemote, maxLocal, y), maxRemote, maxLocal, rest)
  {
    var ops := [x, y] + rest;
    assert ops[0] == x && ops[1..] == [y] + rest;
    assert ([y] + rest)[1..] == rest;
  }

  lemma Readvertise(b: Book, maxRemote: nat, maxLocal: nat, id: nat, a: SocketAddr, left: nat, n: nat, m: nat)
    requires Probing(b, id, a, left, n, m) && IsCanonical(a) && maxRemote >= 1
    ensures var b' := StepBook(StepBook(b, maxRemote, maxLocal, RemoveRemote(id)), maxRemote, maxLocal, AddRemote(id + 1, a));
            Probing(b', id + 1, a, MAX_NAT_PROBE_ATTEMPTS, n + 1, m)
  {
    assert ToCanonical(a) == a;
    hide ToCanonical, InitiateSpec, RetrySpec, ResponseSpec;
    var b1 := StepBook(b, maxRemote, maxLocal, RemoveRemote(id));
    assert b1.c.remote == map[];
  }

  lemma {:induction false} ReadvertisedProbes(
    b: Book, maxRemote: nat, maxLocal: nat, id: nat, a: SocketAddr, r: SocketAddr, ipv6: bool, left: nat, n: nat, m: nat, k: nat)
    requires Probing(b, id, a, left, n, m) && IsCanonical(a) && ToLocal(a, ipv6) == Some(r) && maxRemote >= 1
    ensures var b' := RunBook(b, maxRemote, maxLocal, Readvertised(a, r, ipv6, id, k));
            b'.held == {a} && b'.c.round == 1 && b'.added[a] == n + k && b'.sent[a] == m + MAX_NAT_PROBE_ATTEMPTS * k
    decreases k
  {
    hide StepBook, ToLocal, Attempts;
    if k > 0 {
      var tries, rest := Attempts(r, ipv6, MAX_NAT_PROBE_ATTEMPTS), Readvertised(a, r, ipv6, id + 1, k - 1);
      var b1 := StepBook(StepBook(b, maxRemote, maxLocal, RemoveRemote(id)), maxRemote, maxLocal, AddRemote(id + 1, a));
      var b2 := RunBook(b1, maxRemote, maxLocal, tries);
      TwoSteps(b, maxRemote, maxLocal, RemoveRemote(id), AddRemote(id + 1, a), tries + rest);
      Readvertise(b, maxRemote, maxLocal, id, a, left, n, m);
      AttemptsSend(b1, maxRemote, maxLocal, id + 1, a, r, ipv6, MAX_NAT_PROBE_ATTEMPTS, n + 1, m, MAX_NAT_PROBE_ATTEMPTS);
      RunsCompose(b1, maxRemote, maxLocal, tries, rest);
      ReadvertisedProbes(b2, maxRemote, maxLocal, id + 1, a, r, ipv6, 0, n + 1, m + MAX_NAT_PROBE_ATTEMPTS, k - 1);
    }
  }

  lemma FirstRound(c: Client, a: SocketAddr, r: SocketAddr, ipv6: bool)
    requires c.remote == map[0 := Candidate(a, Active(MAX_NAT_PROBE_ATTEMPTS))] && c.local != {} && c.round == 0
    requires ToLocal(a, ipv6) == Some(r)
    ensures InitiateSpec(c, ipv6).0 ==
            c.(round := 1, challenges := map[], pending := {r}, remote := map[0 := Candidate(a, Active(MAX_NAT_PROBE_ATTEMPTS - 1))])
  {
    hide ToLocal;
    assert c.remote.Keys == {0};
    assert LocalForms(c.remote, {0}, ipv6) == {r};
    assert RestartAll(c.remote, ipv6) == map[0 := Candidate(a, Active(MAX_NAT_PROBE_ATTEMPTS - 1))];
  }

  lemma FirstAdvertisement(maxRemote: nat, maxLocal: nat, a: SocketAddr, own: SocketAddr)
    requires IsCanonical(a) && maxRemote >= 1 && maxLocal >= 1
    ensures var c := StepBook(StepBook(OPEN, maxRemote, maxLocal, AddRemote(0, a)), maxRemote, maxLocal, AddLocal(own)).c;
            c.remote == map[0 := Candidate(a, Active(MAX_NAT_PROBE_ATTEMPTS))] && c.local != {} && c.round == 0
  {
    assert ToCanonical(a) == a;
    var b := StepBook(OPEN, maxRemote, maxLocal, AddRemote(0, a));
    ClientSteps(OPEN, maxRemote, maxLocal, AddRemote(0, a));
    ClientSteps(b, maxRemote, maxLocal, AddLocal(own));
    hide ToCanonical, StepBook, InitiateSpec, RetrySpec, ResponseSpec;
    assert ToCanonical(own) in StepBook(b, maxRemote, maxLocal, AddLocal(own)).c.local;
  }

  lemma ClientSteps(b: Book, maxRemote: nat, maxLocal: nat, op: Op)
    requires b.c.round <= MAX_VARINT && Allowed(b.c, op)
    ensures StepBook(b, maxRemote, maxLocal, op).c == Apply(b.c, maxRemote, maxLocal, op)
  {
    hide Apply;
  }

  lemma Opening(b: Book, maxRemote: nat, maxLocal: nat, a: SocketAddr, r: SocketAddr, ipv6: bool)
    requires IsCanonical(a) && ToLocal(a, ipv6) == Some(r)
    requires b.c.remote == map[0 := Candidate(a, Active(MAX_NAT_PROBE_ATTEMPTS))] && b.c.local != {} && b.c.round == 0
    ensures var b' := StepBook(StepBook(b, maxRemote, maxLocal, Initiate(ipv6)), maxRemote, maxLocal, Send(r, 0));
            Probing(b', 0, a, MAX_NAT_PROBE_ATTEMPTS - 1, 0, 1)
  {
    hide ToLocal, ToCanonical;
    CanonicalUndoesLocal(a, ipv6);
    FirstRound(b.c, a, r, ipv6);
    hide InitiateSpec, Reachable;
    assert Addresses(b.c.remote, b.c.remote.Keys) == {a};
  }

  /** The bound is attained, whatever the number of further advertisements: some run of a single round
      sends ten probes for holding the address and ten more for each of `n` advertisements. */
  lemma BoundIsAttained(maxRemote: nat, maxLocal: nat, a: SocketAddr, r: SocketAddr, own: SocketAddr, ipv6: bool, n: nat)
    requires IsCanonical(a) && ToLocal(a, ipv6) == Some(r) && maxRemote >= 1 && maxLocal >= 1
    ensures var b := RunBook(OPEN, maxRemote, maxLocal, WholeRound(a, r, own, ipv6, n));
            b.c.round == 1 && b.held == {a} && b.added[a] == n && b.sent[a] == b.calls[a] == MAX_NAT_PROBE_ATTEMPTS * (1 + n)
  {
    hide StepBook, ToLocal, Attempts, Readvertised;
    var tries, rest := Attempts(r, ipv6, MAX_NAT_PROBE_ATTEMPTS - 1), Readvertised(a, r, ipv6, 0, n);
    var b1 := StepBook(StepBook(OPEN, maxRemote, maxLocal, AddRemote(0, a)), maxRemote, maxLocal, AddLocal(own));
    var b2 := StepBook(StepBook(b1, maxRemote, maxLocal, Initiate(ipv6)), maxRemote, maxLocal, Send(r, 0));
    var ops := [Initiate(ipv6), Send(r, 0)] + (tries + rest);
    assert WholeRound(a, r, own, ipv6, n) == [AddRemote(0, a), AddLocal(own)] + ops;
    TwoSteps(OPEN, maxRemote, maxLocal, AddRemote(0, a), AddLocal(own), ops);
    TwoSteps(b1, maxRemote, maxLocal, Initiate(ipv6), Send(r, 0), tries + rest);
    FirstAdvertisement(maxRemote, maxLocal, a, own);
    Opening(b1, maxRemote, maxLocal, a, r, ipv6);
    RunsCompose(b2, maxRemote, maxLocal, tries, rest);
    AttemptsSend(b2, maxRemote, maxLocal, 0, a, r, ipv6, MAX_NAT_PROBE_ATTEMPTS - 1, 0, 1, MAX_NAT_PROBE_ATTEMPTS - 1);
    ReadvertisedProbes(RunBook(b2, maxRemote, maxLocal, tries), maxRemote, maxLocal, 0, a, r, ipv6, 0, 0, MAX_NAT_PROBE_ATTEMPTS, n);
    ProbesArePaidFor(maxRemote, maxLocal, WholeRound(a, r, own, ipv6, n), a);
  }

  /** Concretely: 192.0.2.1:443, withdrawn and advertised once more, gets twenty probes in the first round. */
  lemma TwentyProbesInOneRound()
    ensures var a := SocketAddr(V4(0xC0000201), 443);
            var own := SocketAddr(V4(0xC0000202), 443);
            var b := RunBook(OPEN, 1, 1, WholeRound(a, a, own, false, 1));
            b.c.round == 1 && b.sent[a] == 20 > MAX_NAT_PROBE_ATTEMPTS
  {
    var a, own := SocketAddr(V4(0xC0000201), 443), SocketAddr(V4(0xC0000202), 443);
    BoundIsAttained(1, 1, a, a, own, false, 1);
  }
}
