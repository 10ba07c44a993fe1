/**
 What the window of remote connection IDs hands out, over every run (noq-proto/src/cid_queue.rs:60-136):
 the connection IDs and reset tokens are those of the frames that announced them, and a connection ID
 that was reserved for another path stays reserved, up to the one case in which it does not.
 */
module CidLedgers {
  import opened Wrappers
  import opened Net
  import opened CidQueues

  /** A run, what was last said about each sequence number, the numbers lent out by `next_reserved`,
      and whether a frame ever retired into the reserved region. */
  datatype Book = Book(s: Run, said: map<nat, CidData>, lent: set<nat>, overrun: bool)

  ghost function Open(cid: ConnectionId): Book {
    Book(Start(cid), map[0 := CidData(cid, None)], {}, false)
  }

  /** The frame retires the active CID and some, but not all, of the reserved region. */
  ghost predicate Overruns(w: Window, f: NewConnectionId) {
    w.offset < f.retirePriorTo <= w.offset + w.reserved
  }

  /** `k` is the smallest held sequence number above `from`. */
  ghost predicate IsNextHeld(w: Window, from: nat, k: nat) {
    from < k && k in w.held && forall j :: from < j < k ==> j !in w.held
  }

  ghost function StepBook(b: Book, op: Op): Book {
    if !b.s.w.Inv() || !Allowed(b.s.w, op) then b
    else
      match op
      case Insert(f) =>
        if InsertSpec(b.s.w, f).1.Err? then b
        else Book(Step(b.s, op), b.said[f.sequence := CidData(f.id, Some(f.resetToken))], b.lent, b.overrun || Overruns(b.s.w, f))
      case Next => b.(s := Step(b.s, op))
      case NextReserved =>
        var lent := set k | k in b.s.w.held && IsNextHeld(b.s.w, b.s.w.offset + b.s.w.reserved, k);
        b.(s := Step(b.s, op), lent := b.lent + lent)
      case UpdateInitial(cid) => b.(s := Step(b.s, op), said := b.said[0 := CidData(cid, None)])
  }

  ghost function RunBook(b: Book, ops: seq<Op>): Book
    decreases |ops|
  {
    if ops == [] then b else RunBook(StepBook(b, ops[0]), ops[1..])
  }

  /** The ledger only watches. */
  lemma {:induction false} BookWatches(b: Book, ops: seq<Op>)
    ensures RunBook(b, ops).s == RunOps(b.s, ops)
    decreases |ops|
  {
    if ops != [] {
      BookWatches(StepBook(b, ops[0]), ops[1..]);
    }
  }

  /** Every held CID, with its token, is the one last announced under its number. */
  ghost predicate Faithful(b: Book) {
    forall k :: k in b.s.w.held ==> k in b.said && b.said[k] == b.s.w.held[k]
  }

  /** Lent numbers were accepted, and the last reserved number is lent. */
  ghost predicate Lends(b: Book) {
    b.lent <= b.s.accepted && (b.s.w.reserved > 0 ==> b.s.w.offset + b.s.w.reserved in b.lent)
  }

  /** Lent numbers that are still held are reserved: neither active nor there to be lent again. */
  ghost predicate Separate(b: Book) {
    forall k :: k in b.lent && k in b.s.w.held ==> b.s.w.offset < k <= b.s.w.offset + b.s.w.reserved
  }

  ghost predicate Good(b: Book) {
    Conserved(b.s) && Faithful(b) && Lends(b) && (!b.overrun ==> Separate(b))
  }

  /** What is available is the next held number after the reserved region. */
  lemma AvailableIs(w: Window, k: nat)
    requires w.Inv()
    ensures Available(w) == Some(k) <==> IsNextHeld(w, w.offset + w.reserved, k)
  {
    if IsNextHeld(w, w.offset + w.reserved, k) {
      FirstHeldUnique(w.held, w.offset + w.reserved + 1, w.offset + LEN, k);
    }
  }

  /** A lent number that is no longer held lies below the active one. */
  lemma LentAndGone(b: Book, k: nat)
    requires Conserved(b.s) && Lends(b) && k in b.lent && k !in b.s.w.held
    ensures k < b.s.w.offset
  {
    var i :| RetiredIn(b.s.retired, i, k);
  }

  lemma InsertKept(w: Window, f: NewConnectionId)
    requires w.Inv() && f.WellFormed() && InsertSpec(w, f).1.Ok?
    ensures var w' := InsertSpec(w, f).0;
            && w'.Inv() && f.sequence in w'.held && w'.held[f.sequence] == CidData(f.id, Some(f.resetToken))
            && (forall k :: k != f.sequence ==> (k in w'.held <==> k in w.held && f.retirePriorTo <= k))
            && (forall k :: k in w'.held && k != f.sequence ==> w'.held[k] == w.held[k])
            && (f.retirePriorTo <= w.offset ==> w'.offset == w.offset && w'.reserved == w.reserved)
            && (f.retirePriorTo > w.offset ==> w'.reserved == 0 && f.retirePriorTo <= w'.offset && forall k :: k in w'.held ==> w'.offset <= k)
            && w.offset <= f.sequence
  {
    InsertKeepsInv(w, f);
  }

  lemma InsertFaithful(b: Book, f: NewConnectionId)
    requires Good(b) && f.WellFormed() && InsertSpec(b.s.w, f).1.Ok?
    ensures var b' := StepBook(b, Insert(f)); Faithful(b') && Lends(b')
  {
    InsertKept(b.s.w, f);
    StepInserts(b.s, f);
    hide InsertSpec, Conserved, Separate, Step, Overruns, Window.Inv;
    var (w, w') := (b.s.w, InsertSpec(b.s.w, f).0);
    FaithfulAfter(b.said, w.held, w'.held, f);
    assert w.reserved > 0 && w'.reserved > 0 ==> w'.offset + w'.reserved == w.offset + w.reserved;
  }

  lemma FaithfulAfter(said: map<nat, CidData>, held: map<nat, CidData>, held': map<nat, CidData>, f: NewConnectionId)
    requires forall k :: k in held ==> k in said && said[k] == held[k]
    requires f.sequence in held' && held'[f.sequence] == CidData(f.id, Some(f.resetToken))
    requires forall k :: k in held' && k != f.sequence ==> k in held && held'[k] == held[k]
    ensures var said' := said[f.sequence := CidData(f.id, Some(f.resetToken))];
            forall k :: k in held' ==> k in said' && said'[k] == held'[k]
  {
  }

  lemma StepInserts(s: Run, f: NewConnectionId)
    requires s.w.Inv() && f.WellFormed() && InsertSpec(s.w, f).1.Ok?
    ensures Step(s, Insert(f)).w == InsertSpec(s.w, f).0 && Step(s, Insert(f)).accepted == s.accepted + {f.sequence}
  {
    hide InsertSpec;
  }

  /** An accepted frame keeps what was lent separate, if and only if it does not retire into the
      reserved region. */
  lemma InsertSeparatesIff(b: Book, f: NewConnectionId)
    requires Conserved(b.s) && Lends(b) && Separate(b) && f.WellFormed() && InsertSpec(b.s.w, f).1.Ok?
    ensures Separate(StepBook(b, Insert(f))) <==> !Overruns(b.s.w, f)
  {
    InsertKept(b.s.w, f);
    if f.sequence in b.lent && f.sequence !in b.s.w.held {
      LentAndGone(b, f.sequence);
    }
    hide InsertSpec, RangesOk;
    if Overruns(b.s.w, f) {
      var last := b.s.w.offset + b.s.w.reserved;
      assert last in b.lent && last in StepBook(b, Insert(f)).s.w.held;
    }
  }

  lemma OthersKeepGood(b: Book, op: Op)
    requires Good(b) && !op.Insert?
    ensures var b' := StepBook(b, op); Faithful(b') && Lends(b') && (!b'.overrun ==> Separate(b'))
  {
    var w := b.s.w;
    if Available(w).Some? {
      AvailableIs(w, Available(w).value);
    }
    forall k: nat ensures IsNextHeld(w, w.offset + w.reserved, k) <==> Available(w) == Some(k) {
      AvailableIs(w, k);
    }
    hide Available, RangesOk;
  }

  lemma StepGood(b: Book, op: Op)
    requires Good(b)
    ensures Good(StepBook(b, op))
  {
    StepConserves(b.s, op);
    if !op.Insert? {
      OthersKeepGood(b, op);
    } else if op.f.WellFormed() && InsertSpec(b.s.w, op.f).1.Ok? {
      InsertFaithful(b, op.f);
      if !b.overrun {
        InsertSeparatesIff(b, op.f);
      }
    }
    hide Conserved, Faithful, Lends, Separate, InsertSpec, Step;
  }

  lemma {:induction false} RunGood(b: Book, ops: seq<Op>)
    requires Good(b)
    ensures Good(RunBook(b, ops))
    decreases |ops|
  {
    hide Good, StepBook;
    if ops != [] {
      StepGood(b, ops[0]);
      RunGood(StepBook(b, ops[0]), ops[1..]);
    }
  }

  /** After any run, every held number has the CID and token of the last frame accepted for it. */
  lemma HeldIsWhatWasSaid(cid: ConnectionId, ops: seq<Op>, k: nat)
    ensures var b := RunBook(Open(cid), ops);
            k in b.s.w.held ==> k in b.said && b.s.w.held[k] == b.said[k]
  {
    RunGood(Open(cid), ops);
  }

  /** After any run, a frame is refused if and only if its number lies below the active one or five or
      more above the active one and above what it retires.  Otherwise it hands out nothing if it
      retires nothing, and if it does, the numbers from the active one on, up to five, and the token of
      the frame that announced the CID that is active from then on: the first one held that the
      frame does not retire. */
  lemma InsertHandsOutActiveToken(cid: ConnectionId, ops: seq<Op>, f: NewConnectionId)
    requires f.WellFormed()
    ensures var b := RunBook(Open(cid), ops);
            var b' := StepBook(b, Insert(f));
            && b.s.w.Inv()
            && var (w, (w', r)) := (b.s.w, InsertSpec(b.s.w, f));
            && (r == Err(Retired) <==> f.sequence < w.offset)
            && (r == Err(ExceedsLimit) <==> f.sequence >= w.offset + LEN && f.sequence >= f.retirePriorTo + LEN)
            && (r.Err? ==> w' == w)
            && (r.Ok? ==> b'.s.w == w' && b'.said == b.said[f.sequence := CidData(f.id, Some(f.resetToken))])
            && (r.Ok? ==> (r.value.None? <==> f.retirePriorTo <= w.offset))
            && (r.Ok? && r.value.Some? ==>
                  && r.value.value.range == Range(w.offset, if w'.offset <= w.offset + LEN then w'.offset else w.offset + LEN)
                  && w'.offset in b'.said && b'.said[w'.offset].token == Some(r.value.value.token)
                  && f.retirePriorTo <= w'.offset && w'.offset in w'.held
                  && (forall k :: k in w'.held <==> k == f.sequence || (k in w.held && f.retirePriorTo <= k))
                  && (forall k :: k in w'.held ==> w'.offset <= k))
  {
    RunGood(Open(cid), ops);
    var b := RunBook(Open(cid), ops);
    StepGood(b, Insert(f));
    if InsertSpec(b.s.w, f).1.Ok? {
      InsertKept(b.s.w, f);
    }
    hide RunBook, Conserved, Lends, Separate;
  }

  lemma NextHandsOutActiveTokenFrom(b: Book)
    requires Good(b)
    ensures b.s.w.Inv()
            && var (w, (w', r)) := (b.s.w, NextSpec(b.s.w));
            && (r.None? <==> forall k :: k in w.held ==> k <= w.offset + w.reserved)
            && (r.None? ==> w' == w)
            && (r.Some? ==>
                  && IsNextHeld(w, w.offset + w.reserved, w'.offset) && w'.reserved == 0
                  && r.value.range == Range(w.offset, w'.offset)
                  && w'.offset in b.said && b.said[w'.offset].token == Some(r.value.token)
                  && (!b.overrun ==> w'.offset !in b.lent))
  {
    NextIs(b.s.w);
    hide NextSpec, Lends;
    if NextSpec(b.s.w).1.Some? {
      SaidAndNotLent(b, NextSpec(b.s.w).0.offset);
    }
  }

  /** After any run, `next` moves on if and only if some CID is held past the reserved ones: to the first
      such, handing out its token and every number before it from the active one on. */
  lemma NextHandsOutActiveToken(cid: ConnectionId, ops: seq<Op>)
    ensures var b := RunBook(Open(cid), ops);
            && b.s.w.Inv()
            && var (w, (w', r)) := (b.s.w, NextSpec(b.s.w));
            && (r.None? <==> forall k :: k in w.held ==> k <= w.offset + w.reserved)
            && (r.None? ==> w' == w)
            && (r.Some? ==>
                  && IsNextHeld(w, w.offset + w.reserved, w'.offset) && w'.reserved == 0
                  && r.value.range == Range(w.offset, w'.offset)
                  && w'.offset in b.said && b.said[w'.offset].token == Some(r.value.token)
                  && (!b.overrun ==> w'.offset !in b.lent))
  {
    hide RunBook, Good, NextSpec, NextReservedSpec, IsNextHeld, Window.Inv;
    OpenGood(cid);
    RunGood(Open(cid), ops);
    NextHandsOutActiveTokenFrom(RunBook(Open(cid), ops));
  }

  lemma NextIs(w: Window)
    requires w.Inv()
    ensures var (w', r) := NextSpec(w);
            && (r.None? <==> forall k :: k in w.held ==> k <= w.offset + w.reserved)
            && (r.None? ==> w' == w)
            && (r.Some? ==>
                  && IsNextHeld(w, w.offset + w.reserved, w'.offset) && w'.reserved == 0
                  && r.value == Retirement(Range(w.offset, w'.offset), w.held[w'.offset].token.value))
  {
    if Available(w).Some? {
      AvailableIs(w, Available(w).value);
    }
  }

  lemma NextReservedIs(w: Window)
    requires w.Inv()
    ensures var (w', r) := NextReservedSpec(w);
            && (r.None? <==> forall k :: k in w.held ==> k <= w.offset + w.reserved)
            && w'.offset == w.offset && w'.held == w.held && (r.None? ==> w' == w)
            && (r.Some? ==>
                  var k := w'.offset + w'.reserved;
                  IsNextHeld(w, w.offset + w.reserved, k) && r.value == w.held[k].id)
  {
    if Available(w).Some? {
      AvailableIs(w, Available(w).value);
    }
  }

  lemma NextReservedLendsFrom(b: Book)
    requires Good(b)
    ensures b.s.w.Inv()
            && var (w, (w', r)) := (b.s.w, NextReservedSpec(b.s.w));
            && (r.None? <==> forall k :: k in w.held ==> k <= w.offset + w.reserved)
            && w'.offset == w.offset && w'.held == w.held && (r.None? ==> w' == w)
            && (r.Some? ==>
                  var k := w'.offset + w'.reserved;
                  && IsNextHeld(w, w.offset + w.reserved, k) && k != w.offset
                  && k in b.said && r.value == b.said[k].id
                  && (!b.overrun ==> k !in b.lent))
  {
    NextReservedIs(b.s.w);
    hide NextReservedSpec, Lends;
    if NextReservedSpec(b.s.w).1.Some? {
      var k := NextReservedSpec(b.s.w).0.offset + NextReservedSpec(b.s.w).0.reserved;
      SaidAndNotLent(b, k);
    }
  }

  /** After any run, `next_reserved` hands out a CID if and only if one is held past the reserved ones:
      that of the first such number, as it was announced.  The number becomes the last reserved one; it
      is not the active one, and unless a frame has retired into the reserved region it has not been
      lent before. */
  lemma NextReservedLends(cid: ConnectionId, ops: seq<Op>)
    ensures var b := RunBook(Open(cid), ops);
            && b.s.w.Inv()
            && var (w, (w', r)) := (b.s.w, NextReservedSpec(b.s.w));
            && (r.None? <==> forall k :: k in w.held ==> k <= w.offset + w.reserved)
            && w'.offset == w.offset && w'.held == w.held && (r.None? ==> w' == w)
            && (r.Some? ==>
                  var k := w'.offset + w'.reserved;
                  && IsNextHeld(w, w.offset + w.reserved, k) && k != w.offset
                  && k in b.said && r.value == b.said[k].id
                  && (!b.overrun ==> k !in b.lent))
  {
    hide RunBook, Good, NextSpec, NextReservedSpec, IsNextHeld, Window.Inv;
    OpenGood(cid);
    RunGood(Open(cid), ops);
    NextReservedLendsFrom(RunBook(Open(cid), ops));
  }

  lemma SaidAndNotLent(b: Book, k: nat)
    requires Good(b) && IsNextHeld(b.s.w, b.s.w.offset + b.s.w.reserved, k)
    ensures b.s.w.Inv() && k in b.said && b.said[k] == b.s.w.held[k] && (!b.overrun ==> k !in b.lent)
  {
    hide RangesOk;
  }

  /** Through every run in which no accepted frame retires into the reserved region, a CID that was lent
      and not retired is neither active nor lent again. */
  lemma LentStaysReserved(cid: ConnectionId, ops: seq<Op>, k: nat)
    ensures var b := RunBook(Open(cid), ops);
            !b.overrun && k in b.lent && k in b.s.w.held ==> b.s.w.offset < k <= b.s.w.offset + b.s.w.reserved
  {
    RunGood(Open(cid), ops);
  }

  /** The case in which it is not: 1 and 2 arrive, 1 is lent, and a frame retires 0.  Then the lent CID is
      the active one. */
  lemma LentBecomesActive(cid: ConnectionId, one: ConnectionId, two: ConnectionId, token: ResetToken)
    ensures var ops := [Insert(NewConnectionId(1, 0, one, token)), NextReserved, Insert(NewConnectionId(2, 1, two, token))];
            var b := RunBook(Open(cid), ops);
            b.overrun && b.lent == {1} && b.s.w.offset == 1
  {
    var f, g := NewConnectionId(1, 0, one, token), NewConnectionId(2, 1, two, token);
    var ops := [Insert(f), NextReserved, Insert(g)];
    var b0 := Open(cid);
    var b1 := StepBook(b0, Insert(f));
    var b2 := StepBook(b1, NextReserved);
    var b3 := StepBook(b2, Insert(g));
    assert RunBook(b0, ops) == b3 by {
      assert ops[1..] == [NextReserved, Insert(g)] && ops[1..][1..] == [Insert(g)] && ops[1..][1..][1..] == [];
      assert RunBook(b3, []) == b3;
      assert RunBook(b2, [Insert(g)]) == RunBook(b3, []);
      assert RunBook(b1, ops[1..]) == RunBook(b2, [Insert(g)]);
    }
    hide RunBook;
    OpenGood(cid);
    assert b1.s.w.offset == 0 && b1.s.w.reserved == 0 && b1.s.w.held.Keys == {0, 1};
    LendOne(b1);
    InsertKept(b2.s.w, g);
  }

  lemma OpenGood(cid: ConnectionId)
    ensures Good(Open(cid))
  {
  }

  lemma LendOne(b: Book)
    requires b.s.w.Inv() && b.s.w.offset == 0 && b.s.w.reserved == 0 && b.s.w.held.Keys == {0, 1} && b.lent == {}
    ensures var b' := StepBook(b, NextReserved); b'.lent == {1} && b'.s.w == b.s.w.(reserved := 1) && b'.overrun == b.overrun
  {
    AvailableIs(b.s.w, 1);
    assert forall k :: IsNextHeld(b.s.w, 0, k) <==> k == 1;
  }
}
