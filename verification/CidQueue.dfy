/**
 The window of remote connection IDs (noq-proto/src/cid_queue.rs).

 `Window` is the reference: a partial map from sequence number to connection ID on
 `[offset, offset + LEN)`.  `CidQueue` is the five-slot ring buffer of the implementation; every
 method is proved to act on its `View()` as the map operation of the same name.
 */
module CidQueues {
  import opened Wrappers
  import opened Net

  const LEN: nat := 5

  datatype CidData = CidData(id: ConnectionId, token: Option<ResetToken>)

  /** A NEW_CONNECTION_ID frame as the frame reader hands it over. */
  datatype NewConnectionId = NewConnectionId(
    sequence: nat, retirePriorTo: nat, id: ConnectionId, resetToken: ResetToken)
  {
    /** The frame reader rejects anything else (noq-proto/src/frame.rs:1978). */
    predicate WellFormed() {
      retirePriorTo <= sequence
    }
  }

  datatype InsertError = Retired | ExceedsLimit

  /** Half-open range of sequence numbers. */
  datatype Range = Range(start: nat, end: nat) {
    predicate Contains(k: nat) {
      start <= k < end
    }
  }

  // ------------------------------------------------------------------ reference: a partial map

  datatype Window = Window(held: map<nat, CidData>, offset: nat, reserved: nat) {

    /** The active and the last reserved CID are held, everything held is in the window, and only
        the initial CID may lack a reset token. */
    ghost predicate Inv() {
      && offset in held
      && offset + reserved in held
      && (forall k :: k in held ==> offset <= k < offset + LEN)
      && (forall k :: k in held && 0 < k ==> held[k].token.Some?)
    }
  }

  /** `k` is the smallest held sequence number in `[from, limit)`. */
  ghost predicate IsFirstHeld(held: map<nat, CidData>, from: nat, limit: nat, k: nat) {
    from <= k < limit && k in held && forall j :: from <= j < k ==> j !in held
  }

  /** Smallest held sequence number in `[from, limit)`, if there is one. */
  ghost function FirstHeld(held: map<nat, CidData>, from: nat, limit: nat): (r: Option<nat>)
    ensures r.Some? ==> IsFirstHeld(held, from, limit, r.value)
    ensures r.None? <==> forall k :: from <= k < limit ==> k !in held
    decreases limit - from
  {
    if from >= limit then None
    else if from in held then Some(from)
    else FirstHeld(held, from + 1, limit)
  }

  lemma FirstHeldUnique(held: map<nat, CidData>, from: nat, limit: nat, k: nat)
    requires IsFirstHeld(held, from, limit, k)
    ensures FirstHeld(held, from, limit) == Some(k)
  {
  }

  ghost function HeldFrom(held: map<nat, CidData>, from: nat): map<nat, CidData> {
    map k | k in held && from <= k :: held[k]
  }

  datatype Retirement = Retirement(range: Range, token: ResetToken)

  ghost function Edge(w: Window, f: NewConnectionId): nat {
    if f.retirePriorTo <= w.offset then w.offset else f.retirePriorTo
  }

  ghost function HeldAfter(w: Window, f: NewConnectionId): map<nat, CidData> {
    HeldFrom(w.held, Edge(w, f))[f.sequence := CidData(f.id, Some(f.resetToken))]
  }

  /** What `insert` means on the map: drop everything below `retirePriorTo`, add the new CID, and
      if the active CID went, make the smallest survivor active. */
  ghost function InsertSpec(w: Window, f: NewConnectionId)
    : (r: (Window, Result<Option<Retirement>, InsertError>))
    requires w.Inv() && f.WellFormed()
  {
    if f.sequence < w.offset then (w, Err(Retired))
    else if f.sequence >= Edge(w, f) + LEN then (w, Err(ExceedsLimit))
    else if f.retirePriorTo <= w.offset then (Window(HeldAfter(w, f), w.offset, w.reserved), Ok(None))
    else
      SurvivorExists(w, f);
      Retiring(w, f, FirstHeld(HeldAfter(w, f), f.retirePriorTo, f.retirePriorTo + LEN).value)
  }

  ghost function Retiring(w: Window, f: NewConnectionId, active: nat)
    : (Window, Result<Option<Retirement>, InsertError>)
    requires active in HeldAfter(w, f) && HeldAfter(w, f)[active].token.Some? && w.offset <= active
  {
    var end := if active <= w.offset + LEN then active else w.offset + LEN;
    (Window(HeldAfter(w, f), active, 0),
     Ok(Some(Retirement(Range(w.offset, end), HeldAfter(w, f)[active].token.value))))
  }

  /** A frame that retires the active CID leaves one to take its place: its own, at the least. */
  lemma SurvivorExists(w: Window, f: NewConnectionId)
    requires w.Inv() && f.WellFormed() && w.offset < f.retirePriorTo
    requires f.sequence < f.retirePriorTo + LEN
    ensures FirstHeld(HeldAfter(w, f), f.retirePriorTo, f.retirePriorTo + LEN).Some?
    ensures forall k :: k in HeldAfter(w, f) && f.retirePriorTo <= k ==> HeldAfter(w, f)[k].token.Some?
  {
    assert f.sequence in HeldAfter(w, f);
  }

  /** First CID after the reserved region. */
  ghost function Available(w: Window): Option<nat> {
    FirstHeld(w.held, w.offset + w.reserved + 1, w.offset + LEN)
  }

  ghost function NextSpec(w: Window): (r: (Window, Option<Retirement>))
    requires w.Inv()
  {
    match Available(w)
    case None => (w, None)
    case Some(k) =>
      (Window(HeldFrom(w.held, k), k, 0),
       Some(Retirement(Range(w.offset, k), w.held[k].token.value)))
  }

  ghost function NextReservedSpec(w: Window): (r: (Window, Option<ConnectionId>))
    requires w.Inv()
  {
    match Available(w)
    case None => (w, None)
    case Some(k) => (w.(reserved := k - w.offset), Some(w.held[k].id))
  }

  ghost function UpdateInitialSpec(w: Window, cid: ConnectionId): Window {
    w.(held := w.held[w.offset := CidData(cid, None)])
  }

  lemma InsertKeepsInv(w: Window, f: NewConnectionId)
    requires w.Inv() && f.WellFormed()
    ensures InsertSpec(w, f).0.Inv()
  {
    if w.offset < f.retirePriorTo && w.offset <= f.sequence < f.retirePriorTo + LEN {
      SurvivorExists(w, f);
    }
  }

  lemma NextKeepsInv(w: Window)
    requires w.Inv()
    ensures NextSpec(w).0.Inv()
    ensures NextReservedSpec(w).0.Inv()
  {
  }

  // ------------------------------------------------------------------ the ring buffer

  /** Slot `steps` places after slot `start`. */
  function Ring(start: nat, steps: nat): (slot: nat)
    ensures slot < LEN
  {
    (start + steps) % 5
  }

  lemma RingShift(c: nat, a: nat)
    ensures forall b: nat :: Ring(Ring(c, a), b) == Ring(c, a + b)
  {
  }

  lemma RingInjective(c: nat)
    ensures forall a: nat, b: nat :: a < LEN && b < LEN && Ring(c, a) == Ring(c, b) ==> a == b
  {
  }

  lemma RingMod(c: nat, a: nat)
    ensures Ring(c, a) == Ring(c, a % 5)
  {
  }

  /** Places from slot `a` on to slot `b`. */
  function Distance(a: nat, b: nat): int {
    if b >= a then b - a else b + LEN - a
  }

  lemma DistanceGrows(a: nat, b: nat, i: nat)
    requires a < LEN && b < LEN && Distance(a, b) + i < LEN
    ensures Distance(a, Ring(b, i)) == Distance(a, b) + i && Ring(a, Distance(a, b) + i) == Ring(b, i)
  {
  }

  /** Slot of sequence number `k` when slot `c` holds sequence number `offset`. */
  ghost function SlotOf(c: nat, offset: nat, k: nat): (r: nat)
    requires offset <= k
    ensures r < LEN
  {
    Ring(c, k - offset)
  }

  /** The partial map stored in ring `b` when slot `c` holds sequence number `offset`. */
  ghost function Contents(b: seq<Option<CidData>>, c: nat, offset: nat): (m: map<nat, CidData>)
    requires |b| == LEN
  {
    map k: nat | offset <= k < offset + LEN && b[SlotOf(c, offset, k)].Some? :: b[SlotOf(c, offset, k)].value
  }

  /** Emptying the first `n` slots drops the first `n` sequence numbers. */
  lemma ClearRing(b: seq<Option<CidData>>, b': seq<Option<CidData>>, c: nat, offset: nat, n: nat)
    requires |b| == |b'| == LEN && n <= LEN
    requires forall s: nat :: s < n ==> b'[Ring(c, s)] == None
    requires forall s: nat :: n <= s < LEN ==> b'[Ring(c, s)] == b[Ring(c, s)]
    ensures Contents(b', c, offset) == HeldFrom(Contents(b, c, offset), offset + n)
  {
    var m, m' := Contents(b, c, offset), Contents(b', c, offset);
    forall k: nat
      ensures k in m' <==> k in HeldFrom(m, offset + n)
      ensures k in m' ==> m'[k] == m[k]
    {
      if offset <= k < offset + LEN {
        assert b'[Ring(c, k - offset)] == if k - offset < n then None else b[Ring(c, k - offset)];
      }
    }
  }

  /** Moving the base past empty slots leaves the map unchanged. */
  lemma AdvanceRing(b: seq<Option<CidData>>, c: nat, offset: nat, i: nat)
    requires |b| == LEN
    requires forall s: nat :: s < i && s < LEN ==> b[Ring(c, s)] == None
    ensures Contents(b, Ring(c, i), offset + i) == Contents(b, c, offset)
  {
    hide Ring;
    var m, m' := Contents(b, c, offset), Contents(b, Ring(c, i), offset + i);
    RingShift(c, i);
    forall k: nat
      ensures k in m' <==> k in m
      ensures k in m ==> m'[k] == m[k]
    {
      if offset + i <= k < offset + i + LEN {
        assert Ring(Ring(c, i), k - (offset + i)) == Ring(c, k - offset);
        if offset + LEN <= k {
          RingMod(c, k - offset);
          assert b[Ring(c, (k - offset) % 5)] == None;
        }
      } else if offset <= k < offset + LEN && k < offset + i {
        assert b[Ring(c, k - offset)] == None;
      }
    }
  }

  /** Nothing is held past the last slot. */
  lemma BeyondTheRing(b: seq<Option<CidData>>, c: nat, offset: nat, n: nat)
    requires |b| == LEN
    ensures HeldFrom(Contents(b, c, offset), offset + if n < LEN then n else LEN) == HeldFrom(Contents(b, c, offset), offset + n)
  {
  }

  /** Writing the slot `s` places from the base updates the map at `offset + s`. */
  lemma WriteRing(b: seq<Option<CidData>>, c: nat, offset: nat, s: nat, d: CidData)
    requires |b| == LEN && s < LEN
    ensures Contents(b[Ring(c, s) := Some(d)], c, offset) == Contents(b, c, offset)[offset + s := d]
  {
    var b' := b[Ring(c, s) := Some(d)];
    var m, m' := Contents(b, c, offset), Contents(b', c, offset);
    forall k: nat
      ensures k in m' <==> k in m || k == offset + s
      ensures k in m' ==> m'[k] == if k == offset + s then d else m[k]
    {
      if offset <= k < offset + LEN {
        assert Ring(c, k - offset) == Ring(c, s) <==> k - offset == s;
      }
    }
  }

  class CidQueue {
    const buffer: array<Option<CidData>>
    var cursor: nat
    var offset: nat
    var cursorReserved: nat

    ghost function ReservedLenSpec(): int
      reads this
    {
      Distance(cursor, cursorReserved)
    }

    ghost predicate Shape()
      reads this
    {
      buffer.Length == LEN && cursor < LEN && cursorReserved < LEN
    }

    ghost function View(): Window
      reads this, buffer
      requires Shape()
    {
      Window(Contents(buffer[..], cursor, offset), offset, ReservedLenSpec())
    }

    ghost predicate Valid()
      reads this, buffer
    {
      Shape() && View().Inv()
    }

    constructor (cid: ConnectionId)
      ensures Valid() && fresh(buffer)
      ensures View() == Window(map[0 := CidData(cid, None)], 0, 0)
    {
      buffer := new Option<CidData>[LEN](_ => None);
      cursor, offset, cursorReserved := 0, 0, 0;
      new;
      buffer[0] := Some(CidData(cid, None));
    }

    method ReservedLen() returns (n: nat)
      requires Shape()
      ensures n == ReservedLenSpec() < LEN
    {
      if cursorReserved >= cursor {
        n := cursorReserved - cursor;
      } else {
        n := cursorReserved + LEN - cursor;
      }
    }

    /** First item of `iter_from_active`: the number of steps from the cursor. */
    method FirstFromActive(ghost witnessStep: nat) returns (i: nat)
      requires Shape()
      requires witnessStep < LEN && buffer[Ring(cursor, witnessStep)].Some?
      ensures i <= witnessStep && buffer[Ring(cursor, i)].Some?
      ensures forall s: nat :: s < i ==> buffer[Ring(cursor, s)].None?
    {
      i := 0;
      while buffer[Ring(cursor, i)].None?
        invariant i <= witnessStep
        invariant forall s: nat :: s < i ==> buffer[Ring(cursor, s)].None?
        decreases LEN - i
      {
        i := i + 1;
      }
    }

    lemma ReservedSlots(s: nat)
      requires Shape()
      ensures SlotOf(cursor, offset, offset + ReservedLenSpec() + s) == Ring(cursorReserved, s)
    {
      RingShift(cursor, ReservedLenSpec());
    }

    /** `iter_from_reserved().nth(1)`: steps from `cursorReserved` to the first available CID. */
    method SecondFromReserved() returns (r: Option<nat>)
      requires Valid()
      ensures r.Some? == Available(View()).Some?
      ensures r.Some? ==>
                && 0 < r.value < LEN - ReservedLenSpec()
                && offset + ReservedLenSpec() + r.value == Available(View()).value
                && Ring(cursorReserved, r.value) == SlotOf(cursor, offset, Available(View()).value)
                && buffer[Ring(cursorReserved, r.value)] == Some(View().held[Available(View()).value])
    {
      hide Ring;
      var reserved := ReservedLen();
      var count, step := 0, 0;
      ReservedSlots(0);
      assert offset + reserved in View().held;
      while step < LEN - reserved
        invariant step <= LEN - reserved
        invariant count == if step == 0 then 0 else 1
        invariant forall k :: offset + reserved < k < offset + reserved + step ==> k !in View().held
      {
        ReservedSlots(step);
        if buffer[Ring(cursorReserved, step)].Some? {
          if count == 1 {
            assert offset + reserved + step in View().held;
            return Some(step);
          }
          count := count + 1;
        }
        step := step + 1;
      }
      return None;
    }

    /** What the peer's frame adds to the window, and what it retires. */
    method Insert(f: NewConnectionId) returns (r: Result<Option<Retirement>, InsertError>)
      requires Valid() && f.WellFormed()
      modifies this, buffer
      ensures Valid()
      ensures (View(), r) == InsertSpec(old(View()), f)
    {
      hide Contents, Distance;
      ghost var w := View();
      if f.sequence < offset {
        return Err(Retired);
      }
      var index := f.sequence - offset;
      var retiredCount := if f.retirePriorTo >= offset then f.retirePriorTo - offset else 0;
      if index >= LEN + retiredCount {
        return Err(ExceedsLimit);
      }
      var origOffset := offset;
      var token := DiscardAndRecord(f, retiredCount, index);
      InsertKeepsInv(w, f);
      if retiredCount == 0 {
        assert View() == InsertSpec(w, f).0;
        return Ok(None);
      }
      FirstHeldUnique(HeldAfter(w, f), f.retirePriorTo, f.retirePriorTo + LEN, offset);
      assert View() == Window(HeldAfter(w, f), offset, 0);
      var end := if offset <= origOffset + LEN then offset else origOffset + LEN;
      return Ok(Some(Retirement(Range(origOffset, end), token.value)));
    }

    /** Discard `retiredCount` CIDs, record the new one and, if the active CID was retired, activate
        the first known CID that was not; returns its reset token. */
    method DiscardAndRecord(f: NewConnectionId, retiredCount: nat, index: nat) returns (token: Option<ResetToken>)
      requires Shape() && f.WellFormed() && f.sequence == offset + index
      requires Edge(View(), f) == offset + retiredCount && index < retiredCount + LEN
      modifies this, buffer
      ensures Shape()
      ensures View().held == HeldAfter(old(View()), f)
      ensures retiredCount == 0 ==> View().offset == old(View().offset) && View().reserved == old(View().reserved)
      ensures 0 < retiredCount ==>
                && IsFirstHeld(View().held, f.retirePriorTo, f.retirePriorTo + LEN, offset)
                && View().reserved == 0
                && token == View().held[offset].token
    {
      token := None;
      ghost var held := HeldAfter(View(), f);
      ClearAndRecord(retiredCount, index, CidData(f.id, Some(f.resetToken)));
      ghost var b := buffer[..];
      assert Contents(b, Ring(cursor, retiredCount), offset + retiredCount) == held;
      if retiredCount == 0 {
        assert Ring(cursor, 0) == cursor;
      } else {
        token := Activate(retiredCount, index);
        assert buffer[..] == b;
      }
      assert View().held == held;
    }

    /** Discard retired CIDs and record the new one; the cursor has not moved yet. */
    method ClearAndRecord(retiredCount: nat, index: nat, data: CidData)
      requires Shape() && retiredCount <= index < retiredCount + LEN
      modifies buffer
      ensures Contents(buffer[..], Ring(cursor, retiredCount), offset + retiredCount)
           == HeldFrom(old(Contents(buffer[..], cursor, offset)), offset + retiredCount)[offset + index := data]
    {
      hide Ring, Contents, HeldFrom;
      ghost var b := buffer[..];
      BeyondTheRing(b, cursor, offset, retiredCount);
      ClearFrom(if retiredCount < LEN then retiredCount else LEN);
      AdvanceRing(buffer[..], cursor, offset, retiredCount);
      RingShift(cursor, retiredCount);
      WriteRing(buffer[..], Ring(cursor, retiredCount), offset + retiredCount, index - retiredCount, data);
      buffer[Ring(cursor, index)] := Some(data);
    }

    /** Move the cursor to the first CID at least `retiredCount` after the old active one. */
    method Activate(retiredCount: nat, ghost index: nat) returns (token: Option<ResetToken>)
      requires Shape() && retiredCount <= index < retiredCount + LEN
      requires offset + index in Contents(buffer[..], Ring(cursor, retiredCount), offset + retiredCount)
      modifies this
      ensures Shape() && cursorReserved == cursor
      ensures var held := old(Contents(buffer[..], Ring(cursor, retiredCount), offset + retiredCount));
              && Contents(buffer[..], cursor, offset) == held
              && IsFirstHeld(held, old(offset) + retiredCount, old(offset) + retiredCount + LEN, offset)
              && held[offset].token == token
    {
      hide Ring;
      ghost var edge := offset + retiredCount;
      cursor := Ring(cursor, retiredCount);
      ghost var held := Contents(buffer[..], cursor, edge);
      var i := FirstFromActive(index - retiredCount);
      assert edge + i in held;
      assert forall k :: edge <= k < edge + i ==> SlotOf(cursor, edge, k) == Ring(cursor, k - edge);
      token := buffer[Ring(cursor, i)].value.token;
      AdvanceRing(buffer[..], cursor, edge, i);
      cursor := Ring(cursor, i);
      cursorReserved := cursor;
      offset := offset + retiredCount + i;
    }

    /** Empties the first `n` slots from the cursor. */
    method ClearFrom(n: nat)
      requires Shape() && n <= LEN
      modifies buffer
      ensures forall s: nat :: s < n ==> buffer[Ring(cursor, s)] == None
      ensures Contents(buffer[..], cursor, offset) == HeldFrom(old(Contents(buffer[..], cursor, offset)), offset + n)
    {
      hide Ring, Contents, HeldFrom;
      RingInjective(cursor);
      ghost var b := buffer[..];
      var j := 0;
      while j < n
        invariant j <= n
        invariant forall s: nat :: s < j ==> buffer[Ring(cursor, s)] == None
        invariant forall s: nat :: j <= s < LEN ==> buffer[Ring(cursor, s)] == b[Ring(cursor, s)]
      {
        buffer[Ring(cursor, j)] := None;
        j := j + 1;
      }
      ClearRing(b, buffer[..], cursor, offset, n);
    }

    /** Retires the active CID for the next one the window holds; without one, nothing changes. */
    method Next() returns (r: Option<Retirement>)
      requires Valid()
      modifies this, buffer
      ensures Valid()
      ensures (View(), r) == NextSpec(old(View()))
    {
      ghost var w := View();
      var found := SecondFromReserved();
      if found.None? {
        return None;
      }
      var token := buffer[Ring(cursorReserved, found.value)].value.token;
      var origOffset := offset;
      NextKeepsInv(w);
      DropReserved(found.value);
      assert View() == NextSpec(w).0;
      return Some(Retirement(Range(origOffset, offset), token.value));
    }

    /** Discard the active and the reserved CIDs; the CID `i` steps after the last reserved one
        becomes active. */
    method DropReserved(i: nat)
      requires Shape() && 0 < i < LEN - ReservedLenSpec()
      requires IsFirstHeld(View().held, offset + ReservedLenSpec() + 1, offset + LEN, offset + ReservedLenSpec() + i)
      modifies this, buffer
      ensures Shape()
      ensures var k := old(offset + ReservedLenSpec() + i);
              View() == Window(HeldFrom(old(View().held), k), k, 0)
    {
      hide Ring, Contents;
      var reserved := ReservedLen();
      ghost var held := View().held;
      DistanceGrows(cursor, cursorReserved, i);
      ClearFrom(reserved + 1);
      assert HeldFrom(held, offset + (reserved + 1)) == HeldFrom(held, offset + reserved + i);
      EmptyBelow(i + reserved);
      ghost var b := buffer[..];
      AdvanceRing(b, cursor, offset, i + reserved);
      offset := offset + (i + reserved);
      cursor := Ring(cursorReserved, i);
      cursorReserved := cursor;
      assert buffer[..] == b;
    }

    lemma EmptyBelow(n: nat)
      requires Shape() && n < LEN
      requires forall k :: k in Contents(buffer[..], cursor, offset) ==> offset + n <= k
      ensures forall s: nat :: s < n ==> buffer[Ring(cursor, s)] == None
    {
      forall s: nat | s < n
        ensures buffer[Ring(cursor, s)] == None
      {
        assert offset + s !in Contents(buffer[..], cursor, offset);
        assert SlotOf(cursor, offset, offset + s) == Ring(cursor, s);
      }
    }

    /** The first CID past the reserved ones joins them. */
    method NextReserved() returns (r: Option<ConnectionId>)
      requires Valid()
      modifies this`cursorReserved
      ensures Valid()
      ensures (View(), r) == NextReservedSpec(old(View()))
    {
      hide Contents, Distance;
      ghost var w := View();
      var found := SecondFromReserved();
      if found.None? {
        return None;
      }
      var data := buffer[Ring(cursorReserved, found.value)].value;
      DistanceGrows(cursor, cursorReserved, found.value);
      NextKeepsInv(w);
      cursorReserved := Ring(cursorReserved, found.value);
      assert View() == NextReservedSpec(w).0;
      return Some(data.id);
    }

    /** Sequence number 0 gets another CID. */
    method UpdateInitialCid(cid: ConnectionId)
      requires Valid() && offset == 0
      modifies buffer
      ensures Valid()
      ensures View() == UpdateInitialSpec(old(View()), cid)
    {
      ghost var w := View();
      WriteRing(buffer[..], cursor, offset, 0, CidData(cid, None));
      assert Ring(cursor, 0) == cursor;
      buffer[cursor] := Some(CidData(cid, None));
      assert View() == UpdateInitialSpec(w, cid);
    }

    method Active() returns (cid: ConnectionId)
      requires Valid()
      ensures cid == View().held[View().offset].id
    {
      assert offset in View().held;
      cid := buffer[cursor].value.id;
    }
  }

  // ------------------------------------------------------------------ whole runs

  datatype Op = Insert(f: NewConnectionId) | Next | NextReserved | UpdateInitial(cid: ConnectionId)

  /** A queue together with what its caller has seen: the sequence numbers accepted so far and the
      ranges returned for retirement, oldest first. */
  datatype Run = Run(w: Window, accepted: set<nat>, retired: seq<Range>)

  /** Frames are well-formed, and sequence number 0 gets another CID only while it is active. */
  ghost predicate Allowed(w: Window, op: Op) {
    match op
    case Insert(f) => f.WellFormed()
    case UpdateInitial(_) => w.offset == 0
    case _ => true
  }

  ghost function RangeOf(r: Option<Retirement>): seq<Range> {
    if r.None? then [] else [r.value.range]
  }

  /** One call; a call no caller is allowed to make is left out of the run. */
  ghost function Step(s: Run, op: Op): Run {
    if !s.w.Inv() || !Allowed(s.w, op) then s
    else
      match op
      case Insert(f) =>
        var (w, r) := InsertSpec(s.w, f);
        if r.Err? then s
        else Run(w, s.accepted + {f.sequence}, s.retired + RangeOf(r.value))
      case Next =>
        var (w, r) := NextSpec(s.w);
        Run(w, s.accepted, s.retired + RangeOf(r))
      case NextReserved => s.(w := NextReservedSpec(s.w).0)
      case UpdateInitial(cid) => s.(w := UpdateInitialSpec(s.w, cid))
  }

  ghost predicate RetiredIn(ranges: seq<Range>, i: nat, k: nat) {
    i < |ranges| && ranges[i].Contains(k)
  }

  /** The returned ranges are non-empty, at most `LEN` long, increasing and disjoint, and lie below
      the active sequence number. */
  ghost predicate RangesOk(ranges: seq<Range>, offset: nat) {
    && (forall i :: 0 <= i < |ranges| ==>
          ranges[i].start < ranges[i].end <= ranges[i].start + LEN && ranges[i].end <= offset)
    && (forall i, j :: 0 <= i < j < |ranges| ==> ranges[i].end <= ranges[j].start)
  }

  ghost predicate Conserved(s: Run) {
    && s.w.Inv()
    && RangesOk(s.retired, s.w.offset)
    && s.w.held.Keys <= s.accepted
    && (forall k :: k in s.accepted && k !in s.w.held ==> exists i :: RetiredIn(s.retired, i, k))
  }

  lemma StepConserves(s: Run, op: Op)
    requires Conserved(s)
    ensures Conserved(Step(s, op))
  {
    match op {
      case Insert(f) => InsertConserves(s, f);
      case Next => NextConserves(s);
      case NextReserved => NextKeepsInv(s.w);
      case UpdateInitial(_) =>
    }
  }

  /** What a call hands out for retirement: nothing while the active CID stays, and otherwise a short
      range from it that covers every CID that was dropped. */
  ghost predicate Handed(w: Window, w': Window, r: Option<Retirement>) {
    if r.None? then w'.offset == w.offset && w.held.Keys <= w'.held.Keys
    else
      var range := r.value.range;
      && range.start == w.offset && range.start < range.end <= range.start + LEN && range.end <= w'.offset
      && forall k :: k in w.held && k !in w'.held ==> range.Contains(k)
  }

  lemma InsertHands(w: Window, f: NewConnectionId)
    requires w.Inv() && f.WellFormed() && InsertSpec(w, f).1.Ok?
    ensures var (w', r) := InsertSpec(w, f);
            && w'.Inv() && Handed(w, w', r.value)
            && f.sequence in w'.held && w'.held.Keys <= w.held.Keys + {f.sequence}
  {
    InsertKeepsInv(w, f);
  }

  lemma NextHands(w: Window)
    requires w.Inv()
    ensures var (w', r) := NextSpec(w); w'.Inv() && Handed(w, w', r) && w'.held.Keys <= w.held.Keys
  {
    NextKeepsInv(w);
  }

  lemma RangesGrow(ranges: seq<Range>, w: Window, w': Window, r: Option<Retirement>)
    requires RangesOk(ranges, w.offset) && Handed(w, w', r)
    ensures RangesOk(ranges + RangeOf(r), w'.offset)
  {
    if r.None? {
      assert ranges + [] == ranges;
    }
  }

  /** If a call hands out what it drops, nothing is lost. */
  lemma HandedConserves(s: Run, w': Window, accepted': set<nat>, r: Option<Retirement>)
    requires Conserved(s) && w'.Inv() && Handed(s.w, w', r) && s.accepted <= accepted'
    requires w'.held.Keys <= accepted' && forall k :: k in accepted' && k !in s.accepted ==> k in w'.held
    ensures Conserved(Run(w', accepted', s.retired + RangeOf(r)))
  {
    RangesGrow(s.retired, s.w, w', r);
    hide RangesOk;
    var ranges := s.retired + RangeOf(r);
    forall k | k in accepted' && k !in w'.held
      ensures exists i :: RetiredIn(ranges, i, k)
    {
      if k in s.w.held {
        assert RetiredIn(ranges, |s.retired|, k);
      } else {
        var i :| RetiredIn(s.retired, i, k);
        assert RetiredIn(ranges, i, k);
      }
    }
  }

  lemma InsertConserves(s: Run, f: NewConnectionId)
    requires Conserved(s)
    ensures Conserved(Step(s, Insert(f)))
  {
    hide RangesOk, Handed;
    if f.WellFormed() && InsertSpec(s.w, f).1.Ok? {
      InsertHands(s.w, f);
      hide InsertSpec;
      HandedConserves(s, InsertSpec(s.w, f).0, s.accepted + {f.sequence}, InsertSpec(s.w, f).1.value);
    }
  }

  lemma NextConserves(s: Run)
    requires Conserved(s)
    ensures Conserved(Step(s, Next))
  {
    hide RangesOk, Handed, NextSpec;
    NextHands(s.w);
    HandedConserves(s, NextSpec(s.w).0, s.accepted, NextSpec(s.w).1);
  }

  ghost function RunOps(s: Run, ops: seq<Op>): Run
    decreases |ops|
  {
    if ops == [] then s else RunOps(Step(s, ops[0]), ops[1..])
  }

  ghost function Start(cid: ConnectionId): Run {
    Run(Window(map[0 := CidData(cid, None)], 0, 0), {0}, [])
  }

  lemma {:induction false} RunConserves(s: Run, ops: seq<Op>)
    requires Conserved(s)
    ensures Conserved(RunOps(s, ops))
    decreases |ops|
  {
    if ops != [] {
      StepConserves(s, ops[0]);
      RunConserves(Step(s, ops[0]), ops[1..]);
    }
  }

  /** Over any run, every accepted sequence number is either still held or in exactly one of the
      ranges handed out for retirement, never both; the ranges are disjoint, increasing and short. */
  lemma HeldOrRetiredExactlyOnce(cid: ConnectionId, ops: seq<Op>)
    ensures var s := RunOps(Start(cid), ops);
            && s.w.Inv()
            && RangesOk(s.retired, s.w.offset)
            && s.w.held.Keys <= s.accepted
            && forall k :: k in s.accepted ==>
                             && (k in s.w.held <==> !exists i :: RetiredIn(s.retired, i, k))
                             && (forall i, j :: RetiredIn(s.retired, i, k) && RetiredIn(s.retired, j, k) ==> i == j)
  {
    RunConserves(Start(cid), ops);
  }
}
