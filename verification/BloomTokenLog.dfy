/**
 The log of used address validation tokens (noq-proto/src/bloom_token_log.rs).

 Time is divided into periods of one token lifetime; two filters hold the tokens that expire in the
 current and in the next period.  A filter starts as an exact set of 64-bit fingerprints and becomes
 a Bloom filter once it grows too large.  Times are nanoseconds relative to the Unix epoch.
 */
module TokenLogs {

  /** The bit positions a fingerprint sets in a Bloom filter. */
  type Hasher = nat -> set<nat>

  const FINGERPRINTS: nat := 0x1_0000_0000_0000_0000

  function Fingerprint(nonce: nat): nat {
    nonce % FINGERPRINTS
  }

  // ------------------------------------------------------------------ one period's filter

  datatype Filter = Set(items: set<nat>) | Bloom(bits: set<nat>) {

    ghost predicate MayContain(hash: Hasher, fp: nat) {
      match this
      case Set(items) => fp in items
      case Bloom(bits) => hash(fp) <= bits
    }
  }

  const EMPTY: Filter := Set({})

  ghost function BitsOf(items: set<nat>, hash: Hasher): set<nat> {
    set x, b | x in items && b in hash(x) :: b
  }

  /** A fingerprint is refused when it may already be there and is recorded either way; a set that
      has outgrown its budget (`overflow`) turns into the Bloom filter of its items. */
  ghost function FilterSpec(f: Filter, hash: Hasher, fp: nat, overflow: bool): (Filter, bool) {
    match f
    case Set(items) =>
      if fp in items then (f, false)
      else if overflow then (Bloom(BitsOf(items + {fp}, hash)), true)
      else (Set(items + {fp}), true)
    case Bloom(bits) => (Bloom(bits + hash(fp)), !(hash(fp) <= bits))
  }

  /** Nothing a filter may contain is ever forgotten, in either representation. */
  lemma FilterRemembers(f: Filter, hash: Hasher, fp: nat, overflow: bool)
    ensures var (f', fresh') := FilterSpec(f, hash, fp, overflow);
            && f'.MayContain(hash, fp)
            && (fresh' ==> !f.MayContain(hash, fp))
            && forall x :: f.MayContain(hash, x) ==> f'.MayContain(hash, x)
  {
    var (f', _) := FilterSpec(f, hash, fp, overflow);
    if f.Set? && f'.Bloom? {
      forall x | x in f.items + {fp}
        ensures hash(x) <= f'.bits
      {
      }
    }
  }

  // ------------------------------------------------------------------ the two periods

  datatype Log = Log(period1Start: int, filter1: Filter, filter2: Filter)

  const INITIAL: Log := Log(0, EMPTY, EMPTY)

  ghost function CheckSpec(s: Log, hash: Hasher, lifetime: nat, nonce: nat, issued: int, overflow: bool)
    : (Log, bool)
  {
    var expires := issued + lifetime;
    var fp := Fingerprint(nonce);
    if lifetime == 0 || expires < s.period1Start then (s, false)
    else
      var forward := (expires - s.period1Start) / lifetime;
      if forward == 0 then
        var (f, ok) := FilterSpec(s.filter1, hash, fp, overflow);
        (s.(filter1 := f), ok)
      else if forward == 1 then
        var (f, ok) := FilterSpec(s.filter2, hash, fp, overflow);
        (s.(filter2 := f), ok)
      else if forward == 2 then
        var (f, ok) := FilterSpec(EMPTY, hash, fp, overflow);
        (Log(s.period1Start + lifetime, s.filter2, f), ok)
      else
        var (f, ok) := FilterSpec(EMPTY, hash, fp, overflow);
        (Log(expires, f, EMPTY), ok)
  }

  class BloomTokenLog {
    const hash: Hasher
    const filterMaxBytes: nat
    var period1Start: int
    var filter1: Filter
    var filter2: Filter

    ghost function View(): Log
      reads this
    {
      Log(period1Start, filter1, filter2)
    }

    constructor (maxBytes: nat, hash: Hasher)
      ensures View() == INITIAL && this.hash == hash && filterMaxBytes == maxBytes / 2
    {
      this.hash := hash;
      filterMaxBytes := maxBytes / 2;
      period1Start, filter1, filter2 := 0, EMPTY, EMPTY;
    }

    /** Remembers the nonce of a spent token and answers whether it was unspent.  `capacity` is the
        number of entries the set's allocation can hold, which the allocator decides. */
    method CheckAndInsert(nonce: nat, issued: int, lifetime: nat, capacity: nat) returns (ok: bool)
      modifies this
      ensures (View(), ok) == CheckSpec(old(View()), hash, lifetime, nonce, issued, capacity * 8 > filterMaxBytes)
    {
      if lifetime == 0 {
        return false;
      }
      var expires := issued + lifetime;
      if expires < period1Start {
        return false;
      }
      var fp := Fingerprint(nonce);
      match (expires - period1Start) / lifetime {
        case 0 =>
          filter1, ok := FilterCheckAndInsert(filter1, fp, capacity);
        case 1 =>
          filter2, ok := FilterCheckAndInsert(filter2, fp, capacity);
        case 2 =>
          // one period on: the second filter becomes the first
          filter1, filter2 := filter2, EMPTY;
          period1Start := period1Start + lifetime;
          filter2, ok := FilterCheckAndInsert(filter2, fp, capacity);
        case _ =>
          // both periods are over
          filter1, filter2 := EMPTY, EMPTY;
          period1Start := expires;
          filter1, ok := FilterCheckAndInsert(filter1, fp, capacity);
      }
    }

    method FilterCheckAndInsert(f: Filter, fp: nat, capacity: nat) returns (f': Filter, ok: bool)
      ensures (f', ok) == FilterSpec(f, hash, fp, capacity * 8 > filterMaxBytes)
    {
      match f {
        case Set(items) =>
          if fp in items {
            return f, false;
          }
          var hset := items + {fp};
          if capacity * 8 <= filterMaxBytes {
            return Set(hset), true;
          }
          // the set has outgrown its budget
          var bits, left := {}, hset;
          while left != {}
            invariant left <= hset
            invariant bits == BitsOf(hset - left, hash)
            decreases left
          {
            var item :| item in left;
            assert hset - (left - {item}) == (hset - left) + {item};
            bits := bits + hash(item);
            left := left - {item};
          }
          assert hset - left == hset;
          return Bloom(bits), true;
        case Bloom(bits) =>
          return Bloom(bits + hash(fp)), !(hash(fp) <= bits);
      }
    }
  }

  // ------------------------------------------------------------------ whole runs

  /** A presented token and whether its insertion outgrows the set's budget. */
  datatype Use = Use(nonce: nat, issued: int, overflow: bool)

  /** What identifies a token to the log. */
  datatype Key = Key(fp: nat, expires: int)

  function KeyOf(u: Use, lifetime: nat): Key {
    Key(Fingerprint(u.nonce), u.issued + lifetime)
  }

  ghost function Step(s: Log, hash: Hasher, lifetime: nat, u: Use): (Log, bool) {
    CheckSpec(s, hash, lifetime, u.nonce, u.issued, u.overflow)
  }

  /** The state after each of the first `n` uses. */
  ghost function StateAt(hash: Hasher, lifetime: nat, uses: seq<Use>, n: nat): Log
    requires n <= |uses|
  {
    if n == 0 then INITIAL else Step(StateAt(hash, lifetime, uses, n - 1), hash, lifetime, uses[n - 1]).0
  }

  /** Whether use `i` of the run was let through. */
  ghost predicate Accepted(hash: Hasher, lifetime: nat, uses: seq<Use>, i: nat)
    requires i < |uses|
  {
    Step(StateAt(hash, lifetime, uses, i), hash, lifetime, uses[i]).1
  }

  /** An accepted token has either expired for good or is in the filter of its period. */
  ghost predicate Remembered(s: Log, hash: Hasher, lifetime: nat, k: Key) {
    var p := s.period1Start;
    && k.expires < p + 2 * lifetime
    && (p <= k.expires < p + lifetime ==> s.filter1.MayContain(hash, k.fp))
    && (p + lifetime <= k.expires ==> s.filter2.MayContain(hash, k.fp))
  }

  lemma Periods(d: nat, lifetime: nat)
    requires lifetime > 0
    ensures d / lifetime == 0 <==> d < lifetime
    ensures d / lifetime == 1 <==> lifetime <= d < 2 * lifetime
    ensures d / lifetime == 2 <==> 2 * lifetime <= d < 3 * lifetime
  {
    var q, r := d / lifetime, d % lifetime;
    assert d == lifetime * q + r;
    if q >= 3 {
      assert lifetime * q >= lifetime * 3;
    }
  }

  /** One call keeps every remembered token remembered and, if it accepts, remembers the token it
      accepted, which it had not remembered before. */
  lemma StepRemembers(s: Log, hash: Hasher, lifetime: nat, u: Use)
    requires lifetime > 0
    ensures var (s', ok) := Step(s, hash, lifetime, u);
            && (forall k :: Remembered(s, hash, lifetime, k) ==> Remembered(s', hash, lifetime, k))
            && (ok ==> Remembered(s', hash, lifetime, KeyOf(u, lifetime)) && !Remembered(s, hash, lifetime, KeyOf(u, lifetime)))
  {
    var (s', ok) := Step(s, hash, lifetime, u);
    var fp := Fingerprint(u.nonce);
    FilterRemembers(s.filter1, hash, fp, u.overflow);
    FilterRemembers(s.filter2, hash, fp, u.overflow);
    FilterRemembers(EMPTY, hash, fp, u.overflow);
    if u.issued + lifetime >= s.period1Start {
      Periods(u.issued + lifetime - s.period1Start, lifetime);
    }
  }

  lemma {:induction false} RunRemembers(hash: Hasher, lifetime: nat, uses: seq<Use>, i: nat, n: nat)
    requires lifetime > 0 && i < n <= |uses|
    requires Accepted(hash, lifetime, uses, i)
    ensures Remembered(StateAt(hash, lifetime, uses, n), hash, lifetime, KeyOf(uses[i], lifetime))
    decreases n
  {
    StepRemembers(StateAt(hash, lifetime, uses, n - 1), hash, lifetime, uses[n - 1]);
    if i < n - 1 {
      RunRemembers(hash, lifetime, uses, i, n - 1);
    }
  }

  /** No run accepts the same token twice, whatever the overflows and turnovers in between; a zero
      lifetime accepts nothing at all. */
  lemma NoReplay(hash: Hasher, lifetime: nat, uses: seq<Use>, i: nat, j: nat)
    requires i < j < |uses|
    requires Accepted(hash, lifetime, uses, i) && Accepted(hash, lifetime, uses, j)
    ensures KeyOf(uses[i], lifetime) != KeyOf(uses[j], lifetime)
    ensures uses[i].nonce != uses[j].nonce || uses[i].issued != uses[j].issued
  {
    RunRemembers(hash, lifetime, uses, i, j);
    StepRemembers(StateAt(hash, lifetime, uses, j), hash, lifetime, uses[j]);
  }

  // ------------------------------------------------------------------ no false alarms while exact

  /** The reference log: it forgets nothing and compares fingerprints within a period. */
  datatype Ledger = Ledger(period1Start: int, used: set<Key>)

  ghost predicate SamePeriod(p: int, lifetime: nat, a: int, b: int) {
    || (p <= a < p + lifetime && p <= b < p + lifetime)
    || (p + lifetime <= a < p + 2 * lifetime && p + lifetime <= b < p + 2 * lifetime)
  }

  /** Start of the first period once a token that expires at `expires` has been presented. */
  ghost function Turned(p: int, lifetime: nat, expires: int): int {
    if expires < p + 2 * lifetime then p
    else if expires < p + 3 * lifetime then p + lifetime
    else expires
  }

  /** The fingerprint of `k` was used by a token of the same period. */
  ghost predicate Clash(used: set<Key>, p: int, lifetime: nat, k: Key) {
    exists other :: other in used && other.fp == k.fp && SamePeriod(p, lifetime, k.expires, other.expires)
  }

  ghost function LedgerStep(s: Ledger, lifetime: nat, u: Use): (Ledger, bool) {
    var k := KeyOf(u, lifetime);
    var p := Turned(s.period1Start, lifetime, k.expires);
    if k.expires < s.period1Start then (s, false)
    else if Clash(s.used, p, lifetime, k) then (Ledger(p, s.used), false)
    else (Ledger(p, s.used + {k}), true)
  }

  ghost function Fps(used: set<Key>, lo: int, hi: int): set<nat> {
    set k | k in used && lo <= k.expires < hi :: k.fp
  }

  ghost predicate Matches(s: Log, l: Ledger, lifetime: nat) {
    var p := l.period1Start;
    && s.period1Start == p
    && s.filter1 == Set(Fps(l.used, p, p + lifetime))
    && s.filter2 == Set(Fps(l.used, p + lifetime, p + 2 * lifetime))
    && forall k :: k in l.used ==> k.expires < p + 2 * lifetime
  }

  /** As long as the sets stay within their budget the log agrees with the ledger call by call: a
      token is refused only if it is stale or its fingerprint was used in the same period. */
  lemma ExactWhileSet(s: Log, l: Ledger, hash: Hasher, lifetime: nat, u: Use)
    requires lifetime > 0 && Matches(s, l, lifetime) && !u.overflow
    ensures Step(s, hash, lifetime, u).1 == LedgerStep(l, lifetime, u).1
    ensures Matches(Step(s, hash, lifetime, u).0, LedgerStep(l, lifetime, u).0, lifetime)
  {
    var k := KeyOf(u, lifetime);
    if k.expires >= s.period1Start {
      Periods(k.expires - s.period1Start, lifetime);
      if k.expires < s.period1Start + 2 * lifetime {
        ExactInWindow(s, l, hash, lifetime, u);
      } else {
        ExactTurnover(s, l, hash, lifetime, u);
      }
    }
  }

  ghost function LedgerAt(lifetime: nat, uses: seq<Use>, n: nat): Ledger
    requires n <= |uses|
  {
    if n == 0 then Ledger(0, {}) else LedgerStep(LedgerAt(lifetime, uses, n - 1), lifetime, uses[n - 1]).0
  }

  lemma {:induction false} LedgerTracks(hash: Hasher, lifetime: nat, uses: seq<Use>, n: nat)
    requires lifetime > 0 && n <= |uses|
    requires forall i :: 0 <= i < n ==> !uses[i].overflow
    ensures Matches(StateAt(hash, lifetime, uses, n), LedgerAt(lifetime, uses, n), lifetime)
  {
    if n > 0 {
      LedgerTracks(hash, lifetime, uses, n - 1);
      ExactWhileSet(StateAt(hash, lifetime, uses, n - 1), LedgerAt(lifetime, uses, n - 1), hash, lifetime, uses[n - 1]);
    }
  }

  /** Over a whole run without overflow, every decision is the ledger's. */
  lemma NoFalseAlarm(hash: Hasher, lifetime: nat, uses: seq<Use>, i: nat)
    requires lifetime > 0 && i < |uses|
    requires forall j :: 0 <= j <= i ==> !uses[j].overflow
    ensures Accepted(hash, lifetime, uses, i) <==> LedgerStep(LedgerAt(lifetime, uses, i), lifetime, uses[i]).1
  {
    LedgerTracks(hash, lifetime, uses, i);
    ExactWhileSet(StateAt(hash, lifetime, uses, i), LedgerAt(lifetime, uses, i), hash, lifetime, uses[i]);
  }

  lemma ExactInWindow(s: Log, l: Ledger, hash: Hasher, lifetime: nat, u: Use)
    requires lifetime > 0 && Matches(s, l, lifetime) && !u.overflow
    requires s.period1Start <= KeyOf(u, lifetime).expires < s.period1Start + 2 * lifetime
    ensures Step(s, hash, lifetime, u).1 == LedgerStep(l, lifetime, u).1
    ensures Matches(Step(s, hash, lifetime, u).0, LedgerStep(l, lifetime, u).0, lifetime)
  {
    hide Clash, Fps;
    var k, p := KeyOf(u, lifetime), s.period1Start;
    Periods(k.expires - p, lifetime);
    ClashInFilter(l.used, p, lifetime, k);
    if !Clash(l.used, p, lifetime, k) {
      FpsOf(l.used, k, p, p + lifetime);
      FpsOf(l.used, k, p + lifetime, p + 2 * lifetime);
    }
  }

  lemma ClashInFilter(used: set<Key>, p: int, lifetime: nat, k: Key)
    requires p <= k.expires < p + 2 * lifetime
    ensures Clash(used, p, lifetime, k) <==>
            k.fp in (if k.expires < p + lifetime then Fps(used, p, p + lifetime)
                     else Fps(used, p + lifetime, p + 2 * lifetime))
  {
  }

  lemma ExactTurnover(s: Log, l: Ledger, hash: Hasher, lifetime: nat, u: Use)
    requires lifetime > 0 && Matches(s, l, lifetime) && !u.overflow
    requires s.period1Start + 2 * lifetime <= KeyOf(u, lifetime).expires
    ensures Step(s, hash, lifetime, u).1 == LedgerStep(l, lifetime, u).1 == true
    ensures Matches(Step(s, hash, lifetime, u).0, LedgerStep(l, lifetime, u).0, lifetime)
  {
    var k := KeyOf(u, lifetime);
    Periods(k.expires - s.period1Start, lifetime);
    var p := Turned(s.period1Start, lifetime, k.expires);
    FpsOf(l.used, k, p, p + lifetime);
    FpsOf(l.used, k, p + lifetime, p + 2 * lifetime);
    assert LedgerStep(l, lifetime, u) == (Ledger(p, l.used + {k}), true);
  }

  lemma FpsOf(used: set<Key>, k: Key, lo: int, hi: int)
    ensures Fps(used + {k}, lo, hi) == Fps(used, lo, hi) + (if lo <= k.expires < hi then {k.fp} else {})
    ensures (forall o :: o in used ==> o.expires < lo) ==> Fps(used, lo, hi) == {}
  {
  }
}
