/**
 The token log on runs with and without overflow (noq-proto/src/bloom_token_log.rs:57-189): what it
 refuses, against the tokens that were presented.
 */
module TokenLedgers {
  import opened TokenLogs

  /** A filter that has seen exactly these fingerprints: their set, or the union of their bits. */
  ghost predicate Saw(f: Filter, hash: Hasher, fps: set<nat>) {
    f == Set(fps) || f == Bloom(BitsOf(fps, hash))
  }

  lemma BitsGrow(fps: set<nat>, hash: Hasher, fp: nat)
    ensures BitsOf(fps + {fp}, hash) == BitsOf(fps, hash) + hash(fp)
  {
  }

  /** A filter refuses a fingerprint it has seen.  As a set it refuses no other; as a Bloom filter it
      refuses exactly those all of whose bits were set by the ones it has seen. */
  lemma FilterRefusesIff(f: Filter, hash: Hasher, fps: set<nat>, fp: nat, overflow: bool)
    requires Saw(f, hash, fps)
    ensures var (f', ok) := FilterSpec(f, hash, fp, overflow);
            && Saw(f', hash, fps + {fp})
            && (ok <==> if f.Set? then fp !in fps else !(hash(fp) <= BitsOf(fps, hash)))
            && (fp in fps ==> !ok)
            && (!overflow && f.Set? ==> f'.Set?)
  {
    BitsGrow(fps, hash, fp);
    if fp in fps {
      assert fps + {fp} == fps;
    }
  }

  /** Everything presented that was not already out of date. */
  ghost function PresentStep(l: Ledger, lifetime: nat, u: Use): Ledger {
    var k := KeyOf(u, lifetime);
    if k.expires < l.period1Start then l else Ledger(Turned(l.period1Start, lifetime, k.expires), l.used + {k})
  }

  ghost function PresentedAt(lifetime: nat, uses: seq<Use>, n: nat): Ledger
    requires n <= |uses|
  {
    if n == 0 then Ledger(0, {}) else PresentStep(PresentedAt(lifetime, uses, n - 1), lifetime, uses[n - 1])
  }

  ghost predicate Tracks(s: Log, l: Ledger, hash: Hasher, lifetime: nat) {
    var p := l.period1Start;
    && s.period1Start == p
    && Saw(s.filter1, hash, Fps(l.used, p, p + lifetime))
    && Saw(s.filter2, hash, Fps(l.used, p + lifetime, p + 2 * lifetime))
    && forall k :: k in l.used ==> k.expires < p + 2 * lifetime
  }

  /** The fingerprints presented in the period a token falls into. */
  ghost function PeriodOf(l: Ledger, lifetime: nat, expires: int): set<nat> {
    var p := Turned(l.period1Start, lifetime, expires);
    if expires < p + lifetime then Fps(l.used, p, p + lifetime) else Fps(l.used, p + lifetime, p + 2 * lifetime)
  }

  /** The decision on one token: a stale one is refused, one whose fingerprint was presented in its
      period too, and any other only if its bits are covered by those of the period. */
  ghost predicate Decides(l: Ledger, hash: Hasher, lifetime: nat, u: Use, ok: bool) {
    var (k, fps) := (KeyOf(u, lifetime), PeriodOf(l, lifetime, KeyOf(u, lifetime).expires));
    && (k.expires < l.period1Start || k.fp in fps ==> !ok)
    && (!ok ==> k.expires < l.period1Start || k.fp in fps || hash(k.fp) <= BitsOf(fps, hash))
  }

  lemma NothingPresented(hash: Hasher)
    ensures Saw(EMPTY, hash, {})
  {
  }

  lemma StepInWindow(s: Log, hash: Hasher, lifetime: nat, u: Use)
    requires lifetime > 0 && s.period1Start <= KeyOf(u, lifetime).expires < s.period1Start + 2 * lifetime
    ensures var k := KeyOf(u, lifetime);
            Step(s, hash, lifetime, u) ==
            if k.expires < s.period1Start + lifetime
            then (s.(filter1 := FilterSpec(s.filter1, hash, k.fp, u.overflow).0), FilterSpec(s.filter1, hash, k.fp, u.overflow).1)
            else (s.(filter2 := FilterSpec(s.filter2, hash, k.fp, u.overflow).0), FilterSpec(s.filter2, hash, k.fp, u.overflow).1)
  {
    hide FilterSpec;
    Periods(KeyOf(u, lifetime).expires - s.period1Start, lifetime);
  }

  lemma StepTurnover(s: Log, hash: Hasher, lifetime: nat, u: Use)
    requires lifetime > 0 && s.period1Start + 2 * lifetime <= KeyOf(u, lifetime).expires
    ensures var (k, p) := (KeyOf(u, lifetime), Turned(s.period1Start, lifetime, KeyOf(u, lifetime).expires));
            var (f, ok) := FilterSpec(EMPTY, hash, k.fp, u.overflow);
            && Step(s, hash, lifetime, u) ==
               (if k.expires < s.period1Start + 3 * lifetime then (Log(p, s.filter2, f), ok) else (Log(p, f, EMPTY), ok))
            && p <= k.expires && p >= s.period1Start + lifetime
  {
    hide FilterSpec;
    Periods(KeyOf(u, lifetime).expires - s.period1Start, lifetime);
  }

  lemma TracksInWindow(s: Log, l: Ledger, hash: Hasher, lifetime: nat, u: Use)
    requires lifetime > 0 && Tracks(s, l, hash, lifetime)
    requires s.period1Start <= KeyOf(u, lifetime).expires < s.period1Start + 2 * lifetime
    ensures Tracks(Step(s, hash, lifetime, u).0, PresentStep(l, lifetime, u), hash, lifetime)
    ensures Decides(l, hash, lifetime, u, Step(s, hash, lifetime, u).1)
  {
    hide Fps, FilterSpec, BitsOf, Saw, Step;
    StepInWindow(s, hash, lifetime, u);
    var k, p := KeyOf(u, lifetime), s.period1Start;
    var one, two := Fps(l.used, p, p + lifetime), Fps(l.used, p + lifetime, p + 2 * lifetime);
    FpsOf(l.used, k, p, p + lifetime);
    FpsOf(l.used, k, p + lifetime, p + 2 * lifetime);
    assert one + {} == one && two + {} == two;
    if k.expires < p + lifetime {
      FilterDecides(s.filter1, hash, one, k.fp, u.overflow);
    } else {
      FilterDecides(s.filter2, hash, two, k.fp, u.overflow);
    }
  }

  lemma FilterDecides(f: Filter, hash: Hasher, fps: set<nat>, fp: nat, overflow: bool)
    requires Saw(f, hash, fps)
    ensures var (f', ok) := FilterSpec(f, hash, fp, overflow);
            && Saw(f', hash, fps + {fp}) && (fp in fps ==> !ok) && (!ok ==> fp in fps || hash(fp) <= BitsOf(fps, hash))
  {
    hide FilterSpec, BitsOf, Saw;
    FilterRefusesIff(f, hash, fps, fp, overflow);
  }

  lemma TracksTurnover(s: Log, l: Ledger, hash: Hasher, lifetime: nat, u: Use)
    requires lifetime > 0 && Tracks(s, l, hash, lifetime)
    requires s.period1Start + 2 * lifetime <= KeyOf(u, lifetime).expires
    ensures Tracks(Step(s, hash, lifetime, u).0, PresentStep(l, lifetime, u), hash, lifetime)
    ensures Decides(l, hash, lifetime, u, Step(s, hash, lifetime, u).1) && Step(s, hash, lifetime, u).1
  {
    hide Fps, FilterSpec, BitsOf, Saw, Step;
    StepTurnover(s, hash, lifetime, u);
    var k, p0 := KeyOf(u, lifetime), s.period1Start;
    var p := Turned(p0, lifetime, k.expires);
    NothingPresented(hash);
    EmptyAccepts(hash, k.fp, u.overflow);
    FilterDecides(EMPTY, hash, {}, k.fp, u.overflow);
    FpsOf(l.used, k, p, p + lifetime);
    FpsOf(l.used, k, p + lifetime, p + 2 * lifetime);
    if k.expires >= p0 + 3 * lifetime {
      assert forall o :: o in l.used ==> o.expires < p;
    }
    assert {} + {k.fp} == {k.fp};
    assert Fps(l.used, p, p + lifetime) + {} == Fps(l.used, p, p + lifetime);
  }

  lemma EmptyAccepts(hash: Hasher, fp: nat, overflow: bool)
    ensures FilterSpec(EMPTY, hash, fp, overflow).1
  {
  }

  lemma TracksStep(s: Log, l: Ledger, hash: Hasher, lifetime: nat, u: Use)
    requires lifetime > 0 && Tracks(s, l, hash, lifetime)
    ensures Tracks(Step(s, hash, lifetime, u).0, PresentStep(l, lifetime, u), hash, lifetime)
    ensures Decides(l, hash, lifetime, u, Step(s, hash, lifetime, u).1)
  {
    hide Fps, FilterSpec, BitsOf, Saw;
    var k := KeyOf(u, lifetime);
    if k.expires < s.period1Start {
    } else if k.expires < s.period1Start + 2 * lifetime {
      TracksInWindow(s, l, hash, lifetime, u);
    } else {
      TracksTurnover(s, l, hash, lifetime, u);
    }
  }

  lemma {:induction false} PresentedTracks(hash: Hasher, lifetime: nat, uses: seq<Use>, n: nat)
    requires lifetime > 0 && n <= |uses|
    ensures Tracks(StateAt(hash, lifetime, uses, n), PresentedAt(lifetime, uses, n), hash, lifetime)
  {
    if n > 0 {
      PresentedTracks(hash, lifetime, uses, n - 1);
      hide Tracks, Step;
      TracksStep(StateAt(hash, lifetime, uses, n - 1), PresentedAt(lifetime, uses, n - 1), hash, lifetime, uses[n - 1]);
    } else {
      assert Fps({}, 0, lifetime) == {} && Fps({}, lifetime, 2 * lifetime) == {};
    }
  }

  /** Over any run, overflowing or not, a token is refused if it is out of date or its fingerprint was
      presented in its period, and otherwise only if every bit it sets was set by other fingerprints
      presented in its period. */
  lemma RefusedOnlyIfCovered(hash: Hasher, lifetime: nat, uses: seq<Use>, i: nat)
    requires lifetime > 0 && i < |uses|
    ensures var l := PresentedAt(lifetime, uses, i);
            var k := KeyOf(uses[i], lifetime);
            var fps := PeriodOf(l, lifetime, k.expires);
            && (k.expires < l.period1Start || k.fp in fps ==> !Accepted(hash, lifetime, uses, i))
            && (!Accepted(hash, lifetime, uses, i) ==>
                  k.expires < l.period1Start || k.fp in fps || forall b :: b in hash(k.fp) ==> exists x :: x in fps && b in hash(x))
  {
    PresentedTracks(hash, lifetime, uses, i);
    TracksStep(StateAt(hash, lifetime, uses, i), PresentedAt(lifetime, uses, i), hash, lifetime, uses[i]);
    hide Tracks, Step, PresentedAt, StateAt;
  }
}
