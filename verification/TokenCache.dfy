/**
 The client's cache of validation tokens (noq-proto/src/token_memory_cache.rs).

 The reference is the ordered list that the source's own test keeps: the servers from least to most
 recently touched, each with its queue of tokens.  `TokenCache` is the implementation's pair of a
 lookup table and an LRU slab.
 */
module TokenCaches {
  import opened Wrappers

  // Server names and tokens are only stored and compared.
  type Name(==, !new)
  type Token(==, !new)

  // ------------------------------------------------------------------ lists without repetition

  ghost predicate Distinct<T>(s: seq<T>) {
    forall i, j :: 0 <= i < j < |s| ==> s[i] != s[j]
  }

  function Remove<T(==)>(s: seq<T>, x: T): seq<T> {
    if s == [] then [] else if s[0] == x then s[1..] else [s[0]] + Remove(s[1..], x)
  }

  lemma {:induction false} RemoveKeeps<T(!new)>(s: seq<T>, x: T)
    requires Distinct(s)
    ensures forall y :: y in Remove(s, x) <==> y in s && y != x
    ensures Distinct(Remove(s, x))
    ensures |Remove(s, x)| == if x in s then |s| - 1 else |s|
  {
    if s != [] {
      var rest := Remove(s[1..], x);
      RemoveKeeps(s[1..], x);
      assert s == [s[0]] + s[1..];
      assert s[0] !in rest;
      if s[0] != x {
        assert forall j :: 0 < j < |Remove(s, x)| ==> Remove(s, x)[j] == rest[j - 1];
      }
    }
  }

  lemma DistinctAppend<T>(s: seq<T>, x: T)
    requires Distinct(s) && x !in s
    ensures Distinct(s + [x])
  {
  }

  // ------------------------------------------------------------------ reference: an ordered list

  /** Servers from least to most recently touched, and their queues. */
  datatype Cache = Cache(order: seq<Name>, queues: map<Name, seq<Token>>) {

    /** No server is listed twice, no queue is empty or over its limit, and there are not too many
        servers. */
    ghost predicate Ok(maxServers: nat, maxTokens: nat) {
      && Distinct(order)
      && (forall n :: n in order <==> n in queues)
      && (forall n :: n in queues ==> 0 < |queues[n]| <= maxTokens)
      && |order| <= maxServers
    }

    ghost function Queue(who: Name): seq<Token> {
      if who in queues then queues[who] else []
    }
  }

  const EMPTY: Cache := Cache([], map[])

  /** Append, dropping the oldest token of a full queue. */
  function Push(tokens: seq<Token>, token: Token, limit: nat): seq<Token> {
    (if |tokens| >= limit && tokens != [] then tokens[1..] else tokens) + [token]
  }

  ghost function StoreSpec(c: Cache, maxServers: nat, maxTokens: nat, name: Name, token: Token): Cache {
    if maxServers == 0 || maxTokens == 0 then c
    else if name in c.queues then
      Cache(Remove(c.order, name) + [name], c.queues[name := Push(c.queues[name], token, maxTokens)])
    else
      var kept := MakeRoom(c, maxServers);
      Cache(kept.order + [name], kept.queues[name := [token]])
  }

  /** Evict the least recently touched server if the cache is full. */
  ghost function MakeRoom(c: Cache, maxServers: nat): Cache {
    if |c.order| >= maxServers && c.order != [] then Cache(c.order[1..], c.queues - {c.order[0]}) else c
  }

  ghost function TakeSpec(c: Cache, name: Name): (Cache, Option<Token>) {
    if c.Queue(name) == [] then (c, None)
    else
      var tokens := c.queues[name];
      if |tokens| == 1 then (Cache(Remove(c.order, name), c.queues - {name}), Some(tokens[0]))
      else (Cache(Remove(c.order, name) + [name], c.queues[name := tokens[1..]]), Some(tokens[0]))
  }

  lemma StoreStaysOk(c: Cache, maxServers: nat, maxTokens: nat, name: Name, token: Token)
    requires c.Ok(maxServers, maxTokens)
    ensures StoreSpec(c, maxServers, maxTokens, name, token).Ok(maxServers, maxTokens)
  {
    if maxServers > 0 && maxTokens > 0 {
      if name in c.queues {
        RemoveKeeps(c.order, name);
        DistinctAppend(Remove(c.order, name), name);
      } else {
        var kept := MakeRoom(c, maxServers);
        assert kept.order == if |c.order| >= maxServers then Remove(c.order, c.order[0]) else c.order;
        if |c.order| >= maxServers {
          RemoveKeeps(c.order, c.order[0]);
        }
        DistinctAppend(kept.order, name);
      }
    }
  }

  lemma TakeStaysOk(c: Cache, maxServers: nat, maxTokens: nat, name: Name)
    requires c.Ok(maxServers, maxTokens)
    ensures TakeSpec(c, name).0.Ok(maxServers, maxTokens)
  {
    RemoveKeeps(c.order, name);
    if c.Queue(name) != [] {
      DistinctAppend(Remove(c.order, name), name);
    }
  }

  // ------------------------------------------------------------------ lookup table and LRU slab

  datatype Entry = Entry(name: Name, tokens: seq<Token>)

  datatype Slab = Slab(lookup: map<Name, nat>, slots: map<nat, Entry>, order: seq<nat>) {

    /** Lookup and slots are in bijection and every slot has one place in the LRU order. */
    ghost predicate Bijective() {
      Ordered(order, slots) && Indexed(lookup, slots)
    }

    ghost function Contents(): Cache
      requires Bijective()
    {
      Cache(Names(order, slots), Queues(lookup, slots))
    }
  }

  ghost predicate Ordered(order: seq<nat>, slots: map<nat, Entry>) {
    Distinct(order) && forall k :: k in slots <==> k in order
  }

  ghost predicate Indexed(lookup: map<Name, nat>, slots: map<nat, Entry>) {
    && (forall k :: k in slots ==> slots[k].name in lookup && lookup[slots[k].name] == k)
    && (forall n :: n in lookup ==> lookup[n] in slots && slots[lookup[n]].name == n)
  }

  ghost function Queues(lookup: map<Name, nat>, slots: map<nat, Entry>): map<Name, seq<Token>>
    requires Indexed(lookup, slots)
  {
    map n | n in lookup :: slots[lookup[n]].tokens
  }

  ghost function Names(order: seq<nat>, slots: map<nat, Entry>): (r: seq<Name>)
    requires forall k :: k in order ==> k in slots
    ensures |r| == |order|
  {
    if order == [] then [] else [slots[order[0]].name] + Names(order[1..], slots)
  }

  lemma {:induction false} NamesAppend(order: seq<nat>, slots: map<nat, Entry>, key: nat)
    requires forall k :: k in order + [key] ==> k in slots
    ensures forall k :: k in order ==> k in slots
    ensures Names(order + [key], slots) == Names(order, slots) + [slots[key].name]
  {
    forall k | k in order
      ensures k in slots
    {
      assert k in order + [key];
    }
    if order != [] {
      assert (order + [key])[1..] == order[1..] + [key];
      NamesAppend(order[1..], slots, key);
    }
  }

  /** Names do not depend on slots outside the order, nor on the queues. */
  lemma {:induction false} NamesAgree(order: seq<nat>, slots: map<nat, Entry>, slots': map<nat, Entry>)
    requires forall k :: k in order ==> k in slots && k in slots' && slots[k].name == slots'[k].name
    ensures Names(order, slots) == Names(order, slots')
  {
    if order != [] {
      NamesAgree(order[1..], slots, slots');
    }
  }

  lemma {:induction false} NamesRemove(order: seq<nat>, slots: map<nat, Entry>, key: nat)
    requires Distinct(order) && key in slots && forall k :: k in order ==> k in slots
    requires forall k :: k in order && k != key ==> slots[k].name != slots[key].name
    ensures forall k :: k in Remove(order, key) ==> k in slots
    ensures Names(Remove(order, key), slots) == Remove(Names(order, slots), slots[key].name)
  {
    RemoveKeeps(order, key);
    if order != [] {
      NamesRemove(order[1..], slots, key);
    }
  }

  lemma TouchedOrder(order: seq<nat>, slots: map<nat, Entry>, slots': map<nat, Entry>, key: nat)
    requires Ordered(order, slots) && key in slots && slots'.Keys == slots.Keys
    ensures Ordered(Remove(order, key) + [key], slots')
  {
    RemoveKeeps(order, key);
    DistinctAppend(Remove(order, key), key);
  }

  lemma TouchedNames(s: Slab, key: nat, slots': map<nat, Entry>)
    requires s.Bijective() && key in s.slots && Ordered(Remove(s.order, key) + [key], slots')
    requires slots'.Keys == s.slots.Keys && forall k :: k in slots' ==> slots'[k].name == s.slots[k].name
    ensures var name := s.slots[key].name;
            Names(Remove(s.order, key) + [key], slots') == Remove(Names(s.order, s.slots), name) + [name]
  {
    RemoveKeeps(s.order, key);
    NamesRemove(s.order, s.slots, key);
    NamesAppend(Remove(s.order, key), slots', key);
    NamesAgree(Remove(s.order, key), s.slots, slots');
  }

  lemma SlabTouched(s: Slab, key: nat, tokens: seq<Token>)
    requires s.Bijective() && key in s.slots
    ensures var name := s.slots[key].name;
            var s' := Slab(s.lookup, s.slots[key := Entry(name, tokens)], Remove(s.order, key) + [key]);
            && s'.Bijective()
            && s'.Contents() == Cache(Remove(s.Contents().order, name) + [name], s.Contents().queues[name := tokens])
  {
    var name := s.slots[key].name;
    var slots' := s.slots[key := Entry(name, tokens)];
    TouchedOrder(s.order, s.slots, slots', key);
    TouchedNames(s, key, slots');
    TouchedQueues(s.lookup, s.slots, key, tokens);
  }

  lemma TouchedQueues(lookup: map<Name, nat>, slots: map<nat, Entry>, key: nat, tokens: seq<Token>)
    requires Indexed(lookup, slots) && key in slots
    ensures var slots' := slots[key := Entry(slots[key].name, tokens)];
            Indexed(lookup, slots') && Queues(lookup, slots') == Queues(lookup, slots)[slots[key].name := tokens]
  {
  }

  lemma RemovedQueues(lookup: map<Name, nat>, slots: map<nat, Entry>, key: nat)
    requires Indexed(lookup, slots) && key in slots
    ensures var lookup', slots' := lookup - {slots[key].name}, slots - {key};
            Indexed(lookup', slots') && Queues(lookup', slots') == Queues(lookup, slots) - {slots[key].name}
  {
  }

  lemma AddedQueues(lookup: map<Name, nat>, slots: map<nat, Entry>, key: nat, name: Name, tokens: seq<Token>)
    requires Indexed(lookup, slots) && key !in slots && name !in lookup
    ensures var lookup', slots' := lookup[name := key], slots[key := Entry(name, tokens)];
            Indexed(lookup', slots') && Queues(lookup', slots') == Queues(lookup, slots)[name := tokens]
  {
  }

  lemma SlabRemoved(s: Slab, key: nat)
    requires s.Bijective() && key in s.slots
    ensures var name := s.slots[key].name;
            var s' := Slab(s.lookup - {name}, s.slots - {key}, Remove(s.order, key));
            && s'.Bijective()
            && s'.Contents() == Cache(Remove(s.Contents().order, name), s.Contents().queues - {name})
  {
    var name := s.slots[key].name;
    var s' := Slab(s.lookup - {name}, s.slots - {key}, Remove(s.order, key));
    RemoveKeeps(s.order, key);
    NamesRemove(s.order, s.slots, key);
    NamesAgree(s'.order, s.slots, s'.slots);
    RemovedQueues(s.lookup, s.slots, key);
  }

  lemma SlabAdded(s: Slab, key: nat, name: Name, tokens: seq<Token>)
    requires s.Bijective() && key !in s.slots && name !in s.lookup
    ensures var s' := Slab(s.lookup[name := key], s.slots[key := Entry(name, tokens)], s.order + [key]);
            && s'.Bijective()
            && s'.Contents() == Cache(s.Contents().order + [name], s.Contents().queues[name := tokens])
  {
    var s' := Slab(s.lookup[name := key], s.slots[key := Entry(name, tokens)], s.order + [key]);
    DistinctAppend(s.order, key);
    NamesAppend(s.order, s'.slots, key);
    NamesAgree(s.order, s.slots, s'.slots);
    AddedQueues(s.lookup, s.slots, key, name, tokens);
  }

  class TokenCache {
    const maxServers: nat
    const maxTokens: nat
    var lookup: map<Name, nat>
    // LruSlab: occupied slots, and their keys from least to most recently used
    var slots: map<nat, Entry>
    var order: seq<nat>

    ghost function Fields(): Slab
      reads this
    {
      Slab(lookup, slots, order)
    }

    ghost predicate Valid()
      reads this
    {
      Fields().Bijective() && View().Ok(maxServers, maxTokens)
    }

    ghost function View(): Cache
      reads this
      requires Fields().Bijective()
    {
      Fields().Contents()
    }

    constructor (maxServers: nat, maxTokens: nat)
      ensures Valid() && View() == EMPTY
      ensures this.maxServers == maxServers && this.maxTokens == maxTokens
    {
      this.maxServers, this.maxTokens := maxServers, maxTokens;
      lookup, slots, order := map[], map[], [];
    }

    method Store(name: Name, token: Token)
      requires Valid()
      modifies this
      ensures Valid()
      ensures View() == StoreSpec(old(View()), maxServers, maxTokens, name, token)
    {
      hide Cache.Ok;
      if maxServers == 0 || maxTokens == 0 {
        return;
      }
      ghost var c := View();
      StoreStaysOk(c, maxServers, maxTokens, name, token);
      if name in lookup {
        // a known server: its queue drops the oldest token if full
        var key := lookup[name];
        var tokens := slots[key].tokens;
        if |tokens| >= maxTokens {
          tokens := tokens[1..];
        }
        tokens := tokens + [token];
        SlabTouched(Fields(), key, tokens);
        order := Remove(order, key) + [key];
        slots := slots[key := Entry(name, tokens)];
      } else {
        // a new server takes the place of the least recently used one if there is no room
        if |order| >= maxServers {
          Evict();
        }
        Insert(name, token);
      }
      assert View() == StoreSpec(c, maxServers, maxTokens, name, token);
    }

    /** Drop the least recently used slot and its entry in the lookup table. */
    method Evict()
      requires Fields().Bijective() && order != []
      modifies this
      ensures Fields().Bijective() && lookup.Keys <= old(lookup.Keys)
      ensures var c := old(View()); c.order != [] && View() == Cache(c.order[1..], c.queues - {c.order[0]})
    {
      var oldest := order[0];
      SlabRemoved(Fields(), oldest);
      lookup := lookup - {slots[oldest].name};
      slots := slots - {oldest};
      order := order[1..];
    }

    /** Fill a free slot, whichever the slab picks. */
    method Insert(name: Name, token: Token)
      requires Fields().Bijective() && name !in lookup
      modifies this
      ensures Fields().Bijective()
      ensures View() == Cache(old(View()).order + [name], old(View()).queues[name := [token]])
    {
      FreshExists(slots.Keys);
      var key :| key !in slots;
      SlabAdded(Fields(), key, name, [token]);
      slots := slots[key := Entry(name, [token])];
      order := order + [key];
      lookup := lookup[name := key];
    }

    method Take(name: Name) returns (r: Option<Token>)
      requires Valid()
      modifies this
      ensures Valid()
      ensures (View(), r) == TakeSpec(old(View()), name)
    {
      if name !in lookup {
        return None;
      }
      TakeStaysOk(View(), maxServers, maxTokens, name);
      var key := lookup[name];
      assert View().queues[name] == slots[key].tokens;
      var token, tokens := slots[key].tokens[0], slots[key].tokens[1..];
      if tokens == [] {
        // token queue emptied, remove entry
        SlabRemoved(Fields(), key);
        slots := slots - {key};
        order := Remove(order, key);
        lookup := lookup - {name};
      } else {
        SlabTouched(Fields(), key, tokens);
        slots := slots[key := Entry(name, tokens)];
        order := Remove(order, key) + [key];
      }
      return Some(token);
    }
  }

  lemma FreshExists(keys: set<nat>)
    ensures exists k: nat :: k !in keys
  {
    var bound := Above(keys);
    assert bound !in keys;
  }

  lemma Above(keys: set<nat>) returns (b: nat)
    ensures forall k :: k in keys ==> k < b
  {
    if keys == {} {
      b := 0;
    } else {
      var x :| x in keys;
      b := Above(keys - {x});
      assert forall k :: k in keys ==> k == x || k in keys - {x};
      if b <= x {
        b := x + 1;
      }
    }
  }

  // ------------------------------------------------------------------ whole runs

  datatype Op = Store(name: Name, token: Token) | Take(name: Name)

  ghost function Apply(c: Cache, maxServers: nat, maxTokens: nat, op: Op): Cache {
    match op
    case Store(name, token) => StoreSpec(c, maxServers, maxTokens, name, token)
    case Take(name) => TakeSpec(c, name).0
  }

  lemma ApplyOk(c: Cache, maxServers: nat, maxTokens: nat, op: Op)
    requires c.Ok(maxServers, maxTokens)
    ensures Apply(c, maxServers, maxTokens, op).Ok(maxServers, maxTokens)
  {
    match op {
      case Store(name, token) => StoreStaysOk(c, maxServers, maxTokens, name, token);
      case Take(name) => TakeStaysOk(c, maxServers, maxTokens, name);
    }
  }

  // ----- what a run does to one server's queue

  datatype Move =
    | Idle
    | Pushed(token: Token)   // stored
    | Rotated(token: Token)  // stored, at the price of the oldest token
    | Refused(token: Token)  // not stored, because nothing may be kept
    | Popped                 // taken
    | Evicted                // dropped with its server

  ghost function MoveOf(c: Cache, maxServers: nat, maxTokens: nat, op: Op, who: Name): Move {
    match op
    case Take(name) => if name == who then Popped else Idle
    case Store(name, token) =>
      if maxServers == 0 || maxTokens == 0 then (if name == who then Refused(token) else Idle)
      else if name == who then (if |c.Queue(who)| >= maxTokens then Rotated(token) else Pushed(token))
      else if name !in c.queues && |c.order| >= maxServers && c.order != [] && c.order[0] == who then Evicted
      else Idle
  }

  ghost function Oldest(queue: seq<Token>): seq<Token> {
    if queue == [] then [] else [queue[0]]
  }

  ghost function Younger(queue: seq<Token>): seq<Token> {
    if queue == [] then [] else queue[1..]
  }

  ghost function Moved(queue: seq<Token>, m: Move): seq<Token> {
    match m
    case Pushed(t) => queue + [t]
    case Rotated(t) => Younger(queue) + [t]
    case Popped => Younger(queue)
    case Evicted => []
    case _ => queue
  }

  /** What a server loses. */
  ghost function Dropped(queue: seq<Token>, m: Move): seq<Token> {
    match m
    case Rotated(_) => Oldest(queue)
    case Refused(t) => [t]
    case Evicted => queue
    case _ => []
  }

  lemma QueueFollows(c: Cache, maxServers: nat, maxTokens: nat, op: Op, who: Name)
    requires c.Ok(maxServers, maxTokens)
    ensures Apply(c, maxServers, maxTokens, op).Queue(who) == Moved(c.Queue(who), MoveOf(c, maxServers, maxTokens, op, who))
    ensures TakeSpec(c, who).1 == if c.Queue(who) == [] then None else Some(c.Queue(who)[0])
  {
  }

  /** One server's history: what is queued, and what was stored, taken and dropped, in order. */
  datatype History = History(queue: seq<Token>, stored: seq<Token>, taken: seq<Token>, dropped: seq<Token>)

  ghost function Record(h: History, m: Move): History {
    History(
      Moved(h.queue, m),
      if m.Pushed? || m.Rotated? || m.Refused? then h.stored + [m.token] else h.stored,
      if m.Popped? then h.taken + Oldest(h.queue) else h.taken,
      h.dropped + Dropped(h.queue, m))
  }

  // ----- conservation and order, server by server

  ghost function Count(s: seq<Token>, x: Token): nat {
    if s == [] then 0 else (if s[0] == x then 1 else 0) + Count(s[1..], x)
  }

  lemma {:induction false} CountConcat(a: seq<Token>, b: seq<Token>, x: Token)
    ensures Count(a + b, x) == Count(a, x) + Count(b, x)
  {
    if a == [] {
      assert a + b == b;
    } else {
      assert (a + b)[1..] == a[1..] + b;
      CountConcat(a[1..], b, x);
    }
  }

  ghost predicate Balanced(h: History, x: Token) {
    Count(h.stored, x) == Count(h.taken, x) + Count(h.queue, x) + Count(h.dropped, x)
  }

  lemma RecordBalances(h: History, m: Move, x: Token)
    requires Balanced(h, x)
    ensures Balanced(Record(h, m), x)
  {
    assert h.queue == Oldest(h.queue) + Younger(h.queue);
    CountConcat(Oldest(h.queue), Younger(h.queue), x);
    CountConcat(h.dropped, Dropped(h.queue, m), x);
    match m {
      case Pushed(t) => CountConcat(h.stored, [t], x); CountConcat(h.queue, [t], x);
      case Rotated(t) =>
        CountConcat(h.stored, [t], x);
        CountConcat(Younger(h.queue), [t], x);
      case Refused(t) => CountConcat(h.stored, [t], x);
      case Popped => CountConcat(h.taken, Oldest(h.queue), x);
      case _ =>
    }
  }

  /** `a` is what is left of `b` after removing some elements. */
  ghost predicate Subsequence(a: seq<Token>, b: seq<Token>) {
    if a == [] then true
    else if b == [] then false
    else
      || (a[|a| - 1] == b[|b| - 1] && Subsequence(a[..|a| - 1], b[..|b| - 1]))
      || Subsequence(a, b[..|b| - 1])
  }

  lemma SubsequenceAppend(a: seq<Token>, b: seq<Token>, x: Token)
    requires Subsequence(a, b)
    ensures Subsequence(a + [x], b + [x]) && Subsequence(a, b + [x])
  {
    assert (a + [x])[..|a|] == a && (b + [x])[..|b|] == b;
  }

  /** Removing one more element keeps it a subsequence. */
  lemma {:induction false} SubsequenceWithout(a: seq<Token>, x: Token, c: seq<Token>, b: seq<Token>)
    requires Subsequence(a + [x] + c, b)
    ensures Subsequence(a + c, b)
    decreases |b|
  {
    var all := a + [x] + c;
    var b', last := b[..|b| - 1], b[|b| - 1];
    assert b == b' + [last];
    if Subsequence(all, b') {
      SubsequenceWithout(a, x, c, b');
      SubsequenceAppend(a + c, b', last);
    } else if c == [] {
      assert all[..|all| - 1] == a == a + c;
      SubsequenceAppend(a, b', last);
    } else {
      var c' := c[..|c| - 1];
      assert all[..|all| - 1] == a + [x] + c';
      SubsequenceWithout(a, x, c', b');
      SubsequenceAppend(a + c', b', last);
      assert a + c == (a + c') + [last];
    }
  }

  /** Removing a suffix keeps it a subsequence. */
  lemma {:induction false} SubsequencePrefix(a: seq<Token>, c: seq<Token>, b: seq<Token>)
    requires Subsequence(a + c, b)
    ensures Subsequence(a, b)
    decreases |c|
  {
    if c == [] {
      assert a + c == a;
    } else {
      var c' := c[..|c| - 1];
      assert a + c == a + c' + [c[|c| - 1]] + [];
      SubsequenceWithout(a + c', c[|c| - 1], [], b);
      assert a + c' + [] == a + c';
      SubsequencePrefix(a, c', b);
    }
  }

  ghost predicate InOrder(h: History) {
    Subsequence(h.taken + h.queue, h.stored)
  }

  lemma RecordKeepsOrder(h: History, m: Move)
    requires InOrder(h)
    ensures InOrder(Record(h, m))
  {
    var h' := Record(h, m);
    match m {
      case Pushed(t) =>
        SubsequenceAppend(h.taken + h.queue, h.stored, t);
        assert h'.taken + h'.queue == h.taken + h.queue + [t];
      case Rotated(t) => RotateKeepsOrder(h, t);
      case Refused(t) => SubsequenceAppend(h.taken + h.queue, h.stored, t);
      case Popped => assert h'.taken + h'.queue == h.taken + h.queue;
      case Evicted =>
        SubsequencePrefix(h.taken, h.queue, h.stored);
        assert h.taken + [] == h.taken;
      case Idle =>
    }
  }

  lemma RotateKeepsOrder(h: History, t: Token)
    requires InOrder(h)
    ensures InOrder(Record(h, Rotated(t)))
  {
    var younger := Younger(h.queue);
    if h.queue != [] {
      assert h.taken + h.queue == h.taken + [h.queue[0]] + younger;
      SubsequenceWithout(h.taken, h.queue[0], younger, h.stored);
    }
    SubsequenceAppend(h.taken + younger, h.stored, t);
    assert h.taken + (younger + [t]) == h.taken + younger + [t];
  }

  // ----- the run itself

  /** A cache as one caller watches it: the tokens stored for and taken from server `who`, the ones
      it has lost, the number of operations so far and when each server was last named. */
  datatype Run = Run(cache: Cache, stored: seq<Token>, taken: seq<Token>, dropped: seq<Token>, clock: nat, last: map<Name, nat>) {
    ghost function Seen(who: Name): History {
      History(cache.Queue(who), stored, taken, dropped)
    }
  }

  const START: Run := Run(EMPTY, [], [], [], 0, map[])

  ghost function Step(s: Run, maxServers: nat, maxTokens: nat, who: Name, op: Op): Run {
    var cache := Apply(s.cache, maxServers, maxTokens, op);
    var stored := if op.Store? && op.name == who then s.stored + [op.token] else s.stored;
    var result := if op.Take? && op.name == who then TakeSpec(s.cache, who).1 else None;
    var taken := if result.Some? then s.taken + [result.value] else s.taken;
    var dropped := s.dropped + Dropped(s.cache.Queue(who), MoveOf(s.cache, maxServers, maxTokens, op, who));
    Run(cache, stored, taken, dropped, s.clock + 1, s.last[op.name := s.clock])
  }

  ghost function RunOps(s: Run, maxServers: nat, maxTokens: nat, who: Name, ops: seq<Op>): Run
    decreases |ops|
  {
    if ops == [] then s else RunOps(Step(s, maxServers, maxTokens, who, ops[0]), maxServers, maxTokens, who, ops[1..])
  }

  lemma StepIsRecord(s: Run, maxServers: nat, maxTokens: nat, who: Name, op: Op)
    requires s.cache.Ok(maxServers, maxTokens)
    ensures Step(s, maxServers, maxTokens, who, op).Seen(who)
         == Record(s.Seen(who), MoveOf(s.cache, maxServers, maxTokens, op, who))
  {
    QueueFollows(s.cache, maxServers, maxTokens, op, who);
  }

  ghost predicate ByLastTouch(order: seq<Name>, last: map<Name, nat>, clock: nat) {
    && (forall n :: n in order ==> n in last && last[n] < clock)
    && (forall i, j :: 0 <= i < j < |order| && order[i] in last && order[j] in last ==> last[order[i]] < last[order[j]])
  }

  ghost predicate Good(s: Run, maxServers: nat, maxTokens: nat, who: Name) {
    && s.cache.Ok(maxServers, maxTokens)
    && InOrder(s.Seen(who))
    && (forall x :: Balanced(s.Seen(who), x))
    && ByLastTouch(s.cache.order, s.last, s.clock)
  }

  lemma StepStaysGood(s: Run, maxServers: nat, maxTokens: nat, who: Name, op: Op)
    requires Good(s, maxServers, maxTokens, who)
    ensures Good(Step(s, maxServers, maxTokens, who, op), maxServers, maxTokens, who)
  {
    ApplyOk(s.cache, maxServers, maxTokens, op);
    StepIsRecord(s, maxServers, maxTokens, who, op);
    var m := MoveOf(s.cache, maxServers, maxTokens, op, who);
    RecordKeepsOrder(s.Seen(who), m);
    forall x
      ensures Balanced(Record(s.Seen(who), m), x)
    {
      RecordBalances(s.Seen(who), m, x);
    }
    SortedStep(s, maxServers, maxTokens, op);
  }

  lemma {:induction false} RunStaysGood(s: Run, maxServers: nat, maxTokens: nat, who: Name, ops: seq<Op>)
    requires Good(s, maxServers, maxTokens, who)
    ensures Good(RunOps(s, maxServers, maxTokens, who, ops), maxServers, maxTokens, who)
    decreases |ops|
  {
    hide Good;
    if ops != [] {
      StepStaysGood(s, maxServers, maxTokens, who, ops[0]);
      RunStaysGood(Step(s, maxServers, maxTokens, who, ops[0]), maxServers, maxTokens, who, ops[1..]);
    }
  }

  /** Over any run and for every server: each token is taken, queued or dropped as often as it was
      stored; what was taken followed by what is still queued is what was stored, in the same order,
      minus the dropped tokens, so no token comes back twice and tokens come back first in, first
      out; and the servers are sorted by the last operation on each, so the one a full cache evicts
      is the least recently touched. */
  lemma StoredTokensComeBackOnceInOrder(maxServers: nat, maxTokens: nat, who: Name, ops: seq<Op>)
    ensures var s := RunOps(START, maxServers, maxTokens, who, ops);
            && s.cache.Ok(maxServers, maxTokens)
            && InOrder(s.Seen(who)) && (forall x :: Balanced(s.Seen(who), x))
            && ByLastTouch(s.cache.order, s.last, s.clock)
  {
    RunStaysGood(START, maxServers, maxTokens, who, ops);
  }

  // ----- eviction order

  lemma SortedStep(s: Run, maxServers: nat, maxTokens: nat, op: Op)
    requires s.cache.Ok(maxServers, maxTokens) && ByLastTouch(s.cache.order, s.last, s.clock)
    ensures ByLastTouch(Apply(s.cache, maxServers, maxTokens, op).order, s.last[op.name := s.clock], s.clock + 1)
  {
    hide ByLastTouch, Apply;
    var order, name := s.cache.order, op.name;
    if name in order {
      RemoveKeeps(order, name);
      SortedRemove(order, s.last, s.clock, name);
      SortedTouch(Remove(order, name), s.last, s.clock, name);
    } else {
      SortedTouch(order, s.last, s.clock, name);
      if order != [] {
        SortedRemove(order, s.last, s.clock, order[0]);
        SortedTouch(order[1..], s.last, s.clock, name);
      }
    }
    OrderAfter(s.cache, maxServers, maxTokens, op);
  }

  lemma OrderAfter(c: Cache, maxServers: nat, maxTokens: nat, op: Op)
    requires c.Ok(maxServers, maxTokens)
    ensures var order' := Apply(c, maxServers, maxTokens, op).order;
            if op.name in c.order then order' in {Remove(c.order, op.name), Remove(c.order, op.name) + [op.name]}
            else order' in {c.order, c.order + [op.name]} || (c.order != [] && order' == c.order[1..] + [op.name])
  {
  }

  lemma {:induction false} SortedRemove(order: seq<Name>, last: map<Name, nat>, clock: nat, name: Name)
    requires ByLastTouch(order, last, clock)
    ensures ByLastTouch(Remove(order, name), last, clock)
    ensures forall y :: y in Remove(order, name) ==> y in order
  {
    if order != [] && order[0] != name {
      var rest := Remove(order[1..], name);
      SortedRemove(order[1..], last, clock, name);
      assert Remove(order, name) == [order[0]] + rest;
      assert forall j :: 0 <= j < |rest| ==> rest[j] in order[1..];
    }
  }

  lemma SortedTouch(order: seq<Name>, last: map<Name, nat>, clock: nat, name: Name)
    requires ByLastTouch(order, last, clock) && name !in order
    ensures ByLastTouch(order, last[name := clock], clock + 1) && ByLastTouch(order + [name], last[name := clock], clock + 1)
  {
    assert forall j :: 0 <= j < |order| ==> order[j] in order;
  }
}
