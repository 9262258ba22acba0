/** The DNS answer cache: handlers that look up, resolve and store, and deletes that land late. */
module DnsCache {
  import opened Text
  import opened Wrappers

  import Addresses

  const TYPE_A := 1

  datatype Question = Question(name: string, qtype: nat)

  datatype Rcode = Success | FormatError | ServerFailure | Other(code: nat)

  /** A message without its header id. */
  datatype Msg = Msg(questions: seq<Question>, rcode: Rcode, answers: seq<string>)

  datatype Entry = Entry(msg: Msg, expiresAt: nat)

  type Cache = map<string, Entry>

  function CacheKey(q: Question): string {
    q.name + [':'] + Digits(q.qtype)
  }

  /** Different questions never share a key, whatever the name holds. */
  lemma CacheKeyInjective(p: Question, q: Question)
    requires CacheKey(p) == CacheKey(q)
    ensures p == q
  {
    Addresses.LastPartUnique(p.name, Digits(p.qtype), q.name, Digits(q.qtype), ':');
    DigitsInjective(p.qtype, q.qtype);
  }

  predicate Expired(cache: Cache, key: string, now: nat) {
    key in cache && now > cache[key].expiresAt
  }

  function Hit(cache: Cache, key: string, now: nat): Option<Msg> {
    if key in cache && now <= cache[key].expiresAt then Some(cache[key].msg) else None
  }

  /** The reply for a container found by the local resolver. */
  function LocalReply(q: Question, ip: string): Msg {
    Msg([q], Success, [q.name + " IN A " + ip])
  }

  // ---------- Interleaved steps ----------

  datatype Origin = FromResolver(ip: string) | FromUpstream

  datatype Phase =
    | Looking(q: Question)
    | Resolving(q: Question)
    | Forwarding(q: Question)
    | Storing(q: Question, msg: Msg, origin: Origin)
    | Replied(msg: Msg)

  /** History: what was stored, and what was served from the cache after how many stores. */
  datatype Stored = Stored(q: Question, msg: Msg, origin: Origin, at: nat)
  datatype Served = Served(q: Question, msg: Msg, at: nat, seen: nat)

  datatype State = State(now: nat, cache: Cache, deletes: multiset<string>, handlers: seq<Phase>,
                         stores: seq<Stored>, hits: seq<Served>)

  datatype Step =
    | Tick(d: nat)
    | Arrive(questions: seq<Question>)
    | Look(i: nat)                              // getCache, under the read lock
    | Resolve(i: nat, found: Option<string>)    // the local resolver, and a well-formed record
    | Exchange(i: nat, resp: Option<Msg>)       // the upstream server
    | Store(i: nat)                             // setCache, under the lock
    | Delete(key: string)                       // a delete that was spawned earlier

  const INIT := State(0, map[], multiset{}, [], [], [])

  function Move(s: State, i: nat, p: Phase): State
    requires i < |s.handlers|
  {
    s.(handlers := s.handlers[i := p])
  }

  function Arrived(questions: seq<Question>): Phase {
    if questions == [] then Replied(Msg([], FormatError, []))
    else if questions[0].qtype != TYPE_A then Forwarding(questions[0])
    else Looking(questions[0])
  }

  function LookUp(s: State, i: nat, q: Question): State
    requires i < |s.handlers|
  {
    var key := CacheKey(q);
    if Hit(s.cache, key, s.now).Some? then
      var msg := Hit(s.cache, key, s.now).value;
      Move(s.(hits := s.hits + [Served(q, msg, s.now, |s.stores|)]), i, Replied(msg))
    else if Expired(s.cache, key, s.now) then
      Move(s.(deletes := s.deletes + multiset{key}), i, Resolving(q))
    else Move(s, i, Resolving(q))
  }

  function Put(s: State, i: nat, p: Phase, ttl: nat): State
    requires i < |s.handlers| && p.Storing?
  {
    Move(s.(cache := s.cache[CacheKey(p.q) := Entry(p.msg, s.now + ttl)],
            stores := s.stores + [Stored(p.q, p.msg, p.origin, s.now)]), i, Replied(p.msg))
  }

  /** One step; a step that its handler is not ready for changes nothing. */
  function Do(s: State, step: Step, ttl: nat): State {
    match step
    case Tick(d) => s.(now := s.now + d)
    case Arrive(questions) => s.(handlers := s.handlers + [Arrived(questions)])
    case Look(i) =>
      if i < |s.handlers| && s.handlers[i].Looking? then LookUp(s, i, s.handlers[i].q) else s
    case Resolve(i, found) =>
      if i < |s.handlers| && s.handlers[i].Resolving? then
        var q := s.handlers[i].q;
        Move(s, i, if found.None? then Forwarding(q)
                   else Storing(q, LocalReply(q, found.value), FromResolver(found.value)))
      else s
    case Exchange(i, resp) =>
      if i < |s.handlers| && s.handlers[i].Forwarding? then
        var q := s.handlers[i].q;
        Move(s, i, if resp.Some? then Storing(q, resp.value, FromUpstream) else Replied(Msg([q], ServerFailure, [])))
      else s
    case Store(i) =>
      if i < |s.handlers| && s.handlers[i].Storing? then Put(s, i, s.handlers[i], ttl) else s
    case Delete(key) =>
      if key in s.deletes then s.(deletes := s.deletes - multiset{key}, cache := s.cache - {key}) else s
  }

  function Run(s: State, steps: seq<Step>, ttl: nat): State {
    if steps == [] then s else Do(Run(s, steps[..|steps| - 1], ttl), steps[|steps| - 1], ttl)
  }

  // ---------- Freshness ----------

  /** The stored record is an answer for the question, and a resolver's answer carries the resolver's address. */
  predicate Genuine(r: Stored) {
    r.origin.FromResolver? ==> r.msg == LocalReply(r.q, r.origin.ip)
  }

  predicate Justifies(r: Stored, key: string, e: Entry, now: nat, ttl: nat) {
    CacheKey(r.q) == key && r.msg == e.msg && e.expiresAt == r.at + ttl && r.at <= now
  }

  /** The answer was stored for the same question no earlier than a TTL before it is served. */
  predicate Fresh(r: Stored, h: Served, ttl: nat) {
    r.q == h.q && r.msg == h.msg && r.at <= h.at <= r.at + ttl
  }

  /** Among the first n stores, number i is the last one for the key. */
  predicate LastFor(stores: seq<Stored>, n: nat, i: nat, key: string) {
    i < n <= |stores| && CacheKey(stores[i].q) == key && forall j | i < j < n :: CacheKey(stores[j].q) != key
  }

  /** The entry is what the last store for its key has put there. */
  ghost predicate EntryOk(s: State, key: string, ttl: nat)
    requires key in s.cache
  {
    exists i | 0 <= i < |s.stores| ::
      LastFor(s.stores, |s.stores|, i, key) && Justifies(s.stores[i], key, s.cache[key], s.now, ttl)
  }

  /** What was served was fresh, and from the last store for its question until then. */
  ghost predicate HitOk(stores: seq<Stored>, h: Served, ttl: nat) {
    exists i | 0 <= i < |stores| :: LastFor(stores, h.seen, i, CacheKey(h.q)) && Fresh(stores[i], h, ttl)
  }

  ghost predicate Invariant(s: State, ttl: nat) {
    && (forall key | key in s.cache :: EntryOk(s, key, ttl))
    && (forall r | r in s.stores :: Genuine(r))
    && (forall p | p in s.handlers && p.Storing? :: Genuine(Stored(p.q, p.msg, p.origin, 0)))
    && (forall p | p in s.handlers && p.Looking? :: p.q.qtype == TYPE_A)
    && (forall h | h in s.hits :: h.q.qtype == TYPE_A && HitOk(s.stores, h, ttl))
  }

  lemma MovedHandlers(s: State, i: nat, p: Phase)
    requires i < |s.handlers|
    ensures forall h | h in Move(s, i, p).handlers :: h in s.handlers || h == p
  {
  }

  /** A step that neither stores nor ticks keeps every entry that stays. */
  lemma KeptEntriesOk(s: State, s': State, ttl: nat)
    requires forall key | key in s.cache :: EntryOk(s, key, ttl)
    requires s'.now == s.now && s'.stores == s.stores
    requires forall key | key in s'.cache :: key in s.cache && s'.cache[key] == s.cache[key]
    ensures forall key | key in s'.cache :: EntryOk(s', key, ttl)
  {
    forall key | key in s'.cache
      ensures EntryOk(s', key, ttl)
    {
      assert EntryOk(s, key, ttl);
    }
  }

  /** What a lookup finds was fresh, and from the last store for the question. */
  lemma FoundIsOk(s: State, q: Question, ttl: nat)
    requires CacheKey(q) in s.cache && EntryOk(s, CacheKey(q), ttl) && s.now <= s.cache[CacheKey(q)].expiresAt
    ensures HitOk(s.stores, Served(q, s.cache[CacheKey(q)].msg, s.now, |s.stores|), ttl)
  {
    var key, h := CacheKey(q), Served(q, s.cache[CacheKey(q)].msg, s.now, |s.stores|);
    var j :| 0 <= j < |s.stores| && LastFor(s.stores, |s.stores|, j, key) &&
             Justifies(s.stores[j], key, s.cache[key], s.now, ttl);
    CacheKeyInjective(q, s.stores[j].q);
    assert Fresh(s.stores[j], h, ttl);
  }

  lemma LookKeepsInvariant(s: State, i: nat, ttl: nat)
    requires Invariant(s, ttl) && i < |s.handlers| && s.handlers[i].Looking?
    ensures Invariant(Do(s, Look(i), ttl), ttl)
  {
    var q, s' := s.handlers[i].q, Do(s, Look(i), ttl);
    MovedHandlers(s, i, s'.handlers[i]);
    KeptEntriesOk(s, s', ttl);
    assert s.handlers[i] in s.handlers;
    if Hit(s.cache, CacheKey(q), s.now).Some? {
      assert EntryOk(s, CacheKey(q), ttl);
      FoundIsOk(s, q, ttl);
    }
  }

  lemma StoredEntryOk(s: State, i: nat, ttl: nat, key: string)
    requires i < |s.handlers| && s.handlers[i].Storing? && key in Do(s, Store(i), ttl).cache
    requires key in s.cache ==> EntryOk(s, key, ttl)
    ensures EntryOk(Do(s, Store(i), ttl), key, ttl)
  {
    var p, s' := s.handlers[i], Do(s, Store(i), ttl);
    if key == CacheKey(p.q) {
      assert LastFor(s'.stores, |s'.stores|, |s.stores|, key);
    } else {
      var j :| 0 <= j < |s.stores| && LastFor(s.stores, |s.stores|, j, key) &&
               Justifies(s.stores[j], key, s.cache[key], s.now, ttl);
      assert LastFor(s'.stores, |s'.stores|, j, key);
    }
  }

  lemma HitStaysOk(stores: seq<Stored>, more: seq<Stored>, h: Served, ttl: nat)
    requires HitOk(stores, h, ttl)
    ensures HitOk(stores + more, h, ttl)
  {
    var i :| 0 <= i < |stores| && LastFor(stores, h.seen, i, CacheKey(h.q)) && Fresh(stores[i], h, ttl);
    assert LastFor(stores + more, h.seen, i, CacheKey(h.q));
  }

  lemma StoreKeepsInvariant(s: State, i: nat, ttl: nat)
    requires Invariant(s, ttl) && i < |s.handlers| && s.handlers[i].Storing?
    ensures Invariant(Do(s, Store(i), ttl), ttl)
  {
    var p, s' := s.handlers[i], Do(s, Store(i), ttl);
    var r := Stored(p.q, p.msg, p.origin, s.now);
    MovedHandlers(s, i, Replied(p.msg));
    assert p in s.handlers && Genuine(Stored(p.q, p.msg, p.origin, 0));
    assert forall x | x in s'.stores :: x in s.stores || x == r;
    forall key | key in s'.cache
      ensures EntryOk(s', key, ttl)
    {
      StoredEntryOk(s, i, ttl, key);
    }
    forall h | h in s'.hits
      ensures HitOk(s'.stores, h, ttl)
    {
      HitStaysOk(s.stores, [r], h, ttl);
    }
  }

  lemma StepKeepsInvariant(s: State, step: Step, ttl: nat)
    requires Invariant(s, ttl)
    ensures Invariant(Do(s, step, ttl), ttl)
  {
    var s' := Do(s, step, ttl);
    if s' != s {
      match step
      case Tick(d) => assert Invariant(Do(s, Tick(d), ttl), ttl);
      case Look(i) => LookKeepsInvariant(s, i, ttl);
      case Store(i) => StoreKeepsInvariant(s, i, ttl);
      case Arrive(questions) =>
        KeptEntriesOk(s, s', ttl);
        assert forall p | p in s'.handlers :: p in s.handlers || p == Arrived(questions);
      case Resolve(i, _) =>
        KeptEntriesOk(s, s', ttl);
        MovedHandlers(s, i, s'.handlers[i]);
      case Exchange(i, _) =>
        KeptEntriesOk(s, s', ttl);
        MovedHandlers(s, i, s'.handlers[i]);
      case Delete(_) =>
        KeptEntriesOk(s, s', ttl);
    }
  }

  lemma {:induction false} RunKeepsInvariant(steps: seq<Step>, ttl: nat)
    ensures Invariant(Run(INIT, steps, ttl), ttl)
  {
    if steps != [] {
      RunKeepsInvariant(steps[..|steps| - 1], ttl);
      StepKeepsInvariant(Run(INIT, steps[..|steps| - 1], ttl), steps[|steps| - 1], ttl);
    }
  }

  /** Over every interleaving of handlers and delayed deletes: an answer served from the cache was asked with type A,
   *  and was stored for the same question at most a TTL before, from the resolver or the upstream server; and it is the
   *  last one stored for this question until then. */
  lemma ServedIsFresh(steps: seq<Step>, ttl: nat, h: Served) returns (i: nat)
    requires h in Run(INIT, steps, ttl).hits
    ensures h.q.qtype == TYPE_A
    ensures var stores := Run(INIT, steps, ttl).stores;
            && i < h.seen <= |stores| && Fresh(stores[i], h, ttl) && Genuine(stores[i])
            && forall j | i < j < h.seen :: stores[j].q != h.q
  {
    RunKeepsInvariant(steps, ttl);
    var stores := Run(INIT, steps, ttl).stores;
    assert HitOk(stores, h, ttl);
    i :| 0 <= i < |stores| && LastFor(stores, h.seen, i, CacheKey(h.q)) && Fresh(stores[i], h, ttl);
    assert stores[i] in stores;
  }

  // ---------- Late deletes ----------

  datatype CacheOp = Set(key: string, msg: Msg, at: nat) | Remove(key: string)

  function After(cache: Cache, ops: seq<CacheOp>, ttl: nat): Cache {
    if ops == [] then cache
    else
      var before := After(cache, ops[..|ops| - 1], ttl);
      match ops[|ops| - 1]
      case Set(key, msg, at) => before[key := Entry(msg, at + ttl)]
      case Remove(key) => before - {key}
  }

  /** However late a delete lands, every later lookup is the one without it or a miss. */
  lemma {:induction false} LateDeleteOnlyMisses(cache: Cache, late: string, ops: seq<CacheOp>, ttl: nat, key: string,
                                                now: nat)
    ensures var lookup := Hit(After(cache - {late}, ops, ttl), key, now);
            lookup == None || lookup == Hit(After(cache, ops, ttl), key, now)
    ensures key != late ==> Hit(After(cache - {late}, ops, ttl), key, now) == Hit(After(cache, ops, ttl), key, now)
  {
    if ops != [] {
      LateDeleteOnlyMisses(cache, late, ops[..|ops| - 1], ttl, key, now);
    }
  }

  /** The entry at a key was stored after state s. */
  ghost predicate StoredSince(s: State, t: State, key: string, ttl: nat)
    requires key in t.cache
  {
    exists i | |s.stores| <= i < |t.stores| :: Justifies(t.stores[i], key, t.cache[key], t.now, ttl)
  }

  /** An entry that is there after one step was there before, or is stored by this step. */
  lemma EntryAfterStep(s: State, step: Step, ttl: nat, key: string)
    requires key in Do(s, step, ttl).cache
    ensures var t := Do(s, step, ttl);
            && t.now >= s.now && s.stores <= t.stores
            && ((key in s.cache && t.cache[key] == s.cache[key]) || StoredSince(s, t, key, ttl))
  {
    var t := Do(s, step, ttl);
    if step.Store? && step.i < |s.handlers| && s.handlers[step.i].Storing? && key == CacheKey(s.handlers[step.i].q) {
      assert Justifies(t.stores[|s.stores|], key, t.cache[key], t.now, ttl);
    }
  }

  lemma {:induction false} RunGrows(s: State, steps: seq<Step>, ttl: nat)
    ensures Run(s, steps, ttl).now >= s.now && s.stores <= Run(s, steps, ttl).stores
  {
    if steps != [] {
      RunGrows(s, steps[..|steps| - 1], ttl);
      var mid := Run(s, steps[..|steps| - 1], ttl);
      var end := Do(mid, steps[|steps| - 1], ttl);
      assert end.now >= mid.now && mid.stores <= end.stores;
    }
  }

  lemma {:induction false} EntriesAfter(s: State, steps: seq<Step>, ttl: nat, key: string)
    requires key in Run(s, steps, ttl).cache
    ensures var t := Run(s, steps, ttl);
            (key in s.cache && t.cache[key] == s.cache[key]) || StoredSince(s, t, key, ttl)
  {
    if steps != [] {
      var mid, last := Run(s, steps[..|steps| - 1], ttl), steps[|steps| - 1];
      var t := Do(mid, last, ttl);
      EntryAfterStep(mid, last, ttl, key);
      RunGrows(s, steps[..|steps| - 1], ttl);
      if !StoredSince(mid, t, key, ttl) {
        EntriesAfter(s, steps[..|steps| - 1], ttl, key);
        if StoredSince(s, mid, key, ttl) {
          var i :| |s.stores| <= i < |mid.stores| && Justifies(mid.stores[i], key, mid.cache[key], mid.now, ttl);
          assert Justifies(t.stores[i], key, t.cache[key], t.now, ttl);
        }
      }
    }
  }

  /** After a late delete has landed, whatever the handlers do, every lookup misses, finds what was there before for
   *  another key, or finds what has been stored since. */
  lemma AfterLateDelete(s: State, late: string, steps: seq<Step>, ttl: nat, key: string)
    requires late in s.deletes
    ensures var t := Run(Do(s, Delete(late), ttl), steps, ttl);
            || Hit(t.cache, key, t.now) == None
            || (key != late && key in s.cache && t.cache[key] == s.cache[key])
            || StoredSince(s, t, key, ttl)
  {
    var t := Run(Do(s, Delete(late), ttl), steps, ttl);
    if key in t.cache {
      EntriesAfter(Do(s, Delete(late), ttl), steps, ttl, key);
    }
  }

  // ---------- Live entries are served ----------

  /** The step is a store for the question. */
  predicate StoresFor(s: State, step: Step, q: Question) {
    step.Store? && step.i < |s.handlers| && s.handlers[step.i].Storing? && s.handlers[step.i].q == q
  }

  /** No step of the run stores for the question or lands a delete of its key. */
  predicate LeavesAlone(s: State, steps: seq<Step>, ttl: nat, q: Question) {
    forall k | 0 <= k < |steps| ::
      !StoresFor(Run(s, steps[..k], ttl), steps[k], q) && steps[k] != Delete(q.name + ":" + Digits(q.qtype))
  }

  lemma StepLeavesAlone(s: State, step: Step, ttl: nat, q: Question)
    requires !StoresFor(s, step, q) && step != Delete(CacheKey(q)) && CacheKey(q) in s.cache
    ensures var s' := Do(s, step, ttl);
            CacheKey(q) in s'.cache && s'.cache[CacheKey(q)] == s.cache[CacheKey(q)]
  {
    if step.Store? && step.i < |s.handlers| && s.handlers[step.i].Storing? {
      var p := s.handlers[step.i].q;
      if CacheKey(p) == CacheKey(q) {
        CacheKeyInjective(p, q);
      }
    }
  }

  lemma {:induction false} RunLeavesAlone(s: State, steps: seq<Step>, ttl: nat, q: Question)
    requires LeavesAlone(s, steps, ttl, q) && CacheKey(q) in s.cache
    ensures var s' := Run(s, steps, ttl);
            CacheKey(q) in s'.cache && s'.cache[CacheKey(q)] == s.cache[CacheKey(q)]
  {
    if steps != [] {
      var front, last := steps[..|steps| - 1], steps[|steps| - 1];
      assert forall k | 0 <= k < |front| :: front[..k] == steps[..k] && front[k] == steps[k];
      RunLeavesAlone(s, front, ttl, q);
      assert front == steps[..|front|];
      StepLeavesAlone(Run(s, front, ttl), last, ttl, q);
    }
  }

  lemma StoreEnters(s: State, i: nat, ttl: nat)
    requires i < |s.handlers| && s.handlers[i].Storing?
    ensures var key, s' := CacheKey(s.handlers[i].q), Do(s, Store(i), ttl);
            key in s'.cache && s'.cache[key] == Entry(s.handlers[i].msg, s.now + ttl)
  {
  }

  /** Handler i stores an answer, which leads to state s'. Whatever happens then, as long as nothing is stored for the
   *  same question and no delete of its key lands: a lookup of this question within the TTL is replied to with that
   *  answer. */
  lemma LiveAnswerIsServed(s: State, i: nat, s': State, steps: seq<Step>, t: State, ttl: nat, j: nat)
    requires i < |s.handlers| && s.handlers[i].Storing? && s' == Do(s, Store(i), ttl)
    requires LeavesAlone(s', steps, ttl, s.handlers[i].q) && t == Run(s', steps, ttl)
    requires j < |t.handlers| && t.handlers[j] == Looking(s.handlers[i].q) && t.now <= s.now + ttl
    ensures Do(t, Look(j), ttl).handlers[j] == Replied(s.handlers[i].msg)
  {
    var q := s.handlers[i].q;
    StoreEnters(s, i, ttl);
    RunLeavesAlone(s', steps, ttl, q);
    assert Do(t, Look(j), ttl).handlers[j] == Replied(s.handlers[i].msg);
  }

  /** What setCache stores under a key, getCache finds until its TTL is over, and not after, unless the key is set again
   *  or removed. */
  lemma {:induction false} SetIsFound(cache: Cache, key: string, msg: Msg, at: nat, ops: seq<CacheOp>, ttl: nat,
                                      now: nat)
    requires forall op | op in ops :: op.key != key
    ensures Hit(After(cache[key := Entry(msg, at + ttl)], ops, ttl), key, now) ==
            if now <= at + ttl then Some(msg) else None
  {
    if ops != [] {
      assert ops[|ops| - 1] in ops;
      SetIsFound(cache, key, msg, at, ops[..|ops| - 1], ttl, now);
    }
  }

  // ---------- One handler alone ----------

  /** A request, what the resolver and the upstream server say to it, and the times of the lookup and of the store. */
  datatype Query = Query(questions: seq<Question>, found: Option<string>, upstream: Option<Msg>, asked: nat, now: nat,
                         ttl: nat)

  /** The reply to a request, and what it leaves in the cache and of deletes to come. */
  predicate Handled(query: Query, cache: Cache, deletes: multiset<string>, reply: Msg, cache': Cache,
                    deletes': multiset<string>)
  {
    if query.questions == [] then reply == Msg([], FormatError, []) && cache' == cache && deletes' == deletes
    else
      var q, stored := query.questions[0], Entry(reply, query.now + query.ttl);
      var key := q.name + ":" + Digits(q.qtype);
      var live := q.qtype == 1 && key in cache && query.asked <= cache[key].expiresAt;
      && (if live then reply == cache[key].msg && cache' == cache
          else if q.qtype == 1 && query.found.Some? then
            reply == Msg([q], Success, [q.name + " IN A " + query.found.value]) && cache' == cache[key := stored]
          else if query.upstream.Some? then reply == query.upstream.value && cache' == cache[key := stored]
          else reply == Msg([q], ServerFailure, []) && cache' == cache)
      && deletes' == deletes + if q.qtype == 1 && key in cache && !live then multiset{key} else multiset{}
  }

  /** What is left of handler i's steps after its lookup. */
  function AfterLook(s: State, i: nat, query: Query): State {
    Do(Do(Do(s, Resolve(i, query.found), query.ttl), Exchange(i, query.upstream), query.ttl), Store(i), query.ttl)
  }

  /** All steps of a new handler, in the order of HandleDNS, with no other handler in between. */
  function Alone(s: State, query: Query, d: nat): State {
    var i := |s.handlers|;
    var looked := Do(Do(s, Arrive(query.questions), query.ttl), Look(i), query.ttl);
    AfterLook(Do(looked, Tick(d), query.ttl), i, query)
  }

  /** Handler i of state t has replied. */
  predicate Ends(t: State, i: nat, reply: Msg, cache: Cache, deletes: multiset<string>) {
    i < |t.handlers| && t.handlers[i] == Replied(reply) && t.cache == cache && t.deletes == deletes
  }

  lemma RepliedEnds(s: State, i: nat, query: Query, reply: Msg)
    requires i < |s.handlers| && s.handlers[i] == Replied(reply)
    ensures Ends(AfterLook(s, i, query), i, reply, s.cache, s.deletes)
  {
  }

  lemma StoringEnds(s: State, i: nat, ttl: nat)
    requires i < |s.handlers| && s.handlers[i].Storing?
    ensures var p := s.handlers[i];
            Ends(Do(s, Store(i), ttl), i, p.msg, s.cache[CacheKey(p.q) := Entry(p.msg, s.now + ttl)], s.deletes)
  {
  }

  lemma ForwardingEnds(s: State, i: nat, q: Question, query: Query)
    requires i < |s.handlers| && s.handlers[i] == Forwarding(q)
    ensures var up := query.upstream;
            if up.None? then Ends(AfterLook(s, i, query), i, Msg([q], ServerFailure, []), s.cache, s.deletes)
            else Ends(AfterLook(s, i, query), i, up.value,
                      s.cache[CacheKey(q) := Entry(up.value, s.now + query.ttl)], s.deletes)
  {
    assert Do(s, Resolve(i, query.found), query.ttl) == s;
    if query.upstream.Some? {
      StoringEnds(Do(s, Exchange(i, query.upstream), query.ttl), i, query.ttl);
    }
  }

  lemma ResolvingEnds(s: State, i: nat, q: Question, query: Query)
    requires i < |s.handlers| && s.handlers[i] == Resolving(q)
    ensures if query.found.Some? then
              var reply := LocalReply(q, query.found.value);
              Ends(AfterLook(s, i, query), i, reply, s.cache[CacheKey(q) := Entry(reply, s.now + query.ttl)], s.deletes)
            else AfterLook(s, i, query) == AfterLook(Move(s, i, Forwarding(q)), i, query)
  {
    if query.found.Some? {
      var t := Do(s, Resolve(i, query.found), query.ttl);
      assert Do(t, Exchange(i, query.upstream), query.ttl) == t;
      StoringEnds(t, i, query.ttl);
    }
  }

  /** The steps of one handler, with no other in between, handle its request. */
  lemma HandlerAlone(s: State, query: Query, d: nat)
    requires query.asked == s.now && query.now == s.now + d
    ensures var i, t := |s.handlers|, Alone(s, query, d);
            |t.handlers| > i && t.handlers[i].Replied? &&
            Handled(query, s.cache, s.deletes, t.handlers[i].msg, t.cache, t.deletes)
  {
    var i, ttl := |s.handlers|, query.ttl;
    var looked := Do(Do(Do(s, Arrive(query.questions), ttl), Look(i), ttl), Tick(d), ttl);
    match looked.handlers[i]
    case Replied(reply) => RepliedEnds(looked, i, query, reply);
    case Forwarding(q) => ForwardingEnds(looked, i, q, query);
    case Resolving(q) =>
      ResolvingEnds(looked, i, q, query);
      if query.found.None? {
        ForwardingEnds(Move(looked, i, Forwarding(q)), i, q, query);
      }
  }

  // ---------- The server ----------

  class Dns {
    var cache: Cache
    /** The deletes that are spawned; they land as Delete steps. */
    var deletes: multiset<string>
    const ttl: nat

    constructor (ttl: nat)
      ensures cache == map[] && deletes == multiset{} && this.ttl == ttl
    {
      this.ttl := ttl;
      cache, deletes := map[], multiset{};
    }

    method GetCache(key: string, now: nat) returns (r: Option<Msg>)
      modifies `deletes
      ensures r == Hit(cache, key, now)
      ensures key in cache && now <= cache[key].expiresAt ==> r == Some(cache[key].msg) && deletes == old(deletes)
      ensures key !in cache ==> r == None && deletes == old(deletes)
      ensures key in cache && cache[key].expiresAt < now ==> r == None && deletes == old(deletes) + multiset{key}
    {
      if key !in cache {
        return None;
      }
      if now > cache[key].expiresAt {
        deletes := deletes + multiset{key};
        return None;
      }
      return Some(cache[key].msg);
    }

    method SetCache(key: string, msg: Msg, now: nat)
      modifies `cache
      ensures cache == old(cache)[key := Entry(msg, now + ttl)]
    {
      cache := cache[key := Entry(msg, now + ttl)];
    }

    /** The upstream server's response, when there is one, is stored and passed on. */
    method ForwardOrFail(q: Question, upstream: Option<Msg>, now: nat) returns (reply: Msg)
      modifies `cache
      ensures upstream.Some? ==> reply == upstream.value && cache == old(cache)[CacheKey(q) := Entry(reply, now + ttl)]
      ensures upstream.None? ==> reply == Msg([q], ServerFailure, []) && cache == old(cache)
    {
      if upstream.Some? {
        SetCache(CacheKey(q), upstream.value, now);
        return upstream.value;
      }
      return Msg([q], ServerFailure, []);
    }

    /** One query without interleaving; `found` is the resolver's answer, `asked` and `now` are the times of the lookup
     *  and of the store. */
    method HandleDNS(questions: seq<Question>, found: Option<string>, upstream: Option<Msg>, asked: nat, now: nat)
      returns (reply: Msg)
      modifies this
      ensures Handled(Query(questions, found, upstream, asked, now, ttl), old(cache), old(deletes),
                      reply, cache, deletes)
    {
      if questions == [] {
        return Msg([], FormatError, []);
      }
      var q := questions[0];
      if q.qtype != TYPE_A {
        reply := ForwardOrFail(q, upstream, now);
        return;
      }
      var cached := GetCache(CacheKey(q), asked);
      if cached.Some? {
        return cached.value;
      }
      if found.Some? {
        SetCache(CacheKey(q), LocalReply(q, found.value), now);
        return LocalReply(q, found.value);
      }
      reply := ForwardOrFail(q, upstream, now);
    }
  }
}
