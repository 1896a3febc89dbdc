/**
 The response cache inside the running protocol. Every schedule of requests does to the cache what some sequence
 of lookups and stores does to it, so it stays within its size, and an answer that was put in or used is there for
 the next request as long as it is live and fewer than `maxEntries - 1` others were put in or used since.
 */
module OcspCache {
  import opened Collections
  import opened OcspMachine
  import opened OcspReplies
  import opened Options
  import Lru = LruCache

  // ---------------------------------------------------------------------------
  // What a schedule does to the cache
  // ---------------------------------------------------------------------------

  /** A request asks the cache once, before its first wait; a signed answer is stored once. */
  function OpsOf(s: System, step: Step): seq<Lru.Op<Answer>> {
    match step
    case Arrive(id, request) =>
      if id !in s.tasks && AsksOurs(s.config, request) then [Lru.Get(CacheKey(request.ids[0]), s.clockMs)] else []
    case Deliver(id) =>
      if id in s.tasks && s.tasks[id].phase.Signing? then
        [Lru.Set(CacheKey(s.tasks[id].phase.response.certId), Finished(s, s.tasks[id].phase), s.clockMs)]
      else []
    case _ => []
  }

  function Ops(s0: System, steps: seq<Step>): seq<Lru.Op<Answer>> {
    if steps == [] then []
    else Ops(s0, steps[..|steps| - 1]) + OpsOf(Run(s0, steps[..|steps| - 1]), steps[|steps| - 1])
  }

  function Past(s0: System, steps: seq<Step>): Lru.History<Answer> {
    Lru.Run(Ops(s0, steps), s0.config.maxEntries, s0.config.validityMs)
  }

  /** What one step adds to the history. */
  function Next(h: Lru.History<Answer>, s: System, step: Step): Lru.History<Answer> {
    var ops := OpsOf(s, step);
    if ops == [] then h else Lru.Do(h, ops[0], s.config.maxEntries, s.config.validityMs)
  }

  lemma {:induction false} ConfigStays(s0: System, steps: seq<Step>)
    ensures Run(s0, steps).config == s0.config
  {
    if steps != [] {
      ConfigStays(s0, steps[..|steps| - 1]);
    }
  }

  lemma DoneNext(ops: seq<Lru.Op<Answer>>, op: Lru.Op<Answer>, maxEntries: nat, ttlMs: nat)
    ensures Lru.Run(ops + [op], maxEntries, ttlMs) == Lru.Do(Lru.Run(ops, maxEntries, ttlMs), op, maxEntries, ttlMs)
  {
    assert (ops + [op])[..|ops|] == ops;
  }

  lemma PastSnoc(s0: System, steps: seq<Step>)
    requires steps != []
    ensures var front := steps[..|steps| - 1];
            Past(s0, steps) == Next(Past(s0, front), Run(s0, front), steps[|steps| - 1])
  {
    var front := steps[..|steps| - 1];
    var ops := OpsOf(Run(s0, front), steps[|steps| - 1]);
    ConfigStays(s0, front);
    if ops == [] {
      assert Ops(s0, front) + ops == Ops(s0, front);
    } else {
      assert ops == [ops[0]];
      DoneNext(Ops(s0, front), ops[0], s0.config.maxEntries, s0.config.validityMs);
    }
  }

  lemma CacheNext(h: Lru.History<Answer>, s: System, step: Step)
    requires h.cache == s.cache
    ensures Next(h, s, step).cache == Apply(s, step).cache
  {
  }

  lemma {:induction false} CacheRefines(s0: System, steps: seq<Step>)
    requires s0.cache == Lru.Cache([], map[])
    ensures Run(s0, steps).cache == Past(s0, steps).cache
  {
    if steps != [] {
      var front := steps[..|steps| - 1];
      CacheRefines(s0, front);
      PastSnoc(s0, steps);
      CacheNext(Past(s0, front), Run(s0, front), steps[|steps| - 1]);
    }
  }

  /** Over every schedule the cache holds at most as many answers as it may. */
  lemma CacheBounded(config: Config, clockMs: nat, steps: seq<Step>)
    ensures |Run(Init(config, clockMs), steps).cache.entries.Keys| <= if config.maxEntries == 0 then 1 else config.maxEntries
  {
    var s0 := Init(config, clockMs);
    CacheRefines(s0, steps);
    Lru.CacheSound(Ops(s0, steps), config.maxEntries, config.validityMs);
    var c := Run(s0, steps).cache;
    Lru.ElementsSize(c.order);
    assert c.entries.Keys == Lru.Elements(c.order);
  }

  // ---------------------------------------------------------------------------
  // Touches and stores
  // ---------------------------------------------------------------------------

  /** The certificate whose cached answer this step uses, or puts into the cache. */
  function Touches(s: System, step: Step): Option<CertId> {
    match step
    case Arrive(id, request) =>
      if id !in s.tasks && AsksOurs(s.config, request)
         && Lru.Lookup(s.cache, CacheKey(request.ids[0]), s.clockMs).1.Some?
      then Some(request.ids[0]) else None
    case Deliver(id) =>
      if id in s.tasks && s.tasks[id].phase.Signing?
         && CacheKey(s.tasks[id].phase.response.certId) !in Lru.MakeRoom(s.cache, s.config.maxEntries).entries
      then Some(s.tasks[id].phase.response.certId) else None
    case _ => None
  }

  /** The keys of the certificates touched from step `k` on. */
  function TouchedFrom(s0: System, steps: seq<Step>, k: nat): set<Lru.Key> {
    if |steps| <= k then {}
    else
      var front := steps[..|steps| - 1];
      WithTouched(TouchedFrom(s0, front, k), Touches(Run(s0, front), steps[|steps| - 1]))
  }

  /** The answer stored by this step. */
  function Stores(s: System, step: Step): Option<Answer> {
    if step.Deliver? && step.id in s.tasks && s.tasks[step.id].phase.Signing?
    then Some(Finished(s, s.tasks[step.id].phase)) else None
  }

  /** The last answer stored for a certificate. */
  function LastStored(s0: System, steps: seq<Step>, c: CertId): Option<Answer> {
    if steps == [] then None
    else
      var front := steps[..|steps| - 1];
      var a := Stores(Run(s0, front), steps[|steps| - 1]);
      if a.Some? && a.value.der.certId == c then a else LastStored(s0, front, c)
  }

  lemma TouchStep(h: Lru.History<Answer>, s: System, step: Step)
    requires h.cache == s.cache
    ensures Next(h, s, step).touched
            == h.touched + if Touches(s, step).Some? then [CacheKey(Touches(s, step).value)] else []
  {
  }

  /** The key has been touched, and since then at most the others of these keys. */
  ghost predicate TouchedOnly(touched: seq<Lru.Key>, key: Lru.Key, since: set<Lru.Key>) {
    key in touched && Lru.TouchedSince(touched, key) <= since - {key}
  }

  function WithTouched(since: set<Lru.Key>, c: Option<CertId>): set<Lru.Key> {
    since + if c.Some? then {CacheKey(c.value)} else {}
  }

  lemma TouchedNow(h: Lru.History<Answer>, s: System, step: Step, c: CertId)
    requires h.cache == s.cache && Touches(s, step) == Some(c)
    ensures TouchedOnly(Next(h, s, step).touched, CacheKey(c), {})
  {
    TouchStep(h, s, step);
  }

  lemma TouchedLater(h: Lru.History<Answer>, s: System, step: Step, key: Lru.Key, since: set<Lru.Key>)
    requires h.cache == s.cache && TouchedOnly(h.touched, key, since)
    ensures TouchedOnly(Next(h, s, step).touched, key, WithTouched(since, Touches(s, step)))
  {
    TouchStep(h, s, step);
    var c := Touches(s, step);
    if c.Some? {
      Lru.TouchedSinceAppend(h.touched, CacheKey(c.value), key);
    } else {
      assert h.touched + [] == h.touched;
    }
  }

  lemma TouchedFromSnoc(s0: System, steps: seq<Step>, k: nat)
    ensures k >= |steps| ==> TouchedFrom(s0, steps, k) == {}
    ensures k < |steps| ==>
              var front := steps[..|steps| - 1];
              TouchedFrom(s0, steps, k)
              == WithTouched(TouchedFrom(s0, front, k), Touches(Run(s0, front), steps[|steps| - 1]))
  {
  }

  lemma PastTouchedNow(s0: System, steps: seq<Step>, c: CertId)
    requires s0.cache == Lru.Cache([], map[]) && steps != []
    requires Touches(Run(s0, steps[..|steps| - 1]), steps[|steps| - 1]) == Some(c)
    ensures TouchedOnly(Past(s0, steps).touched, CacheKey(c), {})
  {
    var front := steps[..|steps| - 1];
    PastSnoc(s0, steps);
    CacheRefines(s0, front);
    TouchedNow(Past(s0, front), Run(s0, front), steps[|steps| - 1], c);
  }

  lemma PastTouchedLater(s0: System, steps: seq<Step>, key: Lru.Key, k: nat)
    requires s0.cache == Lru.Cache([], map[]) && k < |steps|
    requires var front := steps[..|steps| - 1]; TouchedOnly(Past(s0, front).touched, key, TouchedFrom(s0, front, k))
    ensures TouchedOnly(Past(s0, steps).touched, key, TouchedFrom(s0, steps, k))
  {
    var front := steps[..|steps| - 1];
    PastSnoc(s0, steps);
    CacheRefines(s0, front);
    TouchedLater(Past(s0, front), Run(s0, front), steps[|steps| - 1], key, TouchedFrom(s0, front, k));
    TouchedFromSnoc(s0, steps, k);
  }

  /** Step `k` of the schedule uses or puts in an answer for the certificate. */
  ghost predicate TouchesAt(s0: System, steps: seq<Step>, k: nat, c: CertId) {
    k < |steps| && Touches(Run(s0, steps[..k]), steps[k]) == Some(c)
  }

  lemma TouchesBefore(s0: System, steps: seq<Step>, k: nat, c: CertId)
    requires TouchesAt(s0, steps, k, c) && k < |steps| - 1
    ensures TouchesAt(s0, steps[..|steps| - 1], k, c)
  {
    assert steps[..|steps| - 1][..k] == steps[..k];
  }

  /** What the history has as touched since the last touch of `c` was touched after step `k`, which touched `c`. */
  lemma {:induction false} TouchedSinceStep(s0: System, steps: seq<Step>, k: nat, c: CertId)
    requires s0.cache == Lru.Cache([], map[]) && TouchesAt(s0, steps, k, c)
    ensures TouchedOnly(Past(s0, steps).touched, CacheKey(c), TouchedFrom(s0, steps, k + 1))
  {
    if k == |steps| - 1 {
      PastTouchedNow(s0, steps, c);
    } else {
      TouchesBefore(s0, steps, k, c);
      TouchedSinceStep(s0, steps[..|steps| - 1], k, c);
      PastTouchedLater(s0, steps, CacheKey(c), k + 1);
    }
  }

  /** The table of last writes holds the last answer stored for each certificate. */
  ghost predicate WritesStored(h: Lru.History<Answer>, stored: Option<Answer>, key: Lru.Key, validityMs: nat) {
    && (key in h.written <==> stored.Some?)
    && (key in h.written ==> h.written[key] == Lru.Entry(stored.value, stored.value.origin.storedAt + validityMs))
  }

  lemma WrittenNext(h: Lru.History<Answer>, s: System, step: Step, c: CertId, stored: Option<Answer>)
    requires WritesStored(h, stored, CacheKey(c), s.config.validityMs)
    ensures var a := Stores(s, step);
            WritesStored(Next(h, s, step), if a.Some? && a.value.der.certId == c then a else stored, CacheKey(c),
                         s.config.validityMs)
  {
    var a := Stores(s, step);
    if a.Some? && CacheKey(a.value.der.certId) == CacheKey(c) {
      CacheKeyInjective(a.value.der.certId, c);
    }
  }

  lemma {:induction false} WrittenIsStored(s0: System, steps: seq<Step>, c: CertId)
    requires s0.cache == Lru.Cache([], map[])
    ensures WritesStored(Past(s0, steps), LastStored(s0, steps, c), CacheKey(c), s0.config.validityMs)
  {
    if steps != [] {
      var front, last := steps[..|steps| - 1], steps[|steps| - 1];
      WrittenIsStored(s0, front, c);
      PastSnoc(s0, steps);
      ConfigStays(s0, front);
      WrittenNext(Past(s0, front), Run(s0, front), last, c, LastStored(s0, front, c));
    }
  }

  /** A key counts as dropped only while it is absent, and after its last write has run out. */
  ghost predicate DroppedRanOut(h: Lru.History<Answer>, clockMs: nat) {
    forall key | key in h.expired ::
      key !in h.cache.entries && key in h.written && h.written[key].expiresAt <= clockMs
  }

  lemma DroppedStep(h: Lru.History<Answer>, s: System, step: Step)
    requires h.cache == s.cache && Lru.Sound(h, s.config.maxEntries) && DroppedRanOut(h, s.clockMs)
    ensures DroppedRanOut(Next(h, s, step), Apply(s, step).clockMs)
  {
  }

  lemma {:induction false} DroppedRun(s0: System, steps: seq<Step>)
    requires s0.cache == Lru.Cache([], map[])
    ensures DroppedRanOut(Past(s0, steps), Run(s0, steps).clockMs)
  {
    if steps != [] {
      var front := steps[..|steps| - 1];
      DroppedRun(s0, front);
      PastSnoc(s0, steps);
      CacheRefines(s0, front);
      ConfigStays(s0, front);
      Lru.CacheSound(Ops(s0, front), s0.config.maxEntries, s0.config.validityMs);
      DroppedStep(Past(s0, front), Run(s0, front), steps[|steps| - 1]);
    }
  }

  lemma TouchedIsOurs(config: Config, clockMs: nat, steps: seq<Step>, step: Step, c: CertId)
    requires Touches(Run(Init(config, clockMs), steps), step) == Some(c)
    ensures IssuerMatches(config.issuerTargets, c)
  {
    SoundRun(config, clockMs, steps);
    ConfigStays(Init(config, clockMs), steps);
    var s := Run(Init(config, clockMs), steps);
    if step.Deliver? {
      assert SoundTask(s, s.tasks[step.id]);
    }
  }

  /**
   Main result: a certificate whose answer was put into the cache or used by step `k` is answered at once when it is
   asked about again, with the last answer stored for it and without a lookup or a signature, as long as that answer is
   live and fewer than `maxEntries - 1` other certificates were put in or used since.
   */
  lemma RepeatAnsweredAtOnce(config: Config, clockMs: nat, steps: seq<Step>, k: nat, c: CertId, id: nat)
    requires var s0 := Init(config, clockMs);
             && TouchesAt(s0, steps, k, c)
             && |TouchedFrom(s0, steps, k + 1) - {CacheKey(c)}| + 1 < config.maxEntries
             && id !in Run(s0, steps).tasks
    ensures var s0 := Init(config, clockMs);
            var s, stored := Run(s0, steps), LastStored(s0, steps, c);
            && stored.Some? && stored.value.der.certId == c
            && (s.clockMs < stored.value.origin.storedAt + config.validityMs ==>
                  Apply(s, Arrive(id, CertIds([c]))).tasks[id].phase == Replied(Signed(stored.value), s.clockMs))
  {
    var s0 := Init(config, clockMs);
    var s, stored := Run(s0, steps), LastStored(s0, steps, c);
    StoredIsFor(s0, steps, c);
    RepeatIsHit(config, clockMs, steps, k, c);
    TouchedIsOurs(config, clockMs, steps[..k], steps[k], c);
    ConfigStays(s0, steps);
    if stored.Some? && s.clockMs < stored.value.origin.storedAt + config.validityMs {
      HitAnswers(s, id, c, stored.value);
    }
  }

  lemma RepeatIsHit(config: Config, clockMs: nat, steps: seq<Step>, k: nat, c: CertId)
    requires var s0 := Init(config, clockMs);
             && TouchesAt(s0, steps, k, c)
             && |TouchedFrom(s0, steps, k + 1) - {CacheKey(c)}| + 1 < config.maxEntries
    ensures var s0 := Init(config, clockMs);
            var s, stored := Run(s0, steps), LastStored(s0, steps, c);
            && stored.Some?
            && (s.clockMs < stored.value.origin.storedAt + config.validityMs ==>
                  Lru.Lookup(s.cache, CacheKey(c), s.clockMs).1 == stored)
  {
    var s0, key := Init(config, clockMs), CacheKey(c);
    CacheRefines(s0, steps);
    TouchedSinceStep(s0, steps, k, c);
    SubsetSize(Lru.TouchedSince(Past(s0, steps).touched, key), TouchedFrom(s0, steps, k + 1) - {key});
    WrittenIsStored(s0, steps, c);
    DroppedRun(s0, steps);
    HistoryHit(Ops(s0, steps), key, Run(s0, steps).clockMs, config.maxEntries, config.validityMs, LastStored(s0, steps, c));
  }

  lemma HistoryHit(
    ops: seq<Lru.Op<Answer>>, key: Lru.Key, now: nat, maxEntries: nat, validityMs: nat, stored: Option<Answer>)
    requires var h := Lru.Run(ops, maxEntries, validityMs);
             && key in h.touched && |Lru.TouchedSince(h.touched, key)| + 1 < maxEntries
             && WritesStored(h, stored, key, validityMs) && DroppedRanOut(h, now)
    ensures stored.Some?
    ensures now < stored.value.origin.storedAt + validityMs ==>
              Lru.Lookup(Lru.Run(ops, maxEntries, validityMs).cache, key, now).1 == stored
  {
    Lru.CacheSound(ops, maxEntries, validityMs);
    var h := Lru.Run(ops, maxEntries, validityMs);
    assert Lru.Accounted(h, key, maxEntries);
    if key in h.written && now < h.written[key].expiresAt {
      Lru.RecentKeyIsHit(ops, key, now, maxEntries, validityMs);
    }
  }

  lemma HitAnswers(s: System, id: nat, c: CertId, a: Answer)
    requires id !in s.tasks && IssuerMatches(s.config.issuerTargets, c)
    requires Lru.Lookup(s.cache, CacheKey(c), s.clockMs).1 == Some(a)
    ensures Apply(s, Arrive(id, CertIds([c]))).tasks[id].phase == Replied(Signed(a), s.clockMs)
  {
  }

  lemma {:induction false} StoredIsFor(s0: System, steps: seq<Step>, c: CertId)
    ensures LastStored(s0, steps, c).Some? ==> LastStored(s0, steps, c).value.der.certId == c
  {
    if steps != [] {
      StoredIsFor(s0, steps[..|steps| - 1], c);
    }
  }
}
