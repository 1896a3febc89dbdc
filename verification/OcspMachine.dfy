/**
 The leaf-status responder as a protocol: requests that look into the response cache, ask
 the ledger, build, sign and store, interleaved with each other, with the clock and with
 certificates being issued and revoked. `Apply` is total (a step that is not enabled
 changes nothing), so a sequence of steps is an arbitrary schedule.
 */
module OcspMachine {
  import opened Numerals
  import opened Options
  import Lru = LruCache

  datatype CertId = CertId(
    hashOid: string, issuerNameHash: seq<Byte>, issuerKeyHash: seq<Byte>, serialNumber: seq<Byte>)

  datatype IssuerHashes = IssuerHashes(hashOid: string, issuerNameHash: seq<Byte>, issuerKeyHash: seq<Byte>)

  datatype LeafStatus = Good | Revoked(revokedAt: nat) | Unknown

  datatype Request = Malformed | CertIds(ids: seq<CertId>)

  /** What a signed response says. Times are in milliseconds. */
  datatype Response = Response(certId: CertId, status: LeafStatus, thisUpdate: nat, nextUpdate: nat)

  /** Where a response came from: when the ledger was read, after how many ledger changes,
      when the response was built and when it was stored. Not part of the response itself. */
  datatype Origin = Origin(lookedUpAt: nat, seen: nat, builtAt: nat, storedAt: nat)

  datatype Answer = Answer(der: Response, origin: Origin)

  datatype Reply =
    | MalformedRequest
    | Unauthorized
    | Signed(answer: Answer)
    | InternalError

  datatype Phase =
    | LookingUp(certId: CertId)
    | LookedUp(certId: CertId, status: LeafStatus, lookedUpAt: nat, seen: nat)
    | Signing(response: Response, lookedUpAt: nat, seen: nat, builtAt: nat)
    | Replied(reply: Reply, at: nat)

  datatype Task = Task(request: Request, phase: Phase)

  type Millis = n: nat | n > 0 witness 1

  datatype Config = Config(issuerTargets: seq<IssuerHashes>, validityMs: Millis, maxEntries: nat)

  /** A row of the ledger appearing (`Good`) or being revoked. */
  datatype Change = Change(time: nat, serial: string, status: LeafStatus)

  datatype System = System(
    config: Config, clockMs: nat, cache: Lru.Cache<Answer>, ledger: seq<Change>, tasks: map<nat, Task>)

  datatype Step =
    | Tick(ms: nat)
    | Issue(serial: string)
    | Revoke(serial: string)
    | Arrive(id: nat, request: Request)
    | LookUp(id: nat)
    | Build(id: nat)
    | Deliver(id: nat)
    | Fail(id: nat)

  function SerialDecimal(serial: seq<Byte>): string {
    ToBase(BytesValue(serial), 10)
  }

  function CacheKey(c: CertId): string {
    c.hashOid + ":" + HexBytes(c.issuerNameHash) + ":" + HexBytes(c.issuerKeyHash) + ":" + HexBytes(c.serialNumber)
  }

  predicate IssuerMatches(targets: seq<IssuerHashes>, c: CertId) {
    exists t | t in targets ::
      t.hashOid == c.hashOid && t.issuerNameHash == c.issuerNameHash && t.issuerKeyHash == c.issuerKeyHash
  }

  /** The status a serial has after these ledger changes. */
  function StatusAfter(changes: seq<Change>, serial: string): LeafStatus {
    if changes == [] then Unknown
    else if changes[|changes| - 1].serial == serial then changes[|changes| - 1].status
    else StatusAfter(changes[..|changes| - 1], serial)
  }

  function WholeSeconds(ms: nat): nat {
    ms / 1000 * 1000
  }

  /** The status as a response states it: revocation times lose their fraction of a second. */
  function WireStatus(status: LeafStatus): LeafStatus {
    if status.Revoked? then Revoked(WholeSeconds(status.revokedAt)) else status
  }

  function BuildResponse(certId: CertId, status: LeafStatus, now: nat, validityMs: nat): Response {
    Response(certId, WireStatus(status), WholeSeconds(now), WholeSeconds(now) + validityMs)
  }

  /** The part of `respond` that runs before its first `await`. */
  function OnArrival(s: System, request: Request): (Lru.Cache<Answer>, Phase) {
    if request.Malformed? then (s.cache, Replied(MalformedRequest, s.clockMs))
    else if |request.ids| != 1 then (s.cache, Replied(Unauthorized, s.clockMs))
    else
      var certId := request.ids[0];
      if !IssuerMatches(s.config.issuerTargets, certId) then (s.cache, Replied(Unauthorized, s.clockMs))
      else
        var (cache, hit) := Lru.Lookup(s.cache, CacheKey(certId), s.clockMs);
        (cache, if hit.Some? then Replied(Signed(hit.value), s.clockMs) else LookingUp(certId))
  }

  function OnLookUp(s: System, certId: CertId): Phase {
    LookedUp(certId, StatusAfter(s.ledger, SerialDecimal(certId.serialNumber)), s.clockMs, |s.ledger|)
  }

  function OnBuild(s: System, p: Phase): Phase
    requires p.LookedUp?
  {
    if p.status.Unknown? then Replied(Unauthorized, s.clockMs)
    else Signing(BuildResponse(p.certId, p.status, s.clockMs, s.config.validityMs), p.lookedUpAt, p.seen, s.clockMs)
  }

  function Finished(s: System, p: Phase): Answer
    requires p.Signing?
  {
    Answer(p.response, Origin(p.lookedUpAt, p.seen, p.builtAt, s.clockMs))
  }

  function StoreAnswer(s: System, a: Answer): Lru.Cache<Answer> {
    Lru.Store(s.cache, CacheKey(a.der.certId), a, s.clockMs, s.config.maxEntries, s.config.validityMs)
  }

  function SetPhase(s: System, id: nat, phase: Phase): System
    requires id in s.tasks
  {
    s.(tasks := s.tasks[id := s.tasks[id].(phase := phase)])
  }

  function Apply(s: System, step: Step): System {
    match step
    case Tick(ms) => s.(clockMs := s.clockMs + ms)
    case Issue(serial) =>
      if StatusAfter(s.ledger, serial).Unknown? then s.(ledger := s.ledger + [Change(s.clockMs, serial, Good)]) else s
    case Revoke(serial) =>
      if StatusAfter(s.ledger, serial).Good?
      then s.(ledger := s.ledger + [Change(s.clockMs, serial, Revoked(s.clockMs))]) else s
    case Arrive(id, request) =>
      if id in s.tasks then s
      else
        var (cache, phase) := OnArrival(s, request);
        s.(cache := cache, tasks := s.tasks[id := Task(request, phase)])
    case LookUp(id) =>
      if id in s.tasks && s.tasks[id].phase.LookingUp?
      then SetPhase(s, id, OnLookUp(s, s.tasks[id].phase.certId)) else s
    case Build(id) =>
      if id in s.tasks && s.tasks[id].phase.LookedUp? then SetPhase(s, id, OnBuild(s, s.tasks[id].phase)) else s
    case Deliver(id) =>
      if id in s.tasks && s.tasks[id].phase.Signing? then
        var a := Finished(s, s.tasks[id].phase);
        SetPhase(s, id, Replied(Signed(a), s.clockMs)).(cache := StoreAnswer(s, a))
      else s
    case Fail(id) =>
      if id in s.tasks && (s.tasks[id].phase.LookingUp? || s.tasks[id].phase.Signing?)
      then SetPhase(s, id, Replied(InternalError, s.clockMs)) else s
  }

  function Run(s: System, steps: seq<Step>): System {
    if steps == [] then s else Apply(Run(s, steps[..|steps| - 1]), steps[|steps| - 1])
  }

  function Init(config: Config, clockMs: nat): System {
    System(config, clockMs, Lru.Cache([], map[]), [], map[])
  }

  lemma RunAppend(s: System, steps: seq<Step>, step: Step)
    ensures Run(s, steps + [step]) == Apply(Run(s, steps), step)
  {
    assert (steps + [step])[..|steps|] == steps;
  }

  lemma {:induction false} RunConcat(s: System, first: seq<Step>, second: seq<Step>)
    ensures Run(s, first + second) == Run(Run(s, first), second)
  {
    if second == [] {
      assert first + second == first;
    } else {
      var before, last := second[..|second| - 1], second[|second| - 1];
      RunConcat(s, first, before);
      RunAppend(s, first + before, last);
      assert first + second == (first + before) + [last];
    }
  }

  // ---------------------------------------------------------------------------
  // Cache keys
  // ---------------------------------------------------------------------------

  lemma {:induction false} LastColon(a: string, h: string, a': string, h': string)
    requires a + ":" + h == a' + ":" + h'
    requires AllDigits(h, 16) && AllDigits(h', 16)
    ensures a == a' && h == h'
  {
    var s, s' := a + ":" + h, a' + ":" + h';
    assert s[|s| - 1] == if h == [] then ':' else h[|h| - 1];
    assert s'[|s| - 1] == if h' == [] then ':' else h'[|h'| - 1];
    if h == [] {
      assert h' == [];
      assert a == s[..|s| - 1] && a' == s'[..|s| - 1];
    } else {
      assert h' != [];
      assert s[..|s| - 1] == a + ":" + h[..|h| - 1] && s'[..|s| - 1] == a' + ":" + h'[..|h'| - 1];
      LastColon(a, h[..|h| - 1], a', h'[..|h'| - 1]);
    }
  }

  /** Two certificate identifiers share a cache key only when they are the same. */
  lemma CacheKeyInjective(a: CertId, b: CertId)
    requires CacheKey(a) == CacheKey(b)
    ensures a == b
  {
    LastColon(a.hashOid + ":" + HexBytes(a.issuerNameHash) + ":" + HexBytes(a.issuerKeyHash), HexBytes(a.serialNumber),
              b.hashOid + ":" + HexBytes(b.issuerNameHash) + ":" + HexBytes(b.issuerKeyHash), HexBytes(b.serialNumber));
    LastColon(a.hashOid + ":" + HexBytes(a.issuerNameHash), HexBytes(a.issuerKeyHash),
              b.hashOid + ":" + HexBytes(b.issuerNameHash), HexBytes(b.issuerKeyHash));
    LastColon(a.hashOid, HexBytes(a.issuerNameHash), b.hashOid, HexBytes(b.issuerNameHash));
    HexBytesInjective(a.issuerNameHash, b.issuerNameHash);
    HexBytesInjective(a.issuerKeyHash, b.issuerKeyHash);
    HexBytesInjective(a.serialNumber, b.serialNumber);
  }

  // ---------------------------------------------------------------------------
  // What every reachable state keeps
  // ---------------------------------------------------------------------------

  /** The ledger is read at `time`, between its first `seen` changes and the others. */
  ghost predicate ReadBetween(ledger: seq<Change>, seen: nat, time: nat) {
    && seen <= |ledger|
    && (forall i | 0 <= i < seen :: ledger[i].time <= time)
    && (forall i | seen <= i < |ledger| :: time <= ledger[i].time)
  }

  /** The status of a certificate as the ledger had it after its first `seen` changes. */
  function StatusSeen(ledger: seq<Change>, seen: nat, certId: CertId): LeafStatus
    requires seen <= |ledger|
  {
    StatusAfter(ledger[..seen], SerialDecimal(certId.serialNumber))
  }

  ghost predicate SoundResponse(s: System, r: Response, lookedUpAt: nat, seen: nat, builtAt: nat) {
    && ReadBetween(s.ledger, seen, lookedUpAt)
    && lookedUpAt <= builtAt <= s.clockMs
    && IssuerMatches(s.config.issuerTargets, r.certId)
    && !StatusSeen(s.ledger, seen, r.certId).Unknown?
    && r.status == WireStatus(StatusSeen(s.ledger, seen, r.certId))
    && r.thisUpdate == WholeSeconds(builtAt)
    && r.nextUpdate == r.thisUpdate + s.config.validityMs
  }

  ghost predicate SoundAnswer(s: System, a: Answer) {
    && SoundResponse(s, a.der, a.origin.lookedUpAt, a.origin.seen, a.origin.builtAt)
    && a.origin.builtAt <= a.origin.storedAt <= s.clockMs
  }

  ghost predicate Asked(t: Task, certId: CertId) {
    t.request.CertIds? && t.request.ids == [certId]
  }

  ghost predicate SoundTask(s: System, t: Task) {
    match t.phase
    case LookingUp(c) => Asked(t, c) && IssuerMatches(s.config.issuerTargets, c)
    case LookedUp(c, status, at, seen) =>
      && Asked(t, c) && IssuerMatches(s.config.issuerTargets, c)
      && ReadBetween(s.ledger, seen, at) && at <= s.clockMs
      && status == StatusSeen(s.ledger, seen, c)
    case Signing(r, at, seen, built) => Asked(t, r.certId) && SoundResponse(s, r, at, seen, built)
    case Replied(reply, at) =>
      reply.Signed? ==>
        && Asked(t, reply.answer.der.certId)
        && SoundAnswer(s, reply.answer)
        && reply.answer.origin.storedAt <= at < reply.answer.origin.storedAt + s.config.validityMs
        && at <= s.clockMs
  }

  ghost predicate SoundCache(s: System) {
    forall key | key in s.cache.entries ::
      var e := s.cache.entries[key];
      && key == CacheKey(e.value.der.certId)
      && SoundAnswer(s, e.value)
      && e.expiresAt == e.value.origin.storedAt + s.config.validityMs
  }

  /** A serial changes at most twice, to good and then to revoked, and never goes back. */
  ghost predicate RevokedForGood(ledger: seq<Change>) {
    && (forall i | 0 <= i < |ledger| :: !ledger[i].status.Unknown?)
    && (forall i, j | 0 <= i < j < |ledger| && ledger[i].serial == ledger[j].serial :: !ledger[i].status.Revoked?)
  }

  ghost predicate Sound(s: System) {
    && (forall i | 0 <= i < |s.ledger| :: s.ledger[i].time <= s.clockMs)
    && RevokedForGood(s.ledger)
    && SoundCache(s)
    && (forall id | id in s.tasks :: SoundTask(s, s.tasks[id]))
  }

  /** `s'` is a later state: more time, a longer ledger whose new changes are not in the past. */
  ghost predicate Later(s: System, s': System) {
    && s'.config == s.config
    && s.clockMs <= s'.clockMs
    && s.ledger <= s'.ledger
    && (forall i | |s.ledger| <= i < |s'.ledger| :: s.clockMs <= s'.ledger[i].time)
  }

  lemma ResponseStaysSound(s: System, s': System, r: Response, at: nat, seen: nat, built: nat)
    requires Later(s, s') && SoundResponse(s, r, at, seen, built)
    ensures SoundResponse(s', r, at, seen, built)
  {
    assert s'.ledger[..seen] == s.ledger[..seen];
    assert forall i | 0 <= i < |s.ledger| :: s'.ledger[i] == s.ledger[i];
  }

  lemma TaskStaysSound(s: System, s': System, t: Task)
    requires Later(s, s') && SoundTask(s, t)
    ensures SoundTask(s', t)
  {
    match t.phase
    case LookingUp(c) =>
    case LookedUp(c, status, at, seen) =>
      assert s'.ledger[..seen] == s.ledger[..seen];
      assert forall i | 0 <= i < |s.ledger| :: s'.ledger[i] == s.ledger[i];
    case Signing(r, at, seen, built) => ResponseStaysSound(s, s', r, at, seen, built);
    case Replied(reply, at) =>
      if reply.Signed? {
        var o := reply.answer.origin;
        ResponseStaysSound(s, s', reply.answer.der, o.lookedUpAt, o.seen, o.builtAt);
      }
  }

  lemma CacheStaysSound(s: System, s': System)
    requires Later(s, s') && SoundCache(s)
    requires forall key | key in s'.cache.entries ::
               key in s.cache.entries && s'.cache.entries[key] == s.cache.entries[key]
    ensures SoundCache(s')
  {
    forall key | key in s'.cache.entries
      ensures SoundAnswer(s', s'.cache.entries[key].value)
    {
      var a := s.cache.entries[key].value;
      ResponseStaysSound(s, s', a.der, a.origin.lookedUpAt, a.origin.seen, a.origin.builtAt);
    }
  }

  lemma {:induction false} LastChange(ledger: seq<Change>, serial: string) returns (i: nat)
    requires !StatusAfter(ledger, serial).Unknown?
    ensures i < |ledger| && ledger[i].serial == serial && ledger[i].status == StatusAfter(ledger, serial)
    ensures forall j | i < j < |ledger| :: ledger[j].serial != serial
  {
    i := |ledger| - 1;
    if ledger[i].serial != serial {
      i := LastChange(ledger[..|ledger| - 1], serial);
    }
  }

  lemma {:induction false} NeverChanged(ledger: seq<Change>, serial: string)
    requires RevokedForGood(ledger) && StatusAfter(ledger, serial).Unknown?
    ensures forall i | 0 <= i < |ledger| :: ledger[i].serial != serial
  {
    if ledger != [] {
      NeverChanged(ledger[..|ledger| - 1], serial);
    }
  }

  lemma LedgerStep(s: System, step: Step)
    requires Sound(s)
    ensures RevokedForGood(Apply(s, step).ledger)
  {
    match step
    case Issue(serial) =>
      if StatusAfter(s.ledger, serial).Unknown? {
        NeverChanged(s.ledger, serial);
      }
    case Revoke(serial) =>
      if StatusAfter(s.ledger, serial).Good? {
        var last := LastChange(s.ledger, serial);
      }
    case _ =>
  }

  lemma LaterStep(s: System, step: Step)
    requires Sound(s)
    ensures Later(s, Apply(s, step))
    ensures forall i | 0 <= i < |Apply(s, step).ledger| :: Apply(s, step).ledger[i].time <= Apply(s, step).clockMs
  {
  }

  lemma TasksStep(s: System, step: Step, id: nat)
    requires Sound(s) && id in Apply(s, step).tasks
    ensures SoundTask(Apply(s, step), Apply(s, step).tasks[id])
  {
    var s' := Apply(s, step);
    LaterStep(s, step);
    if id in s.tasks {
      TaskStaysSound(s, s', s.tasks[id]);
      if s'.tasks[id] != s.tasks[id] {
        assert s.ledger[..|s.ledger|] == s.ledger;
      }
    } else {
      var request := step.request;
      if request.CertIds? && |request.ids| == 1 {
        assert request.ids == [request.ids[0]];
        var key := CacheKey(request.ids[0]);
        if key in s.cache.entries {
          var a := s.cache.entries[key].value;
          CacheKeyInjective(a.der.certId, request.ids[0]);
          ResponseStaysSound(s, s', a.der, a.origin.lookedUpAt, a.origin.seen, a.origin.builtAt);
        }
      }
    }
  }

  lemma DeliverStep(s: System, id: nat)
    requires Sound(s) && id in s.tasks && s.tasks[id].phase.Signing?
    ensures SoundCache(Apply(s, Deliver(id)))
  {
    var s' := Apply(s, Deliver(id));
    var a := Finished(s, s.tasks[id].phase);
    var roomy := Lru.MakeRoom(s.cache, s.config.maxEntries);
    CacheStaysSound(s, s'.(cache := roomy));
    assert SoundTask(s, s.tasks[id]);
    assert SoundAnswer(s', a);
    forall key | key in s'.cache.entries
      ensures var e := s'.cache.entries[key];
              && key == CacheKey(e.value.der.certId)
              && SoundAnswer(s', e.value)
              && e.expiresAt == e.value.origin.storedAt + s'.config.validityMs
    {
      if key != CacheKey(a.der.certId) {
        assert key in roomy.entries;
      }
    }
  }

  lemma CacheStep(s: System, step: Step)
    requires Sound(s)
    ensures SoundCache(Apply(s, step))
  {
    var s' := Apply(s, step);
    LaterStep(s, step);
    if step.Deliver? && step.id in s.tasks && s.tasks[step.id].phase.Signing? {
      DeliverStep(s, step.id);
    } else {
      if step.Arrive? && step.id !in s.tasks {
        ArrivalKeepsEntries(s, step.request);
      }
      CacheStaysSound(s, s');
    }
  }

  lemma ArrivalKeepsEntries(s: System, request: Request)
    ensures var c := OnArrival(s, request).0;
            forall key | key in c.entries :: key in s.cache.entries && c.entries[key] == s.cache.entries[key]
  {
  }

  lemma SoundStep(s: System, step: Step)
    requires Sound(s)
    ensures Sound(Apply(s, step))
  {
    LaterStep(s, step);
    LedgerStep(s, step);
    CacheStep(s, step);
    forall id | id in Apply(s, step).tasks {
      TasksStep(s, step, id);
    }
  }

  lemma {:induction false} SoundRun(config: Config, clockMs: nat, steps: seq<Step>)
    ensures Sound(Run(Init(config, clockMs), steps))
  {
    if steps != [] {
      SoundRun(config, clockMs, steps[..|steps| - 1]);
      SoundStep(Run(Init(config, clockMs), steps[..|steps| - 1]), steps[|steps| - 1]);
    }
  }
}
