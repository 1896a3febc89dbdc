/**
 How fresh the responder's answers are, over every schedule: what a client that is served a
 signed answer may conclude about the ledger, and by how much an answer can outlive the
 validity it states.
 */
module OcspFreshness {
  import opened Numerals
  import opened Options
  import opened OcspMachine
  import Lru = LruCache

  /** Request `id` has been served the signed answer `a` at time `at`. */
  ghost predicate Served(s: System, id: nat, a: Answer, at: nat) {
    id in s.tasks && s.tasks[id].phase == Replied(Signed(a), at)
  }

  function StoreDelay(a: Answer): int {
    a.origin.storedAt - a.origin.lookedUpAt
  }

  /**
   Main result: a signed answer is about exactly the one certificate asked for, which a trusted
   issuer target covers and the ledger knows; its status is what the ledger held at one moment
   `lookedUpAt`; and at most that answer's own lookup-to-store delay plus the validity time
   have passed since. Evictions, other requests and later writers of the same cache entry do
   not change that.
   */
  lemma ServedIsRecent(config: Config, clockMs: nat, steps: seq<Step>, id: nat, a: Answer, at: nat)
    requires Served(Run(Init(config, clockMs), steps), id, a, at)
    ensures var s := Run(Init(config, clockMs), steps);
            && s.tasks[id].request == CertIds([a.der.certId])
            && IssuerMatches(config.issuerTargets, a.der.certId)
            && ReadBetween(s.ledger, a.origin.seen, a.origin.lookedUpAt)
            && a.der.status == WireStatus(StatusSeen(s.ledger, a.origin.seen, a.der.certId))
            && !a.der.status.Unknown?
            && 0 <= StoreDelay(a)
            && at < a.origin.lookedUpAt + config.validityMs + StoreDelay(a)
  {
    SoundRun(config, clockMs, steps);
    ConfigKept(config, clockMs, steps);
    var s := Run(Init(config, clockMs), steps);
    assert SoundTask(s, s.tasks[id]);
  }

  lemma {:induction false} ConfigKept(config: Config, clockMs: nat, steps: seq<Step>)
    ensures Run(Init(config, clockMs), steps).config == config
  {
    if steps != [] {
      ConfigKept(config, clockMs, steps[..|steps| - 1]);
    }
  }

  lemma {:induction false} RevokedStays(ledger: seq<Change>, i: nat, serial: string)
    requires RevokedForGood(ledger)
    requires i < |ledger| && ledger[i].serial == serial && ledger[i].status.Revoked?
    ensures StatusAfter(ledger, serial) == ledger[i].status
  {
    if i < |ledger| - 1 {
      RevokedStays(ledger[..|ledger| - 1], i, serial);
    }
  }

  /**
   No `good` outlives a revocation by more than the validity time plus its own store delay: if
   the ledger revokes the serial at `ledger[i].time`, every `good` served for it is served
   before that time plus the two.
   */
  lemma GoodEndsAfterRevocation(
    config: Config, clockMs: nat, steps: seq<Step>, id: nat, a: Answer, at: nat, i: nat)
    requires Served(Run(Init(config, clockMs), steps), id, a, at)
    requires a.der.status.Good?
    requires var ledger := Run(Init(config, clockMs), steps).ledger;
             && i < |ledger| && ledger[i].status.Revoked?
             && ledger[i].serial == SerialDecimal(a.der.certId.serialNumber)
    ensures at < Run(Init(config, clockMs), steps).ledger[i].time + config.validityMs + StoreDelay(a)
  {
    ServedIsRecent(config, clockMs, steps, id, a, at);
    SoundRun(config, clockMs, steps);
    var s := Run(Init(config, clockMs), steps);
    if i < a.origin.seen {
      RevokedStays(s.ledger[..a.origin.seen], i, s.ledger[i].serial);
    }
    assert i >= a.origin.seen;
  }

  /** How late an answer can be: past the `nextUpdate` it states by less than the time it spent
      between being built and being stored, plus the fraction of a second its times lost. */
  lemma OverrunBound(config: Config, clockMs: nat, steps: seq<Step>, id: nat, a: Answer, at: nat)
    requires Served(Run(Init(config, clockMs), steps), id, a, at)
    ensures a.origin.builtAt <= a.origin.storedAt
    ensures at < a.der.nextUpdate + (a.origin.storedAt - a.origin.builtAt) + 1000
    ensures at - a.der.nextUpdate < a.origin.storedAt - a.der.thisUpdate
  {
    SoundRun(config, clockMs, steps);
    ConfigKept(config, clockMs, steps);
    var s := Run(Init(config, clockMs), steps);
    assert SoundTask(s, s.tasks[id]);
  }

  /**
   The cache's lifetime starts when an answer is stored, its stated validity when it was built.
   So the promise that a cached entry is never served past its `nextUpdate` holds for exactly
   the entries that are stored no later than one millisecond after the whole second they state.
   */
  lemma NeverPastNextUpdateIff(config: Config, clockMs: nat, steps: seq<Step>, key: string)
    requires key in Run(Init(config, clockMs), steps).cache.entries
    ensures var s := Run(Init(config, clockMs), steps);
            var a := s.cache.entries[key].value;
            (forall now: nat {:trigger Lru.Lookup(s.cache, key, now)} ::
               a.origin.storedAt <= now && Lru.Lookup(s.cache, key, now).1 == Some(a) ==> now <= a.der.nextUpdate)
            <==> a.origin.storedAt <= a.der.thisUpdate + 1
  {
    SoundRun(config, clockMs, steps);
    ConfigKept(config, clockMs, steps);
    var s := Run(Init(config, clockMs), steps);
    var e := s.cache.entries[key];
    var last: nat := e.expiresAt - 1;
    assert Lru.Lookup(s.cache, key, last).1 == Some(e.value);
  }

  // ---------------------------------------------------------------------------
  // An answer that is served after its nextUpdate
  // ---------------------------------------------------------------------------

  function SomeCert(): CertId {
    CertId("1.3.14.3.2.26", [1], [2], [5])
  }

  function SomeConfig(validityMs: Millis): Config {
    Config([IssuerHashes("1.3.14.3.2.26", [1], [2])], validityMs, 8192)
  }

  /** A certificate is asked for half a second into a second, and again just before its cached
      answer expires. */
  function OverrunSchedule(validityMs: Millis): seq<Step> {
    [Issue("5"), Arrive(0, CertIds([SomeCert()])), LookUp(0), Build(0), Deliver(0), Tick(validityMs - 1),
     Arrive(1, CertIds([SomeCert()]))]
  }

  function OverrunAnswer(validityMs: Millis): Answer {
    Answer(Response(SomeCert(), Good, 1000, 1000 + validityMs), Origin(1500, 1, 1500, 1500))
  }

  lemma RunOne(s: System, step: Step, steps: seq<Step>)
    ensures Run(s, [step] + steps) == Run(Apply(s, step), steps)
  {
    RunConcat(s, [step], steps);
    RunAppend(s, [], step);
    assert [] + [step] == [step];
  }

  lemma RunTwo(s: System, a: Step, b: Step)
    ensures Run(s, [a, b]) == Apply(Apply(s, a), b)
  {
    RunOne(s, a, [b]);
    RunOne(Apply(s, a), b, []);
    assert [a] + [b] == [a, b] && [b] + [] == [b];
  }

  /** With no store delay at all an answer is still served 499 milliseconds after the moment it
      says a newer one will be available. */
  lemma ServedPastNextUpdate(validityMs: Millis)
    ensures var s := Run(Init(SomeConfig(validityMs), 1500), OverrunSchedule(validityMs));
            var a := OverrunAnswer(validityMs);
            && Served(s, 1, a, 1499 + validityMs)
            && a.der.nextUpdate + 499 == 1499 + validityMs
  {
    var a := OverrunAnswer(validityMs);
    var c := SomeCert();
    var steps := OverrunSchedule(validityMs);
    var s0 := Init(SomeConfig(validityMs), 1500);
    var s1 := Run(s0, steps[..5]);
    FirstAnswer(validityMs);
    assert steps == steps[..5] + [steps[5], steps[6]];
    RunConcat(s0, steps[..5], [steps[5], steps[6]]);
    RunTwo(s1, steps[5], steps[6]);
    ConfigKept(SomeConfig(validityMs), 1500, steps[..5]);
    TargetMatches(validityMs);
  }

  lemma TargetMatches(validityMs: Millis)
    ensures IssuerMatches(SomeConfig(validityMs).issuerTargets, SomeCert())
    ensures SerialDecimal(SomeCert().serialNumber) == "5"
  {
    var t := SomeConfig(validityMs).issuerTargets[0];
    assert t in SomeConfig(validityMs).issuerTargets;
    var serial := SomeCert().serialNumber;
    assert serial[..0] == [];
    assert BytesValue(serial) == 5;
  }

  function Issued(validityMs: Millis): System {
    Init(SomeConfig(validityMs), 1500).(ledger := [Change(1500, "5", Good)])
  }

  function Underway(validityMs: Millis, phase: Phase): System {
    Issued(validityMs).(tasks := map[0 := Task(CertIds([SomeCert()]), phase)])
  }

  lemma IssueAndArrive(validityMs: Millis)
    ensures Apply(Apply(Init(SomeConfig(validityMs), 1500), Issue("5")), Arrive(0, CertIds([SomeCert()])))
            == Underway(validityMs, LookingUp(SomeCert()))
  {
    TargetMatches(validityMs);
    assert Apply(Init(SomeConfig(validityMs), 1500), Issue("5")) == Issued(validityMs);
  }

  lemma LookUpAndBuild(validityMs: Millis)
    ensures Apply(Apply(Underway(validityMs, LookingUp(SomeCert())), LookUp(0)), Build(0))
            == Underway(validityMs, Signing(OverrunAnswer(validityMs).der, 1500, 1, 1500))
  {
    TargetMatches(validityMs);
    var s := Underway(validityMs, LookingUp(SomeCert()));
    assert StatusAfter(s.ledger, "5") == Good;
    assert Apply(s, LookUp(0)) == Underway(validityMs, LookedUp(SomeCert(), Good, 1500, 1));
  }

  lemma StoreFirst(validityMs: Millis)
    ensures var s := Apply(Underway(validityMs, Signing(OverrunAnswer(validityMs).der, 1500, 1, 1500)), Deliver(0));
            && s.clockMs == 1500
            && s.cache == Lru.Cache([CacheKey(SomeCert())],
                                    map[CacheKey(SomeCert()) := Lru.Entry(OverrunAnswer(validityMs), 1500 + validityMs)])
            && 1 !in s.tasks
  {
    var s := Underway(validityMs, Signing(OverrunAnswer(validityMs).der, 1500, 1, 1500));
    assert Finished(s, s.tasks[0].phase) == OverrunAnswer(validityMs);
    assert Lru.MakeRoom(s.cache, 8192) == s.cache;
  }

  lemma FirstAnswer(validityMs: Millis)
    ensures var s := Run(Init(SomeConfig(validityMs), 1500), OverrunSchedule(validityMs)[..5]);
            && s.clockMs == 1500
            && s.cache == Lru.Cache([CacheKey(SomeCert())],
                                    map[CacheKey(SomeCert()) := Lru.Entry(OverrunAnswer(validityMs), 1500 + validityMs)])
            && 1 !in s.tasks
  {
    var steps := OverrunSchedule(validityMs);
    var s0 := Init(SomeConfig(validityMs), 1500);
    IssueAndArrive(validityMs);
    LookUpAndBuild(validityMs);
    StoreFirst(validityMs);
    RunFive(s0, steps[0], steps[1], steps[2], steps[3], steps[4]);
    assert steps[..5] == [steps[0], steps[1], steps[2], steps[3], steps[4]];
  }

  lemma RunFive(s: System, a: Step, b: Step, c: Step, d: Step, e: Step)
    ensures Run(s, [a, b, c, d, e]) == Apply(Apply(Apply(Apply(Apply(s, a), b), c), d), e)
  {
    RunTwo(s, a, b);
    RunTwo(Run(s, [a, b]), c, d);
    RunConcat(s, [a, b], [c, d]);
    RunAppend(s, [a, b] + [c, d], e);
    assert ([a, b] + [c, d]) + [e] == [a, b, c, d, e];
  }
}
