/**
 The responder's code over the cache object: request checks, cache, ledger lookup, build,
 sign, store. Every `await` hands control to `Others`, which runs an arbitrary schedule of
 other requests, ledger changes and clock ticks. The code is proved to be one request of
 the protocol in `OcspMachine`.
 */
module OcspResponder {
  import opened Numerals
  import opened Options
  import opened OcspMachine
  import opened OcspReplies
  import Lru = LruCache

  /** The serial of a request as the ledger writes it: hex text first, then the same number in
      decimal; no bytes at all read as zero. */
  method SerialToDecimal(serial: seq<Byte>) returns (decimal: string)
    ensures Canonical(decimal, 10)
    ensures ValueOf(decimal, 10) == BytesValue(serial)
    ensures decimal == SerialDecimal(serial)
  {
    var hex := "";
    var i := 0;
    assert serial[..0] == [];
    while i < |serial|
      invariant 0 <= i <= |serial|
      invariant hex == HexBytes(serial[..i])
    {
      assert serial[..i + 1][..i] == serial[..i];
      hex := hex + HexByte(serial[i]);
      i := i + 1;
    }
    assert serial[..i] == serial;
    HexBytesValue(serial);
    decimal := if |hex| != 0 then ToBase(ValueOf(hex, 16), 10) else "0";
    ToBaseCanonical(BytesValue(serial), 10);
    if serial == [] {
      assert decimal == [DigitChar(0)];
    }
  }

  predicate TakenBy(step: Step, id: nat) {
    (step.Arrive? || step.LookUp? || step.Build? || step.Deliver? || step.Fail?) && step.id == id
  }

  ghost predicate Foreign(steps: seq<Step>, id: nat) {
    forall step | step in steps :: !TakenBy(step, id)
  }

  lemma {:induction false} OthersKeepTask(s: System, steps: seq<Step>, id: nat)
    requires Foreign(steps, id)
    ensures var s' := Run(s, steps);
            && s'.config == s.config
            && (id in s.tasks <==> id in s'.tasks)
            && (id in s.tasks ==> s'.tasks[id] == s.tasks[id])
  {
    if steps != [] {
      OthersKeepTask(s, steps[..|steps| - 1], id);
      assert steps[|steps| - 1] in steps;
    }
  }

  type Waits = (seq<Step>, seq<Step>, seq<Step>)

  /** A step of this request itself. */
  predicate Own(step: Step, id: nat, request: Request) {
    step in [Arrive(id, request), LookUp(id), Build(id), Deliver(id), Fail(id)]
  }

  /** Every step is the request's own or was taken by someone else while it waited. */
  ghost predicate Accounted(trace: seq<Step>, waits: Waits, id: nat, request: Request) {
    forall step | step in trace :: step in waits.0 + waits.1 + waits.2 || Own(step, id, request)
  }

  lemma AccountedOwn(trace: seq<Step>, waits: Waits, id: nat, request: Request, step: Step)
    requires Accounted(trace, waits, id, request) && Own(step, id, request)
    ensures Accounted(trace + [step], waits, id, request)
  {
  }

  lemma AccountedWait(trace: seq<Step>, waits: Waits, id: nat, request: Request, wait: seq<Step>)
    requires Accounted(trace, waits, id, request) && wait in [waits.0, waits.1, waits.2]
    ensures Accounted(trace + wait, waits, id, request)
  {
  }

  class Responder {
    const config: Config
    const cache: Lru.LruCache<Answer>
    var clockMs: nat
    var ledger: seq<Change>
    var tasks: map<nat, Task>

    ghost predicate Wired()
    {
      cache.maxEntries == config.maxEntries && cache.ttlMs == config.validityMs
    }

    ghost function Sys(): System
      reads this, cache
    {
      System(config, clockMs, cache.Contents(), ledger, tasks)
    }

    constructor (config: Config, clockMs: nat)
      ensures Wired() && fresh(cache)
      ensures Sys() == Init(config, clockMs)
    {
      this.config, this.clockMs := config, clockMs;
      cache := new Lru.LruCache<Answer>(config.maxEntries, config.validityMs);
      ledger, tasks := [], map[];
    }

    /** Everything else that happens while a request waits. */
    method Others(steps: seq<Step>)
      modifies this, cache
      ensures Sys() == Run(old(Sys()), steps)
    {
      var i := 0;
      assert steps[..0] == [];
      while i < |steps|
        invariant 0 <= i <= |steps|
        invariant Sys() == Run(old(Sys()), steps[..i])
      {
        assert steps[..i + 1] == steps[..i] + [steps[i]];
        RunAppend(old(Sys()), steps[..i], steps[i]);
        var s := Apply(System(config, clockMs, Lru.Cache(cache.order, cache.entries), ledger, tasks), steps[i]);
        clockMs, ledger, tasks := s.clockMs, s.ledger, s.tasks;
        cache.order, cache.entries := s.cache.order, s.cache.entries;
        ApplyKeepsConfig(old(Sys()), steps[..i + 1]);
        i := i + 1;
      }
      assert steps[..i] == steps;
    }

    method SetPhase(id: nat, phase: Phase)
      requires id in tasks
      modifies this`tasks
      ensures tasks == old(tasks)[id := old(tasks)[id].(phase := phase)]
    {
      tasks := tasks[id := tasks[id].(phase := phase)];
    }

    /** Up to the first `await`: the request checks and the cache. */
    method Begin(id: nat, request: Request) returns (phase: Phase)
      requires Wired() && id !in tasks
      modifies this`tasks, cache
      ensures Sys() == Apply(old(Sys()), Arrive(id, request))
      ensures id in tasks && phase == tasks[id].phase && (phase.Replied? || phase.LookingUp?)
      ensures phase.LookingUp? ==> request == CertIds([phase.certId])
      ensures phase.Replied? ==> !phase.reply.InternalError?
      ensures request.CertIds? && |request.ids| == 1 && IssuerMatches(config.issuerTargets, request.ids[0])
              ==> phase.LookingUp? || phase.reply.Signed?
    {
      if request.Malformed? {
        phase := Replied(MalformedRequest, clockMs);
      } else if |request.ids| != 1 {
        phase := Replied(Unauthorized, clockMs);
      } else {
        var certId := request.ids[0];
        assert request.ids == [certId];
        if !IssuerMatches(config.issuerTargets, certId) {
          phase := Replied(Unauthorized, clockMs);
        } else {
          var cached := cache.Get(CacheKey(certId), clockMs);
          phase := if cached.Some? then Replied(Signed(cached.value), clockMs) else LookingUp(certId);
        }
      }
      tasks := tasks[id := Task(request, phase)];
    }

    /** After signing: store the answer under its certificate's key, and return it. */
    method Finish(id: nat, certId: CertId) returns (reply: Reply)
      requires Wired() && id in tasks && tasks[id].phase.Signing? && tasks[id].phase.response.certId == certId
      modifies this`tasks, cache
      ensures Sys() == Apply(old(Sys()), Deliver(id))
      ensures id in tasks && tasks[id].phase == Replied(reply, clockMs) && reply.Signed?
    {
      var p := tasks[id].phase;
      var a := Answer(p.response, Origin(p.lookedUpAt, p.seen, p.builtAt, clockMs));
      cache.Set(CacheKey(certId), a, clockMs);
      SetPhase(id, Replied(Signed(a), clockMs));
      reply := Signed(a);
    }

    /**
     The whole pipeline for one request. `waits` holds what happens before the ledger is read,
     between that and the continuation, and while the answer is signed; `failures` says whether
     the ledger or the signer throws. The execution is a schedule of the protocol that ends
     with this request replied to, and the reply is the one returned. Only a failure gives an internal
     error; and without one, a certificate of a configured issuer with a row in the ledger gets a signed
     answer, whatever the row says.
     */
    method Respond(
      id: nat, request: Request, waits: Waits, failures: (bool, bool), ghost c0: nat, ghost past: seq<Step>)
      returns (reply: Reply, ghost trace: seq<Step>)
      requires Wired() && id !in tasks && Sys() == Run(Init(config, c0), past)
      requires Foreign(waits.0, id) && Foreign(waits.1, id) && Foreign(waits.2, id)
      modifies this, cache
      ensures Sys() == Run(old(Sys()), trace)
      ensures id in tasks && tasks[id].request == request
      ensures tasks[id].phase.Replied? && tasks[id].phase.reply == reply
      ensures Accounted(trace, waits, id, request)
      ensures reply.InternalError? ==> failures.0 || failures.1
      ensures !failures.0 && !failures.1 && request.CertIds? && |request.ids| == 1
              && OurIssuer(config.issuerTargets, request.ids[0])
              && !NeverIssued(old(ledger), SerialDecimal(request.ids[0].serialNumber))
              ==> reply.Signed?
    {
      ghost var s0 := Sys();
      trace := [Arrive(id, request)];
      if request.CertIds? && |request.ids| == 1 {
        OurIssuerIff(config.issuerTargets, request.ids[0]);
      }
      RunAppend(s0, [], Arrive(id, request));
      assert [] + [Arrive(id, request)] == trace;
      var phase := Begin(id, request);
      if phase.Replied? {
        return phase.reply, trace;
      }
      reply, trace := Consult(id, request, phase.certId, waits, failures, c0, past, s0, trace);
    }

    /** While the ledger is read, and after. */
    method Consult(
      id: nat, request: Request, certId: CertId, waits: Waits, failures: (bool, bool),
      ghost c0: nat, ghost past: seq<Step>, ghost s0: System, ghost sofar: seq<Step>)
      returns (reply: Reply, ghost trace: seq<Step>)
      requires Wired() && id in tasks && tasks[id].request == request && tasks[id].phase == LookingUp(certId)
      requires Sys() == Run(s0, sofar) && s0 == Run(Init(config, c0), past)
      requires Foreign(waits.0, id) && Foreign(waits.1, id) && Foreign(waits.2, id)
      requires Accounted(sofar, waits, id, request)
      modifies this, cache
      ensures Sys() == Run(s0, trace)
      ensures id in tasks && tasks[id].request == request
      ensures tasks[id].phase.Replied? && tasks[id].phase.reply == reply
      ensures Accounted(trace, waits, id, request)
      ensures reply.InternalError? ==> failures.0 || failures.1
      ensures !failures.0 && !failures.1 && !NeverIssued(s0.ledger, SerialDecimal(certId.serialNumber)) ==> reply.Signed?
    {
      trace := sofar;
      AwaitLemma(s0, Sys(), trace, waits.0, id);
      Others(waits.0);
      AccountedWait(trace, waits, id, request, waits.0);
      trace := trace + waits.0;
      if failures.0 {
        AccountedOwn(trace, waits, id, request, Fail(id));
        RunAppend(s0, trace, Fail(id));
        SetPhase(id, Replied(InternalError, clockMs));
        return InternalError, trace + [Fail(id)];
      }
      if !NeverIssued(s0.ledger, SerialDecimal(certId.serialNumber)) {
        KnownStays(config, c0, past, trace, SerialDecimal(certId.serialNumber));
      }
      RunAppend(s0, trace, LookUp(id));
      AccountedOwn(trace, waits, id, request, LookUp(id));
      trace := trace + [LookUp(id)];
      var serial := SerialToDecimal(certId.serialNumber);
      var status := StatusAfter(ledger, serial);
      SetPhase(id, LookedUp(certId, status, clockMs, |ledger|));

      reply, trace := Sign(id, request, certId, status, waits, failures.1, s0, trace);
    }

    /** The second half: after the ledger has answered. */
    method Sign(
      id: nat, request: Request, certId: CertId, status: LeafStatus,
      waits: Waits, fails: bool, ghost s0: System, ghost sofar: seq<Step>)
      returns (reply: Reply, ghost trace: seq<Step>)
      requires Wired() && id in tasks && tasks[id].request == request
      requires tasks[id].phase.LookedUp? && tasks[id].phase.certId == certId && tasks[id].phase.status == status
      requires Sys() == Run(s0, sofar)
      requires Foreign(waits.1, id) && Foreign(waits.2, id)
      requires Accounted(sofar, waits, id, request)
      modifies this, cache
      ensures Sys() == Run(s0, trace)
      ensures id in tasks && tasks[id].request == request
      ensures tasks[id].phase.Replied? && tasks[id].phase.reply == reply
      ensures Accounted(trace, waits, id, request)
      ensures status.Unknown? ==> reply.Unauthorized?
      ensures !status.Unknown? ==> if fails then reply.InternalError? else reply.Signed?
    {
      trace := sofar;
      AwaitLemma(s0, Sys(), trace, waits.1, id);
      Others(waits.1);
      AccountedWait(trace, waits, id, request, waits.1);
      trace := trace + waits.1;
      RunAppend(s0, trace, Build(id));
      AccountedOwn(trace, waits, id, request, Build(id));
      trace := trace + [Build(id)];
      if status.Unknown? {
        SetPhase(id, Replied(Unauthorized, clockMs));
        return Unauthorized, trace;
      }
      var response := BuildResponse(certId, status, clockMs, config.validityMs);
      SetPhase(id, Signing(response, tasks[id].phase.lookedUpAt, tasks[id].phase.seen, clockMs));
      reply, trace := Store(id, request, certId, waits, fails, s0, trace);
    }

    /** The last part: while the answer is signed, and after. */
    method Store(
      id: nat, request: Request, certId: CertId, waits: Waits, fails: bool, ghost s0: System, ghost sofar: seq<Step>)
      returns (reply: Reply, ghost trace: seq<Step>)
      requires Wired() && id in tasks && tasks[id].request == request
      requires tasks[id].phase.Signing? && tasks[id].phase.response.certId == certId
      requires Sys() == Run(s0, sofar)
      requires Foreign(waits.2, id)
      requires Accounted(sofar, waits, id, request)
      modifies this, cache
      ensures Sys() == Run(s0, trace)
      ensures id in tasks && tasks[id].request == request
      ensures tasks[id].phase.Replied? && tasks[id].phase.reply == reply
      ensures Accounted(trace, waits, id, request)
      ensures if fails then reply.InternalError? else reply.Signed?
    {
      trace := sofar;
      AwaitLemma(s0, Sys(), trace, waits.2, id);
      Others(waits.2);
      AccountedWait(trace, waits, id, request, waits.2);
      trace := trace + waits.2;
      if fails {
        AccountedOwn(trace, waits, id, request, Fail(id));
        RunAppend(s0, trace, Fail(id));
        SetPhase(id, Replied(InternalError, clockMs));
        return InternalError, trace + [Fail(id)];
      }
      RunAppend(s0, trace, Deliver(id));
      AccountedOwn(trace, waits, id, request, Deliver(id));
      trace := trace + [Deliver(id)];
      reply := Finish(id, certId);
    }
  }

  lemma {:induction false} LedgerGrows(s: System, steps: seq<Step>)
    ensures s.ledger <= Run(s, steps).ledger
  {
    if steps != [] {
      LedgerGrows(s, steps[..|steps| - 1]);
    }
  }

  /** A serial with a row in the ledger has a status ever after. */
  lemma KnownStays(config: Config, c0: nat, past: seq<Step>, more: seq<Step>, serial: string)
    requires !NeverIssued(Run(Init(config, c0), past).ledger, serial)
    ensures !StatusAfter(Run(Run(Init(config, c0), past), more).ledger, serial).Unknown?
  {
    var s := Run(Init(config, c0), past);
    RunConcat(Init(config, c0), past, more);
    LedgerGrows(s, more);
    SoundRun(config, c0, past + more);
    StatusIs(Run(s, more).ledger, serial);
    var i :| 0 <= i < |s.ledger| && s.ledger[i].serial == serial;
    assert Run(s, more).ledger[i] == s.ledger[i];
  }

  lemma AwaitLemma(s0: System, s: System, trace: seq<Step>, wait: seq<Step>, id: nat)
    requires s == Run(s0, trace) && Foreign(wait, id)
    ensures Run(s0, trace + wait) == Run(s, wait)
    ensures var s' := Run(s, wait);
            && (id in s.tasks <==> id in s'.tasks)
            && (id in s.tasks ==> s'.tasks[id] == s.tasks[id])
  {
    RunConcat(s0, trace, wait);
    OthersKeepTask(s, wait, id);
  }

  lemma {:induction false} ApplyKeepsConfig(s: System, steps: seq<Step>)
    ensures Run(s, steps).config == s.config
  {
    if steps != [] {
      ApplyKeepsConfig(s, steps[..|steps| - 1]);
    }
  }
}
