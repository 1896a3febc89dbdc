/**
 Which reply a request gets, over every schedule: what a refusal says about the ledger, where an internal
 error comes from, and what a signed status states, in terms of the ledger's rows and the configured
 issuers themselves.
 */
module OcspReplies {
  import opened OcspFreshness
  import opened OcspMachine

  // ---------------------------------------------------------------------------
  // The ledger and the issuers, spelled out
  // ---------------------------------------------------------------------------

  /** No row of the ledger is about this serial. */
  predicate NeverIssued(ledger: seq<Change>, serial: string) {
    forall i | 0 <= i < |ledger| :: ledger[i].serial != serial
  }

  /** Row `i` is the last one about this serial. */
  predicate IsLatest(ledger: seq<Change>, serial: string, i: nat) {
    && i < |ledger| && ledger[i].serial == serial
    && forall j | i < j < |ledger| :: ledger[j].serial != serial
  }

  /** What a response states for a row: good for good, and for revoked the moment of revocation cut to the
      whole second. */
  predicate States(stated: LeafStatus, row: LeafStatus) {
    match row
    case Good => stated == Good
    case Revoked(at) => stated.Revoked? && stated.revokedAt % 1000 == 0 && stated.revokedAt <= at < stated.revokedAt + 1000
    case Unknown => false
  }

  /** Some configured issuer has the hash algorithm, the name hash and the key hash of the identifier. */
  ghost predicate OurIssuer(targets: seq<IssuerHashes>, c: CertId) {
    exists i | 0 <= i < |targets| :: targets[i] == IssuerHashes(c.hashOid, c.issuerNameHash, c.issuerKeyHash)
  }

  lemma OurIssuerIff(targets: seq<IssuerHashes>, c: CertId)
    ensures IssuerMatches(targets, c) <==> OurIssuer(targets, c)
  {
    if IssuerMatches(targets, c) {
      var t :| t in targets
               && t.hashOid == c.hashOid && t.issuerNameHash == c.issuerNameHash && t.issuerKeyHash == c.issuerKeyHash;
      var i :| 0 <= i < |targets| && targets[i] == t;
      assert targets[i] == IssuerHashes(c.hashOid, c.issuerNameHash, c.issuerKeyHash);
    }
    if OurIssuer(targets, c) {
      var i :| 0 <= i < |targets| && targets[i] == IssuerHashes(c.hashOid, c.issuerNameHash, c.issuerKeyHash);
      assert targets[i] in targets;
    }
  }

  /** A serial is unknown exactly when no row is about it; otherwise its status is that of its last row. */
  lemma StatusIs(ledger: seq<Change>, serial: string)
    requires RevokedForGood(ledger)
    ensures StatusAfter(ledger, serial).Unknown? <==> NeverIssued(ledger, serial)
    ensures !StatusAfter(ledger, serial).Unknown? ==>
              exists i: nat :: IsLatest(ledger, serial, i) && ledger[i].status == StatusAfter(ledger, serial)
  {
    if StatusAfter(ledger, serial).Unknown? {
      NeverChanged(ledger, serial);
    } else {
      var i := LastChange(ledger, serial);
      assert IsLatest(ledger, serial, i);
    }
  }

  /** What a served answer states, row by row: it is for the certificate asked, of a configured issuer, and
      states the last row that the ledger held about its serial when it was looked up. */
  lemma ServedStatesLatestRow(config: Config, clockMs: nat, steps: seq<Step>, id: nat, a: Answer, at: nat)
    requires Served(Run(Init(config, clockMs), steps), id, a, at)
    ensures var s := Run(Init(config, clockMs), steps);
            && s.tasks[id].request == CertIds([a.der.certId])
            && OurIssuer(config.issuerTargets, a.der.certId)
            && ReadBetween(s.ledger, a.origin.seen, a.origin.lookedUpAt)
            && exists i: nat ::
                 && IsLatest(s.ledger[..a.origin.seen], SerialDecimal(a.der.certId.serialNumber), i)
                 && States(a.der.status, s.ledger[i].status)
  {
    ServedIsRecent(config, clockMs, steps, id, a, at);
    SoundRun(config, clockMs, steps);
    OurIssuerIff(config.issuerTargets, a.der.certId);
    var s := Run(Init(config, clockMs), steps);
    var seen, serial := s.ledger[..a.origin.seen], SerialDecimal(a.der.certId.serialNumber);
    StatusIs(seen, serial);
    var status := StatusAfter(seen, serial);
    assert !status.Unknown?;
    WireStates(status);
    var i: nat :| IsLatest(seen, serial, i) && seen[i].status == status;
    assert s.ledger[i] == seen[i];
  }

  lemma WireStates(status: LeafStatus)
    requires !status.Unknown?
    ensures States(WireStatus(status), status)
    ensures !WireStatus(status).Unknown?
  {
  }

  // ---------------------------------------------------------------------------
  // Replies over a run
  // ---------------------------------------------------------------------------

  /** Step `k` of the run is the ledger lookup of request `id`, for the identifier it asks about, and this is the
      state in which the ledger is read. */
  ghost predicate LooksUpAt(s0: System, steps: seq<Step>, id: nat, c: CertId, k: nat, s: System) {
    && k < |steps| && steps[k] == LookUp(id) && s == Run(s0, steps[..k])
    && id in s.tasks && s.tasks[id].phase == LookingUp(c)
  }

  /** Request `id` looked up a serial and found this status. */
  ghost predicate Found(s0: System, steps: seq<Step>, id: nat, c: CertId, status: LeafStatus) {
    exists k: nat, s :: LooksUpAt(s0, steps, id, c, k, s) && status == StatusAfter(s.ledger, SerialDecimal(c.serialNumber))
  }

  lemma FoundLater(s0: System, steps: seq<Step>, last: Step, id: nat, c: CertId, status: LeafStatus)
    requires Found(s0, steps, id, c, status)
    ensures Found(s0, steps + [last], id, c, status)
  {
    var k: nat, s :| LooksUpAt(s0, steps, id, c, k, s) && status == StatusAfter(s.ledger, SerialDecimal(c.serialNumber));
    assert (steps + [last])[..k] == steps[..k];
    assert LooksUpAt(s0, steps + [last], id, c, k, s);
  }

  /** One certificate, of a configured issuer, is asked about. */
  predicate AsksOurs(config: Config, request: Request) {
    request.CertIds? && |request.ids| == 1 && IssuerMatches(config.issuerTargets, request.ids[0])
  }

  /** A request waiting for its answer asks for one certificate of ours and has looked it up; a reply fits the
      request. */
  ghost predicate Fits(s0: System, steps: seq<Step>, s: System, id: nat)
    requires id in s.tasks
  {
    var t := s.tasks[id];
    match t.phase
    case LookingUp(c) => AsksOurs(s.config, t.request) && t.request.ids[0] == c
    case LookedUp(c, status, _, _) =>
      AsksOurs(s.config, t.request) && t.request.ids[0] == c && Found(s0, steps, id, c, status)
    case Signing(r, _, _, _) => AsksOurs(s.config, t.request) && t.request.ids[0] == r.certId
    case Replied(reply, _) =>
      match reply
      case MalformedRequest => t.request.Malformed?
      case Unauthorized =>
        && t.request.CertIds?
        && (AsksOurs(s.config, t.request) ==> Found(s0, steps, id, t.request.ids[0], Unknown))
      case Signed(_) => AsksOurs(s.config, t.request)
      case InternalError => AsksOurs(s.config, t.request) && Fail(id) in steps
  }

  lemma FitsStays(s0: System, steps: seq<Step>, last: Step, s: System, s': System, id: nat)
    requires id in s.tasks && id in s'.tasks && s'.tasks[id] == s.tasks[id] && s'.config == s.config
    requires Fits(s0, steps, s, id)
    ensures Fits(s0, steps + [last], s', id)
  {
    var t := s.tasks[id];
    if t.phase.LookedUp? {
      FoundLater(s0, steps, last, id, t.phase.certId, t.phase.status);
    } else if t.phase.Replied? && t.phase.reply.Unauthorized? && AsksOurs(s.config, t.request) {
      FoundLater(s0, steps, last, id, t.request.ids[0], Unknown);
    }
  }

  lemma FitsStep(s0: System, steps: seq<Step>, last: Step, id: nat)
    requires var s := Run(s0, steps);
             (forall k | k in s.tasks :: Fits(s0, steps, s, k)) && id in Apply(s, last).tasks
    ensures Fits(s0, steps + [last], Apply(Run(s0, steps), last), id)
  {
    var s := Run(s0, steps);
    var s' := Apply(s, last);
    if id in s.tasks && s'.tasks[id] == s.tasks[id] {
      FitsStays(s0, steps, last, s, s', id);
    } else {
      match last
      case Arrive(_, request) => ArrivalFits(s0, steps, s, id, request);
      case LookUp(_) => LookUpFits(s0, steps, s, id);
      case Build(_) => BuildFits(s0, steps, s, id);
      case Deliver(_) =>
      case Fail(_) => assert Fail(id) in steps + [last];
      case _ =>
    }
  }

  lemma ArrivalFits(s0: System, steps: seq<Step>, s: System, id: nat, request: Request)
    requires id !in s.tasks
    ensures Fits(s0, steps + [Arrive(id, request)], Apply(s, Arrive(id, request)), id)
  {
  }

  lemma LookUpFits(s0: System, steps: seq<Step>, s: System, id: nat)
    requires s == Run(s0, steps) && id in s.tasks && s.tasks[id].phase.LookingUp? && Fits(s0, steps, s, id)
    ensures Fits(s0, steps + [LookUp(id)], Apply(s, LookUp(id)), id)
  {
    var c := s.tasks[id].phase.certId;
    assert (steps + [LookUp(id)])[..|steps|] == steps;
    assert LooksUpAt(s0, steps + [LookUp(id)], id, c, |steps|, s);
  }

  lemma BuildFits(s0: System, steps: seq<Step>, s: System, id: nat)
    requires id in s.tasks && s.tasks[id].phase.LookedUp? && Fits(s0, steps, s, id)
    ensures Fits(s0, steps + [Build(id)], Apply(s, Build(id)), id)
  {
    var p := s.tasks[id].phase;
    FoundLater(s0, steps, Build(id), id, p.certId, p.status);
  }

  lemma {:induction false} FitsRun(s0: System, steps: seq<Step>)
    requires s0.tasks == map[]
    ensures forall id | id in Run(s0, steps).tasks :: Fits(s0, steps, Run(s0, steps), id)
  {
    if steps != [] {
      var before, last := steps[..|steps| - 1], steps[|steps| - 1];
      FitsRun(s0, before);
      assert steps == before + [last];
      forall id | id in Run(s0, steps).tasks
        ensures Fits(s0, steps, Run(s0, steps), id)
      {
        FitsStep(s0, before, last, id);
      }
    }
  }

  /**
   Main result on replies: over every schedule, exactly the malformed requests are told so. A request is refused
   only when it does not ask for one certificate of a configured issuer, or when no row of the ledger was about
   that serial at the very step that looked it up, so that no revoked certificate is ever refused; and every
   request of the first kind is refused. An internal error is replied only after the ledger or the signer has
   failed that request.
   */
  lemma ReplyFits(config: Config, clockMs: nat, steps: seq<Step>, id: nat)
    requires id in Run(Init(config, clockMs), steps).tasks && Run(Init(config, clockMs), steps).tasks[id].phase.Replied?
    ensures var s0 := Init(config, clockMs);
            var t := Run(s0, steps).tasks[id];
            var ours := t.request.CertIds? && |t.request.ids| == 1 && OurIssuer(config.issuerTargets, t.request.ids[0]);
            && (t.phase.reply.MalformedRequest? <==> t.request.Malformed?)
            && (t.request.CertIds? && !ours ==> t.phase.reply.Unauthorized?)
            && (t.phase.reply.Unauthorized? && ours ==>
                  exists k: nat, s :: LooksUpAt(s0, steps, id, t.request.ids[0], k, s)
                                      && NeverIssued(s.ledger, SerialDecimal(t.request.ids[0].serialNumber)))
            && (t.phase.reply.InternalError? ==> Fail(id) in steps)
  {
    var s0 := Init(config, clockMs);
    var t := Run(s0, steps).tasks[id];
    FitsRun(s0, steps);
    ConfigKept(config, clockMs, steps);
    assert Fits(s0, steps, Run(s0, steps), id);
    if t.request.CertIds? && |t.request.ids| == 1 {
      OurIssuerIff(config.issuerTargets, t.request.ids[0]);
      if t.phase.reply.Unauthorized? && AsksOurs(config, t.request) {
        RefusedAtLookUp(config, clockMs, steps, id, t.request.ids[0]);
      }
    }
  }

  lemma RefusedAtLookUp(config: Config, clockMs: nat, steps: seq<Step>, id: nat, c: CertId)
    requires Found(Init(config, clockMs), steps, id, c, Unknown)
    ensures exists k: nat, s :: LooksUpAt(Init(config, clockMs), steps, id, c, k, s)
                                && NeverIssued(s.ledger, SerialDecimal(c.serialNumber))
  {
    var s0 := Init(config, clockMs);
    var k: nat, s :| LooksUpAt(s0, steps, id, c, k, s) && StatusAfter(s.ledger, SerialDecimal(c.serialNumber)) == Unknown;
    SoundRun(config, clockMs, steps[..k]);
    StatusIs(s.ledger, SerialDecimal(c.serialNumber));
  }
}
