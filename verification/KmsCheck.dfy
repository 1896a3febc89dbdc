/**
 The check that the intermediate certificate matches the KMS key, shared by all requests through
 one cached promise. A flight is one run of the check, from the call that opens it until its key
 has arrived and been judged; a call is answered by the flight it was handed. Steps of calls and
 key arrivals interleave freely.
 */
module KmsCheck {
  import opened Numerals
  import opened Options

  const KMS_EXPECTED_ALGORITHM: string := "EC_SIGN_P384_SHA384"

  /** What the configured PEM gives: nothing parseable, a certificate whose key cannot be extracted,
      or a key. */
  datatype Intermediate = Unparseable | NoKey | Key(spki: seq<Byte>)

  datatype KmsKey = KmsKey(algorithm: string, spki: seq<Byte>)

  /** How the key fetch ends: with an error, or with a key. */
  datatype Fetched = FetchFailed | Got(key: KmsKey)

  datatype Verdict =
    | Matched
    | FetchError
    | AlgorithmMismatch
    | ParseFailed
    | IntermediateMismatch
    | Escaped  // the key extraction throws, if it can, outside every handler

  datatype Flight = InFlight(pem: string) | Landed(pem: string, fetched: Fetched, verdict: Verdict)

  /** `calls` says which flight's promise each call returned. */
  datatype State = State(cache: Option<nat>, flights: seq<Flight>, calls: map<nat, nat>)

  datatype Step = Call(id: nat, pem: string) | Arrive(flight: nat, fetched: Fetched)

  type Reader = string -> Intermediate

  function Judge(read: Reader, pem: string, fetched: Fetched): Verdict {
    if fetched.FetchFailed? then FetchError
    else if fetched.key.algorithm != KMS_EXPECTED_ALGORITHM then AlgorithmMismatch
    else match read(pem)
         case Unparseable => ParseFailed
         case NoKey => Escaped
         case Key(spki) => if fetched.key.spki != spki then IntermediateMismatch else Matched
  }

  /** The failures whose handlers drop the cached promise. */
  predicate Handled(v: Verdict) {
    v.FetchError? || v.AlgorithmMismatch? || v.ParseFailed? || v.IntermediateMismatch?
  }

  function Apply(read: Reader, s: State, step: Step): State {
    match step
    case Call(id, pem) =>
      if id in s.calls then s
      else if s.cache.Some? then s.(calls := s.calls[id := s.cache.value])
      else State(Some(|s.flights|), s.flights + [InFlight(pem)], s.calls[id := |s.flights|])
    case Arrive(f, fetched) =>
      if f < |s.flights| && s.flights[f].InFlight? then
        var pem := s.flights[f].pem;
        var v := Judge(read, pem, fetched);
        s.(flights := s.flights[f := Landed(pem, fetched, v)], cache := if Handled(v) then None else s.cache)
      else s
  }

  function Run(read: Reader, steps: seq<Step>): State {
    if steps == [] then State(None, [], map[])
    else Apply(read, Run(read, steps[..|steps| - 1]), steps[|steps| - 1])
  }

  /** The closure over the cached promise. */
  class CachedIntermediateCheck {
    const read: Reader
    var cache: Option<nat>
    var flights: seq<Flight>
    var calls: map<nat, nat>

    ghost function Sys(): State
      reads this
    {
      State(cache, flights, calls)
    }

    constructor (read: Reader)
      ensures this.read == read && Sys() == Run(read, [])
    {
      this.read := read;
      cache, flights, calls := None, [], map[];
    }

    /** A call: the cached promise, or a new one whose fetch it starts. */
    method Ensure(id: nat, pem: string) returns (promise: nat)
      requires id !in calls
      modifies this
      ensures Sys() == Apply(read, old(Sys()), Call(id, pem))
      ensures id in calls && promise == calls[id]
    {
      if cache.Some? {
        promise := cache.value;
      } else {
        promise := |flights|;
        flights := flights + [InFlight(pem)];
        cache := Some(promise);
      }
      calls := calls[id := promise];
    }

    /** The rest of a flight, once its key fetch has ended. */
    method Continue(flight: nat, fetched: Fetched) returns (verdict: Verdict)
      requires flight < |flights| && flights[flight].InFlight?
      modifies this
      ensures Sys() == Apply(read, old(Sys()), Arrive(flight, fetched))
      ensures flights[flight].Landed? && flights[flight].verdict == verdict
    {
      var pem := flights[flight].pem;
      if fetched.FetchFailed? {
        cache := None;
        verdict := FetchError;
      } else if fetched.key.algorithm != KMS_EXPECTED_ALGORITHM {
        cache := None;
        verdict := AlgorithmMismatch;
      } else {
        match read(pem) {
          case Unparseable =>
            cache := None;
            verdict := ParseFailed;
          case NoKey =>
            verdict := Escaped;
          case Key(spki) =>
            if fetched.key.spki != spki {
              cache := None;
              verdict := IntermediateMismatch;
            } else {
              verdict := Matched;
            }
        }
      }
      flights := flights[flight := Landed(pem, fetched, verdict)];
    }
  }

  // ---------------------------------------------------------------------------
  // What every interleaving keeps
  // ---------------------------------------------------------------------------

  /** Only the newest flight can be in the air or cached; it is not cached exactly when it landed
      with a handled failure; and every landed flight was judged by its opener's PEM. */
  ghost predicate Sound(read: Reader, s: State) {
    && (forall f | 0 <= f < |s.flights| - 1 :: s.flights[f].Landed? && Handled(s.flights[f].verdict))
    && (s.flights == [] ==> s.cache.None?)
    && (s.flights != [] ==>
          var last := s.flights[|s.flights| - 1];
          s.cache == if last.Landed? && Handled(last.verdict) then None else Some(|s.flights| - 1))
    && (forall f | 0 <= f < |s.flights| && s.flights[f].Landed? ::
          s.flights[f].verdict == Judge(read, s.flights[f].pem, s.flights[f].fetched))
    && (forall id | id in s.calls :: s.calls[id] < |s.flights|)
  }

  lemma SoundStep(read: Reader, s: State, step: Step)
    requires Sound(read, s)
    ensures Sound(read, Apply(read, s, step))
  {
    var s' := Apply(read, s, step);
    match step
    case Call(id, pem) =>
      if id !in s.calls && s.cache.None? {
        assert forall f | 0 <= f < |s.flights| :: s'.flights[f] == s.flights[f];
      }
    case Arrive(f, fetched) =>
  }

  lemma {:induction false} SoundRun(read: Reader, steps: seq<Step>)
    ensures Sound(read, Run(read, steps))
  {
    if steps != [] {
      SoundRun(read, steps[..|steps| - 1]);
      SoundStep(read, Run(read, steps[..|steps| - 1]), steps[|steps| - 1]);
    }
  }

  /** Main result: in every interleaving at most one key fetch is in flight, and a call resolves only
      when the flight it waits for got a key of the expected algorithm that equals the key in that
      flight's opener's PEM. */
  lemma SingleFlight(read: Reader, steps: seq<Step>)
    ensures var s := Run(read, steps);
            && (forall f, g | 0 <= f < |s.flights| && 0 <= g < |s.flights| ::
                  s.flights[f].InFlight? && s.flights[g].InFlight? ==> f == g)
            && (forall id | id in s.calls ::
                  && s.calls[id] < |s.flights|
                  && var f := s.flights[s.calls[id]];
                     f.Landed? && f.verdict.Matched? ==>
                       && f.fetched.Got?
                       && f.fetched.key.algorithm == "EC_SIGN_P384_SHA384"
                       && read(f.pem) == Key(f.fetched.key.spki))
  {
    SoundRun(read, steps);
  }

  /** Which end of a flight is which, by what was fetched and what the opener's PEM gives, checked in this order. */
  ghost predicate FitsVerdict(i: Intermediate, fetched: Fetched, v: Verdict) {
    && (v.FetchError? <==> fetched.FetchFailed?)
    && (v.AlgorithmMismatch? <==> fetched.Got? && fetched.key.algorithm != "EC_SIGN_P384_SHA384")
    && (v.ParseFailed? <==> fetched.Got? && fetched.key.algorithm == "EC_SIGN_P384_SHA384" && i.Unparseable?)
    && (v.Escaped? <==> fetched.Got? && fetched.key.algorithm == "EC_SIGN_P384_SHA384" && i.NoKey?)
    && (v.IntermediateMismatch? <==>
          fetched.Got? && fetched.key.algorithm == "EC_SIGN_P384_SHA384" && i.Key? && i.spki != fetched.key.spki)
    && (v.Matched? <==> fetched.Got? && fetched.key.algorithm == "EC_SIGN_P384_SHA384" && i == Key(fetched.key.spki))
  }

  /** Every flight that has landed in any interleaving ended as it should. */
  lemma FlightsJudged(read: Reader, steps: seq<Step>)
    ensures forall f | 0 <= f < |Run(read, steps).flights| && Run(read, steps).flights[f].Landed? ::
              var flight := Run(read, steps).flights[f];
              FitsVerdict(read(flight.pem), flight.fetched, flight.verdict)
  {
    SoundRun(read, steps);
  }

  lemma RunAppend(read: Reader, steps: seq<Step>, step: Step)
    ensures Run(read, steps + [step]) == Apply(read, Run(read, steps), step)
  {
    assert (steps + [step])[..|steps|] == steps;
  }

  /** Between `s` and `s'` nothing was fetched, and every new call was handed flight `f`. */
  ghost predicate Settled(s: State, s': State, f: nat) {
    && s'.flights == s.flights
    && s'.cache == Some(f)
    && (forall id | id in s.calls :: id in s'.calls && s'.calls[id] == s.calls[id])
    && (forall id | id in s'.calls && id !in s.calls :: s'.calls[id] == f)
  }

  lemma SettledTwice(s: State, s1: State, s2: State, f: nat)
    requires Settled(s, s1, f) && Settled(s1, s2, f)
    ensures Settled(s, s2, f)
  {
  }

  lemma SettledStep(read: Reader, s: State, step: Step, f: nat)
    requires Sound(read, s)
    requires f < |s.flights| && s.flights[f].Landed? && !Handled(s.flights[f].verdict)
    ensures Settled(s, Apply(read, s, step), f)
  {
    assert f == |s.flights| - 1;
  }

  /** A flight that landed without a handled failure stays cached, and nothing is fetched again. */
  lemma {:induction false} SettledForGood(read: Reader, steps: seq<Step>, more: seq<Step>, f: nat)
    requires var s := Run(read, steps);
             f < |s.flights| && s.flights[f].Landed? && !Handled(s.flights[f].verdict)
    ensures Settled(Run(read, steps), Run(read, steps + more), f)
  {
    if more == [] {
      SoundRun(read, steps);
      SettledAlready(read, Run(read, steps), f);
      assert steps + more == steps;
    } else {
      var before, last := more[..|more| - 1], more[|more| - 1];
      SettledForGood(read, steps, before, f);
      SettledNext(read, Run(read, steps), steps + before, last, f);
      assert steps + more == (steps + before) + [last];
    }
  }

  lemma SettledNext(read: Reader, s: State, steps: seq<Step>, last: Step, f: nat)
    requires Settled(s, Run(read, steps), f)
    requires f < |s.flights| && s.flights[f].Landed? && !Handled(s.flights[f].verdict)
    ensures Settled(s, Run(read, steps + [last]), f)
  {
    var s1 := Run(read, steps);
    SoundRun(read, steps);
    RunAppend(read, steps, last);
    SettledStep(read, s1, last, f);
    SettledTwice(s, s1, Apply(read, s1, last), f);
  }

  lemma SettledAlready(read: Reader, s: State, f: nat)
    requires Sound(read, s)
    requires f < |s.flights| && s.flights[f].Landed? && !Handled(s.flights[f].verdict)
    ensures Settled(s, s, f)
  {
    assert f == |s.flights| - 1;
  }

  /**
   When the next call fetches again. After a flight has landed, a new call opens a new flight exactly
   when the flight failed in one of the four handled ways. After a match it is answered at once; and
   so it would be after a key extraction that threw, whose rejection would be kept for good.
   */
  lemma NextCallRefetchesIff(read: Reader, steps: seq<Step>, id: nat, pem: string)
    requires var s := Run(read, steps);
             id !in s.calls && s.flights != [] && s.flights[|s.flights| - 1].Landed?
    ensures var s, s' := Run(read, steps), Run(read, steps + [Call(id, pem)]);
            var last := s.flights[|s.flights| - 1];
            && (s'.flights == s.flights + [InFlight(pem)] <==> Handled(last.verdict))
            && (!Handled(last.verdict) ==> s'.flights == s.flights && s'.calls[id] == |s.flights| - 1)
            && (Handled(last.verdict) <==>
                  || last.fetched.FetchFailed?
                  || last.fetched.key.algorithm != "EC_SIGN_P384_SHA384"
                  || read(last.pem).Unparseable?
                  || (read(last.pem).Key? && read(last.pem).spki != last.fetched.key.spki))
  {
    SoundRun(read, steps);
    RunAppend(read, steps, Call(id, pem));
  }
}
