/**
 The cached loader of the revocation list. `Loader` is the code for a call whose fetch is
 awaited; `Apply` is the same call in two steps, its start and the end of its fetch, so that
 calls can overlap in any way.
 */
module RevocationLoader {
  import opened Collections
  import opened Options
  import opened RevocationList

  const MINUTE: nat := 60_000
  const REFRESH_AFTER_MS: nat := 24 * 60 * MINUTE
  const USABLE_FOR_MS: nat := 7 * 24 * 60 * MINUTE
  const RETRY_AFTER_FAILURE_MS: nat := 5 * MINUTE
  const FETCH_TIMEOUT_MS: nat := 5_000

  datatype Copy = Copy(list: List, fetchedAt: nat)

  datatype Call =
    | Fetching(at: nat, usable: Option<Copy>)
    | Returned(at: nat, copy: Copy)
    | Threw(at: nat)

  /** A fetch, by the time its call began; `alone` when no other fetch was in flight then; `result` once
      it has ended, `None` within for a failure. */
  datatype Fetch = Fetch(caller: nat, at: nat, usable: bool, alone: bool, result: Option<Option<List>>)

  /** A fetch is aborted `timeoutMs` after it began. */
  datatype State = State(
    timeoutMs: nat, clockMs: nat, cached: Option<Copy>, retryAt: nat, calls: map<nat, Call>, fetches: seq<Fetch>)

  datatype Step = Tick(ms: nat) | Begin(id: nat) | End(id: nat, result: Option<List>)

  function Usable(cached: Option<Copy>, t: nat): Option<Copy> {
    if cached.Some? && t - cached.value.fetchedAt < USABLE_FOR_MS then cached else None
  }

  predicate ServesCopy(cached: Option<Copy>, retryAt: nat, t: nat) {
    var usable := Usable(cached, t);
    usable.Some? && (t - usable.value.fetchedAt < REFRESH_AFTER_MS || t < retryAt)
  }

  /** No fetch is in flight. */
  predicate Idle(s: State) {
    forall id | id in s.calls :: !s.calls[id].Fetching?
  }

  /** Every fetch in flight at `t` has not yet been aborted. */
  predicate Allows(s: State, t: nat) {
    forall id | id in s.calls && s.calls[id].Fetching? :: t <= s.calls[id].at + s.timeoutMs
  }

  function SetResult(fetches: seq<Fetch>, id: nat, result: Option<List>): (r: seq<Fetch>)
    ensures |r| == |fetches|
    ensures forall i | 0 <= i < |r| :: r[i] == if fetches[i].caller == id then fetches[i].(result := Some(result)) else fetches[i]
  {
    seq(|fetches|, i requires 0 <= i < |fetches| =>
      if fetches[i].caller == id then fetches[i].(result := Some(result)) else fetches[i])
  }

  /** A call up to its `await`. */
  function Begun(s: State, id: nat): State {
    var t, usable := s.clockMs, Usable(s.cached, s.clockMs);
    if ServesCopy(s.cached, s.retryAt, t) then
      s.(calls := s.calls[id := Returned(t, usable.value)])
    else
      s.(calls := s.calls[id := Fetching(t, usable)],
         fetches := s.fetches + [Fetch(id, t, usable.Some?, Idle(s), None)])
  }

  /** A call after its `await`; `t` and `usable` are those of its beginning. */
  function Ended(s: State, id: nat, result: Option<List>): State
    requires id in s.calls && s.calls[id].Fetching?
  {
    var t, usable := s.calls[id].at, s.calls[id].usable;
    var s' := s.(fetches := SetResult(s.fetches, id, result));
    if result.Some? then
      s'.(cached := Some(Copy(result.value, t)), calls := s.calls[id := Returned(t, Copy(result.value, t))])
    else
      s'.(retryAt := t + RETRY_AFTER_FAILURE_MS,
          calls := s.calls[id := if usable.Some? then Returned(t, usable.value) else Threw(t)])
  }

  function Apply(s: State, step: Step): State {
    match step
    case Tick(ms) => if Allows(s, s.clockMs + ms) then s.(clockMs := s.clockMs + ms) else s
    case Begin(id) => if id in s.calls then s else Begun(s, id)
    case End(id, result) => if id in s.calls && s.calls[id].Fetching? then Ended(s, id, result) else s
  }

  function Run(s: State, steps: seq<Step>): State {
    if steps == [] then s else Apply(Run(s, steps[..|steps| - 1]), steps[|steps| - 1])
  }

  function Init(timeoutMs: nat, clockMs: nat): State {
    State(timeoutMs, clockMs, None, 0, map[], [])
  }

  lemma RunAppend(s: State, steps: seq<Step>, step: Step)
    ensures Run(s, steps + [step]) == Apply(Run(s, steps), step)
  {
    assert (steps + [step])[..|steps|] == steps;
  }

  lemma {:induction false} RunConcat(s: State, first: seq<Step>, second: seq<Step>)
    ensures Run(s, first + second) == Run(Run(s, first), second)
  {
    if second == [] {
      assert first + second == first;
    } else {
      var before, last := second[..|second| - 1], second[|second| - 1];
      RunConcat(s, first, before);
      RunAppend(s, first + before, last);
      Associative(first, before, [last]);
      assert second == before + [last];
    }
  }

  // ---------------------------------------------------------------------------
  // The code
  // ---------------------------------------------------------------------------

  predicate Foreign(steps: seq<Step>, id: nat) {
    forall step | step in steps :: step.Tick? || step.id != id
  }

  lemma {:induction false} OthersKeepCall(s: State, steps: seq<Step>, id: nat)
    requires Foreign(steps, id)
    ensures var s' := Run(s, steps);
            && s'.timeoutMs == s.timeoutMs
            && (id in s.calls <==> id in s'.calls)
            && (id in s.calls ==> s'.calls[id] == s.calls[id])
  {
    if steps != [] {
      OthersKeepCall(s, steps[..|steps| - 1], id);
      assert steps[|steps| - 1] in steps;
    }
  }

  class Loader {
    const timeoutMs: nat
    var clockMs: nat
    var cached: Option<Copy>
    var retryAt: nat
    var calls: map<nat, Call>
    var fetches: seq<Fetch>

    ghost function Sys(): State
      reads this
    {
      State(timeoutMs, clockMs, cached, retryAt, calls, fetches)
    }

    constructor (timeoutMs: nat, clockMs: nat)
      ensures Sys() == Init(timeoutMs, clockMs)
    {
      this.timeoutMs, this.clockMs := timeoutMs, clockMs;
      cached, retryAt, calls, fetches := None, 0, map[], [];
    }

    /** Everything else that happens while a call waits for its fetch. */
    method Others(steps: seq<Step>)
      modifies this
      ensures Sys() == Run(old(Sys()), steps)
    {
      var i := 0;
      assert steps[..0] == [];
      while i < |steps|
        invariant 0 <= i <= |steps|
        invariant Sys() == Run(old(Sys()), steps[..i])
      {
        assert steps[..i + 1] == steps[..i] + [steps[i]];
        RunAppend(old(Sys()), steps[..i], steps[i]);
        var s := Apply(State(timeoutMs, clockMs, cached, retryAt, calls, fetches), steps[i]);
        clockMs, cached, retryAt, calls, fetches := s.clockMs, s.cached, s.retryAt, s.calls, s.fetches;
        i := i + 1;
      }
      assert steps[..i] == steps;
    }

    /** One call. When it fetches, `meanwhile` is what happens until the fetch ends with `outcome`
        (`None` for a network error, the abort, a bad status or a list that does not parse). `None` is
        an exception. The execution is a schedule of the protocol in which this call begins, others
        take their steps, and this call's fetch ends. */
    method Load(id: nat, meanwhile: seq<Step>, outcome: Option<List>)
      returns (r: Option<List>, fetched: bool)
      requires id !in calls && Foreign(meanwhile, id)
      modifies this
      ensures Sys() == Run(old(Sys()), [Begin(id)] + if fetched then meanwhile + [End(id, outcome)] else [])
      ensures var age := if old(cached).Some? then old(clockMs) - old(cached).value.fetchedAt else 604_800_000;
              && (fetched <==> age >= 604_800_000 || (age >= 86_400_000 && old(clockMs) >= old(retryAt)))
              && r == if !fetched then Some(old(cached).value.list)
                      else if outcome.Some? then outcome
                      else if age < 604_800_000 then Some(old(cached).value.list) else None
      ensures fetched && outcome.Some? ==> cached == Some(Copy(outcome.value, old(clockMs)))
      ensures fetched && outcome.None? ==> retryAt == old(clockMs) + 300_000
      ensures id in calls
      ensures match r
              case None => calls[id] == Threw(old(clockMs))
              case Some(list) => calls[id].Returned? && calls[id].at == old(clockMs) && calls[id].copy.list == list
    {
      ghost var s0 := Sys();
      RunAppend(s0, [], Begin(id));
      assert [] + [Begin(id)] == [Begin(id)];
      assert [Begin(id)] + [] == [Begin(id)];
      var t := clockMs;
      var usable: Option<Copy> := None;
      if cached.Some? && t - cached.value.fetchedAt < USABLE_FOR_MS {
        usable := cached;
      }
      if usable.Some? && (t - usable.value.fetchedAt < REFRESH_AFTER_MS || t < retryAt) {
        calls := calls[id := Returned(t, usable.value)];
        return Some(usable.value.list), false;
      }
      fetched := true;
      var alone := forall k | k in calls :: !calls[k].Fetching?;
      fetches := fetches + [Fetch(id, t, usable.Some?, alone, None)];
      calls := calls[id := Fetching(t, usable)];
      ghost var s1 := Sys();
      assert s1 == Run(s0, [Begin(id)]);

      OthersKeepCall(s1, meanwhile, id);
      Others(meanwhile);
      RunConcat(s0, [Begin(id)], meanwhile);
      RunAppend(s0, [Begin(id)] + meanwhile, End(id, outcome));
      assert ([Begin(id)] + meanwhile) + [End(id, outcome)] == [Begin(id)] + (meanwhile + [End(id, outcome)]);
      r := Finish(id, t, usable, outcome);
    }

    /** A call after its `await`, with what it computed before. */
    method Finish(id: nat, t: nat, usable: Option<Copy>, outcome: Option<List>) returns (r: Option<List>)
      requires id in calls && calls[id] == Fetching(t, usable)
      modifies this
      ensures Sys() == Apply(old(Sys()), End(id, outcome))
      ensures id in calls
      ensures match r
              case None => calls[id] == Threw(t)
              case Some(list) => calls[id].Returned? && calls[id].at == t && calls[id].copy.list == list
      ensures r == if outcome.Some? then outcome else if usable.Some? then Some(usable.value.list) else None
      ensures outcome.Some? ==> cached == Some(Copy(outcome.value, t))
      ensures outcome.None? ==> retryAt == t + RETRY_AFTER_FAILURE_MS
    {
      fetches := SetResult(fetches, id, outcome);
      if outcome.Some? {
        cached := Some(Copy(outcome.value, t));
        calls := calls[id := Returned(t, Copy(outcome.value, t))];
        return outcome;
      }
      retryAt := t + RETRY_AFTER_FAILURE_MS;
      if usable.Some? {
        calls := calls[id := Returned(t, usable.value)];
        return Some(usable.value.list);
      }
      calls := calls[id := Threw(t)];
      r := None;
    }
  }

  // ---------------------------------------------------------------------------
  // Freshness, however calls overlap
  // ---------------------------------------------------------------------------

  /** This copy came from a fetch that succeeded with this list. */
  ghost predicate FromFetch(s: State, copy: Copy) {
    exists f | f in s.fetches :: f.at == copy.fetchedAt && f.result == Some(Some(copy.list))
  }

  ghost predicate Sound(s: State) {
    && (s.cached.Some? ==> FromFetch(s, s.cached.value) && s.cached.value.fetchedAt <= s.clockMs)
    && (forall i | 0 <= i < |s.fetches| :: SoundFetch(s, s.fetches[i]))
    && (forall i, j | 0 <= i < j < |s.fetches| :: s.fetches[i].caller != s.fetches[j].caller)
    && (forall id | id in s.calls :: SoundCall(s, id))
  }

  ghost predicate SoundFetch(s: State, f: Fetch) {
    && f.caller in s.calls && f.at == s.calls[f.caller].at && f.at <= s.clockMs
    && (f.result.None? <==> s.calls[f.caller].Fetching?)
    && (f.result.None? ==> f.usable == s.calls[f.caller].usable.Some?)
    && (s.calls[f.caller].Threw? <==> f.result == Some(None) && !f.usable)
    && (f.result.Some? && f.result.value.Some? ==>
          s.calls[f.caller] == Returned(f.at, Copy(f.result.value.value, f.at)))
  }

  ghost predicate SoundCall(s: State, id: nat)
    requires id in s.calls
  {
    match s.calls[id]
    case Fetching(at, usable) =>
      && at <= s.clockMs
      && (exists f | f in s.fetches :: f.caller == id)
      && (usable.Some? ==> FromFetch(s, usable.value) && usable.value.fetchedAt <= at < usable.value.fetchedAt + USABLE_FOR_MS)
    case Returned(at, copy) =>
      FromFetch(s, copy) && copy.fetchedAt <= at < copy.fetchedAt + USABLE_FOR_MS && at <= s.clockMs
    case Threw(at) => exists f | f in s.fetches :: f.caller == id
  }

  lemma FetchesGrow(s: State, s': State, copy: Copy)
    requires FromFetch(s, copy)
    requires |s.fetches| <= |s'.fetches|
    requires forall i | 0 <= i < |s.fetches| && s.fetches[i].result.Some? :: s'.fetches[i] == s.fetches[i]
    ensures FromFetch(s', copy)
  {
    var f :| f in s.fetches && f.at == copy.fetchedAt && f.result == Some(Some(copy.list));
    var i :| 0 <= i < |s.fetches| && s.fetches[i] == f;
    assert s'.fetches[i] in s'.fetches;
  }

  lemma FetchOf(s: State, id: nat) returns (i: nat)
    requires Sound(s) && id in s.calls && s.calls[id].Fetching?
    ensures i < |s.fetches| && s.fetches[i].caller == id
    ensures s.fetches[i].result.None? && s.fetches[i].at == s.calls[id].at
  {
    assert SoundCall(s, id);
    var f :| f in s.fetches && f.caller == id;
    i :| 0 <= i < |s.fetches| && s.fetches[i] == f;
    assert SoundFetch(s, s.fetches[i]);
  }

  lemma SoundTick(s: State, ms: nat)
    requires Sound(s)
    ensures Sound(Apply(s, Tick(ms)))
  {
    var s' := Apply(s, Tick(ms));
    forall k | k in s'.calls
      ensures SoundCall(s', k)
    {
      CallStays(s, s', k);
    }
    forall i | 0 <= i < |s'.fetches|
      ensures SoundFetch(s', s'.fetches[i])
    {
      assert SoundFetch(s, s.fetches[i]);
    }
  }

  lemma SoundBegin(s: State, id: nat)
    requires Sound(s)
    ensures Sound(Apply(s, Begin(id)))
  {
    if s.cached.Some? {
      FetchesGrow(s, Apply(s, Begin(id)), s.cached.value);
    }
    BeginCalls(s, id);
    BeginFetches(s, id);
  }

  lemma BeginCalls(s: State, id: nat)
    requires Sound(s)
    ensures var s' := Apply(s, Begin(id));
            forall k | k in s'.calls :: SoundCall(s', k)
  {
    var s' := Apply(s, Begin(id));
    forall k | k in s'.calls
      ensures SoundCall(s', k)
    {
      if k in s.calls {
        CallStays(s, s', k);
      } else {
        if s.cached.Some? {
          FetchesGrow(s, s', s.cached.value);
        }
        if s'.calls[k].Fetching? {
          assert s'.fetches[|s.fetches|] in s'.fetches;
        }
      }
    }
  }

  lemma BeginFetches(s: State, id: nat)
    requires Sound(s)
    ensures var s' := Apply(s, Begin(id));
            && (forall i | 0 <= i < |s'.fetches| :: SoundFetch(s', s'.fetches[i]))
            && (forall i, j | 0 <= i < j < |s'.fetches| :: s'.fetches[i].caller != s'.fetches[j].caller)
  {
    var s' := Apply(s, Begin(id));
    forall i | 0 <= i < |s'.fetches|
      ensures SoundFetch(s', s'.fetches[i])
    {
      if i < |s.fetches| {
        assert SoundFetch(s, s.fetches[i]);
      }
    }
    forall i, j | 0 <= i < j < |s'.fetches|
      ensures s'.fetches[i].caller != s'.fetches[j].caller
    {
      assert SoundFetch(s, s.fetches[i]);
    }
  }

  lemma CallStays(s: State, s': State, k: nat)
    requires Sound(s) && k in s.calls && k in s'.calls && s'.calls[k] == s.calls[k]
    requires s.clockMs <= s'.clockMs
    requires |s.fetches| <= |s'.fetches|
    requires forall i | 0 <= i < |s.fetches| ::
               s'.fetches[i].caller == s.fetches[i].caller && (s.fetches[i].result.Some? ==> s'.fetches[i] == s.fetches[i])
    ensures SoundCall(s', k)
  {
    assert SoundCall(s, k);
    match s.calls[k]
    case Fetching(at, usable) =>
      var f :| f in s.fetches && f.caller == k;
      var i :| 0 <= i < |s.fetches| && s.fetches[i] == f;
      assert s'.fetches[i] in s'.fetches;
      if usable.Some? {
        FetchesGrow(s, s', usable.value);
      }
    case Returned(at, copy) => FetchesGrow(s, s', copy);
    case Threw(at) =>
      var f :| f in s.fetches && f.caller == k;
      var i :| 0 <= i < |s.fetches| && s.fetches[i] == f;
      assert s'.fetches[i] in s'.fetches;
  }

  lemma SoundEnd(s: State, id: nat, result: Option<List>)
    requires Sound(s)
    ensures Sound(Apply(s, End(id, result)))
  {
    if id in s.calls && s.calls[id].Fetching? {
      var n := FetchOf(s, id);
      EndedFetches(s, id, result, n);
      EndCalls(s, id, result, n);
      EndFetches(s, id, result);
    }
  }

  lemma EndCalls(s: State, id: nat, result: Option<List>, n: nat)
    requires Sound(s) && id in s.calls && s.calls[id].Fetching?
    requires n < |s.fetches| && s.fetches[n].caller == id && s.fetches[n].at == s.calls[id].at
    requires var s' := Ended(s, id, result);
             && s'.fetches[n] == s.fetches[n].(result := Some(result))
             && forall i | 0 <= i < |s.fetches| && s.fetches[i].result.Some? :: s'.fetches[i] == s.fetches[i]
    ensures var s' := Ended(s, id, result);
            && (s'.cached.Some? ==> FromFetch(s', s'.cached.value) && s'.cached.value.fetchedAt <= s'.clockMs)
            && forall k | k in s'.calls :: SoundCall(s', k)
  {
    var s' := Ended(s, id, result);
    assert s'.fetches[n] in s'.fetches;
    assert SoundCall(s, id);
    if s.cached.Some? {
      FetchesGrow(s, s', s.cached.value);
    }
    if s.calls[id].usable.Some? {
      FetchesGrow(s, s', s.calls[id].usable.value);
    }
    forall k | k in s'.calls
      ensures SoundCall(s', k)
    {
      if k != id {
        CallStays(s, s', k);
      }
    }
  }

  lemma EndFetches(s: State, id: nat, result: Option<List>)
    requires Sound(s) && id in s.calls && s.calls[id].Fetching?
    ensures var s' := Ended(s, id, result);
            forall i | 0 <= i < |s'.fetches| :: SoundFetch(s', s'.fetches[i])
  {
    var s' := Ended(s, id, result);
    forall i | 0 <= i < |s'.fetches|
      ensures SoundFetch(s', s'.fetches[i])
    {
      assert SoundFetch(s, s.fetches[i]);
    }
  }

  lemma EndedFetches(s: State, id: nat, result: Option<List>, n: nat)
    requires Sound(s) && id in s.calls && s.calls[id].Fetching?
    requires n < |s.fetches| && s.fetches[n].caller == id
    ensures var s' := Ended(s, id, result);
            && s'.fetches[n] == s.fetches[n].(result := Some(result))
            && forall i | 0 <= i < |s.fetches| && s.fetches[i].result.Some? :: s'.fetches[i] == s.fetches[i]
  {
    forall i | 0 <= i < |s.fetches| && s.fetches[i].result.Some?
      ensures s.fetches[i].caller != id
    {
      assert SoundFetch(s, s.fetches[i]);
    }
  }

  lemma {:induction false} SoundRun(timeoutMs: nat, clockMs: nat, steps: seq<Step>)
    ensures Sound(Run(Init(timeoutMs, clockMs), steps))
  {
    if steps != [] {
      var before, last := steps[..|steps| - 1], steps[|steps| - 1];
      SoundRun(timeoutMs, clockMs, before);
      match last
      case Tick(ms) => SoundTick(Run(Init(timeoutMs, clockMs), before), ms);
      case Begin(id) => SoundBegin(Run(Init(timeoutMs, clockMs), before), id);
      case End(id, result) => SoundEnd(Run(Init(timeoutMs, clockMs), before), id, result);
    }
  }

  /**
   Main result: however calls overlap, and however late fetches are aborted, a list that a call
   returns is one that a fetch begun less than seven days before that call brought back; a call whose own
   fetch succeeded returns what it brought back; and a call throws exactly when its own fetch failed and it
   had no usable copy when it began.
   */
  lemma ReturnedIsFresh(timeoutMs: nat, clockMs: nat, steps: seq<Step>, id: nat)
    requires id in Run(Init(timeoutMs, clockMs), steps).calls
    ensures var s := Run(Init(timeoutMs, clockMs), steps);
            && (s.calls[id].Returned? ==>
                  && FromFetch(s, s.calls[id].copy)
                  && s.calls[id].copy.fetchedAt <= s.calls[id].at < s.calls[id].copy.fetchedAt + 604_800_000)
            && (forall i | 0 <= i < |s.fetches| && s.fetches[i].caller == id ::
                  s.fetches[i].result.Some? && s.fetches[i].result.value.Some? ==>
                    s.calls[id] == Returned(s.fetches[i].at, Copy(s.fetches[i].result.value.value, s.fetches[i].at)))
            && (s.calls[id].Threw? <==>
                  exists f | f in s.fetches :: f.caller == id && f.result == Some(None) && !f.usable)
  {
    SoundRun(timeoutMs, clockMs, steps);
    var s := Run(Init(timeoutMs, clockMs), steps);
    assert SoundCall(s, id);
    if s.calls[id].Threw? {
      var f :| f in s.fetches && f.caller == id;
      var i :| 0 <= i < |s.fetches| && s.fetches[i] == f;
      assert SoundFetch(s, s.fetches[i]);
    }
    if exists f | f in s.fetches :: f.caller == id && f.result == Some(None) && !f.usable {
      var f :| f in s.fetches && f.caller == id && f.result == Some(None) && !f.usable;
      var i :| 0 <= i < |s.fetches| && s.fetches[i] == f;
      assert SoundFetch(s, s.fetches[i]);
    }
  }

  // ---------------------------------------------------------------------------
  // Spacing of fetches, however calls overlap
  // ---------------------------------------------------------------------------

  /** The time a fetch is meant to keep the next one away: a day after a success, five minutes after a
      failure, and so at least five minutes while it is in flight. */
  function Gap(f: Fetch): nat {
    if f.result.Some? && f.result.value.Some? then 86_400_000 else 300_000
  }

  /** A fetch begun while another was in flight came within the time-out of the one before it. One begun
      alone, while a usable copy existed, kept the gap up to the time-out. */
  predicate Timed(timeoutMs: nat, f: Fetch, g: Fetch) {
    && (!g.alone ==> g.at <= f.at + timeoutMs)
    && (g.alone ==> f.result.Some? && (g.usable ==> g.at + timeoutMs >= f.at + Gap(f)))
  }

  predicate TimedAt(timeoutMs: nat, fetches: seq<Fetch>, i: nat) {
    i + 1 < |fetches| ==> Timed(timeoutMs, fetches[i], fetches[i + 1])
  }

  ghost predicate AllTimed(timeoutMs: nat, fetches: seq<Fetch>) {
    forall i: nat :: TimedAt(timeoutMs, fetches, i)
  }

  predicate Ordered(fetches: seq<Fetch>) {
    forall i, j | 0 <= i < j < |fetches| :: fetches[i].at <= fetches[j].at
  }

  /** What the newest fetch left behind, unless an older one that ended later has overwritten it with
      what is older by no more than the time-out. */
  ghost predicate Remembers(s: State) {
    s.fetches != [] ==>
      var last := s.fetches[|s.fetches| - 1];
      && (last.result.Some? && last.result.value.Some? ==>
            s.cached.Some? && s.cached.value.fetchedAt + s.timeoutMs >= last.at)
      && (last.result == Some(None) ==> s.retryAt + s.timeoutMs >= last.at + RETRY_AFTER_FAILURE_MS)
  }

  ghost predicate OnTime(s: State) {
    Allows(s, s.clockMs) && Ordered(s.fetches) && Remembers(s) && AllTimed(s.timeoutMs, s.fetches)
  }

  lemma NewFetchTimed(s: State, id: nat)
    requires Sound(s) && OnTime(s) && s.fetches != []
    requires !ServesCopy(s.cached, s.retryAt, s.clockMs)
    ensures Timed(s.timeoutMs, s.fetches[|s.fetches| - 1],
                  Fetch(id, s.clockMs, Usable(s.cached, s.clockMs).Some?, Idle(s), None))
  {
    var last := s.fetches[|s.fetches| - 1];
    if Idle(s) {
      assert SoundFetch(s, last);
      if Usable(s.cached, s.clockMs).Some? {
        IdleGap(s, last);
      }
    } else {
      InFlightClose(s);
    }
  }

  lemma InFlightClose(s: State)
    requires Sound(s) && Allows(s, s.clockMs) && Ordered(s.fetches) && !Idle(s)
    ensures s.fetches != [] && s.clockMs <= s.fetches[|s.fetches| - 1].at + s.timeoutMs
  {
    var k :| k in s.calls && s.calls[k].Fetching?;
    var i := FetchOf(s, k);
    assert s.fetches[i].at <= s.fetches[|s.fetches| - 1].at;
  }

  lemma IdleGap(s: State, last: Fetch)
    requires Remembers(s) && s.fetches != [] && last == s.fetches[|s.fetches| - 1] && last.result.Some?
    requires !ServesCopy(s.cached, s.retryAt, s.clockMs) && Usable(s.cached, s.clockMs).Some?
    ensures s.clockMs + s.timeoutMs >= last.at + Gap(last)
  {
  }

  lemma OnTimeBegin(s: State, id: nat)
    requires Sound(s) && OnTime(s)
    ensures OnTime(Apply(s, Begin(id)))
  {
    if id !in s.calls {
      BeginAllows(s, id);
      BeginRemembers(s, id);
      if !ServesCopy(s.cached, s.retryAt, s.clockMs) {
        FetchTimed(s, id);
      }
    }
  }

  lemma FetchTimed(s: State, id: nat)
    requires Sound(s) && OnTime(s) && !ServesCopy(s.cached, s.retryAt, s.clockMs)
    ensures var g := Fetch(id, s.clockMs, Usable(s.cached, s.clockMs).Some?, Idle(s), None);
            Ordered(s.fetches + [g]) && AllTimed(s.timeoutMs, s.fetches + [g])
  {
    var g := Fetch(id, s.clockMs, Usable(s.cached, s.clockMs).Some?, Idle(s), None);
    OrderedAppend(s, g);
    if s.fetches != [] {
      NewFetchTimed(s, id);
    }
    TimedAppend(s.timeoutMs, s.fetches, g);
  }

  lemma BeginRemembers(s: State, id: nat)
    requires Remembers(s) && id !in s.calls
    ensures Remembers(Begun(s, id))
  {
  }

  lemma BeginAllows(s: State, id: nat)
    requires Allows(s, s.clockMs) && id !in s.calls
    ensures Allows(Begun(s, id), s.clockMs)
  {
  }

  lemma OrderedAppend(s: State, g: Fetch)
    requires Sound(s) && Ordered(s.fetches) && g.at == s.clockMs
    ensures Ordered(s.fetches + [g])
  {
    forall i | 0 <= i < |s.fetches|
      ensures s.fetches[i].at <= g.at
    {
      assert SoundFetch(s, s.fetches[i]);
    }
  }

  lemma TimedAppend(timeoutMs: nat, fetches: seq<Fetch>, g: Fetch)
    requires AllTimed(timeoutMs, fetches) && (fetches != [] ==> Timed(timeoutMs, fetches[|fetches| - 1], g))
    ensures AllTimed(timeoutMs, fetches + [g])
  {
    var r := fetches + [g];
    forall i: nat
      ensures TimedAt(timeoutMs, r, i)
    {
      assert TimedAt(timeoutMs, fetches, i);
    }
  }

  lemma OnTimeEnd(s: State, id: nat, result: Option<List>)
    requires Sound(s) && OnTime(s) && id in s.calls && s.calls[id].Fetching?
    ensures OnTime(Ended(s, id, result))
  {
    var s' := Ended(s, id, result);
    var n := FetchOf(s, id);
    EndedFetches(s, id, result, n);
    assert SoundFetch(s, s.fetches[|s.fetches| - 1]);
    EndedRemembers(s, id, result, n);
    EndedTimed(s.timeoutMs, s.fetches, s'.fetches);
    EndedAllows(s, id, result);
  }

  lemma EndedAllows(s: State, id: nat, result: Option<List>)
    requires Allows(s, s.clockMs) && Ordered(s.fetches) && id in s.calls && s.calls[id].Fetching?
    ensures Allows(Ended(s, id, result), s.clockMs) && Ordered(Ended(s, id, result).fetches)
  {
  }

  lemma EndedTimed(timeoutMs: nat, before: seq<Fetch>, after: seq<Fetch>)
    requires AllTimed(timeoutMs, before) && |after| == |before|
    requires forall i | 0 <= i < |before| ::
               && after[i].(result := None) == before[i].(result := None)
               && (before[i].result.Some? ==> after[i] == before[i])
    ensures AllTimed(timeoutMs, after)
  {
    forall i: nat
      ensures TimedAt(timeoutMs, after, i)
    {
      assert TimedAt(timeoutMs, before, i);
    }
  }

  lemma EndedRemembers(s: State, id: nat, result: Option<List>, n: nat)
    requires id in s.calls && s.calls[id].Fetching? && Remembers(s) && n < |s.fetches|
    requires s.fetches[|s.fetches| - 1].at <= s.calls[id].at + s.timeoutMs
    requires s.fetches[n].caller == id && s.fetches[n].at == s.calls[id].at
    requires s.fetches[|s.fetches| - 1].caller == id ==> n == |s.fetches| - 1
    ensures Remembers(Ended(s, id, result))
  {
  }

  lemma {:induction false} OnTimeRun(timeoutMs: nat, clockMs: nat, steps: seq<Step>)
    ensures var s := Run(Init(timeoutMs, clockMs), steps);
            Sound(s) && OnTime(s) && s.timeoutMs == timeoutMs
  {
    SoundRun(timeoutMs, clockMs, steps);
    if steps != [] {
      var before, last := steps[..|steps| - 1], steps[|steps| - 1];
      OnTimeRun(timeoutMs, clockMs, before);
      OnTimeStep(Run(Init(timeoutMs, clockMs), before), last);
    }
  }

  lemma OnTimeStep(s: State, step: Step)
    requires Sound(s) && OnTime(s)
    ensures OnTime(Apply(s, step)) && Apply(s, step).timeoutMs == s.timeoutMs
  {
    match step
    case Tick(ms) => OnTimeTick(s, ms);
    case Begin(id) => OnTimeBegin(s, id);
    case End(id, result) =>
      if id in s.calls && s.calls[id].Fetching? {
        OnTimeEnd(s, id, result);
      }
  }

  lemma OnTimeTick(s: State, ms: nat)
    requires OnTime(s)
    ensures OnTime(Apply(s, Tick(ms)))
  {
  }

  /**
   Main result on traffic, for every run: of two successive fetches the later of which was made while
   a usable copy existed, the later one keeps the gap (a day after a success, five minutes after a
   failure), up to the five seconds a fetch may take, if and only if no fetch was in flight when it
   began.
   */
  lemma SpacedIffAlone(clockMs: nat, steps: seq<Step>, i: nat)
    requires var fetches := Run(Init(5_000, clockMs), steps).fetches;
             i + 1 < |fetches| && fetches[i + 1].usable
    ensures var fetches := Run(Init(5_000, clockMs), steps).fetches;
            fetches[i + 1].at >= fetches[i].at + Gap(fetches[i]) - 5_000 <==> fetches[i + 1].alone
  {
    OnTimeRun(FETCH_TIMEOUT_MS, clockMs, steps);
    var fetches := Run(Init(FETCH_TIMEOUT_MS, clockMs), steps).fetches;
    assert TimedAt(FETCH_TIMEOUT_MS, fetches, i);
  }

  // ---------------------------------------------------------------------------
  // Full gaps
  // ---------------------------------------------------------------------------

  /** The earlier fetch had ended, and with a usable copy the whole gap was kept. */
  predicate SpacedPair(f: Fetch, g: Fetch) {
    f.result.Some? && (g.usable ==> g.at >= f.at + Gap(f))
  }

  predicate SpacedAt(fetches: seq<Fetch>, i: nat) {
    i + 1 < |fetches| ==> SpacedPair(fetches[i], fetches[i + 1])
  }

  ghost predicate Spaced(fetches: seq<Fetch>) {
    forall i: nat :: SpacedAt(fetches, i)
  }

  predicate AllAlone(fetches: seq<Fetch>) {
    forall i | 0 <= i < |fetches| :: fetches[i].alone
  }

  /** What the newest fetch left behind, exactly. */
  ghost predicate RemembersLast(s: State) {
    s.fetches != [] && Idle(s) ==>
      var last := s.fetches[|s.fetches| - 1];
      && last.result.Some?
      && (last.result.value.Some? ==> s.cached == Some(Copy(last.result.value.value, last.at)))
      && (last.result.value.None? ==> s.retryAt == last.at + RETRY_AFTER_FAILURE_MS)
  }

  ghost predicate OnlyLastRuns(s: State) {
    forall id | id in s.calls && s.calls[id].Fetching? :: s.fetches != [] && s.fetches[|s.fetches| - 1].caller == id
  }

  ghost predicate Strict(s: State) {
    RemembersLast(s) && OnlyLastRuns(s) && Spaced(s.fetches)
  }

  lemma SpacedAppend(fetches: seq<Fetch>, f: Fetch)
    requires Spaced(fetches) && (fetches != [] ==> SpacedPair(fetches[|fetches| - 1], f))
    ensures Spaced(fetches + [f])
  {
    var r := fetches + [f];
    forall i: nat
      ensures SpacedAt(r, i)
    {
      assert SpacedAt(fetches, i);
    }
  }

  lemma StrictBegin(s: State, id: nat)
    requires Strict(s) && (Apply(s, Begin(id)).fetches == s.fetches || Idle(s))
    ensures Strict(Apply(s, Begin(id)))
  {
    var s' := Apply(s, Begin(id));
    if s'.fetches == s.fetches {
      assert forall k | k in s'.calls && s'.calls[k].Fetching? :: k in s.calls && s.calls[k].Fetching?;
      assert forall k | k in s.calls && s.calls[k].Fetching? :: k in s'.calls && s'.calls[k].Fetching?;
    } else {
      assert s'.calls[id].Fetching?;
      SpacedAppend(s.fetches, s'.fetches[|s.fetches|]);
    }
  }

  lemma StrictEnd(s: State, id: nat, result: Option<List>)
    requires Sound(s) && Strict(s) && id in s.calls && s.calls[id].Fetching?
    ensures Strict(Ended(s, id, result))
  {
    var s' := Ended(s, id, result);
    var n := |s.fetches| - 1;
    assert s.fetches[n].caller == id;
    EndedFetches(s, id, result, n);
    assert SoundFetch(s, s.fetches[n]);
    EndedSpaced(s, id, result, n);
    LastEndedIdle(s, id, result);
  }

  lemma LastEndedIdle(s: State, id: nat, result: Option<List>)
    requires OnlyLastRuns(s) && id in s.calls && s.calls[id].Fetching?
    ensures Idle(Ended(s, id, result))
  {
  }

  lemma EndedSpaced(s: State, id: nat, result: Option<List>, n: nat)
    requires Sound(s) && id in s.calls && s.calls[id].Fetching?
    requires n == |s.fetches| - 1 && s.fetches[n].caller == id && Spaced(s.fetches)
    ensures Spaced(SetResult(s.fetches, id, result))
  {
    var fetches := SetResult(s.fetches, id, result);
    forall i: nat
      ensures SpacedAt(fetches, i)
    {
      assert SpacedAt(s.fetches, i);
      if i < n {
        assert s.fetches[i].caller != id;
      }
    }
  }

  /** A step adds at most one fetch, and changes no other in anything but its result. */
  lemma FetchesStep(s: State, step: Step)
    ensures var s' := Apply(s, step);
            && |s.fetches| <= |s'.fetches| <= |s.fetches| + 1
            && (forall i | 0 <= i < |s.fetches| :: s'.fetches[i].(result := None) == s.fetches[i].(result := None))
            && (|s'.fetches| > |s.fetches| ==> step.Begin? && s'.fetches[|s.fetches|].alone == Idle(s))
  {
  }

  /** As long as every fetch begins alone, the newest one is remembered exactly. */
  lemma {:induction false} StrictRun(timeoutMs: nat, clockMs: nat, steps: seq<Step>)
    requires AllAlone(Run(Init(timeoutMs, clockMs), steps).fetches)
    ensures Strict(Run(Init(timeoutMs, clockMs), steps))
  {
    if steps != [] {
      var before, last := steps[..|steps| - 1], steps[|steps| - 1];
      var s := Run(Init(timeoutMs, clockMs), before);
      AloneBefore(s, last);
      StrictRun(timeoutMs, clockMs, before);
      SoundRun(timeoutMs, clockMs, before);
      StrictStep(s, last);
    }
  }

  lemma StrictStep(s: State, step: Step)
    requires Sound(s) && Strict(s) && AllAlone(Apply(s, step).fetches)
    ensures Strict(Apply(s, step))
  {
    match step
    case Tick(ms) => StrictTick(s, ms);
    case Begin(id) =>
      FetchesStep(s, step);
      StrictBegin(s, id);
    case End(id, result) =>
      if id in s.calls && s.calls[id].Fetching? {
        StrictEnd(s, id, result);
      }
  }

  lemma StrictTick(s: State, ms: nat)
    requires Strict(s)
    ensures Strict(Apply(s, Tick(ms)))
  {
  }

  lemma AloneBefore(s: State, step: Step)
    requires AllAlone(Apply(s, step).fetches)
    ensures AllAlone(s.fetches)
  {
    var s' := Apply(s, step);
    FetchesStep(s, step);
    forall i | 0 <= i < |s.fetches|
      ensures s.fetches[i].alone
    {
      assert s'.fetches[i].alone;
      assert s'.fetches[i].(result := None) == s.fetches[i].(result := None);
    }
  }

  /** At every moment of the run so far fetches were spaced. */
  ghost predicate AlwaysSpaced(s: State, steps: seq<Step>) {
    forall n | 0 <= n <= |steps| :: Spaced(Run(s, steps[..n]).fetches)
  }

  /**
   When the full gaps are kept: at every moment of a run the newest fetch had begun after the end of
   the one before it and kept its whole gap, if and only if the run never begins a fetch while another
   one is in flight.
   */
  lemma {:induction false} AlwaysSpacedIffAlone(timeoutMs: nat, clockMs: nat, steps: seq<Step>)
    ensures AlwaysSpaced(Init(timeoutMs, clockMs), steps) <==> AllAlone(Run(Init(timeoutMs, clockMs), steps).fetches)
  {
    var s0 := Init(timeoutMs, clockMs);
    assert steps[..|steps|] == steps;
    if steps != [] {
      var before, last := steps[..|steps| - 1], steps[|steps| - 1];
      AlwaysSpacedIffAlone(timeoutMs, clockMs, before);
      PrefixesOf(s0, before, last);
      assert before + [last] == steps;
      if AllAlone(Run(s0, steps).fetches) {
        AloneBefore(Run(s0, before), last);
        StrictRun(timeoutMs, clockMs, steps);
      }
      if AlwaysSpaced(s0, steps) {
        StrictRun(timeoutMs, clockMs, before);
        SoundRun(timeoutMs, clockMs, before);
        SpacedStepAlone(Run(s0, before), last);
      }
    }
  }

  lemma PrefixesOf(s: State, before: seq<Step>, last: Step)
    ensures AlwaysSpaced(s, before + [last])
            <==> AlwaysSpaced(s, before) && Spaced(Run(s, before + [last]).fetches)
  {
    var steps := before + [last];
    assert steps[..|steps|] == steps;
    assert forall n | 0 <= n <= |before| :: steps[..n] == before[..n];
    if AlwaysSpaced(s, before) && Spaced(Run(s, steps).fetches) {
      forall n | 0 <= n <= |steps|
        ensures Spaced(Run(s, steps[..n]).fetches)
      {
        if n <= |before| {
          assert Spaced(Run(s, before[..n]).fetches);
        }
      }
    }
    if AlwaysSpaced(s, steps) {
      forall n | 0 <= n <= |before|
        ensures Spaced(Run(s, before[..n]).fetches)
      {
        assert Spaced(Run(s, steps[..n]).fetches);
      }
      assert Spaced(Run(s, steps[..|steps|]).fetches);
    }
  }

  lemma SpacedStepAlone(s: State, step: Step)
    requires Sound(s) && Strict(s) && AllAlone(s.fetches) && Spaced(Apply(s, step).fetches)
    ensures AllAlone(Apply(s, step).fetches)
  {
    var s' := Apply(s, step);
    FetchesStep(s, step);
    if |s'.fetches| > |s.fetches| && s.fetches != [] {
      var n := |s.fetches| - 1;
      assert SpacedAt(s'.fetches, n);
      assert SoundFetch(s, s.fetches[n]);
      assert s'.fetches[n] == s.fetches[n];
    }
    if |s'.fetches| > |s.fetches| && s.fetches == [] {
      assert Idle(s);
    }
    forall i | 0 <= i < |s.fetches|
      ensures s'.fetches[i].alone
    {
      assert s'.fetches[i].(result := None) == s.fetches[i].(result := None);
    }
  }

  // ---------------------------------------------------------------------------
  // Runs in which gaps are not kept
  // ---------------------------------------------------------------------------

  /** A day after the first fetch two calls begin at the same moment, and both fetch. */
  lemma OverlapFetchesTwice(timeoutMs: nat, list: List)
    ensures var steps := [Begin(0), End(0, Some(list)), Tick(REFRESH_AFTER_MS), Begin(1), Begin(2)];
            Run(Init(timeoutMs, 0), steps).fetches
            == [Fetch(0, 0, false, true, Some(Some(list))), Fetch(1, REFRESH_AFTER_MS, true, true, None),
                Fetch(2, REFRESH_AFTER_MS, true, false, None)]
  {
    var steps := [Begin(0), End(0, Some(list)), Tick(REFRESH_AFTER_MS), Begin(1), Begin(2)];
    var s0 := Init(timeoutMs, 0);
    RunFive(s0, steps[0], steps[1], steps[2], steps[3], steps[4]);
    var copy := Copy(list, 0);
    var f0 := Fetch(0, 0, false, true, Some(Some(list)));
    var s2 := State(timeoutMs, 0, Some(copy), 0, map[0 := Returned(0, copy)], [f0]);
    assert Apply(s0, steps[0]) == State(timeoutMs, 0, None, 0, map[0 := Fetching(0, None)], [f0.(result := None)]);
    assert Apply(Apply(s0, steps[0]), steps[1]) == s2;
    var s3 := s2.(clockMs := REFRESH_AFTER_MS);
    assert Apply(s2, steps[2]) == s3;
    var f1 := Fetch(1, REFRESH_AFTER_MS, true, true, None);
    var s4 := s3.(calls := s3.calls[1 := Fetching(REFRESH_AFTER_MS, Some(copy))], fetches := [f0, f1]);
    assert Apply(s3, steps[3]) == s4;
    assert s4.calls[1].Fetching? && !Idle(s4);
  }

  lemma RunFive(s: State, a: Step, b: Step, c: Step, d: Step, e: Step)
    ensures Run(s, [a, b, c, d, e]) == Apply(Apply(Apply(Apply(Apply(s, a), b), c), d), e)
  {
    RunTwo(s, a, b);
    RunTwo(Run(s, [a, b]), c, d);
    RunConcat(s, [a, b], [c, d]);
    RunAppend(s, [a, b] + [c, d], e);
    FiveAs(a, b, c, d, e);
  }

  lemma FiveAs(a: Step, b: Step, c: Step, d: Step, e: Step)
    ensures ([a, b] + [c, d]) + [e] == [a, b, c, d, e]
  {
  }

  lemma RunTwo(s: State, a: Step, b: Step)
    ensures Run(s, [a, b]) == Apply(Apply(s, a), b)
  {
    RunAppend(s, [], a);
    RunAppend(s, [a], b);
    assert [] + [a] == [a] && [a] + [b] == [a, b];
  }

  /** The time-out in `SpacedIffAlone` cannot be left out: two calls at a cold start, the older fetch
      ending last, leave an older copy behind, and the next fetch, though it begins alone, comes a
      whole time-out before a day has passed since the newer one. */
  lemma LateWriterCostsTimeout(list: List)
    ensures var fetches := Run(Init(FETCH_TIMEOUT_MS, 0), LateWriter(list)).fetches;
            && |fetches| == 3
            && fetches[1] == Fetch(1, FETCH_TIMEOUT_MS, false, false, Some(Some(list)))
            && fetches[2] == Fetch(2, REFRESH_AFTER_MS, true, true, None)
  {
    var s0 := Init(FETCH_TIMEOUT_MS, 0);
    ColdStart(list);
    RunFive(s0, Begin(0), Tick(FETCH_TIMEOUT_MS), Begin(1), End(1, Some(list)), End(0, Some(list)));
    var a := [Begin(0), Tick(FETCH_TIMEOUT_MS), Begin(1), End(1, Some(list)), End(0, Some(list))];
    RunConcat(s0, a, [Tick(REFRESH_AFTER_MS - FETCH_TIMEOUT_MS), Begin(2)]);
    RunTwo(Run(s0, a), Tick(REFRESH_AFTER_MS - FETCH_TIMEOUT_MS), Begin(2));
    DayAfterColdStart(list);
  }

  function LateWriter(list: List): seq<Step> {
    [Begin(0), Tick(FETCH_TIMEOUT_MS), Begin(1), End(1, Some(list)), End(0, Some(list))]
    + [Tick(REFRESH_AFTER_MS - FETCH_TIMEOUT_MS), Begin(2)]
  }

  lemma DayAfterColdStart(list: List)
    ensures Apply(Apply(AfterColdStart(list), Tick(REFRESH_AFTER_MS - FETCH_TIMEOUT_MS)), Begin(2)).fetches
            == AfterColdStart(list).fetches + [Fetch(2, REFRESH_AFTER_MS, true, true, None)]
  {
    var s := AfterColdStart(list);
    assert Apply(s, Tick(REFRESH_AFTER_MS - FETCH_TIMEOUT_MS)) == s.(clockMs := REFRESH_AFTER_MS);
  }

  function AfterColdStart(list: List): State {
    var d := FETCH_TIMEOUT_MS;
    State(d, d, Some(Copy(list, 0)), 0, map[0 := Returned(0, Copy(list, 0)), 1 := Returned(d, Copy(list, d))],
          [Fetch(0, 0, false, true, Some(Some(list))), Fetch(1, d, false, false, Some(Some(list)))])
  }

  lemma ColdStart(list: List)
    ensures var s0 := Init(FETCH_TIMEOUT_MS, 0);
            Apply(Apply(Apply(Apply(Apply(s0, Begin(0)), Tick(FETCH_TIMEOUT_MS)), Begin(1)), End(1, Some(list))),
                  End(0, Some(list)))
            == AfterColdStart(list)
  {
    var d := FETCH_TIMEOUT_MS;
    var s0 := Init(d, 0);
    var f0, f1 := Fetch(0, 0, false, true, None), Fetch(1, d, false, false, None);
    var s1 := State(d, 0, None, 0, map[0 := Fetching(0, None)], [f0]);
    assert Apply(s0, Begin(0)) == s1;
    var s2 := s1.(clockMs := d);
    assert Apply(s1, Tick(d)) == s2;
    assert s2.calls[0].Fetching? && !Idle(s2);
    var s3 := s2.(calls := map[0 := Fetching(0, None), 1 := Fetching(d, None)], fetches := [f0, f1]);
    assert Apply(s2, Begin(1)) == s3;
    var c1 := Copy(list, d);
    var s4 := s3.(cached := Some(c1), calls := map[0 := Fetching(0, None), 1 := Returned(d, c1)],
                  fetches := [f0, f1.(result := Some(Some(list)))]);
    assert Apply(s3, End(1, Some(list))) == s4;
    assert Apply(s4, End(0, Some(list))) == AfterColdStart(list);
  }
}
