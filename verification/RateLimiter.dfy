/**
 The rate limiter's code: the compare-and-set loop on one bucket and the loop over the
 windows. Each `await` hands control to `Others`, which runs an arbitrary schedule of the
 other requests, of the clock and of the store's expiry. The code is proved to be one
 request of the protocol in `RateLimitMachine`.
 */
module RateLimiter {
  import opened Options
  import opened RateLimitMachine
  import Admission = RateLimitAdmission

  datatype Outcome = Ok | Limited(retryAfter: nat)

  /** A schedule for every suspension point of a call, in order. */
  type Environment = nat -> seq<Step>

  predicate TakenBy(step: Step, id: nat) {
    (step.Start? || step.Read? || step.Commit?) && step.id == id
  }

  ghost predicate Foreign(env: Environment, id: nat) {
    forall n: nat, step | step in env(n) :: !TakenBy(step, id)
  }

  /** Every step is one of this call or was taken by someone else while it was suspended. */
  ghost predicate Accounted(trace: seq<Step>, env: Environment, id: nat, prefix: string, identity: string,
                            windows: seq<Window>)
  {
    forall step | step in trace ::
      step in [Start(id, prefix, identity, windows), Read(id), Commit(id)] || exists n: nat :: step in env(n)
  }

  lemma AccountedAppend(trace: seq<Step>, more: seq<Step>, env: Environment, id: nat, prefix: string,
                        identity: string, windows: seq<Window>)
    requires Accounted(trace, env, id, prefix, identity, windows)
    requires forall step | step in more ::
               step in [Start(id, prefix, identity, windows), Read(id), Commit(id)] || exists n: nat :: step in env(n)
    ensures Accounted(trace + more, env, id, prefix, identity, windows)
  {
  }

  lemma {:induction false} OthersKeepTask(s: System, steps: seq<Step>, id: nat)
    requires forall step | step in steps :: !TakenBy(step, id)
    ensures var s' := Run(s, steps);
            && (id in s.tasks <==> id in s'.tasks)
            && (id in s.tasks ==> s'.tasks[id] == s.tasks[id])
  {
    if steps != [] {
      OthersKeepTask(s, steps[..|steps| - 1], id);
      assert steps[|steps| - 1] in steps;
    }
  }

  lemma {:induction false} ClockGrows(s: System, steps: seq<Step>)
    ensures s.store.clockMs <= Run(s, steps).store.clockMs
  {
    if steps != [] {
      ClockGrows(s, steps[..|steps| - 1]);
    }
  }

  /** The store handle, together with the progress of every call that uses it. */
  class Kv {
    var store: Store
    var tasks: map<nat, Task>

    ghost function Sys(): System
      reads this
    {
      System(store, tasks)
    }

    constructor (clockMs: nat)
      ensures Sys() == Init(clockMs)
    {
      store, tasks := Init(clockMs).store, map[];
    }

    /** Everything else that happens while a call waits. */
    method Others(steps: seq<Step>)
      modifies this
      ensures Sys() == Run(old(Sys()), steps)
    {
      var i := 0;
      assert steps[..0] == [];
      while i < |steps|
        invariant 0 <= i <= |steps|
        invariant Sys() == Run(old(Sys()), steps[..i])
      {
        assert steps[..i + 1] == steps[..i] + [steps[i]];
        RunAppend(old(Sys()), steps[..i], steps[i]);
        var s := Apply(System(store, tasks), steps[i]);
        store, tasks := s.store, s.tasks;
        i := i + 1;
      }
      assert steps[..i] == steps;
    }

    method Get(key: Key) returns (entry: Option<Entry>)
      ensures entry == Lookup(store, key)
    {
      entry := if key in store.entries then Some(store.entries[key]) else None;
    }

    /** `atomic().check(seen).set(key, value, { expireIn }).commit()` */
    method CheckAndSet(key: Key, seen: Option<Entry>, value: nat, expireInMs: nat, owner: nat) returns (ok: bool)
      modifies this`store
      ensures ok == CheckPasses(old(store), key, seen)
      ensures store == if ok then Bump(old(store), key, value, expireInMs, owner) else old(store)
    {
      ok := Version(Lookup(store, key)) == Version(seen);
      if ok {
        store := Bump(store, key, value, expireInMs, owner);
      }
    }
  }

  /** A call that stands at the start of a bucket with this key, maximum and time-to-live. */
  predicate AtBucket(t: Task, key: Key, max: nat, ttlMs: nat) {
    && t.index < |t.windows|
    && BucketKey(t, t.windows[t.index]) == key
    && t.windows[t.index].max == max
    && TtlMs(t.windows[t.index].windowSec) == ttlMs
    && t.phase.Reading?
  }

  /** Same call, possibly further on. */
  predicate SameCall(t: Task, t': Task) {
    && t'.prefix == t.prefix && t'.identity == t.identity && t'.windows == t.windows
    && t'.startMs == t.startMs && t'.now == t.now
  }

  /** `await kv.get(key)` */
  method AwaitGet(kv: Kv, id: nat, key: Key, max: nat, ttlMs: nat, meanwhile: seq<Step>)
    returns (entry: Option<Entry>)
    requires id in kv.tasks && AtBucket(kv.tasks[id], key, max, ttlMs)
    requires forall step | step in meanwhile :: !TakenBy(step, id)
    modifies kv
    ensures kv.Sys() == Run(old(kv.Sys()), meanwhile + [Read(id)])
    ensures id in kv.tasks && kv.tasks[id] == AfterRead(kv.store, old(kv.tasks[id]))
    ensures entry == Lookup(kv.store, key)
  {
    OthersKeepTask(kv.Sys(), meanwhile, id);
    kv.Others(meanwhile);
    RunAppend(old(kv.Sys()), meanwhile, Read(id));
    entry := kv.Get(key);
    kv.tasks := kv.tasks[id := AfterRead(kv.store, kv.tasks[id])];
  }

  /** `await kv.atomic().check(entry).set(...).commit()` */
  method AwaitCommit(kv: Kv, id: nat, key: Key, entry: Option<Entry>, ttlMs: nat, meanwhile: seq<Step>)
    returns (ok: bool)
    requires id in kv.tasks && kv.tasks[id].phase.Committing? && kv.tasks[id].phase.seen == entry
    requires var t := kv.tasks[id];
             && t.index < |t.windows| && BucketKey(t, t.windows[t.index]) == key
             && TtlMs(t.windows[t.index].windowSec) == ttlMs
    requires forall step | step in meanwhile :: !TakenBy(step, id)
    modifies kv
    ensures kv.Sys() == Run(old(kv.Sys()), meanwhile + [Commit(id)])
    ensures id in kv.tasks
    ensures kv.tasks[id] == if ok then AfterBump(kv.store, old(kv.tasks[id])) else AfterConflict(old(kv.tasks[id]))
  {
    OthersKeepTask(kv.Sys(), meanwhile, id);
    kv.Others(meanwhile);
    RunAppend(old(kv.Sys()), meanwhile, Commit(id));
    var current := if entry.Some? then entry.value.value else 0;
    ok := kv.CheckAndSet(key, entry, current + 1, ttlMs, id);
    if ok {
      kv.tasks := kv.tasks[id := AfterBump(kv.store, kv.tasks[id])];
    } else {
      kv.tasks := kv.tasks[id := AfterConflict(kv.tasks[id])];
    }
  }

  method BumpBucket(kv: Kv, id: nat, key: Key, max: nat, ttlMs: nat, env: Environment, first: nat)
    returns (ok: bool, next: nat, ghost trace: seq<Step>)
    requires id in kv.tasks && kv.tasks[id].attempt == 0 && AtBucket(kv.tasks[id], key, max, ttlMs)
    requires Foreign(env, id)
    modifies kv
    ensures kv.Sys() == Run(old(kv.Sys()), trace)
    ensures forall step | step in trace :: step in [Read(id), Commit(id)] || exists n: nat :: step in env(n)
    ensures id in kv.tasks && SameCall(old(kv.tasks[id]), kv.tasks[id])
    ensures var t, t' := old(kv.tasks[id]), kv.tasks[id];
            if ok then
              && t'.index == t.index + 1
              && (if t'.index == |t.windows| then t'.phase == Admitted else t'.phase == Reading && t'.attempt == 0)
            else
              && t'.index == t.index
              && t'.phase.Denied?
              && t'.phase.retryAfter == RetryAfter(t.now, t.windows[t.index].windowSec)
  {
    ghost var s0 := kv.Sys();
    trace, next := [], first;
    var attempt := 0;
    while attempt < MAX_ATTEMPTS
      invariant 0 <= attempt <= MAX_ATTEMPTS
      invariant kv.Sys() == Run(s0, trace)
      invariant forall step | step in trace :: step in [Read(id), Commit(id)] || exists n: nat :: step in env(n)
      invariant id in kv.tasks && SameCall(s0.tasks[id], kv.tasks[id])
      invariant kv.tasks[id].index == s0.tasks[id].index
      invariant attempt < MAX_ATTEMPTS ==>
                  kv.tasks[id].attempt == attempt && AtBucket(kv.tasks[id], key, max, ttlMs)
      invariant attempt == MAX_ATTEMPTS ==>
                  && kv.tasks[id].phase.Denied?
                  && kv.tasks[id].phase.retryAfter
                     == RetryAfter(s0.tasks[id].now, s0.tasks[id].windows[s0.tasks[id].index].windowSec)
    {
      ghost var steps := env(next) + [Read(id)];
      RunConcat(s0, trace, steps);
      var entry := AwaitGet(kv, id, key, max, ttlMs, env(next));
      trace, next := trace + steps, next + 1;
      var current := if entry.Some? then entry.value.value else 0;
      if current >= max {
        return false, next, trace;
      }

      steps := env(next) + [Commit(id)];
      RunConcat(s0, trace, steps);
      var committed := AwaitCommit(kv, id, key, entry, ttlMs, env(next));
      trace, next := trace + steps, next + 1;
      if committed {
        return true, next, trace;
      }
      attempt := attempt + 1;
    }
    ok := false;
  }

  /** While the store opens, and the clock reading. */
  method Begin(kv: Kv, id: nat, prefix: string, identity: string, windows: seq<Window>, meanwhile: seq<Step>)
    returns (now: nat)
    requires id !in kv.tasks && forall step | step in meanwhile :: !TakenBy(step, id)
    modifies kv
    ensures kv.Sys() == Run(old(kv.Sys()), meanwhile + [Start(id, prefix, identity, windows)])
    ensures id in kv.tasks && kv.tasks[id] == NewTask(kv.store, prefix, identity, windows)
    ensures now == kv.tasks[id].now && old(kv.store.clockMs) <= kv.tasks[id].startMs
    ensures now * 1000 <= kv.tasks[id].startMs < now * 1000 + 1000
  {
    ghost var s0 := kv.Sys();
    OthersKeepTask(s0, meanwhile, id);
    ClockGrows(s0, meanwhile);
    kv.Others(meanwhile);
    RunAppend(s0, meanwhile, Start(id, prefix, identity, windows));
    now := kv.store.clockMs / 1000;
    kv.tasks := kv.tasks[id := NewTask(kv.store, prefix, identity, windows)];
  }

  /**
   One guarded call. `kv` is null when the store cannot be opened, and the call is waved
   through. Otherwise the execution is a schedule of the protocol in which this call ends in
   the phase that matches the outcome, and an admitted call has bumped the bucket of every one
   of its windows.
   */
  method EnforceRateLimit(
    kv: Kv?, id: nat, prefix: string, identity: string, windows: seq<Window>, env: Environment,
    ghost clockMs: nat, ghost past: seq<Step>)
    returns (r: Outcome, ghost trace: seq<Step>)
    requires kv != null ==> id !in kv.tasks && kv.Sys() == Run(Init(clockMs), past)
    requires Foreign(env, id)
    modifies kv
    ensures kv == null ==> r == Ok
    ensures kv != null ==>
              && kv.Sys() == Run(Init(clockMs), past + trace)
              && Accounted(trace, env, id, prefix, identity, windows)
              && id in kv.tasks
              && kv.tasks[id].prefix == prefix && kv.tasks[id].identity == identity
              && kv.tasks[id].windows == windows
              && old(kv.store.clockMs) <= kv.tasks[id].startMs
              && kv.tasks[id].now * 1000 <= kv.tasks[id].startMs < kv.tasks[id].now * 1000 + 1000
              && (match r
                  case Ok => kv.tasks[id].phase == Admitted
                  case Limited(n) => kv.tasks[id].phase.Denied? && kv.tasks[id].phase.retryAfter == n)
              && (r == Ok ==> forall w | w in windows ::
                    id in Admission.Bumpers(kv.store.log, BucketKey(kv.tasks[id], w)))
  {
    trace := [];
    if kv == null {
      return Ok, [];
    }
    ghost var s0 := kv.Sys();
    var next := 1;
    var now := Begin(kv, id, prefix, identity, windows, env(0));
    trace := env(0) + [Start(id, prefix, identity, windows)];

    r := Ok;
    var i := 0;
    while i < |windows|
      invariant 0 <= i <= |windows|
      invariant kv.Sys() == Run(s0, trace)
      invariant Accounted(trace, env, id, prefix, identity, windows)
      invariant id in kv.tasks
      invariant var t := kv.tasks[id];
                && t.prefix == prefix && t.identity == identity && t.windows == windows && t.now == now
                && old(kv.store.clockMs) <= t.startMs && now * 1000 <= t.startMs < now * 1000 + 1000
                && t.index == i
                && (if i < |windows| then t.phase == Reading && t.attempt == 0 else t.phase == Admitted)
    {
      var w := windows[i];
      var key := Key(prefix, identity, w.windowSec, now / w.windowSec);
      ghost var before := kv.Sys();
      var ok;
      ghost var more;
      ok, next, more := BumpBucket(kv, id, key, w.max, (w.windowSec + TTL_SLACK_SEC) * 1000, env, next);
      RunConcat(s0, trace, more);
      AccountedAppend(trace, more, env, id, prefix, identity, windows);
      trace := trace + more;
      if !ok {
        RunConcat(Init(clockMs), past, trace);
        return Limited(w.windowSec - now % w.windowSec), trace;
      }
      i := i + 1;
    }
    RunConcat(Init(clockMs), past, trace);
    Admission.PaidForRun(clockMs, past + trace);
  }
}
