/**
 The fixed-window rate limiter as a protocol: a shared key-value store with
 versioned, expiring entries, and any number of requests that each run the
 get / check / set loop over their windows.

 A step is one atomic event of the store, of the clock or of one request. `Apply`
 is total and a step that is not enabled changes nothing, so a sequence of steps is
 an arbitrary schedule and a statement about every `steps` is one about every
 interleaving.
 */
module RateLimitMachine {
  import opened Options

  const MAX_ATTEMPTS: nat := 4
  const TTL_SLACK_SEC: nat := 5

  type Seconds = n: nat | n > 0 witness 1

  datatype Window = Window(windowSec: Seconds, max: nat)

  datatype Key = Key(prefix: string, identity: string, windowSec: Seconds, bucket: nat)

  /** `expiresAt` is the first millisecond at which the store may drop the entry. */
  datatype Entry = Entry(value: nat, version: nat, expiresAt: nat)

  /** What happened to the store: a bump that was committed, or an entry that was dropped. */
  datatype Event = Bumped(key: Key, time: nat, owner: nat) | Expired(key: Key)

  datatype Store = Store(clockMs: nat, entries: map<Key, Entry>, nextVersion: nat, log: seq<Event>)

  datatype Cause = Full | Contended

  /** `seen` is the entry a read returned and `mark` the length of the log at that moment. */
  datatype Phase =
    | Reading
    | Committing(seen: Option<Entry>, mark: nat)
    | Admitted
    | Denied(retryAfter: nat, cause: Cause)

  /** One call in progress. `startMs` is the store's clock when it began and `now` its own reading of
      that moment, in seconds; `index` is the window being bumped and
      `base` the length of the log when that window was begun. */
  datatype Task = Task(
    prefix: string, identity: string, windows: seq<Window>, startMs: nat, now: nat,
    index: nat, attempt: nat, base: nat, phase: Phase)

  datatype System = System(store: Store, tasks: map<nat, Task>)

  datatype Step =
    | Tick(ms: nat)
    | Expire(key: Key)
    | Start(id: nat, prefix: string, identity: string, windows: seq<Window>)
    | Read(id: nat)
    | Commit(id: nat)

  function Lookup(store: Store, key: Key): Option<Entry> {
    if key in store.entries then Some(store.entries[key]) else None
  }

  function Count(entry: Option<Entry>): nat {
    if entry.Some? then entry.value.value else 0
  }

  function Version(entry: Option<Entry>): Option<nat> {
    if entry.Some? then Some(entry.value.version) else None
  }

  function BucketKey(t: Task, w: Window): Key {
    Key(t.prefix, t.identity, w.windowSec, t.now / w.windowSec)
  }

  function TtlMs(windowSec: Seconds): nat {
    (windowSec + TTL_SLACK_SEC) * 1000
  }

  function RetryAfter(now: nat, windowSec: Seconds): nat {
    windowSec - now % windowSec
  }

  predicate Active(t: Task) {
    t.phase.Reading? || t.phase.Committing?
  }

  function NewTask(store: Store, prefix: string, identity: string, windows: seq<Window>): Task {
    Task(prefix, identity, windows, store.clockMs, store.clockMs / 1000, 0, 0, |store.log|,
         if windows == [] then Admitted else Reading)
  }

  /** The `kv.get` and the comparison with the maximum. */
  function AfterRead(store: Store, t: Task): Task
    requires t.phase.Reading? && t.index < |t.windows|
  {
    var w := t.windows[t.index];
    var seen := Lookup(store, BucketKey(t, w));
    if Count(seen) >= w.max then
      t.(phase := Denied(RetryAfter(t.now, w.windowSec), Full))
    else
      t.(phase := Committing(seen, |store.log|))
  }

  /** `check(entry)`: the key still has the version that was read. */
  predicate CheckPasses(store: Store, key: Key, seen: Option<Entry>) {
    Version(Lookup(store, key)) == Version(seen)
  }

  /** `set(key, current + 1, { expireIn })`, committed. */
  function Bump(store: Store, key: Key, value: nat, ttlMs: nat, owner: nat): Store {
    store.(
      entries := store.entries[key := Entry(value, store.nextVersion, store.clockMs + ttlMs)],
      nextVersion := store.nextVersion + 1,
      log := store.log + [Bumped(key, store.clockMs, owner)])
  }

  function AfterBump(store: Store, t: Task): Task
    requires t.index < |t.windows|
  {
    if t.index + 1 == |t.windows| then
      t.(index := t.index + 1, phase := Admitted)
    else
      t.(index := t.index + 1, attempt := 0, base := |store.log|, phase := Reading)
  }

  function AfterConflict(t: Task): Task
    requires t.index < |t.windows|
  {
    if t.attempt + 1 == MAX_ATTEMPTS then
      t.(phase := Denied(RetryAfter(t.now, t.windows[t.index].windowSec), Contended))
    else
      t.(attempt := t.attempt + 1, phase := Reading)
  }

  function Apply(s: System, step: Step): System {
    match step
    case Tick(ms) =>
      s.(store := s.store.(clockMs := s.store.clockMs + ms))
    case Expire(key) =>
      if key in s.store.entries && s.store.entries[key].expiresAt <= s.store.clockMs then
        s.(store := s.store.(entries := s.store.entries - {key}, log := s.store.log + [Expired(key)]))
      else s
    case Start(id, prefix, identity, windows) =>
      if id in s.tasks then s
      else s.(tasks := s.tasks[id := NewTask(s.store, prefix, identity, windows)])
    case Read(id) =>
      if id in s.tasks && s.tasks[id].phase.Reading? && s.tasks[id].index < |s.tasks[id].windows| then
        s.(tasks := s.tasks[id := AfterRead(s.store, s.tasks[id])])
      else s
    case Commit(id) =>
      if id in s.tasks && s.tasks[id].phase.Committing? && s.tasks[id].index < |s.tasks[id].windows| then
        var t := s.tasks[id];
        var w := t.windows[t.index];
        var key := BucketKey(t, w);
        if CheckPasses(s.store, key, t.phase.seen) then
          var store := Bump(s.store, key, Count(t.phase.seen) + 1, TtlMs(w.windowSec), id);
          System(store, s.tasks[id := AfterBump(store, t)])
        else
          s.(tasks := s.tasks[id := AfterConflict(t)])
      else s
  }

  function Run(s: System, steps: seq<Step>): System {
    if steps == [] then s else Apply(Run(s, steps[..|steps| - 1]), steps[|steps| - 1])
  }

  lemma RunAppend(s: System, steps: seq<Step>, step: Step)
    ensures Run(s, steps + [step]) == Apply(Run(s, steps), step)
  {
    assert (steps + [step])[..|steps|] == steps;
  }

  lemma {:induction false} RunConcat(s: System, first: seq<Step>, second: seq<Step>)
    ensures Run(s, first + second) == Run(Run(s, first), second)
  {
    if second == [] {
      assert first + second == first;
    } else {
      var before, last := second[..|second| - 1], second[|second| - 1];
      RunConcat(s, first, before);
      RunAppend(s, first + before, last);
      assert first + second == (first + before) + [last];
    }
  }

  function Init(clockMs: nat): System {
    System(Store(clockMs, map[], 0, []), map[])
  }

  // ---------------------------------------------------------------------------
  // What a log records
  // ---------------------------------------------------------------------------

  /** The last millisecond a bump of this bucket may be committed at, plus one:
      five seconds after the bucket's own end. */
  function Deadline(key: Key): nat {
    (key.bucket + 1) * key.windowSec * 1000 + 5_000
  }

  predicate IsBump(e: Event, key: Key) {
    e.Bumped? && e.key == key
  }

  predicate IsTimelyBump(e: Event, key: Key) {
    IsBump(e, key) && e.time < Deadline(key)
  }

  function Bumps(log: seq<Event>, key: Key): nat {
    if log == [] then 0
    else Bumps(log[..|log| - 1], key) + if IsBump(log[|log| - 1], key) then 1 else 0
  }

  function TimelyBumps(log: seq<Event>, key: Key): nat {
    if log == [] then 0
    else TimelyBumps(log[..|log| - 1], key) + if IsTimelyBump(log[|log| - 1], key) then 1 else 0
  }

  function Expiries(log: seq<Event>, key: Key): nat {
    if log == [] then 0
    else Expiries(log[..|log| - 1], key) + if log[|log| - 1] == Expired(key) then 1 else 0
  }

  /** Events of one key from position `from` on: how often its version changed. */
  function ChangesSince(log: seq<Event>, from: nat, key: Key): nat
    requires from <= |log|
    decreases |log|
  {
    if |log| == from then 0
    else ChangesSince(log[..|log| - 1], from, key) + if log[|log| - 1].key == key then 1 else 0
  }

  lemma Appended(log: seq<Event>, e: Event, key: Key)
    ensures Bumps(log + [e], key) == Bumps(log, key) + if IsBump(e, key) then 1 else 0
    ensures TimelyBumps(log + [e], key) == TimelyBumps(log, key) + if IsTimelyBump(e, key) then 1 else 0
    ensures Expiries(log + [e], key) == Expiries(log, key) + if e == Expired(key) then 1 else 0
    ensures forall from: nat | from <= |log| ::
              ChangesSince(log + [e], from, key) == ChangesSince(log, from, key) + if e.key == key then 1 else 0
  {
    assert (log + [e])[..|log|] == log;
  }

  // ---------------------------------------------------------------------------
  // The cap on one bucket
  // ---------------------------------------------------------------------------

  /** No call on this key's prefix and identity uses a larger maximum for its window length. */
  predicate WindowsWithin(prefix: string, identity: string, windows: seq<Window>, key: Key, max: nat) {
    prefix == key.prefix && identity == key.identity ==>
      forall w | w in windows :: w.windowSec == key.windowSec ==> w.max <= max
  }

  predicate StepsWithin(steps: seq<Step>, key: Key, max: nat) {
    forall st | st in steps && st.Start? :: WindowsWithin(st.prefix, st.identity, st.windows, key, max)
  }

  ghost predicate WellFormed(s: System) {
    && (forall key | key in s.store.entries :: s.store.entries[key].version < s.store.nextVersion)
    && (forall id | id in s.tasks :: WellFormedTask(s.store, s.tasks[id]))
  }

  ghost predicate WellFormedTask(store: Store, t: Task) {
    && t.startMs <= store.clockMs
    && t.now * 1000 <= t.startMs < t.now * 1000 + 1000
    && t.base <= |store.log|
    && t.index <= |t.windows|
    && (Active(t) ==> t.index < |t.windows| && t.attempt < MAX_ATTEMPTS)
    && (t.phase.Admitted? ==> t.index == |t.windows|)
    && (t.phase.Denied? ==> t.index < |t.windows|)
    && (t.phase.Committing? ==> SeenIsCurrentIfUnchanged(store, BucketKey(t, t.windows[t.index]), t))
  }

  /** A read in flight: if the version still matches, so does the value; and if the key saw
      no event since the read, the version does still match. */
  ghost predicate SeenIsCurrentIfUnchanged(store: Store, key: Key, t: Task)
    requires t.phase.Committing? && t.index < |t.windows|
  {
    var seen := t.phase.seen;
    && t.base <= t.phase.mark <= |store.log|
    && Count(seen) < t.windows[t.index].max
    && (seen.Some? ==> seen.value.version < store.nextVersion)
    && (seen.Some? && CheckPasses(store, key, seen) ==> Count(Lookup(store, key)) == Count(seen))
    && (ChangesSince(store.log, t.phase.mark, key) == 0 ==> CheckPasses(store, key, seen))
  }

  /** A call's own clock reading is the second in which it began. */
  lemma StartReadsClock(s: System, id: nat, prefix: string, identity: string, windows: seq<Window>)
    requires id !in s.tasks
    ensures var s' := Apply(s, Start(id, prefix, identity, windows));
            && id in s'.tasks && s'.store == s.store
            && s'.tasks[id].startMs == s.store.clockMs
            && s'.tasks[id].now * 1000 <= s.store.clockMs < s'.tasks[id].now * 1000 + 1000
            && s'.tasks[id].prefix == prefix && s'.tasks[id].identity == identity && s'.tasks[id].windows == windows
  {
  }

  /** How a step may change the store: time passes, or the entry of one key is dropped or replaced by one
      of a new version, and the log says so. */
  ghost predicate Moves(before: Store, after: Store) {
    && before.clockMs <= after.clockMs && before.nextVersion <= after.nextVersion
    && (|| (after.log == before.log && after.entries == before.entries)
        || exists e :: after.log == before.log + [e] && OnlyTouches(before, after, e.key))
  }

  ghost predicate OnlyTouches(before: Store, after: Store, touched: Key) {
    && (forall key | key != touched :: Lookup(after, key) == Lookup(before, key))
    && (Lookup(after, touched).Some? ==> Lookup(after, touched).value.version == before.nextVersion)
  }

  lemma StepMoves(s: System, step: Step)
    ensures Moves(s.store, Apply(s, step).store)
  {
    var s' := Apply(s, step);
    if s'.store.log != s.store.log {
      var e := s'.store.log[|s.store.log|];
      assert s'.store.log == s.store.log + [e] && OnlyTouches(s.store, s'.store, e.key);
    }
  }

  /** A call that takes no step itself stays well-formed. */
  lemma OthersStay(before: Store, after: Store, t: Task)
    requires Moves(before, after) && WellFormedTask(before, t)
    ensures WellFormedTask(after, t)
  {
    if after.log != before.log && t.phase.Committing? {
      var e :| after.log == before.log + [e] && OnlyTouches(before, after, e.key);
      Appended(before.log, e, BucketKey(t, t.windows[t.index]));
    }
  }

  lemma WellFormedStep(s: System, step: Step)
    requires WellFormed(s)
    ensures WellFormed(Apply(s, step))
  {
    var s' := Apply(s, step);
    StepMoves(s, step);
    forall id | id in s'.tasks
      ensures WellFormedTask(s'.store, s'.tasks[id])
    {
      if id in s.tasks && s'.tasks[id] == s.tasks[id] {
        OthersStay(s.store, s'.store, s.tasks[id]);
      }
    }
  }

  lemma {:induction false} WellFormedRun(clockMs: nat, steps: seq<Step>)
    ensures WellFormed(Run(Init(clockMs), steps))
  {
    if steps != [] {
      WellFormedRun(clockMs, steps[..|steps| - 1]);
      WellFormedStep(Run(Init(clockMs), steps[..|steps| - 1]), steps[|steps| - 1]);
    }
  }

  /** While the bucket can still be bumped in time, the entry counts every timely bump and
      cannot have been dropped; the stored value never exceeds the maximum, and dropping it
      is the only way to lose bumps. */
  ghost predicate Capped(s: System, key: Key, max: nat) {
    var store := s.store;
    && (forall id | id in s.tasks ::
          WindowsWithin(s.tasks[id].prefix, s.tasks[id].identity, s.tasks[id].windows, key, max))
    && (key in store.entries ==> store.entries[key].expiresAt >= Deadline(key))
    && (store.clockMs < Deadline(key) ==> Count(Lookup(store, key)) == TimelyBumps(store.log, key))
    && TimelyBumps(store.log, key) <= max
    && Count(Lookup(store, key)) <= max
    && Bumps(store.log, key) <= Count(Lookup(store, key)) + max * Expiries(store.log, key)
    && Count(Lookup(store, key)) <= Bumps(store.log, key)
  }

  /** The five seconds of slack in the time-to-live: an entry written by a call whose clock
      reading lies in the bucket outlives the bucket by at least five seconds. */
  lemma TtlCoversBucket(clockMs: nat, now: nat, key: Key)
    requires now * 1000 <= clockMs
    requires key.bucket == now / key.windowSec
    ensures clockMs + TtlMs(key.windowSec) >= Deadline(key)
  {
    assert key.bucket * key.windowSec <= now;
    assert (key.bucket + 1) * key.windowSec == key.bucket * key.windowSec + key.windowSec;
  }

  lemma CappedExpire(s: System, k: Key, key: Key, max: nat)
    requires Capped(s, key, max)
    ensures Capped(Apply(s, Expire(k)), key, max)
  {
    Appended(s.store.log, Expired(k), key);
    OneMore(max, Expiries(s.store.log, key));
  }

  lemma OneMore(max: nat, n: nat)
    ensures max * (n + 1) == max * n + max
  {
  }

  lemma CappedCommit(s: System, id: nat, key: Key, max: nat)
    requires WellFormed(s) && Capped(s, key, max)
    ensures Capped(Apply(s, Commit(id)), key, max)
  {
    var s' := Apply(s, Commit(id));
    if s'.store != s.store {
      var t := s.tasks[id];
      var w := t.windows[t.index];
      var k := BucketKey(t, w);
      Appended(s.store.log, Bumped(k, s.store.clockMs, id), key);
      assert s'.tasks[id].windows == t.windows;
      if k == key {
        TtlCoversBucket(s.store.clockMs, t.now, key);
        assert w in t.windows && w.max <= max;
      }
    }
  }

  lemma CappedStep(s: System, step: Step, key: Key, max: nat)
    requires WellFormed(s) && Capped(s, key, max)
    requires StepsWithin([step], key, max)
    ensures Capped(Apply(s, step), key, max)
  {
    assert step in [step];
    match step
    case Tick(_) =>
    case Read(_) =>
    case Start(_, _, _, _) =>
    case Expire(k) => CappedExpire(s, k, key, max);
    case Commit(id) => CappedCommit(s, id, key, max);
  }

  lemma {:induction false} CappedRun(clockMs: nat, steps: seq<Step>, key: Key, max: nat)
    requires StepsWithin(steps, key, max)
    ensures WellFormed(Run(Init(clockMs), steps)) && Capped(Run(Init(clockMs), steps), key, max)
  {
    if steps != [] {
      var before, last := steps[..|steps| - 1], steps[|steps| - 1];
      CappedRun(clockMs, before, key, max);
      WellFormedStep(Run(Init(clockMs), before), last);
      CappedStep(Run(Init(clockMs), before), last, key, max);
    }
  }

  lemma {:induction false} AllTimely(log: seq<Event>, key: Key)
    requires forall e | e in log && IsBump(e, key) :: e.time < Deadline(key)
    ensures TimelyBumps(log, key) == Bumps(log, key)
  {
    if log != [] {
      AllTimely(log[..|log| - 1], key);
      assert log[|log| - 1] in log;
    }
  }

  /**
   Main result: in every interleaving a bucket takes at most `max` bumps that are committed
   before five seconds past its end, and so at most `max` bumps altogether when all of them
   are. Without that proviso each dropped entry can cost at most another `max`.
   */
  lemma BucketCap(clockMs: nat, steps: seq<Step>, key: Key, max: nat)
    requires StepsWithin(steps, key, max)
    ensures var log := Run(Init(clockMs), steps).store.log;
            && TimelyBumps(log, key) <= max
            && ((forall e | e in log && IsBump(e, key) :: e.time < Deadline(key)) ==> Bumps(log, key) <= max)
            && Bumps(log, key) <= max * (1 + Expiries(log, key))
  {
    CappedRun(clockMs, steps, key, max);
    var s := Run(Init(clockMs), steps);
    if forall e | e in s.store.log && IsBump(e, key) :: e.time < Deadline(key) {
      AllTimely(s.store.log, key);
    }
    assert max * (1 + Expiries(s.store.log, key)) == max + max * Expiries(s.store.log, key);
  }
}
