/**
 What the bucket cap means for callers: how many requests a span of time can admit,
 when a denial is justified, what the retry hint points at, and why the slack in the
 time-to-live cannot be smaller.
 */
module RateLimitAdmission {
  import opened Arithmetic
  import opened Collections
  import opened Options
  import opened RateLimitMachine

  // ---------------------------------------------------------------------------
  // The calls that bumped a bucket
  // ---------------------------------------------------------------------------

  function Bumpers(log: seq<Event>, key: Key): set<nat> {
    set i | 0 <= i < |log| && IsBump(log[i], key) :: log[i].owner
  }

  lemma {:induction false} BumpersAtMostBumps(log: seq<Event>, key: Key)
    ensures |Bumpers(log, key)| <= Bumps(log, key)
  {
    if log != [] {
      var before, last := log[..|log| - 1], log[|log| - 1];
      BumpersAtMostBumps(before, key);
      if IsBump(last, key) {
        assert Bumpers(log, key) == Bumpers(before, key) + {last.owner};
      } else {
        assert Bumpers(log, key) == Bumpers(before, key);
      }
    }
  }

  /** Every window a call is past has a bump of that call in its bucket. */
  ghost predicate PaidFor(s: System) {
    forall id | id in s.tasks ::
      var t := s.tasks[id];
      && t.index <= |t.windows|
      && forall i | 0 <= i < t.index :: id in Bumpers(s.store.log, BucketKey(t, t.windows[i]))
  }

  lemma BumpersGrow(log: seq<Event>, e: Event, key: Key)
    ensures Bumpers(log, key) <= Bumpers(log + [e], key)
    ensures IsBump(e, key) ==> e.owner in Bumpers(log + [e], key)
  {
    forall id | id in Bumpers(log, key)
      ensures id in Bumpers(log + [e], key)
    {
      var i :| 0 <= i < |log| && IsBump(log[i], key) && log[i].owner == id;
      assert (log + [e])[i] == log[i];
    }
    if IsBump(e, key) {
      assert (log + [e])[|log|] == e;
    }
  }

  lemma PaidForTask(s: System, step: Step, id: nat, i: nat)
    requires PaidFor(s)
    requires id in Apply(s, step).tasks
    requires i < Apply(s, step).tasks[id].index <= |Apply(s, step).tasks[id].windows|
    ensures var s', t := Apply(s, step), Apply(s, step).tasks[id];
            id in Bumpers(s'.store.log, BucketKey(t, t.windows[i]))
  {
    var s' := Apply(s, step);
    var t := s'.tasks[id];
    if s'.store.log != s.store.log {
      BumpersGrow(s.store.log, s'.store.log[|s.store.log|], BucketKey(t, t.windows[i]));
    }
    if step.Start? && id !in s.tasks {
    } else {
      assert t.windows == s.tasks[id].windows;
      if i < s.tasks[id].index {
        assert id in Bumpers(s.store.log, BucketKey(s.tasks[id], s.tasks[id].windows[i]));
      }
    }
  }

  lemma PaidForStep(s: System, step: Step)
    requires PaidFor(s) && WellFormed(s)
    ensures PaidFor(Apply(s, step))
  {
    var s' := Apply(s, step);
    WellFormedStep(s, step);
    forall id, i | id in s'.tasks && 0 <= i < s'.tasks[id].index
      ensures id in Bumpers(s'.store.log, BucketKey(s'.tasks[id], s'.tasks[id].windows[i]))
    {
      PaidForTask(s, step, id, i);
    }
  }

  lemma {:induction false} PaidForRun(clockMs: nat, steps: seq<Step>)
    ensures PaidFor(Run(Init(clockMs), steps))
  {
    if steps != [] {
      PaidForRun(clockMs, steps[..|steps| - 1]);
      WellFormedRun(clockMs, steps[..|steps| - 1]);
      PaidForStep(Run(Init(clockMs), steps[..|steps| - 1]), steps[|steps| - 1]);
    }
  }

  // ---------------------------------------------------------------------------
  // Admissions in a span of one window length
  // ---------------------------------------------------------------------------

  predicate UsesWindow(t: Task, windowSec: Seconds) {
    exists w | w in t.windows :: w.windowSec == windowSec
  }

  /** The admitted calls that began in the `windowSec` seconds from `fromMs`, by the store's clock. */
  function AdmittedIn(s: System, prefix: string, identity: string, windowSec: Seconds, fromMs: nat): set<nat> {
    set id | id in s.tasks
             && s.tasks[id].phase.Admitted?
             && s.tasks[id].prefix == prefix && s.tasks[id].identity == identity
             && UsesWindow(s.tasks[id], windowSec)
             && fromMs <= s.tasks[id].startMs < fromMs + windowSec * 1000
  }

  /** The clock readings of calls that begin within `windowSec * 1000` milliseconds. */
  lemma SpanInSeconds(startMs: nat, now: nat, fromMs: nat, windowSec: Seconds)
    requires now * 1000 <= startMs < now * 1000 + 1000
    requires fromMs <= startMs < fromMs + windowSec * 1000
    ensures fromMs / 1000 <= now <= fromMs / 1000 + windowSec
  {
  }

  lemma SpanMeetsTwoBuckets(now: nat, from: nat, windowSec: Seconds)
    requires from <= now <= from + windowSec
    ensures now / windowSec == from / windowSec || now / windowSec == from / windowSec + 1
  {
    var q, r := from / windowSec, from % windowSec;
    assert from == q * windowSec + r;
    var k := now - q * windowSec;
    if k < windowSec {
      DivModUnique(q, k, windowSec);
    } else {
      assert now == (q + 1) * windowSec + (k - windowSec);
      DivModUnique(q + 1, k - windowSec, windowSec);
    }
  }

  lemma AdmittedPaid(s: System, prefix: string, identity: string, windowSec: Seconds, fromMs: nat)
    requires PaidFor(s) && WellFormed(s)
    ensures var b := fromMs / 1000 / windowSec;
            AdmittedIn(s, prefix, identity, windowSec, fromMs)
              <= Bumpers(s.store.log, Key(prefix, identity, windowSec, b))
                 + Bumpers(s.store.log, Key(prefix, identity, windowSec, b + 1))
  {
    var from: nat := fromMs / 1000;
    var b: nat := from / windowSec;
    forall id | id in AdmittedIn(s, prefix, identity, windowSec, fromMs)
      ensures id in Bumpers(s.store.log, Key(prefix, identity, windowSec, b))
                    + Bumpers(s.store.log, Key(prefix, identity, windowSec, b + 1))
    {
      var now := s.tasks[id].now;
      assert WellFormedTask(s.store, s.tasks[id]);
      SpanInSeconds(s.tasks[id].startMs, now, fromMs, windowSec);
      SpanMeetsTwoBuckets(now, from, windowSec);
      AdmittedPays(s, id, windowSec, now / windowSec);
    }
  }

  lemma AdmittedPays(s: System, id: nat, windowSec: Seconds, bucket: nat)
    requires PaidFor(s) && WellFormed(s)
    requires id in s.tasks && s.tasks[id].phase.Admitted? && UsesWindow(s.tasks[id], windowSec)
    requires bucket == s.tasks[id].now / windowSec
    ensures var t := s.tasks[id];
            id in Bumpers(s.store.log, Key(t.prefix, t.identity, windowSec, bucket))
  {
    var t := s.tasks[id];
    assert WellFormedTask(s.store, t);
    var w :| w in t.windows && w.windowSec == windowSec;
    var i :| 0 <= i < |t.windows| && t.windows[i] == w;
    assert id in Bumpers(s.store.log, BucketKey(t, t.windows[i]));
  }

  /**
   Main result: at most `2 * max` of the calls that begin in any span of `windowSec * 1000`
   milliseconds of the store's clock are ever admitted, in every interleaving whose bumps to the two buckets meeting the span are
   committed within five seconds of their bucket's end.
   */
  lemma AdmissionsPerSpan(
    clockMs: nat, steps: seq<Step>, prefix: string, identity: string, windowSec: Seconds, fromMs: nat, max: nat)
    requires StepsWithin(steps, Key(prefix, identity, windowSec, fromMs / 1000 / windowSec), max)
    requires forall e | e in Run(Init(clockMs), steps).store.log && e.Bumped? ::
               (e.key == Key(prefix, identity, windowSec, fromMs / 1000 / windowSec)
                || e.key == Key(prefix, identity, windowSec, fromMs / 1000 / windowSec + 1)) ==> e.time < Deadline(e.key)
    ensures |AdmittedIn(Run(Init(clockMs), steps), prefix, identity, windowSec, fromMs)| <= 2 * max
  {
    var s := Run(Init(clockMs), steps);
    var k0 := Key(prefix, identity, windowSec, fromMs / 1000 / windowSec);
    var k1 := Key(prefix, identity, windowSec, fromMs / 1000 / windowSec + 1);
    assert StepsWithin(steps, k1, max);
    BucketCap(clockMs, steps, k0, max);
    BucketCap(clockMs, steps, k1, max);
    WellFormedRun(clockMs, steps);
    PaidForRun(clockMs, steps);
    AdmittedPaid(s, prefix, identity, windowSec, fromMs);
    BumpersAtMostBumps(s.store.log, k0);
    BumpersAtMostBumps(s.store.log, k1);
    var b0, b1 := Bumpers(s.store.log, k0), Bumpers(s.store.log, k1);
    SubsetSize(AdmittedIn(s, prefix, identity, windowSec, fromMs), b0 + b1);
    assert |b0 + b1| <= |b0| + |b1|;
  }

  // ---------------------------------------------------------------------------
  // Denials
  // ---------------------------------------------------------------------------

  /** Each failed attempt at a window is matched by a change someone else made to its key. */
  ghost predicate AttemptsExplained(store: Store, t: Task) {
    && t.base <= |store.log|
    && (t.phase.Reading? && t.index < |t.windows| ==>
          ChangesSince(store.log, t.base, BucketKey(t, t.windows[t.index])) >= t.attempt)
    && (t.phase.Committing? && t.index < |t.windows| && t.base <= t.phase.mark <= |store.log| ==>
          ChangesSince(store.log, t.base, BucketKey(t, t.windows[t.index]))
            >= t.attempt + ChangesSince(store.log, t.phase.mark, BucketKey(t, t.windows[t.index])))
    && (t.phase.Denied? && t.index < |t.windows| ==>
          var w := t.windows[t.index];
          && t.phase.retryAfter == RetryAfter(t.now, w.windowSec)
          && (if t.phase.cause == Full then Bumps(store.log, BucketKey(t, w)) >= w.max
              else t.attempt + 1 == MAX_ATTEMPTS && ChangesSince(store.log, t.base, BucketKey(t, w)) >= MAX_ATTEMPTS))
  }

  ghost predicate CountsAreBumps(store: Store) {
    forall key | key in store.entries :: store.entries[key].value <= Bumps(store.log, key)
  }

  ghost predicate Explained(s: System) {
    && CountsAreBumps(s.store)
    && forall id | id in s.tasks :: AttemptsExplained(s.store, s.tasks[id])
  }

  lemma {:induction false} NoChangesSinceEnd(log: seq<Event>, key: Key)
    ensures ChangesSince(log, |log|, key) == 0
  {
  }

  lemma ExplainedStoreStep(s: System, step: Step, t: Task)
    requires WellFormed(s) && Explained(s)
    requires WellFormedTask(s.store, t) && AttemptsExplained(s.store, t)
    ensures AttemptsExplained(Apply(s, step).store, t)
  {
    var s' := Apply(s, step);
    if s'.store.log != s.store.log && t.index < |t.windows| {
      Appended(s.store.log, s'.store.log[|s.store.log|], BucketKey(t, t.windows[t.index]));
    }
  }

  lemma ExplainedTaskStep(s: System, step: Step, id: nat)
    requires WellFormed(s) && Explained(s)
    requires id in Apply(s, step).tasks
    ensures AttemptsExplained(Apply(s, step).store, Apply(s, step).tasks[id])
  {
    var s' := Apply(s, step);
    if id in s.tasks && s'.tasks[id] == s.tasks[id] {
      ExplainedStoreStep(s, step, s.tasks[id]);
    } else if step.Start? {
      var t := s'.tasks[id];
      if t.windows != [] {
        NoChangesSinceEnd(s.store.log, BucketKey(t, t.windows[0]));
      }
    } else if step.Read? {
      var t := s.tasks[id];
      NoChangesSinceEnd(s.store.log, BucketKey(t, t.windows[t.index]));
    } else if step.Commit? {
      var t' := s'.tasks[id];
      if s'.store != s.store && t'.index < |t'.windows| {
        NoChangesSinceEnd(s'.store.log, BucketKey(t', t'.windows[t'.index]));
      }
    }
  }

  lemma CountsAreBumpsStep(s: System, step: Step)
    requires WellFormed(s) && CountsAreBumps(s.store)
    ensures CountsAreBumps(Apply(s, step).store)
  {
    if step.Commit? {
      CommitCounts(s, step.id);
    } else if step.Expire? {
      forall key | key in s.store.entries
        ensures Bumps(s.store.log + [Expired(step.key)], key) == Bumps(s.store.log, key)
      {
        Appended(s.store.log, Expired(step.key), key);
      }
    }
  }

  lemma CommitCounts(s: System, id: nat)
    requires WellFormed(s) && CountsAreBumps(s.store)
    ensures CountsAreBumps(Apply(s, Commit(id)).store)
  {
    var s' := Apply(s, Commit(id));
    if s'.store != s.store {
      var t := s.tasks[id];
      var k := BucketKey(t, t.windows[t.index]);
      var e := Bumped(k, s.store.clockMs, id);
      assert s'.store.log == s.store.log + [e];
      forall key | key in s'.store.entries
        ensures s'.store.entries[key].value <= Bumps(s'.store.log, key)
      {
        Appended(s.store.log, e, key);
        assert WellFormedTask(s.store, t);
        assert key != k ==> s'.store.entries[key] == s.store.entries[key];
      }
    }
  }

  lemma {:induction false} ExplainedRun(clockMs: nat, steps: seq<Step>)
    ensures WellFormed(Run(Init(clockMs), steps)) && Explained(Run(Init(clockMs), steps))
  {
    if steps != [] {
      var before, last := Run(Init(clockMs), steps[..|steps| - 1]), steps[|steps| - 1];
      ExplainedRun(clockMs, steps[..|steps| - 1]);
      WellFormedStep(before, last);
      CountsAreBumpsStep(before, last);
      forall id | id in Apply(before, last).tasks {
        ExplainedTaskStep(before, last, id);
      }
    }
  }

  /**
   No call is turned away for nothing: a denied call either found the bucket of the second in which it
   began already paid up to its maximum, or lost its fourth race in a row, each to a different change of
   that very bucket.
   */
  lemma DenialJustified(clockMs: nat, steps: seq<Step>, id: nat)
    requires id in Run(Init(clockMs), steps).tasks
    requires Run(Init(clockMs), steps).tasks[id].phase.Denied?
    ensures var s := Run(Init(clockMs), steps);
            var t := s.tasks[id];
            && t.index < |t.windows|
            && t.base <= |s.store.log|
            && t.now * 1000 <= t.startMs < t.now * 1000 + 1000
            && var w := t.windows[t.index];
               var key := Key(t.prefix, t.identity, w.windowSec, t.now / w.windowSec);
               && (if t.phase.cause == Full then Bumps(s.store.log, key) >= w.max
                   else t.attempt == 3 && ChangesSince(s.store.log, t.base, key) >= 4)
               && 1 <= t.phase.retryAfter <= w.windowSec
               && t.now + t.phase.retryAfter == (t.now / w.windowSec + 1) * w.windowSec
  {
    ExplainedRun(clockMs, steps);
    var s := Run(Init(clockMs), steps);
    var t := s.tasks[id];
    assert WellFormedTask(s.store, t);
    RetryIsNextBucket(t.now, t.windows[t.index].windowSec);
  }

  /** The retry hint is the first second of the next bucket. */
  lemma RetryIsNextBucket(now: nat, windowSec: Seconds)
    ensures 1 <= RetryAfter(now, windowSec) <= windowSec
    ensures now + RetryAfter(now, windowSec) == (now / windowSec + 1) * windowSec
    ensures (now + RetryAfter(now, windowSec)) / windowSec == now / windowSec + 1
    ensures forall earlier | now <= earlier < now + RetryAfter(now, windowSec) ::
              earlier / windowSec == now / windowSec
  {
    var q := now / windowSec;
    assert now == q * windowSec + now % windowSec;
    assert (q + 1) * windowSec == q * windowSec + windowSec;
    DivModUnique(q + 1, 0, windowSec);
    forall earlier | now <= earlier < now + RetryAfter(now, windowSec)
      ensures earlier / windowSec == q
    {
      DivModUnique(q, earlier - q * windowSec, windowSec);
    }
  }

  // ---------------------------------------------------------------------------
  // The slack is tight
  // ---------------------------------------------------------------------------

  /** Two calls of one bucket with maximum 1; the second is held up between its clock reading
      and its store access until five seconds after the bucket's end. */
  function LateSchedule(windowSec: Seconds): seq<Step> {
    var w := [Window(windowSec, 1)];
    var key := Key("p", "u", windowSec, 0);
    [Start(0, "p", "u", w), Start(1, "p", "u", w), Read(0), Commit(0), Tick(Deadline(key)), Expire(key),
     Read(1), Commit(1)]
  }

  lemma RunTwo(s: System, a: Step, b: Step)
    ensures Run(s, [a, b]) == Apply(Apply(s, a), b)
  {
    RunAppend(s, [], a);
    RunAppend(s, [a], b);
    assert [] + [a] == [a] && [a] + [b] == [a, b];
  }

  /** The deadline cannot be moved: for every window length there is a schedule in which the one
      late bump is committed exactly at the deadline and the bucket takes two bumps of a maximum
      of one. */
  lemma SlackIsTight(windowSec: Seconds)
    ensures var key := Key("p", "u", windowSec, 0);
            var log := Run(Init(0), LateSchedule(windowSec)).store.log;
            && StepsWithin(LateSchedule(windowSec), key, 1)
            && Bumps(log, key) == 2
            && forall e | e in log && IsBump(e, key) :: e.time <= windowSec * 1000 + 5_000
  {
    var key := Key("p", "u", windowSec, 0);
    var d := Deadline(key);
    var steps := LateSchedule(windowSec);
    LateScheduleLog(windowSec);
    var e0, e1, e2 := Bumped(key, 0, 0), Expired(key), Bumped(key, d, 1);
    Appended([], e0, key);
    Appended([e0], e1, key);
    Appended([e0, e1], e2, key);
    assert [e0, e1, e2] == [e0, e1] + [e2] && [e0, e1] == [e0] + [e1] && [e0] == [] + [e0];
  }

  function LateTask(windowSec: Seconds): Task {
    Task("p", "u", [Window(windowSec, 1)], 0, 0, 0, 0, 0, Reading)
  }

  function LateBegun(windowSec: Seconds): System {
    System(Init(0).store, map[0 := LateTask(windowSec), 1 := LateTask(windowSec)])
  }

  function LateFirstIn(windowSec: Seconds): System {
    var key := Key("p", "u", windowSec, 0);
    System(Store(0, map[key := Entry(1, 0, Deadline(key))], 1, [Bumped(key, 0, 0)]),
           map[0 := LateTask(windowSec).(index := 1, phase := Admitted), 1 := LateTask(windowSec)])
  }

  function LateDropped(windowSec: Seconds): System {
    var key := Key("p", "u", windowSec, 0);
    System(Store(Deadline(key), map[], 1, [Bumped(key, 0, 0), Expired(key)]), LateFirstIn(windowSec).tasks)
  }

  lemma LateScheduleLog(windowSec: Seconds)
    ensures var key := Key("p", "u", windowSec, 0);
            Run(Init(0), LateSchedule(windowSec)).store.log
              == [Bumped(key, 0, 0), Expired(key), Bumped(key, Deadline(key), 1)]
  {
    var steps := LateSchedule(windowSec);
    var s0 := Init(0);
    LateBegins(windowSec);
    LateFirstBump(windowSec);
    LateDrop(windowSec);
    LateSecondBump(windowSec);
    var p0, p1, p2, p3 := steps[..2], steps[2..4], steps[4..6], steps[6..];
    assert steps == ((p0 + p1) + p2) + p3;
    RunConcat(s0, p0, p1);
    RunConcat(s0, p0 + p1, p2);
    RunConcat(s0, (p0 + p1) + p2, p3);
  }

  lemma LateBegins(windowSec: Seconds)
    ensures Run(Init(0), LateSchedule(windowSec)[..2]) == LateBegun(windowSec)
  {
    var steps := LateSchedule(windowSec);
    RunTwo(Init(0), steps[0], steps[1]);
    assert steps[..2] == [steps[0], steps[1]];
  }

  lemma LateFirstBump(windowSec: Seconds)
    ensures Run(LateBegun(windowSec), LateSchedule(windowSec)[2..4]) == LateFirstIn(windowSec)
  {
    var key := Key("p", "u", windowSec, 0);
    var t := LateTask(windowSec);
    var steps := LateSchedule(windowSec);
    RunTwo(LateBegun(windowSec), steps[2], steps[3]);
    assert steps[2..4] == [steps[2], steps[3]];
    assert BucketKey(t, t.windows[0]) == key;
    assert TtlMs(windowSec) == Deadline(key);
    var s := Apply(LateBegun(windowSec), Read(0));
    assert s.tasks[0] == t.(phase := Committing(None, 0));
    assert BucketKey(s.tasks[0], t.windows[0]) == key;
  }

  lemma LateDrop(windowSec: Seconds)
    ensures Run(LateFirstIn(windowSec), LateSchedule(windowSec)[4..6]) == LateDropped(windowSec)
  {
    var steps := LateSchedule(windowSec);
    RunTwo(LateFirstIn(windowSec), steps[4], steps[5]);
    assert steps[4..6] == [steps[4], steps[5]];
    var key := Key("p", "u", windowSec, 0);
    assert LateFirstIn(windowSec).store.entries - {key} == map[];
  }

  lemma LateSecondBump(windowSec: Seconds)
    ensures var key := Key("p", "u", windowSec, 0);
            Run(LateDropped(windowSec), LateSchedule(windowSec)[6..]).store.log
              == [Bumped(key, 0, 0), Expired(key), Bumped(key, Deadline(key), 1)]
  {
    var key := Key("p", "u", windowSec, 0);
    var t := LateTask(windowSec);
    var steps := LateSchedule(windowSec);
    RunTwo(LateDropped(windowSec), steps[6], steps[7]);
    assert steps[6..] == [steps[6], steps[7]];
    assert BucketKey(t, t.windows[0]) == key;
    var s := Apply(LateDropped(windowSec), Read(1));
    assert s.tasks[1] == t.(phase := Committing(None, 2));
    assert BucketKey(s.tasks[1], t.windows[0]) == key;
  }
}
