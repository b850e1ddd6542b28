/** Any number of review tasks over one store: claim, review, release on an exception, retry. */
module ClaimProtocol {
  import opened IdempotencyStore

  const MAX_RETRIES: nat := 3

  /** Where one task is. `since` is the time of the claim. */
  datatype Phase =
    | Ready                       // queued, or queued again for a retry
    | Reviewing(since: int)       // inside review_code
    | Raised(since: int)          // review_code raised, the claim is not released yet
    | Reviewed                    // review_code returned; publishing and notifying follow
    | Completed
    | Skipped                     // the commit was already claimed
    | DeadLettered                // failed with no retry left
    | Crashed                     // the worker died; a redelivery is a new Enqueue

  datatype Task = Task(key: Key, phase: Phase, retries: nat)

  /** `successes` lists the keys whose review returned, in order, with the time of the claim;
      `lost` has the keys that a worker held when it died. */
  datatype System = System(
    ttl: int,
    now: int,
    keys: map<Key, int>,
    tasks: map<nat, Task>,
    successes: seq<(Key, int)>,
    lost: set<Key>)

  datatype Event =
    | Enqueue(task: nat, key: Key)
    | Claim(task: nat)
    | ReviewReturns(task: nat)
    | ReviewRaises(task: nat)
    | Release(task: nat)
    | Finish(task: nat)
    | LateFailure(task: nat)
    | Crash(task: nat)
    | Tick(seconds: nat)

  /** Waiting, so nothing of the task is under way in a worker. */
  predicate Idle(p: Phase) {
    p.Ready? || p.Completed? || p.Skipped? || p.DeadLettered? || p.Crashed?
  }

  predicate Enabled(s: System, e: Event) {
    match e
    case Enqueue(t, _) => t !in s.tasks
    case Claim(t) => t in s.tasks && s.tasks[t].phase.Ready?
    case ReviewReturns(t) => t in s.tasks && s.tasks[t].phase.Reviewing?
    case ReviewRaises(t) => t in s.tasks && s.tasks[t].phase.Reviewing?
    case Release(t) => t in s.tasks && s.tasks[t].phase.Raised?
    case Finish(t) => t in s.tasks && s.tasks[t].phase.Reviewed?
    case LateFailure(t) => t in s.tasks && s.tasks[t].phase.Reviewed?
    case Crash(t) => t in s.tasks && !Idle(s.tasks[t].phase)
    case Tick(_) => true
  }

  /** Every task that is not at its end can go on, and its worker can die whenever it is at work. */
  lemma NobodyIsStuck(s: System, t: nat)
    requires t in s.tasks
    ensures var p := s.tasks[t].phase;
      && (p.Ready? <==> Enabled(s, Claim(t)))
      && (p.Reviewing? <==> Enabled(s, ReviewReturns(t)) && Enabled(s, ReviewRaises(t)))
      && (p.Raised? <==> Enabled(s, Release(t)))
      && (p.Reviewed? <==> Enabled(s, Finish(t)) && Enabled(s, LateFailure(t)))
      && (Enabled(s, Crash(t)) <==> p.Reviewing? || p.Raised? || p.Reviewed?)
  {
  }

  function SetPhase(s: System, t: nat, phase: Phase): System
    requires t in s.tasks
  {
    s.(tasks := s.tasks[t := s.tasks[t].(phase := phase)])
  }

  /** After a failure the task is queued again, at most `MAX_RETRIES` times. */
  function Retried(task: Task): Task {
    if task.retries < MAX_RETRIES then Task(task.key, Ready, task.retries + 1)
    else task.(phase := DeadLettered)
  }

  /** The task claimed its key and neither finished the review nor gave the claim back. */
  predicate Holds(p: Phase) {
    p.Reviewing? || p.Raised?
  }

  function Step(s: System, e: Event): System
    requires Enabled(s, e)
  {
    match e
    case Enqueue(t, key) => s.(tasks := s.tasks[t := Task(key, Ready, 0)])
    case Claim(t) =>
      var key := s.tasks[t].key;
      if Live(s.keys, key, s.now) then SetPhase(s, t, Skipped)
      else SetPhase(s.(keys := Claimed(s.keys, key, s.now, s.ttl)), t, Reviewing(s.now))
    case ReviewReturns(t) =>
      SetPhase(s.(successes := s.successes + [(s.tasks[t].key, s.tasks[t].phase.since)]), t, Reviewed)
    case ReviewRaises(t) => SetPhase(s, t, Raised(s.tasks[t].phase.since))
    case Release(t) =>
      var task := s.tasks[t];
      s.(keys := Released(s.keys, task.key), tasks := s.tasks[t := Retried(task)])
    case Finish(t) => SetPhase(s, t, Completed)
    case LateFailure(t) => s.(tasks := s.tasks[t := Retried(s.tasks[t])])
    case Crash(t) =>
      var task := s.tasks[t];
      SetPhase(if Holds(task.phase) then s.(lost := s.lost + {task.key}) else s, t, Crashed)
    case Tick(seconds) => s.(now := s.now + seconds)
  }

  function Start(ttl: int): System {
    System(ttl, 0, map[], map[], [], {})
  }

  ghost function After(s: System, es: seq<Event>): System {
    if es == [] then s
    else
      var before := After(s, es[..|es| - 1]);
      if Enabled(before, es[|es| - 1]) then Step(before, es[|es| - 1]) else before
  }

  ghost predicate Runs(s: System, es: seq<Event>) {
    es == [] || (Runs(s, es[..|es| - 1]) && Enabled(After(s, es[..|es| - 1]), es[|es| - 1]))
  }

  // ----- Who has the claim -----

  ghost predicate HeldBy(s: System, key: Key, t: nat) {
    t in s.tasks && s.tasks[t].key == key && Holds(s.tasks[t].phase)
  }

  ghost predicate Held(s: System, key: Key) {
    exists t :: HeldBy(s, key, t)
  }

  function Successes(log: seq<(Key, int)>, key: Key): nat {
    if log == [] then 0
    else Successes(log[..|log| - 1], key) + if log[|log| - 1].0 == key then 1 else 0
  }

  /** At most one task per commit is between its claim and the end of its review. */
  ghost predicate MutualExclusion(s: System) {
    forall key, t, u :: HeldBy(s, key, t) && HeldBy(s, key, u) ==> t == u
  }

  // ----- Without expiry -----

  /** No key expires in the run: the clock stays below every expiry time. */
  ghost predicate NothingExpired(s: System) {
    forall key | key in s.keys :: s.now < s.keys[key]
  }

  ghost predicate NeverExpires(s: System, es: seq<Event>) {
    forall i | 0 <= i <= |es| :: NothingExpired(After(s, es[..i]))
  }

  /** The review of the task has returned. */
  predicate Done(p: Phase) {
    p.Reviewed? || p.Completed?
  }

  ghost predicate DoneBy(s: System, key: Key, t: nat) {
    t in s.tasks && s.tasks[t].key == key && Done(s.tasks[t].phase)
  }

  /** Whoever is done is in the log of successes, and is the only one of its commit. */
  ghost predicate DoneOnce(s: System) {
    && (forall key, t :: DoneBy(s, key, t) ==> Successes(s.successes, key) > 0)
    && (forall key, t, u :: DoneBy(s, key, t) && DoneBy(s, key, u) ==> t == u)
  }

  ghost predicate ClaimAccounted(s: System, key: Key) {
    && (key in s.keys <==> Held(s, key) || Successes(s.successes, key) > 0 || key in s.lost)
    && Successes(s.successes, key) <= 1
    && (Held(s, key) ==> Successes(s.successes, key) == 0 && key !in s.lost)
    && !(Successes(s.successes, key) > 0 && key in s.lost)
  }

  /** A key is present exactly when one task holds it, or its review has succeeded, or a worker
      died with it; and these three exclude each other, with one success at the most. */
  ghost predicate ClaimInvariant(s: System) {
    && MutualExclusion(s)
    && (forall key :: ClaimAccounted(s, key))
    && DoneOnce(s)
  }

  lemma StartIsAccounted(ttl: int)
    ensures ClaimInvariant(Start(ttl))
  {
  }

  /** A holder after a step held the key before, or has claimed it just now, when it was free. */
  lemma HolderAfterStep(s: System, e: Event, key: Key, t: nat)
    requires Enabled(s, e) && NothingExpired(s) && HeldBy(Step(s, e), key, t)
    requires ClaimAccounted(s, key)
    ensures HeldBy(s, key, t) || (e == Claim(t) && !Held(s, key))
  {
  }

  lemma StepKeepsExclusion(s: System, e: Event)
    requires MutualExclusion(s) && NothingExpired(s) && Enabled(s, e)
    requires forall key :: ClaimAccounted(s, key)
    ensures MutualExclusion(Step(s, e))
  {
    hide ClaimAccounted, Step, NothingExpired, HeldBy;
    var next := Step(s, e);
    forall key, t, u | HeldBy(next, key, t) && HeldBy(next, key, u) ensures t == u {
      assert ClaimAccounted(s, key);
      HolderAfterStep(s, e, key, t);
      HolderAfterStep(s, e, key, u);
    }
  }

  lemma SuccessesAfterStep(s: System, e: Event, key: Key)
    requires Enabled(s, e)
    ensures Successes(Step(s, e).successes, key)
            == Successes(s.successes, key) + if e.ReviewReturns? && s.tasks[e.task].key == key then 1 else 0
  {
    if e.ReviewReturns? {
      var entry := (s.tasks[e.task].key, s.tasks[e.task].phase.since);
      assert (s.successes + [entry])[..|s.successes|] == s.successes;
    }
  }

  lemma HolderHolds(s: System, t: nat)
    requires t in s.tasks
    ensures Holds(s.tasks[t].phase) ==> Held(s, s.tasks[t].key)
  {
    assert Holds(s.tasks[t].phase) ==> HeldBy(s, s.tasks[t].key, t);
  }

  /** Whoever is done after a step was done before, or its review has returned just now, as the
      first one of its commit. */
  lemma DoneAfterStep(s: System, e: Event, key: Key, t: nat)
    requires Enabled(s, e) && DoneBy(Step(s, e), key, t) && ClaimAccounted(s, key)
    ensures DoneBy(s, key, t) || (e == ReviewReturns(t) && Successes(s.successes, key) == 0)
    ensures Successes(Step(s, e).successes, key)
            == Successes(s.successes, key) + if e.ReviewReturns? && s.tasks[e.task].key == key then 1 else 0
    ensures e == ReviewReturns(t) ==> s.tasks[t].key == key
  {
    hide Successes, Held;
    SuccessesAfterStep(s, e, key);
    if e == ReviewReturns(t) {
      HolderHolds(s, t);
    }
  }

  lemma StepKeepsDone(s: System, e: Event)
    requires DoneOnce(s) && Enabled(s, e) && forall key :: ClaimAccounted(s, key)
    ensures DoneOnce(Step(s, e))
  {
    hide ClaimAccounted, Step, Successes, DoneBy;
    var next := Step(s, e);
    forall key, t | DoneBy(next, key, t) ensures Successes(next.successes, key) > 0 {
      assert ClaimAccounted(s, key);
      DoneAfterStep(s, e, key, t);
    }
    forall key, t, u | DoneBy(next, key, t) && DoneBy(next, key, u) ensures t == u {
      assert ClaimAccounted(s, key);
      DoneAfterStep(s, e, key, t);
      DoneAfterStep(s, e, key, u);
    }
  }

  /** Held before, or claimed now; and not given up now. */
  ghost predicate HeldNext(s: System, e: Event, key: Key)
    requires Enabled(s, e)
  {
    match e
    case Claim(t) => Held(s, key) || (s.tasks[t].key == key && !Live(s.keys, key, s.now))
    case ReviewReturns(t) => Held(s, key) && s.tasks[t].key != key
    case Release(t) => Held(s, key) && s.tasks[t].key != key
    case Crash(t) => Held(s, key) && !(s.tasks[t].key == key && Holds(s.tasks[t].phase))
    case _ => Held(s, key)
  }

  /** Who holds a key after a step is known from before it. */
  lemma HeldAfterStep(s: System, e: Event, key: Key)
    requires Enabled(s, e) && NothingExpired(s) && MutualExclusion(s)
    ensures Held(Step(s, e), key) <==> HeldNext(s, e, key)
  {
    var next := Step(s, e);
    if t :| HeldBy(s, key, t) {
      if HeldNext(s, e, key) {
        assert HeldBy(next, key, t);
      }
    }
    if HeldNext(s, e, key) && !Held(s, key) {
      assert HeldBy(next, key, e.task);
    }
    if u :| HeldBy(next, key, u) {
      assert HeldBy(s, key, u) || e == Claim(u);
      if e.ReviewReturns? || e.Release? || e.Crash? {
        assert Holds(s.tasks[e.task].phase) ==> HeldBy(s, s.tasks[e.task].key, e.task);
      }
    }
  }

  lemma LiveIsPresent(s: System, key: Key)
    requires NothingExpired(s)
    ensures Live(s.keys, key, s.now) <==> key in s.keys
  {
  }

  lemma KeyAfterStep(s: System, e: Event, key: Key)
    requires Enabled(s, e) && NothingExpired(s) && MutualExclusion(s) && ClaimAccounted(s, key)
    ensures ClaimAccounted(Step(s, e), key)
  {
    hide MutualExclusion, Held, Successes;
    HeldAfterStep(s, e, key);
    SuccessesAfterStep(s, e, key);
    match e
    case Claim(t) =>
      LiveIsPresent(s, key);
      hide NothingExpired, Live;
    case ReviewReturns(t) =>
      HolderHolds(s, t);
      hide NothingExpired;
    case Release(t) =>
      HolderHolds(s, t);
      hide NothingExpired;
    case Crash(t) =>
      HolderHolds(s, t);
      hide NothingExpired;
    case _ =>
      hide NothingExpired;
  }

  lemma StepKeepsClaims(s: System, e: Event)
    requires ClaimInvariant(s) && NothingExpired(s) && Enabled(s, e)
    ensures ClaimInvariant(Step(s, e))
  {
    hide ClaimAccounted, Step, NothingExpired, HeldBy, DoneOnce;
    var next := Step(s, e);
    forall key ensures ClaimAccounted(next, key) {
      assert ClaimAccounted(s, key);
      KeyAfterStep(s, e, key);
    }
    StepKeepsExclusion(s, e);
    StepKeepsDone(s, e);
  }

  lemma AfterPrefix(s: System, es: seq<Event>, i: nat)
    requires i < |es| && Runs(s, es)
    ensures Runs(s, es[..i]) && Enabled(After(s, es[..i]), es[i])
    ensures After(s, es[..i + 1]) == Step(After(s, es[..i]), es[i])
    decreases |es|
  {
    if i == |es| - 1 {
      assert es[..i + 1] == es;
    } else {
      var front := es[..|es| - 1];
      AfterPrefix(s, front, i);
      assert front[..i] == es[..i] && front[..i + 1] == es[..i + 1];
    }
  }

  lemma RunNothing(s: System)
    ensures Runs(s, []) && After(s, []) == s
  {
  }

  lemma RunSnoc(s: System, es: seq<Event>, e: Event)
    ensures After(s, es + [e])
      == if Enabled(After(s, es), e) then Step(After(s, es), e) else After(s, es)
    ensures Runs(s, es + [e]) <==> Runs(s, es) && Enabled(After(s, es), e)
  {
    assert (es + [e])[..|es|] == es;
  }

  /** One more step of a run that is written out. */
  lemma OneMoreStep(s: System, es: seq<Event>, e: Event, before: System, after: System)
    returns (more: seq<Event>)
    requires Runs(s, es) && After(s, es) == before
    requires Enabled(before, e) && Step(before, e) == after
    ensures more == es + [e] && Runs(s, more) && After(s, more) == after
    ensures NeverExpires(s, es) && NothingExpired(after) ==> NeverExpires(s, more)
  {
    hide Runs, After, Enabled, Step, NothingExpired;
    RunSnoc(s, es, e);
    more := es + [e];
    forall i | 0 <= i <= |more|
      ensures NeverExpires(s, es) && NothingExpired(after) ==> NothingExpired(After(s, more[..i]))
    {
      if i <= |es| {
        assert more[..i] == es[..i];
      } else {
        assert more[..i] == more;
      }
    }
  }

  lemma NeverExpiresPrefix(s: System, es: seq<Event>, n: nat)
    requires NeverExpires(s, es) && n <= |es|
    ensures NeverExpires(s, es[..n]) && NothingExpired(After(s, es[..n]))
  {
    hide NothingExpired, After;
    forall i | 0 <= i <= n ensures NothingExpired(After(s, es[..n][..i])) {
      assert es[..n][..i] == es[..i];
    }
  }

  /** In every interleaving of any number of tasks in which no key expires: at most one task per
      commit is inside the review, a review succeeds at most once per commit, and a key is free
      exactly when no task is reviewing, none has succeeded and none has died holding it. */
  lemma {:induction false} ClaimsAreExact(ttl: int, es: seq<Event>)
    requires Runs(Start(ttl), es) && NeverExpires(Start(ttl), es)
    ensures ClaimInvariant(After(Start(ttl), es))
  {
    hide ClaimInvariant, NothingExpired, Step;
    if es == [] {
      StartIsAccounted(ttl);
    } else {
      var n := |es| - 1;
      var front := es[..n];
      AfterPrefix(Start(ttl), es, n);
      assert es[..n + 1] == es;
      NeverExpiresPrefix(Start(ttl), es, n);
      ClaimsAreExact(ttl, front);
      StepKeepsClaims(After(Start(ttl), front), es[n]);
    }
  }

  /** Whatever fails, no task is started more often than once and `MAX_RETRIES` times again. */
  lemma {:induction false} RetriesAreBounded(ttl: int, es: seq<Event>)
    requires Runs(Start(ttl), es)
    ensures forall t | t in After(Start(ttl), es).tasks ::
      After(Start(ttl), es).tasks[t].retries <= MAX_RETRIES
  {
    if es != [] {
      var n := |es| - 1;
      AfterPrefix(Start(ttl), es, n);
      assert es[..n + 1] == es;
      RetriesAreBounded(ttl, es[..n]);
    }
  }

  /** How often the task has failed: its review raised, or a later step did. */
  ghost function FailureCount(es: seq<Event>, t: nat): nat {
    if es == [] then 0
    else FailureCount(es[..|es| - 1], t)
         + if es[|es| - 1] == Release(t) || es[|es| - 1] == LateFailure(t) then 1 else 0
  }

  lemma CountStep(s: System, e: Event, t: nat)
    requires Enabled(s, e) && t in s.tasks
    requires s.tasks[t].retries <= 3 && (s.tasks[t].phase.DeadLettered? ==> s.tasks[t].retries == 3)
    ensures var was, now := s.tasks[t], Step(s, e).tasks[t];
      && now.retries <= 3 && (now.phase.DeadLettered? ==> now.retries == 3)
      && now.retries + (if now.phase.DeadLettered? then 1 else 0)
         == was.retries + (if was.phase.DeadLettered? then 1 else 0)
            + if e == Release(t) || e == LateFailure(t) then 1 else 0
  {
  }

  lemma {:induction false} RetriesCountFailures(ttl: int, es: seq<Event>, t: nat)
    requires Runs(Start(ttl), es)
    ensures var tasks := After(Start(ttl), es).tasks;
      if t !in tasks then FailureCount(es, t) == 0
      else
        && FailureCount(es, t) == tasks[t].retries + (if tasks[t].phase.DeadLettered? then 1 else 0)
        && tasks[t].retries <= 3 && (tasks[t].phase.DeadLettered? ==> tasks[t].retries == 3)
  {
    if es != [] {
      var n := |es| - 1;
      AfterPrefix(Start(ttl), es, n);
      assert es[..n + 1] == es;
      RetriesCountFailures(ttl, es[..n], t);
      if t in After(Start(ttl), es[..n]).tasks {
        CountStep(After(Start(ttl), es[..n]), es[n], t);
      }
    }
  }

  /** A task is given up if and only if it has failed four times; after each failure before that it
      is queued again. */
  lemma GivenUpExactlyWhen(ttl: int, es: seq<Event>, t: nat)
    requires Runs(Start(ttl), es) && t in After(Start(ttl), es).tasks
    ensures FailureCount(es, t) <= 4
    ensures After(Start(ttl), es).tasks[t].phase.DeadLettered? <==> FailureCount(es, t) == 4
    ensures es != [] && (es[|es| - 1] == Release(t) || es[|es| - 1] == LateFailure(t)) ==>
      After(Start(ttl), es).tasks[t].phase == if FailureCount(es, t) < 4 then Ready else DeadLettered
  {
    hide FailureCount;
    RetriesCountFailures(ttl, es, t);
    if es != [] {
      var n := |es| - 1;
      AfterPrefix(Start(ttl), es, n);
      assert es[..n + 1] == es;
    }
  }

  // ----- A claim that died with its worker -----

  lemma LostGrows(s: System, e: Event)
    requires Enabled(s, e)
    ensures s.lost <= Step(s, e).lost
  {
  }

  /** A claim that a worker held when it died is never given back. */
  lemma {:induction false} LostStaysLost(s: System, es: seq<Event>, i: nat)
    requires Runs(s, es) && i <= |es|
    ensures After(s, es[..i]).lost <= After(s, es).lost
  {
    hide Enabled;
    if i == |es| {
      assert es[..i] == es;
    } else {
      var n := |es| - 1;
      AfterPrefix(s, es, n);
      assert es[..n + 1] == es && es[..n][..i] == es[..i];
      LostStaysLost(s, es[..n], i);
      LostGrows(After(s, es[..n]), es[n]);
    }
  }

  /** The queue delivers a job again when its worker dies, but the claim of that worker stays: as
      long as it does not expire, nobody holds the commit, no review of it has succeeded, and every
      task that claims it, the redelivered one included, is skipped. */
  lemma CrashLosesCommit(ttl: int, es: seq<Event>, i: nat, key: Key)
    requires Runs(Start(ttl), es) && NeverExpires(Start(ttl), es) && i <= |es|
    requires key in After(Start(ttl), es[..i]).lost
    ensures var s := After(Start(ttl), es);
      && !Held(s, key) && Successes(s.successes, key) == 0
      && forall t | Enabled(s, Claim(t)) && s.tasks[t].key == key ::
           Step(s, Claim(t)) == SetPhase(s, t, Skipped)
  {
    hide Runs, After, Held, Successes, MutualExclusion, DoneOnce;
    var s := After(Start(ttl), es);
    LostStaysLost(Start(ttl), es, i);
    ClaimsAreExact(ttl, es);
    NeverExpiresPrefix(Start(ttl), es, |es|);
    assert es[..|es|] == es;
    assert ClaimAccounted(s, key);
    LiveIsPresent(s, key);
  }

  lemma NothingExpiresAtStart(ttl: int)
    ensures NeverExpires(Start(ttl), [])
  {
  }

  lemma CrashedRun(ttl: int, key: Key) returns (s: System, es: seq<Event>, end: System)
    requires ttl > 0
    ensures s == Start(ttl) && es == [Enqueue(0, key), Claim(0), Crash(0)]
    ensures Runs(s, es) && NeverExpires(s, es) && After(s, es) == end
    ensures end == System(ttl, 0, map[key := ttl], map[0 := Task(key, Crashed, 0)], [], {key})
  {
    hide After, Runs, NeverExpires;
    s := Start(ttl);
    var s0 := System(ttl, 0, map[], map[0 := Task(key, Ready, 0)], [], {});
    var s1 := System(ttl, 0, map[key := ttl], map[0 := Task(key, Reviewing(0), 0)], [], {});
    end := System(ttl, 0, map[key := ttl], map[0 := Task(key, Crashed, 0)], [], {key});
    RunNothing(s);
    NothingExpiresAtStart(ttl);
    var e0 := OneMoreStep(s, [], Enqueue(0, key), s, s0);
    var e1 := OneMoreStep(s, e0, Claim(0), s0, s1);
    es := OneMoreStep(s, e1, Crash(0), s1, end);
  }

  /** Such a run: the worker dies in the review, and the job that is delivered again is skipped. */
  lemma RedeliveryIsSkipped(ttl: int, key: Key)
    requires ttl > 0
    ensures var es := [Enqueue(0, key), Claim(0), Crash(0), Enqueue(1, key), Claim(1)];
      && Runs(Start(ttl), es) && NeverExpires(Start(ttl), es)
      && key in After(Start(ttl), es[..3]).lost
      && After(Start(ttl), es).tasks == map[0 := Task(key, Crashed, 0), 1 := Task(key, Skipped, 0)]
  {
    hide After, Runs, NeverExpires;
    var s, e2, s2 := CrashedRun(ttl, key);
    var dead := Task(key, Crashed, 0);
    var s3 := s2.(tasks := map[0 := dead, 1 := Task(key, Ready, 0)]);
    var s4 := s2.(tasks := map[0 := dead, 1 := Task(key, Skipped, 0)]);
    var e3 := OneMoreStep(s, e2, Enqueue(1, key), s2, s3);
    var e4 := OneMoreStep(s, e3, Claim(1), s3, s4);
    assert e4[..3] == e2;
    assert e4 == [Enqueue(0, key), Claim(0), Crash(0), Enqueue(1, key), Claim(1)];
  }

  // ----- One task per file, one claim per commit -----

  /** The tasks of one commit; the claim does not tell their files apart. */
  ghost function TasksOf(s: System, key: Key): set<nat> {
    set t | t in s.tasks && s.tasks[t].key == key
  }

  ghost predicate AllComplete(s: System, key: Key) {
    forall t | t in TasksOf(s, key) :: s.tasks[t].phase.Completed?
  }

  /** Of all tasks of a commit at most one completes, so all of them complete only if there is
      no second one. */
  lemma OnlyOneCompletes(ttl: int, es: seq<Event>, key: Key)
    requires Runs(Start(ttl), es) && NeverExpires(Start(ttl), es)
    ensures var s := After(Start(ttl), es);
      && (forall t, u | t in TasksOf(s, key) && u in TasksOf(s, key)
                        && s.tasks[t].phase.Completed? && s.tasks[u].phase.Completed? :: t == u)
      && (AllComplete(s, key) ==> |TasksOf(s, key)| <= 1)
  {
    hide Runs, NeverExpires, After, ClaimAccounted;
    ClaimsAreExact(ttl, es);
    var s := After(Start(ttl), es);
    var tasks := TasksOf(s, key);
    assert forall t | t in tasks && s.tasks[t].phase.Completed? :: DoneBy(s, key, t);
    if AllComplete(s, key) && tasks != {} {
      var t :| t in tasks;
      assert forall u | u in tasks :: DoneBy(s, key, u) && u == t;
      assert tasks == {t};
    }
  }

  /** No review raises, no later step fails and no worker dies. */
  ghost predicate Smooth(es: seq<Event>) {
    forall i | 0 <= i < |es| :: !es[i].ReviewRaises? && !es[i].LateFailure? && !es[i].Crash?
  }

  predicate SmoothPhase(p: Phase) {
    p.Ready? || p.Reviewing? || p.Reviewed? || p.Completed? || p.Skipped?
  }

  /** Another task of the same commit. */
  ghost predicate HasRival(s: System, t: nat)
    requires t in s.tasks
  {
    exists u :: u != t && u in s.tasks && s.tasks[u].key == s.tasks[t].key
  }

  ghost predicate SmoothInvariant(s: System) {
    && s.lost == {}
    && (forall t | t in s.tasks :: SmoothPhase(s.tasks[t].phase))
    && (forall key | Successes(s.successes, key) > 0 :: exists u :: DoneBy(s, key, u))
    && (forall t | t in s.tasks && s.tasks[t].phase.Skipped? :: HasRival(s, t))
  }

  /** Who finds its commit claimed is not alone. */
  lemma SkipHasRival(s: System, t: nat)
    requires SmoothInvariant(s) && ClaimInvariant(s) && Enabled(s, Claim(t))
    requires Live(s.keys, s.tasks[t].key, s.now)
    ensures HasRival(s, t)
  {
    hide MutualExclusion, DoneOnce, Successes;
    var key := s.tasks[t].key;
    assert ClaimAccounted(s, key);
    if Held(s, key) {
      var u :| HeldBy(s, key, u);
      assert u != t;
    } else {
      var u :| DoneBy(s, key, u);
      assert u != t;
    }
  }

  lemma StepKeepsSmooth(s: System, e: Event)
    requires SmoothInvariant(s) && ClaimInvariant(s) && Enabled(s, e)
    requires !e.ReviewRaises? && !e.LateFailure? && !e.Crash?
    ensures SmoothInvariant(Step(s, e))
  {
    hide ClaimInvariant, MutualExclusion, DoneOnce, Successes, ClaimAccounted, Live;
    var next := Step(s, e);
    forall key | Successes(next.successes, key) > 0 ensures exists u :: DoneBy(next, key, u) {
      SuccessesAfterStep(s, e, key);
      if Successes(s.successes, key) > 0 {
        var u :| DoneBy(s, key, u);
        assert DoneBy(next, key, u);
      } else {
        assert DoneBy(next, key, e.task);
      }
    }
    forall t | t in next.tasks && next.tasks[t].phase.Skipped? ensures HasRival(next, t) {
      if e == Claim(t) {
        SkipHasRival(s, t);
      }
      var u :| u != t && u in s.tasks && s.tasks[u].key == s.tasks[t].key;
      assert u in next.tasks && next.tasks[u].key == next.tasks[t].key;
    }
  }

  lemma StartIsSmooth(ttl: int)
    ensures SmoothInvariant(Start(ttl))
  {
  }

  lemma {:induction false} SmoothRuns(ttl: int, es: seq<Event>)
    requires Runs(Start(ttl), es) && NeverExpires(Start(ttl), es) && Smooth(es)
    ensures SmoothInvariant(After(Start(ttl), es)) && ClaimInvariant(After(Start(ttl), es))
  {
    hide ClaimInvariant, SmoothInvariant, NothingExpired, Step;
    if es == [] {
      StartIsAccounted(ttl);
      StartIsSmooth(ttl);
    } else {
      var n := |es| - 1;
      var front := es[..n];
      AfterPrefix(Start(ttl), es, n);
      assert es[..n + 1] == es;
      NeverExpiresPrefix(Start(ttl), es, n);
      SmoothRuns(ttl, front);
      StepKeepsClaims(After(Start(ttl), front), es[n]);
      StepKeepsSmooth(After(Start(ttl), front), es[n]);
    }
  }

  predicate Finished(p: Phase) {
    p.Completed? || p.Skipped? || p.DeadLettered? || p.Crashed?
  }

  lemma FewerElements(a: set<nat>, b: set<nat>)
    requires a <= b
    ensures |a| <= |b|
  {
    assert b == a + (b - a);
  }

  lemma SkippedIsNotAlone(s: System, t: nat)
    requires SmoothInvariant(s) && t in s.tasks
    requires Finished(s.tasks[t].phase) && !s.tasks[t].phase.Completed?
    ensures |TasksOf(s, s.tasks[t].key)| > 1
  {
    hide Successes, DoneBy;
    var tasks := TasksOf(s, s.tasks[t].key);
    var u :| u != t && u in s.tasks && s.tasks[u].key == s.tasks[t].key;
    FewerElements({t, u}, tasks);
  }

  /** Even if nothing goes wrong: once all tasks of a commit have finished, each of them has
      reviewed its file if and only if there is no second one. */
  lemma EveryFileIsReviewedExactlyWhen(ttl: int, es: seq<Event>, key: Key)
    requires Runs(Start(ttl), es) && NeverExpires(Start(ttl), es) && Smooth(es)
    requires var s := After(Start(ttl), es);
      forall t | t in TasksOf(s, key) :: Finished(s.tasks[t].phase)
    ensures var s := After(Start(ttl), es);
      AllComplete(s, key) <==> |TasksOf(s, key)| <= 1
  {
    hide Runs, NeverExpires, Smooth, After, ClaimInvariant;
    SmoothRuns(ttl, es);
    OnlyOneCompletes(ttl, es, key);
    var s := After(Start(ttl), es);
    hide SmoothInvariant;
    forall t | t in TasksOf(s, key) && !s.tasks[t].phase.Completed?
      ensures |TasksOf(s, key)| > 1
    {
      SkippedIsNotAlone(s, t);
    }
  }

  /** The first of two tasks of one commit reviews its file. */
  lemma FirstFileRun(ttl: int, key: Key) returns (es: seq<Event>, end: System)
    requires ttl > 0
    ensures es == [Enqueue(0, key), Enqueue(1, key), Claim(0), ReviewReturns(0)]
    ensures Runs(Start(ttl), es) && NeverExpires(Start(ttl), es) && After(Start(ttl), es) == end
    ensures end == System(ttl, 0, map[key := ttl],
                          map[0 := Task(key, Reviewed, 0), 1 := Task(key, Ready, 0)], [(key, 0)], {})
  {
    hide After, Runs, NeverExpires;
    var s, ready := Start(ttl), Task(key, Ready, 0);
    var s0 := System(ttl, 0, map[], map[0 := ready], [], {});
    var s1 := System(ttl, 0, map[], map[0 := ready, 1 := ready], [], {});
    var s2 := System(ttl, 0, map[key := ttl], map[0 := Task(key, Reviewing(0), 0), 1 := ready], [], {});
    end := System(ttl, 0, map[key := ttl], map[0 := Task(key, Reviewed, 0), 1 := ready], [(key, 0)], {});
    RunNothing(s);
    NothingExpiresAtStart(ttl);
    var e0 := OneMoreStep(s, [], Enqueue(0, key), s, s0);
    var e1 := OneMoreStep(s, e0, Enqueue(1, key), s0, s1);
    var e2 := OneMoreStep(s, e1, Claim(0), s1, s2);
    es := OneMoreStep(s, e2, ReviewReturns(0), s2, end);
  }

  /** Two files of one commit: the task of the second one is skipped. */
  lemma SecondFileIsSkipped(ttl: int, key: Key)
    requires ttl > 0
    ensures var es := [Enqueue(0, key), Enqueue(1, key), Claim(0), ReviewReturns(0), Finish(0), Claim(1)];
      && Runs(Start(ttl), es) && NeverExpires(Start(ttl), es)
      && After(Start(ttl), es).tasks == map[0 := Task(key, Completed, 0), 1 := Task(key, Skipped, 0)]
  {
    hide After, Runs, NeverExpires;
    var s := Start(ttl);
    var e3, s3 := FirstFileRun(ttl, key);
    var s4 := s3.(tasks := map[0 := Task(key, Completed, 0), 1 := Task(key, Ready, 0)]);
    var s5 := s3.(tasks := map[0 := Task(key, Completed, 0), 1 := Task(key, Skipped, 0)]);
    var e4 := OneMoreStep(s, e3, Finish(0), s3, s4);
    var e5 := OneMoreStep(s, e4, Claim(1), s4, s5);
    assert e5 == [Enqueue(0, key), Enqueue(1, key), Claim(0), ReviewReturns(0), Finish(0), Claim(1)];
  }

  // ----- With expiry -----

  /** The key of a task that holds it expires a time to live after that task's own claim. */
  ghost predicate ExpiryInvariant(s: System) {
    && MutualExclusion(s)
    && forall t | t in s.tasks && Holds(s.tasks[t].phase) ::
         && s.tasks[t].key in s.keys
         && s.keys[s.tasks[t].key] == s.tasks[t].phase.since + s.ttl
  }

  /** A claim on a key that some task has held for at least the time to live. */
  ghost predicate LateClaim(s: System, e: Event) {
    && e.Claim? && e.task in s.tasks
    && exists u :: HeldBy(s, s.tasks[e.task].key, u) && s.now >= s.tasks[u].phase.since + s.ttl
  }

  /** A holder after a step held the key before and kept its entry, or has claimed it just now,
      when nobody held it. */
  lemma HolderWithoutLateClaim(s: System, e: Event, key: Key, t: nat)
    requires ExpiryInvariant(s) && !LateClaim(s, e) && Enabled(s, e) && HeldBy(Step(s, e), key, t)
    ensures HeldBy(s, key, t) || (e == Claim(t) && !Held(s, key))
    ensures var next := Step(s, e);
      key in next.keys && next.keys[key] == next.tasks[t].phase.since + next.ttl
  {
    if e == Claim(t) {
      assert !Live(s.keys, key, s.now);
    } else {
      assert HeldBy(s, key, t);
      if e.Release? {
        assert HeldBy(s, s.tasks[e.task].key, e.task);
      }
    }
  }

  lemma StepKeepsExpiry(s: System, e: Event)
    requires ExpiryInvariant(s) && !LateClaim(s, e) && Enabled(s, e)
    ensures ExpiryInvariant(Step(s, e))
  {
    var next := Step(s, e);
    forall key, t, u | HeldBy(next, key, t) && HeldBy(next, key, u) ensures t == u {
      HolderWithoutLateClaim(s, e, key, t);
      HolderWithoutLateClaim(s, e, key, u);
    }
    forall t | t in next.tasks && Holds(next.tasks[t].phase)
      ensures next.tasks[t].key in next.keys
        && next.keys[next.tasks[t].key] == next.tasks[t].phase.since + next.ttl
    {
      HolderWithoutLateClaim(s, e, next.tasks[t].key, t);
    }
  }

  ghost predicate NoLateClaims(s: System, es: seq<Event>) {
    forall i | 0 <= i < |es| :: !LateClaim(After(s, es[..i]), es[i])
  }

  /** Mutual exclusion at every point of a run. */
  ghost predicate AlwaysExclusive(s: System, es: seq<Event>) {
    forall i | 0 <= i <= |es| :: MutualExclusion(After(s, es[..i]))
  }

  lemma NoLateClaimsPrefix(s: System, es: seq<Event>)
    requires es != []
    ensures var n := |es| - 1;
      NoLateClaims(s, es) <==> NoLateClaims(s, es[..n]) && !LateClaim(After(s, es[..n]), es[n])
  {
    hide After, LateClaim;
    var n := |es| - 1;
    assert forall i | 0 <= i < n :: es[..n][..i] == es[..i] && es[..n][i] == es[i];
  }

  lemma AlwaysExclusivePrefix(s: System, es: seq<Event>)
    requires es != []
    ensures var n := |es| - 1;
      AlwaysExclusive(s, es) <==> AlwaysExclusive(s, es[..n]) && MutualExclusion(After(s, es))
  {
    hide After, MutualExclusion;
    var n := |es| - 1;
    assert forall i | 0 <= i <= n :: es[..n][..i] == es[..i];
    assert es[..|es|] == es;
  }

  lemma StartExpires(ttl: int)
    ensures ExpiryInvariant(Start(ttl))
  {
  }

  lemma {:induction false} ExclusiveWithoutLateClaims(ttl: int, es: seq<Event>)
    requires Runs(Start(ttl), es) && NoLateClaims(Start(ttl), es)
    ensures ExpiryInvariant(After(Start(ttl), es))
  {
    hide ExpiryInvariant, LateClaim, Step;
    if es == [] {
      StartExpires(ttl);
    } else {
      var n := |es| - 1;
      AfterPrefix(Start(ttl), es, n);
      assert es[..n + 1] == es;
      NoLateClaimsPrefix(Start(ttl), es);
      ExclusiveWithoutLateClaims(ttl, es[..n]);
      StepKeepsExpiry(After(Start(ttl), es[..n]), es[n]);
    }
  }

  /** In the state that a run without late claims reaches, a claim breaks mutual exclusion if
      and only if it is a late one. */
  lemma ClaimBreaksExactlyWhen(s: System, t: nat)
    requires ExpiryInvariant(s) && Enabled(s, Claim(t))
    ensures MutualExclusion(Step(s, Claim(t))) <==> !LateClaim(s, Claim(t))
  {
    var key, next := s.tasks[t].key, Step(s, Claim(t));
    if LateClaim(s, Claim(t)) {
      var u :| HeldBy(s, key, u) && s.now >= s.tasks[u].phase.since + s.ttl;
      assert HeldBy(next, key, u) && HeldBy(next, key, t);
    } else {
      StepKeepsExpiry(s, Claim(t));
    }
  }

  lemma StartIsExclusive(ttl: int)
    ensures AlwaysExclusive(Start(ttl), []) && NoLateClaims(Start(ttl), [])
  {
  }

  lemma LastStepExclusive(s: System, e: Event)
    requires ExpiryInvariant(s) && Enabled(s, e)
    ensures MutualExclusion(Step(s, e)) <==> !LateClaim(s, e)
  {
    hide MutualExclusion, Step, HeldBy;
    if LateClaim(s, e) {
      ClaimBreaksExactlyWhen(s, e.task);
      assert e == Claim(e.task);
    } else {
      StepKeepsExpiry(s, e);
    }
  }

  /** The exact limit of the protocol, for every interleaving of any number of tasks whose keys
      may expire: no two tasks ever review the same commit at the same time if and only if no
      task claims a key that another one has held for the time to live. */
  lemma {:induction false} ExclusionHoldsExactlyWhen(ttl: int, es: seq<Event>)
    requires Runs(Start(ttl), es)
    ensures AlwaysExclusive(Start(ttl), es) <==> NoLateClaims(Start(ttl), es)
  {
    hide ExpiryInvariant, LateClaim, MutualExclusion, Step, NoLateClaims, AlwaysExclusive;
    if es == [] {
      StartIsExclusive(ttl);
    } else {
      var n := |es| - 1;
      AfterPrefix(Start(ttl), es, n);
      assert es[..n + 1] == es;
      NoLateClaimsPrefix(Start(ttl), es);
      AlwaysExclusivePrefix(Start(ttl), es);
      ExclusionHoldsExactlyWhen(ttl, es[..n]);
      if NoLateClaims(Start(ttl), es[..n]) {
        ExclusiveWithoutLateClaims(ttl, es[..n]);
        LastStepExclusive(After(Start(ttl), es[..n]), es[n]);
      }
    }
  }

  /** Every task that holds its key claimed it less than the time to live ago. */
  ghost predicate ReviewsAreShort(s: System) {
    forall t | t in s.tasks && Holds(s.tasks[t].phase) :: s.now < s.tasks[t].phase.since + s.ttl
  }

  ghost predicate AlwaysShort(s: System, es: seq<Event>) {
    forall i | 0 <= i <= |es| :: ReviewsAreShort(After(s, es[..i]))
  }

  /** So it is enough that every review, up to the release after an exception, is shorter than
      the time to live. */
  lemma ShortReviewsExclude(ttl: int, es: seq<Event>)
    requires Runs(Start(ttl), es) && AlwaysShort(Start(ttl), es)
    ensures AlwaysExclusive(Start(ttl), es) && NoLateClaims(Start(ttl), es)
  {
    hide AlwaysExclusive, After;
    forall i | 0 <= i < |es| ensures !LateClaim(After(Start(ttl), es[..i]), es[i]) {
      assert ReviewsAreShort(After(Start(ttl), es[..i]));
    }
    ExclusionHoldsExactlyWhen(ttl, es);
  }

  /** Two tasks of one commit, the second one starting a time to live after the first. */
  lemma LongReviewRun(ttl: nat, key: Key) returns (es: seq<Event>, end: System)
    ensures es == [Enqueue(0, key), Enqueue(1, key), Claim(0), Tick(ttl), Claim(1)]
    ensures Runs(Start(ttl), es) && After(Start(ttl), es) == end
    ensures end == System(ttl, ttl, map[key := ttl + ttl],
                          map[0 := Task(key, Reviewing(0), 0), 1 := Task(key, Reviewing(ttl), 0)],
                          [], {})
  {
    hide After, Runs, NeverExpires;
    var s, ready := Start(ttl), Task(key, Ready, 0);
    var both := map[0 := Task(key, Reviewing(0), 0), 1 := ready];
    var s0 := System(ttl, 0, map[], map[0 := ready], [], {});
    var s1 := System(ttl, 0, map[], map[0 := ready, 1 := ready], [], {});
    var s2 := System(ttl, 0, map[key := ttl], both, [], {});
    var s3 := System(ttl, ttl, map[key := ttl], both, [], {});
    end := System(ttl, ttl, map[key := ttl + ttl], both[1 := Task(key, Reviewing(ttl), 0)], [], {});
    RunNothing(s);
    var e0 := OneMoreStep(s, [], Enqueue(0, key), s, s0);
    var e1 := OneMoreStep(s, e0, Enqueue(1, key), s0, s1);
    var e2 := OneMoreStep(s, e1, Claim(0), s1, s2);
    var e3 := OneMoreStep(s, e2, Tick(ttl), s2, s3);
    es := OneMoreStep(s, e3, Claim(1), s3, end);
  }

  /** It can come to that: a review as long as the time to live is joined by a second one. */
  lemma LongReviewsOverlap(ttl: nat, key: Key)
    ensures var es := [Enqueue(0, key), Enqueue(1, key), Claim(0), Tick(ttl), Claim(1)];
      Runs(Start(ttl), es) && !MutualExclusion(After(Start(ttl), es))
  {
    hide After, Runs;
    var es, end := LongReviewRun(ttl, key);
    assert HeldBy(end, key, 0) && HeldBy(end, key, 1);
  }

  /** A release carries no owner: when two tasks hold a key, the release of one frees the key
      although the other is still at work. */
  lemma ReleaseFreesOthersClaim(s: System, t: nat, u: nat)
    requires Enabled(s, Release(t)) && u != t && HeldBy(s, s.tasks[t].key, u)
    ensures var next := Step(s, Release(t));
      HeldBy(next, s.tasks[t].key, u) && s.tasks[t].key !in next.keys
  {
  }

  /** Of two overlapping reviews the first one fails. */
  lemma ReleasedRun(ttl: nat, key: Key) returns (es: seq<Event>, end: System)
    ensures es == [Enqueue(0, key), Enqueue(1, key), Claim(0), Tick(ttl), Claim(1),
                   ReviewRaises(0), Release(0)]
    ensures Runs(Start(ttl), es) && After(Start(ttl), es) == end
    ensures end == System(ttl, ttl, map[],
                          map[0 := Task(key, Ready, 1), 1 := Task(key, Reviewing(ttl), 0)], [], {})
  {
    hide After, Runs, NeverExpires;
    var s, other := Start(ttl), Task(key, Reviewing(ttl), 0);
    var e4, s4 := LongReviewRun(ttl, key);
    var s5 := s4.(tasks := map[0 := Task(key, Raised(0), 0), 1 := other]);
    end := System(ttl, ttl, map[], map[0 := Task(key, Ready, 1), 1 := other], [], {});
    var e5 := OneMoreStep(s, e4, ReviewRaises(0), s4, s5);
    es := OneMoreStep(s, e5, Release(0), s5, end);
  }

  /** From then on the key is free although the second review goes on, long before its claim
      would expire, so a third claim succeeds at once. */
  lemma ReleaseLetsThirdClaimIn(ttl: nat, key: Key)
    ensures var es := [Enqueue(0, key), Enqueue(1, key), Claim(0), Tick(ttl), Claim(1),
                       ReviewRaises(0), Release(0), Claim(0)];
      && Runs(Start(ttl), es)
      && key !in After(Start(ttl), es[..7]).keys && HeldBy(After(Start(ttl), es[..7]), key, 1)
      && HeldBy(After(Start(ttl), es), key, 0) && HeldBy(After(Start(ttl), es), key, 1)
  {
    hide After, Runs, NeverExpires;
    var e6, s6 := ReleasedRun(ttl, key);
    var s7 := System(ttl, ttl, map[key := ttl + ttl],
                     map[0 := Task(key, Reviewing(ttl), 1), 1 := Task(key, Reviewing(ttl), 0)], [], {});
    var e7 := OneMoreStep(Start(ttl), e6, Claim(0), s6, s7);
    assert e7[..7] == e6;
    assert e7 == [Enqueue(0, key), Enqueue(1, key), Claim(0), Tick(ttl), Claim(1),
                  ReviewRaises(0), Release(0), Claim(0)];
    assert HeldBy(s6, key, 1) && HeldBy(s7, key, 0) && HeldBy(s7, key, 1);
  }

  // ----- Successes with expiry -----

  /** Until a time to live after the claim of a success the key stays present, and whoever holds
      it now claimed it later than that. */
  ghost predicate EntryHolds(s: System, key: Key, since: int) {
    && (s.now >= since + s.ttl || (key in s.keys && s.keys[key] >= since + s.ttl))
    && forall t :: HeldBy(s, key, t) ==> s.tasks[t].phase.since >= since + s.ttl
  }

  ghost predicate Spaced(log: seq<(Key, int)>, ttl: int) {
    forall i, j | 0 <= i < j < |log| && log[i].0 == log[j].0 :: log[i].1 + ttl <= log[j].1
  }

  /** What the log of successes says about the present and the past. */
  ghost predicate SpacedInvariant(s: System) {
    && ExpiryInvariant(s)
    && (forall t | t in s.tasks && Holds(s.tasks[t].phase) :: s.tasks[t].phase.since <= s.now)
    && (forall i | 0 <= i < |s.successes| :: EntryHolds(s, s.successes[i].0, s.successes[i].1))
    && Spaced(s.successes, s.ttl)
  }

  lemma StepKeepsEntry(s: System, e: Event, key: Key, since: int)
    requires ExpiryInvariant(s) && Enabled(s, e) && EntryHolds(s, key, since)
    requires forall t | t in s.tasks && Holds(s.tasks[t].phase) :: s.tasks[t].phase.since <= s.now
    ensures EntryHolds(Step(s, e), key, since)
  {
    var next := Step(s, e);
    forall t | HeldBy(next, key, t) ensures next.tasks[t].phase.since >= since + s.ttl {
      assert HeldBy(s, key, t) || e == Claim(t);
    }
    if e.Release? {
      assert HeldBy(s, s.tasks[e.task].key, e.task);
    }
  }

  lemma NewEntryHolds(s: System, t: nat)
    requires ExpiryInvariant(s) && Enabled(s, ReviewReturns(t))
    ensures EntryHolds(Step(s, ReviewReturns(t)), s.tasks[t].key, s.tasks[t].phase.since)
  {
    var key, next := s.tasks[t].key, Step(s, ReviewReturns(t));
    assert HeldBy(s, key, t);
    forall u | HeldBy(next, key, u) ensures false {
      assert HeldBy(s, key, u);
    }
  }

  lemma StepKeepsSpacing(s: System, e: Event)
    requires SpacedInvariant(s) && !LateClaim(s, e) && Enabled(s, e)
    ensures SpacedInvariant(Step(s, e))
  {
    var next := Step(s, e);
    StepKeepsExpiry(s, e);
    forall i | 0 <= i < |s.successes|
      ensures EntryHolds(next, s.successes[i].0, s.successes[i].1)
    {
      StepKeepsEntry(s, e, s.successes[i].0, s.successes[i].1);
    }
    if e.ReviewReturns? {
      NewEntryHolds(s, e.task);
      assert HeldBy(s, s.tasks[e.task].key, e.task);
    }
  }

  lemma StartIsSpaced(ttl: int)
    ensures SpacedInvariant(Start(ttl))
  {
  }

  /** With expiry a commit can be reviewed again, but as long as reviews exclude each other, the
      claims of any two successful ones of a commit lie at least a time to live apart. */
  lemma {:induction false} SuccessesAreSpaced(ttl: int, es: seq<Event>)
    requires Runs(Start(ttl), es) && AlwaysExclusive(Start(ttl), es)
    ensures SpacedInvariant(After(Start(ttl), es))
  {
    hide LateClaim, Step, SpacedInvariant, AlwaysExclusive, MutualExclusion;
    if es == [] {
      StartIsSpaced(ttl);
    } else {
      var n := |es| - 1;
      AfterPrefix(Start(ttl), es, n);
      assert es[..n + 1] == es;
      ExclusionHoldsExactlyWhen(ttl, es);
      NoLateClaimsPrefix(Start(ttl), es);
      AlwaysExclusivePrefix(Start(ttl), es);
      SuccessesAreSpaced(ttl, es[..n]);
      StepKeepsSpacing(After(Start(ttl), es[..n]), es[n]);
    }
  }
}
