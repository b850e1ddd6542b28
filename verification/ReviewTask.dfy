/** One task of the worker: `_execute_review`, and its retries. */
module ReviewTask {
  import opened IdempotencyStore
  import P = ClaimProtocol

  /** What the attempt meets: whether `review_code` returns, and whether a later step, such as
      publishing or notifying, raises. */
  datatype Attempt = Attempt(now: int, reviewReturns: bool, failsLate: bool)

  datatype Outcome = Completed | Skipped | Failed

  /** The outcome of an attempt and the claims after it. */
  function Attempted(keys: map<Key, int>, key: Key, ttl: int, a: Attempt): (Outcome, map<Key, int>) {
    var claimed := Claimed(keys, key, a.now, ttl);
    if Live(keys, key, a.now) then (Skipped, keys)
    else if !a.reviewReturns then (Failed, Released(claimed, key))
    else (if a.failsLate then Failed else Completed, claimed)
  }

  method ExecuteReview(store: IdempotencyStore, repo: string, commitSha: string, ttl: int, a: Attempt)
    returns (outcome: Outcome)
    modifies store
    ensures (outcome, store.keys) == Attempted(old(store.keys), (repo, commitSha), ttl, a)
  {
    var claimed := store.TryMarkProcessed(repo, commitSha, a.now, ttl);
    if !claimed {
      return Skipped;
    }
    if !a.reviewReturns {
      store.Release(repo, commitSha);
      return Failed;
    }
    outcome := if a.failsLate then Failed else Completed;
  }

  /** The attempts of a task in a row: a failed one is followed by the next, while retries last. */
  function Attempts(keys: map<Key, int>, key: Key, ttl: int, attempts: seq<Attempt>)
    : (Outcome, map<Key, int>)
    requires attempts != []
    decreases |attempts|
  {
    var (outcome, after) := Attempted(keys, key, ttl, attempts[0]);
    if outcome != Failed || |attempts| == 1 then (outcome, after)
    else Attempts(after, key, ttl, attempts[1..])
  }

  method ReviewCommitTask(store: IdempotencyStore, repo: string, commitSha: string, ttl: int,
                          attempts: seq<Attempt>)
    returns (outcome: Outcome)
    requires |attempts| >= 4
    modifies store
    ensures (outcome, store.keys) == Attempts(old(store.keys), (repo, commitSha), ttl, attempts[..4])
  {
    ghost var four := attempts[..4];
    outcome := ExecuteReview(store, repo, commitSha, ttl, attempts[0]);
    var i := 1;
    while outcome == Failed && i <= P.MAX_RETRIES
      invariant 0 < i <= 1 + P.MAX_RETRIES
      invariant Attempts(old(store.keys), (repo, commitSha), ttl, four)
        == if outcome == Failed && i <= P.MAX_RETRIES
           then Attempts(store.keys, (repo, commitSha), ttl, four[i..])
           else (outcome, store.keys)
    {
      assert four[i..][1..] == four[i + 1..] && four[i..][0] == attempts[i];
      outcome := ExecuteReview(store, repo, commitSha, ttl, attempts[i]);
      i := i + 1;
    }
  }

  /** The attempts all lie within one time to live. */
  ghost predicate Close(attempts: seq<Attempt>, ttl: int) {
    forall a, b | a in attempts && b in attempts :: a.now < b.now + ttl
  }

  /** The attempt in which the review returns for the first time; `|attempts|` when in none. */
  function FirstReturn(attempts: seq<Attempt>): (k: nat)
    ensures k <= |attempts|
    ensures forall i | 0 <= i < k :: !attempts[i].reviewReturns
    ensures k < |attempts| ==> attempts[k].reviewReturns
  {
    if attempts == [] || attempts[0].reviewReturns then 0 else 1 + FirstReturn(attempts[1..])
  }

  /** A task that finds its commit free ends as follows. While the review raises, the claim is
      given back and the next attempt reviews again. The first review that returns keeps the
      claim for good: if a later step then fails, the retry is skipped, so the task ends as
      skipped instead of being done again; only in the last attempt does the failure show. */
  lemma {:induction false} LateFailureIsNotRetried(keys: map<Key, int>, key: Key, ttl: int,
                                                   attempts: seq<Attempt>)
    requires attempts != [] && Close(attempts, ttl) && !Live(keys, key, attempts[0].now)
    ensures var k, end := FirstReturn(attempts), Attempts(keys, key, ttl, attempts);
      if k == |attempts| then end.0 == Failed && key !in end.1
      else
        && key in end.1 && end.1[key] == attempts[k].now + ttl
        && end.0 == (if !attempts[k].failsLate then Completed
                     else if k + 1 < |attempts| then Skipped else Failed)
  {
    var a := attempts[0];
    var (outcome, after) := Attempted(keys, key, ttl, a);
    assert attempts[0] in attempts;
    if a.reviewReturns {
      if a.failsLate && |attempts| > 1 {
        assert attempts[1] in attempts && Live(after, key, attempts[1].now);
        assert attempts[1..][0] == attempts[1];
      }
    } else if |attempts| > 1 {
      var rest := attempts[1..];
      assert forall b | b in rest :: b in attempts;
      LateFailureIsNotRetried(after, key, ttl, rest);
    }
  }

  // ----- The same attempt as steps of the protocol -----

  function ProtocolEvents(keys: map<Key, int>, key: Key, t: nat, a: Attempt): seq<P.Event> {
    if Live(keys, key, a.now) then [P.Claim(t)]
    else if !a.reviewReturns then [P.Claim(t), P.ReviewRaises(t), P.Release(t)]
    else [P.Claim(t), P.ReviewReturns(t), if a.failsLate then P.LateFailure(t) else P.Finish(t)]
  }

  /** The phase that shows the outcome; a failed task is queued again or given up. */
  ghost predicate Shows(outcome: Outcome, p: P.Phase) {
    match outcome
    case Completed => p.Completed?
    case Skipped => p.Skipped?
    case Failed => p.Ready? || p.DeadLettered?
  }

  lemma ThreeSteps(s: P.System, t: nat, es: seq<P.Event>)
    requires t in s.tasks && |es| == 3 && es[0] == P.Claim(t)
    requires P.Runs(s, [es[0]])
    ensures var one := P.After(s, [es[0]]);
      var two := if P.Enabled(one, es[1]) then P.Step(one, es[1]) else one;
      P.After(s, es) == (if P.Enabled(two, es[2]) then P.Step(two, es[2]) else two)
      && (P.Enabled(one, es[1]) && P.Enabled(two, es[2]) ==> P.Runs(s, es))
  {
    hide P.After, P.Runs, P.Step, P.Enabled;
    P.RunSnoc(s, [es[0]], es[1]);
    P.RunSnoc(s, [es[0]] + [es[1]], es[2]);
    assert [es[0]] + [es[1]] + [es[2]] == es;
  }

  /** An attempt without interruption is a run of the protocol that leaves the same claims. */
  lemma AttemptFollowsProtocol(s: P.System, t: nat, a: Attempt)
    requires t in s.tasks && s.tasks[t].phase.Ready? && a.now == s.now
    ensures var key := s.tasks[t].key;
      var es := ProtocolEvents(s.keys, key, t, a);
      var end := P.After(s, es);
      && P.Runs(s, es)
      && end.keys == Attempted(s.keys, key, s.ttl, a).1
      && t in end.tasks && Shows(Attempted(s.keys, key, s.ttl, a).0, end.tasks[t].phase)
  {
    hide P.After, P.Runs;
    P.RunNothing(s);
    P.RunSnoc(s, [], P.Claim(t));
    assert [] + [P.Claim(t)] == [P.Claim(t)];
    if !Live(s.keys, s.tasks[t].key, a.now) {
      ThreeSteps(s, t, ProtocolEvents(s.keys, s.tasks[t].key, t, a));
    }
  }
}
