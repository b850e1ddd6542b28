/** What the breaker guarantees over whole runs, from any starting state. */
module BreakerRuns {
  import opened CircuitBreaker

  // ----- The bounded window against the full history -----

  /** A breaker that forgets nothing: `log` has every outcome since the window was last cleared. */
  datatype Ledger = Ledger(state: State, openedAt: real, log: seq<bool>)

  /** Among the latest `windowSize` outcomes, at least `minCalls` of them, the share of failures
      reaches the threshold. */
  ghost predicate TooManyFailures(c: Config, log: seq<bool>)
    requires log != [] && Usable(c)
  {
    var seen := Recent(log, c.windowSize);
    && c.minCalls <= |seen|
    && c.threshold * (|seen| as real) <= Failures(seen) as real
  }

  ghost function LedgerStep(c: Config, l: Ledger, e: Event): Ledger
    requires Usable(c)
  {
    match e
    case Ask(now) =>
      if l.state == Open && now - l.openedAt >= c.cooldown then l.(state := HalfOpen) else l
    case Ok(_) =>
      if l.state == HalfOpen then Ledger(Closed, l.openedAt, []) else l.(log := l.log + [true])
    case Bad(now) =>
      if l.state == HalfOpen || TooManyFailures(c, l.log + [false])
      then Ledger(Open, now, [])
      else l.(log := l.log + [false])
  }

  ghost function LedgerRun(c: Config, es: seq<Event>): Ledger
    requires Usable(c)
  {
    if es == [] then Ledger(Closed, 0.0, [])
    else LedgerStep(c, LedgerRun(c, es[..|es| - 1]), es[|es| - 1])
  }

  lemma AppendIsRecent(c: Config, log: seq<bool>, ok: bool)
    ensures Append(c, Recent(log, c.windowSize), ok) == Recent(log + [ok], c.windowSize)
  {
  }

  lemma RatioReaches(k: real, n: real, limit: real)
    requires n > 0.0
    ensures k / n >= limit <==> limit * n <= k
  {
    var rate := k / n;
    assert rate * n == k;
    if rate >= limit {
      assert (rate - limit) * n >= 0.0;
    } else {
      assert (limit - rate) * n > 0.0;
    }
  }

  lemma TripsIsTooMany(c: Config, log: seq<bool>)
    requires Usable(c) && log != []
    requires Recent(log, c.windowSize) != [] || c.minCalls > 0
    ensures Trips(c, Recent(log, c.windowSize)) <==> TooManyFailures(c, log)
  {
    hide Failures;
    var seen := Recent(log, c.windowSize);
    if seen != [] {
      RatioReaches(Failures(seen) as real, |seen| as real, c.threshold);
    }
  }

  lemma RunNothing(c: Config, b: Breaker)
    requires Usable(c)
    ensures Run(c, b, []) == b
  {
  }

  lemma StepIsRecentHistory(c: Config, l: Ledger, e: Event)
    requires Usable(c)
    ensures var next := LedgerStep(c, l, e);
      Step(c, Breaker(l.state, l.openedAt, Recent(l.log, c.windowSize)), e)
      == Breaker(next.state, next.openedAt, Recent(next.log, c.windowSize))
  {
    AppendIsRecent(c, l.log, true);
    AppendIsRecent(c, l.log, false);
    hide Append, Trips, TooManyFailures;
    TripsIsTooMany(c, l.log + [false]);
  }

  /** In every run the bounded window is the end of the full history, and the breaker changes
      state exactly as one that looks at the whole history would. */
  lemma {:induction false} WindowIsRecentHistory(c: Config, es: seq<Event>)
    requires Usable(c)
    ensures var l := LedgerRun(c, es);
      Run(c, FRESH, es) == Breaker(l.state, l.openedAt, Recent(l.log, c.windowSize))
  {
    hide Step, LedgerStep;
    if es != [] {
      var front, e := es[..|es| - 1], es[|es| - 1];
      WindowIsRecentHistory(c, front);
      StepIsRecentHistory(c, LedgerRun(c, front), e);
    }
  }

  /** So the window of every breaker in use stays within its size. */
  lemma WindowStaysBounded(c: Config, es: seq<Event>)
    requires Usable(c)
    ensures |Run(c, FRESH, es).window| <= c.windowSize
  {
    hide Run, LedgerRun;
    WindowIsRecentHistory(c, es);
  }

  // ----- Closed above the limit -----

  /** A closed circuit whose outcomes are enough and failed too often to be closed. */
  predicate IsAbove(c: Config, b: Breaker)
    requires c.minCalls > 0
  {
    b.state == Closed && Trips(c, b.window)
  }

  /** How many failures among `n` outcomes reach the threshold. */
  function FailureLimit(c: Config, n: int): real {
    c.threshold * (n as real)
  }

  lemma TripsAtLimit(c: Config, window: seq<bool>)
    requires window != []
    ensures Trips(c, window)
      <==> c.minCalls <= |window| && FailureLimit(c, |window|) <= Failures(window) as real
  {
    hide Failures;
    RatioReaches(Failures(window) as real, |window| as real, c.threshold);
  }

  lemma LimitOfFewer(c: Config, n: nat, m: nat, failures: real)
    requires n <= m && 0.0 <= failures && FailureLimit(c, m) <= failures
    ensures FailureLimit(c, n) <= failures
  {
    var t, few, more := c.threshold, n as real, m as real;
    if t >= 0.0 {
      assert t * (more - few) >= 0.0;
      assert t * more == t * few + t * (more - few);
    } else {
      assert (-t) * few >= 0.0;
    }
  }

  lemma {:induction false} FailuresOfRest(window: seq<bool>)
    requires window != []
    ensures Failures(window[1..]) <= Failures(window)
  {
    if |window| > 1 {
      var n := |window| - 1;
      assert window[1..][..n - 1] == window[..n][1..];
      FailuresOfRest(window[..n]);
    }
  }

  lemma FailuresAfterSuccess(c: Config, window: seq<bool>)
    requires window != [] && |window| <= c.windowSize
    ensures var next := Append(c, window, true);
      && Failures(next) <= Failures(window)
      && |window| <= |next|
      && (|window| < c.windowSize ==> |next| == |window| + 1 && Failures(next) == Failures(window))
  {
    var next := Append(c, window, true);
    if |window| < c.windowSize {
      assert next[..|window|] == window;
    } else {
      assert next[..|window| - 1] == window[1..];
      FailuresOfRest(window);
    }
  }

  /** From `minCalls` outcomes on, one more success never brings a window to its limit. */
  lemma SuccessLowersRate(c: Config, window: seq<bool>)
    requires 1 <= c.minCalls <= |window| <= c.windowSize
    requires Trips(c, Append(c, window, true))
    ensures Trips(c, window)
  {
    hide Append, Failures, Trips, FailureLimit;
    var next := Append(c, window, true);
    FailuresAfterSuccess(c, window);
    TripsAtLimit(c, window);
    TripsAtLimit(c, next);
    LimitOfFewer(c, |window|, |next|, Failures(next) as real);
  }

  lemma RisesAtMinimum(c: Config, window: seq<bool>)
    requires |window| < c.minCalls <= c.windowSize
    ensures Trips(c, Append(c, window, true))
      <==> |window| + 1 == c.minCalls
           && Failures(window) as real >= FailureLimit(c, c.minCalls)
  {
    var next := Append(c, window, true);
    assert next[..|window|] == window;
    hide Append, Trips, FailureLimit;
    TripsAtLimit(c, next);
  }

  /** When a closed circuit gets above its limit: with a success, if and only if that completes
      the minimum of calls and the failures so far are enough for it. */
  lemma RisesAboveExactlyWhen(c: Config, b: Breaker, e: Event)
    requires 1 <= c.minCalls <= c.windowSize
    requires b.state == Closed && |b.window| <= c.windowSize
    ensures IsAbove(c, Step(c, b, e)) && !IsAbove(c, b)
      <==> e.Ok? && |b.window| + 1 == c.minCalls
           && Failures(b.window) as real >= FailureLimit(c, c.minCalls)
  {
    hide FailureLimit;
    if e.Ok? {
      if c.minCalls <= |b.window| {
        hide Append, Trips;
        if IsAbove(c, Step(c, b, e)) {
          SuccessLowersRate(c, b.window);
        }
      } else {
        RisesAtMinimum(c, b.window);
      }
    }
  }

  lemma NewlyClosed(c: Config, b: Breaker, e: Event)
    requires c.minCalls > 0 && b.state != Closed
    ensures Step(c, b, e).state == Closed ==> Step(c, b, e).window == []
  {
  }

  lemma {:induction false} NeverAbove(c: Config, es: seq<Event>)
    requires 1 <= c.minCalls <= c.windowSize
    requires FailureLimit(c, c.minCalls) > (c.minCalls - 1) as real
    ensures !IsAbove(c, Run(c, FRESH, es))
  {
    hide Run, Step, Failures, FailureLimit;
    if es == [] {
      RunNothing(c, FRESH);
    } else {
      var front, e := es[..|es| - 1], es[|es| - 1];
      assert es == front + [e];
      NeverAbove(c, front);
      WindowStaysBounded(c, front);
      RunSnoc(c, FRESH, front, e);
      var b := Run(c, FRESH, front);
      if b.state == Closed {
        RisesAboveExactlyWhen(c, b, e);
      } else {
        NewlyClosed(c, b, e);
      }
    }
  }

  function Failing(n: nat): seq<bool> {
    seq(n, _ => false)
  }

  lemma {:induction false} FailsBelowMinimum(c: Config, n: nat, t: real)
    requires n < c.minCalls <= c.windowSize
    ensures Run(c, FRESH, seq(n, _ => Bad(t))) == FRESH.(window := Failing(n))
  {
    hide Run, Failures;
    var bad := seq(n, _ => Bad(t));
    if n == 0 {
      RunNothing(c, FRESH);
      assert bad == [] && Failing(0) == [];
    } else {
      var front := seq(n - 1, _ => Bad(t));
      assert bad == front + [Bad(t)] && Failing(n) == Failing(n - 1) + [false];
      FailsBelowMinimum(c, n - 1, t);
      RunSnoc(c, FRESH, front, Bad(t));
    }
  }

  lemma {:induction false} FailuresOfFailing(n: nat)
    ensures Failures(Failing(n)) == n
  {
    if n > 0 {
      assert Failing(n)[..n - 1] == Failing(n - 1);
      FailuresOfFailing(n - 1);
    }
  }

  /** One call less than the minimum, all failed, and then a success. */
  lemma AboveRun(c: Config, t: real) returns (es: seq<Event>)
    requires 1 <= c.minCalls <= c.windowSize
    requires FailureLimit(c, c.minCalls) <= (c.minCalls - 1) as real
    ensures es == seq(c.minCalls - 1, _ => Bad(t)) + [Ok(t)]
    ensures IsAbove(c, Run(c, FRESH, es))
  {
    hide Run, Step, FailureLimit;
    var n := c.minCalls - 1;
    var bad := seq(n, _ => Bad(t));
    FailsBelowMinimum(c, n, t);
    RunSnoc(c, FRESH, bad, Ok(t));
    es := bad + [Ok(t)];
    FailuresOfFailing(n);
    RisesAboveExactlyWhen(c, Run(c, FRESH, bad), Ok(t));
  }

  /** For which configurations that can happen: a fresh breaker can get above its limit if and
      only if one call less than the minimum can hold enough failures. */
  lemma CanBeAboveExactlyWhen(c: Config)
    requires 1 <= c.minCalls <= c.windowSize
    ensures (exists es :: IsAbove(c, Run(c, FRESH, es)))
      <==> FailureLimit(c, c.minCalls) <= (c.minCalls - 1) as real
  {
    hide Run, Trips, IsAbove, FailureLimit;
    if FailureLimit(c, c.minCalls) <= (c.minCalls - 1) as real {
      var es := AboveRun(c, 0.0);
    } else {
      forall es ensures !IsAbove(c, Run(c, FRESH, es)) {
        NeverAbove(c, es);
      }
    }
  }

  /** Four failures and a success leave the default breaker closed, with four failures out of
      five. */
  lemma ClosedAfterSuccessMayBeAbove(t: real)
    ensures IsAbove(DEFAULTS, Run(DEFAULTS, FRESH, [Bad(t), Bad(t), Bad(t), Bad(t), Ok(t)]))
  {
    hide Run, IsAbove;
    var es := AboveRun(DEFAULTS, t);
    assert es == [Bad(t), Bad(t), Bad(t), Bad(t), Ok(t)];
  }

  // ----- Cooldown -----

  ghost predicate Monotone(es: seq<Event>) {
    forall i, j | 0 <= i <= j < |es| :: es[i].now <= es[j].now
  }

  /** The breaker before event `i`. */
  ghost function At(c: Config, b: Breaker, es: seq<Event>, i: nat): Breaker
    requires Usable(c) && i <= |es|
  {
    Run(c, b, es[..i])
  }

  lemma AtNext(c: Config, b: Breaker, es: seq<Event>, i: nat)
    requires Usable(c) && i < |es|
    ensures At(c, b, es, i + 1) == Step(c, At(c, b, es, i), es[i])
  {
    assert es[..i + 1] == es[..i] + [es[i]];
    RunSnoc(c, b, es[..i], es[i]);
  }

  /** Event `i` opens the circuit, or opens it again. */
  ghost predicate OpensAt(c: Config, b: Breaker, es: seq<Event>, i: nat)
    requires Usable(c) && i < |es|
  {
    es[i].Bad? && OpensOnFailure(c, At(c, b, es, i))
  }

  ghost predicate AdmitsAt(c: Config, b: Breaker, es: seq<Event>, i: nat)
    requires Usable(c) && i < |es|
  {
    es[i].Ask? && Admits(c, At(c, b, es, i), es[i].now)
  }

  /** After an opening, the opening time never moves back, and the circuit does not leave the
      open state before the cooldown is over. */
  lemma {:induction false} AfterOpening(c: Config, b: Breaker, es: seq<Event>, i: nat, j: nat)
    requires Usable(c) && Monotone(es) && i < j <= |es| && OpensAt(c, b, es, i)
    ensures es[i].now <= At(c, b, es, j).openedAt <= es[j - 1].now
    ensures At(c, b, es, j).state != Open ==> es[j - 1].now - es[i].now >= c.cooldown
    decreases j
  {
    hide Run, Trips, Append;
    AtNext(c, b, es, j - 1);
    if i + 1 < j {
      AfterOpening(c, b, es, i, j - 1);
      assert es[j - 2].now <= es[j - 1].now && es[i].now <= es[j - 1].now;
    }
  }

  /** No request is admitted within the cooldown after any opening. */
  lemma CooldownIsRespected(c: Config, b: Breaker, es: seq<Event>, i: nat, j: nat)
    requires Usable(c) && Monotone(es) && i < j < |es|
    requires OpensAt(c, b, es, i) && AdmitsAt(c, b, es, j)
    ensures es[j].now - es[i].now >= c.cooldown
  {
    AfterOpening(c, b, es, i, j);
    assert es[j - 1].now <= es[j].now;
  }

  /** Later openings, also those by failures that arrive late, only move the opening time on. */
  lemma OpeningTimeMovesForward(c: Config, b: Breaker, es: seq<Event>, i: nat, j: nat, k: nat)
    requires Usable(c) && Monotone(es) && i < j <= k <= |es| && OpensAt(c, b, es, i)
    ensures At(c, b, es, j).openedAt <= At(c, b, es, k).openedAt
    decreases k
  {
    hide Run, Trips, Append;
    if j < k {
      OpeningTimeMovesForward(c, b, es, i, j, k - 1);
      AfterOpening(c, b, es, i, k - 1);
      AtNext(c, b, es, k - 1);
      assert es[k - 2].now <= es[k - 1].now;
    }
  }

  /** The open circuit lets its first request through. */
  ghost predicate ProbesAt(c: Config, b: Breaker, es: seq<Event>, i: nat)
    requires Usable(c) && i < |es|
  {
    At(c, b, es, i).state == Open && AdmitsAt(c, b, es, i)
  }

  lemma {:induction false} OpeningBetween(c: Config, b: Breaker, es: seq<Event>, i: nat, j: nat)
    returns (k: nat)
    requires Usable(c) && i < j <= |es|
    requires At(c, b, es, i).state != Open && At(c, b, es, j).state == Open
    ensures i <= k < j && OpensAt(c, b, es, k)
    decreases j
  {
    hide Run, Trips, Append;
    AtNext(c, b, es, j - 1);
    if OpensAt(c, b, es, j - 1) {
      k := j - 1;
    } else {
      k := OpeningBetween(c, b, es, i, j - 1);
    }
  }

  /** Two probes are at least one cooldown apart. */
  lemma ProbesAreApart(c: Config, b: Breaker, es: seq<Event>, i: nat, j: nat)
    requires Usable(c) && Monotone(es) && i < j < |es|
    requires ProbesAt(c, b, es, i) && ProbesAt(c, b, es, j)
    ensures es[j].now - es[i].now >= c.cooldown
  {
    AtNext(c, b, es, i);
    var k := OpeningBetween(c, b, es, i + 1, j);
    CooldownIsRespected(c, b, es, k, j);
    assert es[i].now <= es[k].now;
  }

  ghost function ProbeCount(c: Config, b: Breaker, es: seq<Event>, n: nat): nat
    requires Usable(c) && n <= |es|
  {
    if n == 0 then 0
    else ProbeCount(c, b, es, n - 1) + if ProbesAt(c, b, es, n - 1) then 1 else 0
  }

  /** The time that lies between the first and the last of `count` probes, at the least. */
  function Waits(count: nat, cooldown: real): real {
    (count - 1) as real * cooldown
  }

  lemma FirstProbe(cooldown: real)
    ensures Waits(1, cooldown) == 0.0
  {
  }

  lemma OneMoreWait(count: nat, cooldown: real)
    ensures Waits(count + 1, cooldown) == Waits(count, cooldown) + cooldown
  {
    assert count as real * cooldown == (count as real - 1.0) * cooldown + cooldown;
  }

  /** The probe that the count up to `n` ends with, and how late it must be. */
  lemma {:induction false} LastProbe(c: Config, b: Breaker, es: seq<Event>, n: nat) returns (p: nat)
    requires Usable(c) && Monotone(es) && n <= |es| && ProbeCount(c, b, es, n) > 0
    ensures p < n && ProbesAt(c, b, es, p)
    ensures Waits(ProbeCount(c, b, es, n), c.cooldown) <= es[p].now - es[0].now
  {
    hide ProbesAt, At, Waits;
    FirstProbe(c.cooldown);
    if ProbesAt(c, b, es, n - 1) {
      p := n - 1;
      var before := ProbeCount(c, b, es, n - 1);
      assert es[0].now <= es[p].now;
      if before > 0 {
        var q := LastProbe(c, b, es, n - 1);
        ProbesAreApart(c, b, es, q, p);
        OneMoreWait(before, c.cooldown);
      }
    } else {
      p := LastProbe(c, b, es, n - 1);
    }
  }

  /** In a time span T there are at most 1 + T / cooldown probes. */
  lemma ProbesAreRare(c: Config, b: Breaker, es: seq<Event>)
    requires Usable(c) && Monotone(es) && es != []
    ensures ProbeCount(c, b, es, |es|) > 0 ==>
      Waits(ProbeCount(c, b, es, |es|), c.cooldown) <= es[|es| - 1].now - es[0].now
  {
    hide ProbesAt, At, ProbeCount, Waits;
    if ProbeCount(c, b, es, |es|) > 0 {
      var p := LastProbe(c, b, es, |es|);
      assert es[p].now <= es[|es| - 1].now;
    }
  }

  /** The circuit closes only through a success in the half-open state, with an empty window. */
  lemma ClosesOnlyFromHalfOpen(c: Config, b: Breaker, es: seq<Event>, i: nat)
    requires Usable(c) && i < |es|
    requires At(c, b, es, i).state != Closed && At(c, b, es, i + 1).state == Closed
    ensures At(c, b, es, i).state == HalfOpen && es[i].Ok? && At(c, b, es, i + 1).window == []
  {
    AtNext(c, b, es, i);
  }

  lemma AtStart(c: Config, es: seq<Event>)
    requires Usable(c)
    ensures At(c, FRESH, es, 0) == FRESH
  {
    assert es[..0] == [];
  }

  /** An open circuit was opened by a failure, at the time it has on record. */
  lemma {:induction false} OpenedBy(c: Config, es: seq<Event>, j: nat) returns (i: nat)
    requires Usable(c) && j <= |es| && At(c, FRESH, es, j).state == Open
    ensures i < j && OpensAt(c, FRESH, es, i) && es[i].now == At(c, FRESH, es, j).openedAt
    decreases j
  {
    hide Run, Trips, Append;
    AtStart(c, es);
    AtNext(c, FRESH, es, j - 1);
    if OpensAt(c, FRESH, es, j - 1) {
      i := j - 1;
    } else {
      i := OpenedBy(c, es, j - 1);
    }
  }

  /** In every run, a request is refused if and only if some opening is less than a cooldown ago. */
  lemma RefusedExactlyWhen(c: Config, es: seq<Event>, j: nat)
    requires Usable(c) && Monotone(es) && j < |es| && es[j].Ask?
    ensures !AdmitsAt(c, FRESH, es, j)
      <==> exists i :: 0 <= i < j && OpensAt(c, FRESH, es, i) && es[j].now - es[i].now < c.cooldown
  {
    hide Run, OpensOnFailure;
    if AdmitsAt(c, FRESH, es, j) {
      forall i | 0 <= i < j && OpensAt(c, FRESH, es, i) ensures es[j].now - es[i].now >= c.cooldown {
        CooldownIsRespected(c, FRESH, es, i, j);
      }
    } else {
      var i := OpenedBy(c, es, j);
      assert OpensAt(c, FRESH, es, i);
    }
  }

  // ----- Changes of the state -----

  /** When a circuit is half-open, closed or open after an event: a request after the cooldown makes
      an open one half-open; there every request is let through, a success closes and a failure
      opens it again; a closed one opens with a failure that reaches the limit. */
  lemma StateExactlyWhen(c: Config, b: Breaker, e: Event)
    requires c.windowSize > 0
    ensures var w, next := Append(c, b.window, false), Step(c, b, e).state;
      var tooMany := c.minCalls <= |w| && FailureLimit(c, |w|) <= Failures(w) as real;
      && (next == HalfOpen <==> e.Ask? && (b.state == HalfOpen
                                || (b.state == Open && e.now - b.openedAt >= c.cooldown)))
      && (next == Closed <==> ((b.state == HalfOpen && e.Ok?)
                               || (b.state == Closed && !(e.Bad? && tooMany))))
      && (e.Ask? && b.state == HalfOpen ==> Admits(c, b, e.now) && Step(c, b, e) == b)
      && (e.Bad? && (b.state == HalfOpen || tooMany) ==> Step(c, b, e) == Breaker(Open, e.now, []))
  {
    hide Failures, FailureLimit, Trips;
    var w := Append(c, b.window, false);
    TripsAtLimit(c, w);
  }

  /** The default breaker: five failures in a row open it, four do not, and a request is let
      through again after a minute. */
  lemma DefaultsMean(t: real, now: real)
    ensures Run(DEFAULTS, FRESH, seq(4, _ => Bad(t))).state == Closed
    ensures var b := Run(DEFAULTS, FRESH, seq(5, _ => Bad(t)));
      b == Breaker(Open, t, []) && (Admits(DEFAULTS, b, now) <==> now >= t + 60.0)
  {
    hide Run, Failures;
    FailsBelowMinimum(DEFAULTS, 4, t);
    var four := seq(4, _ => Bad(t));
    assert four + [Bad(t)] == seq(5, _ => Bad(t));
    RunSnoc(DEFAULTS, FRESH, four, Bad(t));
    assert Failing(4) + [false] == Failing(5);
    FailuresOfFailing(5);
    StateExactlyWhen(DEFAULTS, FRESH.(window := Failing(4)), Bad(t));
  }
}
