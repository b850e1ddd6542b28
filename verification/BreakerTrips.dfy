/** How fast the breaker opens when the model fails, and when it only answers uselessly. */
module BreakerTrips {
  import opened CircuitBreaker
  import opened BreakerRuns

  // ----- Counting failures -----

  lemma {:induction false} FailuresAppend(xs: seq<bool>, ys: seq<bool>)
    ensures Failures(xs + ys) == Failures(xs) + Failures(ys)
  {
    if ys == [] {
      assert xs + ys == xs;
    } else {
      assert (xs + ys)[..|xs + ys| - 1] == xs + ys[..|ys| - 1];
      FailuresAppend(xs, ys[..|ys| - 1]);
    }
  }

  function Succeeding(n: nat): seq<bool> {
    seq(n, _ => true)
  }

  /** The latest outcomes after `n` more failures hold as many failures as fit. */
  lemma RecentAfterFailing(window: seq<bool>, n: nat, size: nat)
    ensures Failures(Recent(window + Failing(n), size)) >= if n < size then n else size
    ensures |Recent(window + Failing(n), size)| == if |window| + n < size then |window| + n else size
  {
    var all := window + Failing(n);
    var seen := Recent(all, size);
    var k := if n < |seen| then n else |seen|;
    assert seen == seen[..|seen| - k] + Failing(k);
    FailuresAppend(seen[..|seen| - k], Failing(k));
    FailuresOfFailing(k);
  }

  // ----- Consecutive failures -----

  ghost predicate AllBad(es: seq<Event>) {
    forall i | 0 <= i < |es| :: es[i].Bad?
  }

  /** Some event opens the circuit. */
  ghost predicate OpensDuring(c: Config, b: Breaker, es: seq<Event>)
    requires Usable(c)
  {
    exists k :: 0 <= k < |es| && OpensAt(c, b, es, k)
  }

  lemma OpensDuringMore(c: Config, b: Breaker, es: seq<Event>, e: Event)
    requires Usable(c) && OpensDuring(c, b, es)
    ensures OpensDuring(c, b, es + [e])
  {
    var k :| 0 <= k < |es| && OpensAt(c, b, es, k);
    assert (es + [e])[..k] == es[..k] && (es + [e])[k] == es[k];
    assert OpensAt(c, b, es + [e], k);
  }

  lemma OpensLast(c: Config, b: Breaker, es: seq<Event>, e: Event)
    requires Usable(c) && e.Bad? && OpensOnFailure(c, Run(c, b, es))
    ensures OpensDuring(c, b, es + [e])
  {
    assert (es + [e])[..|es|] == es && (es + [e])[|es|] == e;
    assert OpensAt(c, b, es + [e], |es|);
  }

  lemma RecentIsAll(xs: seq<bool>, n: nat)
    ensures |xs| <= n ==> Recent(xs, n) == xs
  {
  }

  /** As long as nothing opens, the window collects the failures. */
  lemma {:induction false} FailuresPileUp(c: Config, b: Breaker, es: seq<Event>)
    requires Usable(c) && AllBad(es) && b.state != HalfOpen && |b.window| <= c.windowSize
    ensures OpensDuring(c, b, es)
      || Run(c, b, es) == b.(window := Recent(b.window + Failing(|es|), c.windowSize))
  {
    hide Run, Append, Recent, Trips, OpensDuring;
    if es == [] {
      RunNothing(c, b);
      assert b.window + Failing(0) == b.window;
      RecentIsAll(b.window, c.windowSize);
    } else {
      var front, e := es[..|es| - 1], es[|es| - 1];
      assert es == front + [e];
      FailuresPileUp(c, b, front);
      RunSnoc(c, b, front, e);
      if OpensDuring(c, b, front) {
        OpensDuringMore(c, b, front, e);
      } else if OpensOnFailure(c, Run(c, b, front)) {
        OpensLast(c, b, front, e);
      } else {
        var log := b.window + Failing(|front|);
        AppendIsRecent(c, log, false);
        assert log + [false] == b.window + Failing(|es|);
      }
    }
  }

  lemma ProductSign(x: real, y: real)
    requires x >= 0.0 && y >= 0.0
    ensures x * y >= 0.0
  {
  }

  lemma RateOfFailing(k: real, n: real, size: real, threshold: real)
    requires 0.0 <= n <= size && threshold <= 1.0
    requires k >= n || k >= threshold * size
    requires k >= 0.0
    ensures threshold * n <= k
  {
    if threshold >= 0.0 {
      ProductSign(threshold, size - n);
      assert threshold * size == threshold * n + threshold * (size - n);
    } else {
      ProductSign(-threshold, n);
    }
    ProductSign(1.0 - threshold, n);
    assert (1.0 - threshold) * n == n - threshold * n;
  }

  lemma RecentTrips(c: Config, window: seq<bool>, n: nat)
    requires 1 <= c.minCalls <= c.windowSize && c.threshold <= 1.0
    requires n >= c.minCalls && n as real >= c.threshold * (c.windowSize as real)
    ensures Trips(c, Recent(window + Failing(n), c.windowSize))
  {
    hide Recent, Failures;
    var seen := Recent(window + Failing(n), c.windowSize);
    RecentAfterFailing(window, n, c.windowSize);
    RateOfFailing(Failures(seen) as real, |seen| as real, c.windowSize as real, c.threshold);
    RatioReaches(Failures(seen) as real, |seen| as real, c.threshold);
  }

  /** From every state but half-open, `n` failures in a row open the circuit as soon as `n` is
      at least `minCalls` and at least the threshold times the window size. */
  lemma FailuresTrip(c: Config, b: Breaker, es: seq<Event>)
    requires 1 <= c.minCalls <= c.windowSize && c.threshold <= 1.0
    requires b.state != HalfOpen && |b.window| <= c.windowSize
    requires AllBad(es) && |es| >= c.minCalls
    requires |es| as real >= c.threshold * (c.windowSize as real)
    ensures OpensDuring(c, b, es)
  {
    var front, e := es[..|es| - 1], es[|es| - 1];
    assert es == front + [e];
    FailuresPileUp(c, b, front);
    if OpensDuring(c, b, front) {
      OpensDuringMore(c, b, front, e);
    } else {
      var log := b.window + Failing(|front|);
      AppendIsRecent(c, log, false);
      assert log + [false] == b.window + Failing(|es|);
      RecentTrips(c, b.window, |es|);
      OpensLast(c, b, front, e);
    }
  }

  lemma LimitAboveOne(c: Config, n: nat)
    requires c.threshold > 1.0 && n > 0
    ensures FailureLimit(c, n) > n as real
  {
    assert (c.threshold - 1.0) * (n as real) > 0.0;
    assert (c.threshold - 1.0) * (n as real) == c.threshold * (n as real) - n as real;
  }

  /** A window that trips has at least the minimum of outcomes and a threshold of at most one. */
  lemma TripsNeeds(c: Config, window: seq<bool>)
    requires window != [] && |window| <= c.windowSize && Trips(c, window)
    ensures c.minCalls <= c.windowSize && c.threshold <= 1.0
  {
    hide Failures, Trips, FailureLimit;
    TripsAtLimit(c, window);
    if c.threshold > 1.0 {
      LimitAboveOne(c, |window|);
    }
  }

  lemma AppendFits(c: Config, window: seq<bool>)
    requires c.windowSize > 0 && |window| <= c.windowSize
    ensures Append(c, window, false) != [] && |Append(c, window, false)| <= c.windowSize
  {
  }

  /** Otherwise a fresh breaker never opens. */
  lemma {:induction false} NeverOpens(c: Config, es: seq<Event>)
    requires c.windowSize > 0 && c.minCalls > 0
    requires c.minCalls > c.windowSize || c.threshold > 1.0
    ensures Run(c, FRESH, es).state == Closed && !OpensOnFailure(c, Run(c, FRESH, es))
  {
    hide Run, Trips, Append;
    if es == [] {
      RunNothing(c, FRESH);
    } else {
      var front, e := es[..|es| - 1], es[|es| - 1];
      assert es == front + [e];
      NeverOpens(c, front);
      RunSnoc(c, FRESH, front, e);
    }
    var b := Run(c, FRESH, es);
    WindowStaysBounded(c, es);
    AppendFits(c, b.window);
    if Trips(c, Append(c, b.window, false)) {
      TripsNeeds(c, Append(c, b.window, false));
    }
  }

  /** Which breakers work at all: some run opens a fresh one if and only if the minimum of calls
      fits in the window and the threshold is at most one. */
  lemma CanOpenExactlyWhen(c: Config)
    requires c.windowSize > 0 && c.minCalls > 0
    ensures (exists es :: OpensDuring(c, FRESH, es)) <==> c.minCalls <= c.windowSize && c.threshold <= 1.0
  {
    hide OpensOnFailure, Run;
    if c.minCalls <= c.windowSize && c.threshold <= 1.0 {
      var es := seq(c.windowSize, _ => Bad(0.0));
      RateOfFailing(c.windowSize as real, c.windowSize as real, c.windowSize as real, c.threshold);
      FailuresTrip(c, FRESH, es);
    } else {
      forall es, k | 0 <= k < |es| ensures !OpensAt(c, FRESH, es, k) {
        NeverOpens(c, es[..k]);
      }
    }
  }

  lemma {:induction false} FailuresOfSuccesses(n: nat)
    ensures Failures(Succeeding(n)) == 0
  {
    if n > 0 {
      assert Succeeding(n)[..n - 1] == Succeeding(n - 1);
      FailuresOfSuccesses(n - 1);
    }
  }

  lemma StillRare(c: Config, n: nat)
    requires 1 <= c.minCalls <= c.windowSize && c.threshold <= 1.0
    requires (n as real) < c.threshold * (c.windowSize as real)
    ensures !Trips(c, Recent(Succeeding(c.windowSize) + Failing(n), c.windowSize))
  {
    hide Failures;
    var size := c.windowSize;
    ProductSign(1.0 - c.threshold, size as real);
    assert (1.0 - c.threshold) * (size as real) == size as real - c.threshold * (size as real);
    assert n < size;
    var seen := Recent(Succeeding(size) + Failing(n), size);
    assert seen == Succeeding(size - n) + Failing(n);
    FailuresAppend(Succeeding(size - n), Failing(n));
    FailuresOfSuccesses(size - n);
    FailuresOfFailing(n);
    RatioReaches(n as real, size as real, c.threshold);
  }

  /** The bound is reached: a closed circuit with a full window of successes stays closed for
      every number of failures below the threshold times the window size. */
  lemma SuccessesDelayTrip(c: Config, b: Breaker, es: seq<Event>)
    requires 1 <= c.minCalls <= c.windowSize && c.threshold <= 1.0
    requires b == Breaker(Closed, b.openedAt, Succeeding(c.windowSize))
    requires AllBad(es) && (|es| as real) < c.threshold * (c.windowSize as real)
    ensures Run(c, b, es).state == Closed
    ensures Run(c, b, es).window == Recent(b.window + Failing(|es|), c.windowSize)
  {
    if es == [] {
      assert b.window + Failing(0) == b.window;
    } else {
      var front, e := es[..|es| - 1], es[|es| - 1];
      SuccessesDelayTrip(c, b, front);
      var log := b.window + Failing(|front|);
      AppendIsRecent(c, log, false);
      assert log + [false] == b.window + Failing(|es|);
      StillRare(c, |es|);
    }
  }

  /** The default breaker after ten successes: five failures in a row open it, four do not. */
  lemma DefaultsAfterSuccesses(b: Breaker, es: seq<Event>)
    requires b == Breaker(Closed, b.openedAt, Succeeding(10)) && AllBad(es)
    ensures |es| >= 5 ==> OpensDuring(DEFAULTS, b, es)
    ensures |es| <= 4 ==> Run(DEFAULTS, b, es).state == Closed
  {
    hide OpensDuring, Run;
    if |es| >= 5 {
      FailuresTrip(DEFAULTS, b, es);
    } else {
      SuccessesDelayTrip(DEFAULTS, b, es);
    }
  }

  // ----- Answers that cannot be parsed -----

  /** One answer that arrives but cannot be parsed records a success and then a failure. */
  ghost predicate IsUselessAnswers(es: seq<Event>, n: nat) {
    && |es| == 3 * n
    && forall i | 0 <= i < n :: es[3 * i].Ask? && es[3 * i + 1].Ok? && es[3 * i + 2].Bad?
  }

  function Alternating(n: nat): seq<bool> {
    if n == 0 then [] else Alternating(n - 1) + [true, false]
  }

  lemma {:induction false} AlternatingSize(n: nat)
    ensures |Alternating(n)| == 2 * n
  {
    if n > 0 {
      AlternatingSize(n - 1);
    }
  }

  lemma RecentFew(n: nat, size: nat)
    requires size <= 1 && size <= 2 * n
    ensures Recent(Alternating(n), size) == if size == 0 then [] else [false]
    ensures Failures([]) == 0
  {
    AlternatingSize(n);
  }

  lemma OnePair()
    ensures Failures([true, false]) == 1 && Failures([false]) == 1
  {
    assert [true, false][..1] == [true] && [true][..0] == [] && [false][..0] == [];
  }

  lemma RecentOfSum(xs: seq<bool>, ys: seq<bool>, size: nat)
    requires |ys| <= size <= |xs| + |ys|
    ensures Recent(xs + ys, size) == Recent(xs, size - |ys|) + ys
  {
  }

  /** Half of the latest outcomes are failures, the odd one included. */
  lemma {:induction false} RecentAlternating(n: nat, size: nat)
    requires size <= 2 * n
    ensures |Recent(Alternating(n), size)| == size
    ensures Failures(Recent(Alternating(n), size)) == (size + 1) / 2
  {
    hide Failures, Recent;
    AlternatingSize(n);
    OnePair();
    if size <= 1 {
      RecentFew(n, size);
    } else {
      AlternatingSize(n - 1);
      RecentAlternating(n - 1, size - 2);
      RecentOfSum(Alternating(n - 1), [true, false], size);
      FailuresAppend(Recent(Alternating(n - 1), size - 2), [true, false]);
    }
  }

  lemma RecentOfLonger(window: seq<bool>, tail: seq<bool>, size: nat)
    requires size <= |tail|
    ensures Recent(window + tail, size) == Recent(tail, size)
  {
  }

  /** One useless answer to a closed circuit. */
  lemma UselessStep(c: Config, b: Breaker, log: seq<bool>, ask: Event, ok: Event, bad: Event)
    requires Usable(c) && ask.Ask? && ok.Ok? && bad.Bad?
    requires b.state == Closed && b.window == Recent(log, c.windowSize)
    ensures Step(c, Step(c, b, ask), ok) == b.(window := Recent(log + [true], c.windowSize))
    ensures var asked := Step(c, Step(c, b, ask), ok);
      var now := Recent(log + [true, false], c.windowSize);
      && Append(c, asked.window, false) == now
      && (!OpensOnFailure(c, asked) ==> Step(c, asked, bad) == b.(window := now))
  {
    hide Trips;
    AppendIsRecent(c, log, true);
    AppendIsRecent(c, log + [true], false);
    assert log + [true] + [false] == log + [true, false];
  }

  lemma ThreeMore(c: Config, b: Breaker, es: seq<Event>, n: nat)
    requires Usable(c) && n > 0 && IsUselessAnswers(es, n)
    ensures var front := es[..3 * n - 3];
      && IsUselessAnswers(front, n - 1)
      && At(c, b, es, 3 * n - 1) == Step(c, Step(c, Run(c, b, front), es[3 * n - 3]), es[3 * n - 2])
      && Run(c, b, es) == Step(c, At(c, b, es, 3 * n - 1), es[3 * n - 1])
  {
    hide Step, Run;
    var front := es[..3 * n - 3];
    AtNext(c, b, es, 3 * n - 3);
    AtNext(c, b, es, 3 * n - 2);
    AtNext(c, b, es, 3 * n - 1);
    assert es[..3 * n] == es;
  }

  lemma OpensDuringPrefix(c: Config, b: Breaker, es: seq<Event>, m: nat)
    requires Usable(c) && m <= |es| && OpensDuring(c, b, es[..m])
    ensures OpensDuring(c, b, es)
  {
    hide OpensOnFailure, Run;
    var k :| 0 <= k < m && OpensAt(c, b, es[..m], k);
    assert es[..m][..k] == es[..k];
    assert OpensAt(c, b, es, k);
  }

  /** A closed circuit collects one success and one failure for each useless answer. */
  lemma {:induction false} UselessPileUp(c: Config, b: Breaker, es: seq<Event>, n: nat)
    requires Usable(c) && IsUselessAnswers(es, n)
    requires b.state == Closed && |b.window| <= c.windowSize
    ensures OpensDuring(c, b, es)
      || Run(c, b, es) == b.(window := Recent(b.window + Alternating(n), c.windowSize))
  {
    hide Step, Run, OpensOnFailure, Append;
    if n == 0 {
      RunNothing(c, b);
      assert es == [] && b.window + Alternating(0) == b.window;
    } else {
      var front := es[..3 * n - 3];
      ThreeMore(c, b, es, n);
      UselessPileUp(c, b, front, n - 1);
      if OpensDuring(c, b, front) {
        OpensDuringPrefix(c, b, es, 3 * n - 3);
      } else {
        var log := b.window + Alternating(n - 1);
        assert log + [true, false] == b.window + Alternating(n);
        UselessStep(c, Run(c, b, front), log, es[3 * n - 3], es[3 * n - 2], es[3 * n - 1]);
        if OpensOnFailure(c, At(c, b, es, 3 * n - 1)) {
          assert OpensAt(c, b, es, 3 * n - 1);
        }
      }
    }
  }

  /** Half of a window, rounded up, reaches the limit. */
  predicate HalfReaches(c: Config) {
    FailureLimit(c, c.windowSize) <= ((c.windowSize + 1) / 2) as real
  }

  lemma TripsOpens(c: Config, b: Breaker)
    requires Usable(c)
    requires Append(c, b.window, false) != [] && Trips(c, Append(c, b.window, false))
    ensures OpensOnFailure(c, b)
  {
  }

  lemma HalfTrips(c: Config, n: nat)
    requires 1 <= c.minCalls <= c.windowSize <= 2 * n && HalfReaches(c)
    ensures Trips(c, Recent(Alternating(n), c.windowSize))
  {
    hide Failures, Recent, Alternating, Trips, FailureLimit;
    RecentAlternating(n, c.windowSize);
    TripsAtLimit(c, Recent(Alternating(n), c.windowSize));
  }

  /** If half of a window reaches the limit, useless answers open a closed circuit after at most
      half a window of them, rounded up, although each one also counts as a success. */
  lemma UselessAnswersTrip(c: Config, b: Breaker, es: seq<Event>, n: nat)
    requires 1 <= c.minCalls <= c.windowSize && HalfReaches(c)
    requires b.state == Closed && |b.window| <= c.windowSize
    requires IsUselessAnswers(es, n) && 2 * n >= c.windowSize
    ensures OpensDuring(c, b, es)
  {
    hide Run, Step, OpensOnFailure, Append;
    ThreeMore(c, b, es, n);
    UselessPileUp(c, b, es[..3 * n - 3], n - 1);
    if OpensDuring(c, b, es[..3 * n - 3]) {
      OpensDuringPrefix(c, b, es, 3 * n - 3);
    } else {
      var log := b.window + Alternating(n - 1);
      assert log + [true, false] == b.window + Alternating(n);
      UselessStep(c, Run(c, b, es[..3 * n - 3]), log, es[3 * n - 3], es[3 * n - 2], es[3 * n - 1]);
      AlternatingSize(n);
      RecentOfLonger(b.window, Alternating(n), c.windowSize);
      HalfTrips(c, n);
      TripsOpens(c, At(c, b, es, 3 * n - 1));
      assert OpensAt(c, b, es, 3 * n - 1);
    }
  }

  lemma NotOpenedBefore(c: Config, es: seq<Event>, n: nat)
    requires Usable(c) && n > 0 && IsUselessAnswers(es, n)
    requires !OpensDuring(c, FRESH, es[..3 * n - 3])
    requires !OpensOnFailure(c, At(c, FRESH, es, 3 * n - 1))
    ensures !OpensDuring(c, FRESH, es)
  {
    hide OpensOnFailure, Run;
    var front := es[..3 * n - 3];
    forall k | 0 <= k < |es| ensures !OpensAt(c, FRESH, es, k) {
      if k < |front| {
        assert front[..k] == es[..k];
        assert !OpensAt(c, FRESH, front, k);
      } else {
        assert es[3 * (n - 1)].Ask? && es[3 * (n - 1) + 1].Ok?;
      }
    }
  }

  lemma PositiveProduct(x: real, y: real)
    requires x > 0.0 && y > 0.0
    ensures x * y > 0.0
  {
  }

  lemma ShareOf(t: real, x: real)
    requires x > 0.0
    ensures t * x <= 0.5 * x <==> t <= 0.5
  {
    assert (0.5 - t) * x == 0.5 * x - t * x;
    if t <= 0.5 {
      ProductSign(0.5 - t, x);
    } else {
      PositiveProduct(t - 0.5, x);
      assert (t - 0.5) * x == t * x - 0.5 * x;
    }
  }

  lemma HalfOf(c: Config, n: nat)
    requires n > 0
    ensures FailureLimit(c, n) <= 0.5 * (n as real) <==> c.threshold <= 0.5
  {
    ShareOf(c.threshold, n as real);
  }

  /** While the window is not full, every second outcome is a failure exactly. */
  lemma HalfOfFewer(c: Config, n: nat)
    requires c.windowSize > 0 && n > 0 && !HalfReaches(c)
    ensures FailureLimit(c, 2 * n) > n as real
  {
    HalfOf(c, c.windowSize);
    HalfOf(c, 2 * n);
    hide FailureLimit;
  }

  lemma HalfIsNotEnough(c: Config, n: nat)
    requires c.windowSize > 0 && n > 0 && !HalfReaches(c)
    ensures Recent(Alternating(n), c.windowSize) != []
    ensures !Trips(c, Recent(Alternating(n), c.windowSize))
  {
    hide Failures, Recent, Alternating, Trips, FailureLimit;
    AlternatingSize(n);
    var size := if c.windowSize <= 2 * n then c.windowSize else 2 * n;
    RecentAlternating(n, size);
    RecentIsAll(Alternating(n), c.windowSize);
    RecentIsAll(Alternating(n), size);
    TripsAtLimit(c, Recent(Alternating(n), c.windowSize));
    if size < c.windowSize {
      HalfOfFewer(c, n);
    }
  }

  /** If half of a window does not reach the limit, useless answers never open a fresh circuit,
      however many they are. */
  lemma {:induction false} UselessAnswersNeverTrip(c: Config, es: seq<Event>, n: nat)
    requires c.windowSize > 0 && !HalfReaches(c)
    requires IsUselessAnswers(es, n)
    ensures Run(c, FRESH, es) == FRESH.(window := Recent(Alternating(n), c.windowSize))
    ensures !OpensDuring(c, FRESH, es)
  {
    hide Run, Step, Trips, Recent, Append, HalfReaches;
    if n == 0 {
      RunNothing(c, FRESH);
      RecentIsAll([], c.windowSize);
    } else {
      var front := es[..3 * n - 3];
      ThreeMore(c, FRESH, es, n);
      UselessAnswersNeverTrip(c, front, n - 1);
      HalfIsNotEnough(c, n);
      UselessStep(c, Run(c, FRESH, front), Alternating(n - 1),
                  es[3 * n - 3], es[3 * n - 2], es[3 * n - 1]);
      assert !OpensOnFailure(c, At(c, FRESH, es, 3 * n - 1));
      NotOpenedBefore(c, es, n);
    }
  }

  /** For every window size and threshold: at least half a window of useless answers opens a
      fresh circuit if and only if half of the window, rounded up, reaches the limit. */
  lemma UselessAnswersTripExactlyWhen(c: Config, es: seq<Event>, n: nat)
    requires 1 <= c.minCalls <= c.windowSize
    requires IsUselessAnswers(es, n) && 2 * n >= c.windowSize
    ensures OpensDuring(c, FRESH, es) <==> HalfReaches(c)
  {
    hide HalfReaches, OpensDuring;
    if HalfReaches(c) {
      UselessAnswersTrip(c, FRESH, es, n);
    } else {
      UselessAnswersNeverTrip(c, es, n);
    }
  }

  /** A threshold of one half is always low enough; for an even window no larger one is. */
  lemma HalfIsTight(c: Config)
    requires c.windowSize > 0
    ensures c.threshold <= 0.5 ==> HalfReaches(c)
    ensures c.windowSize % 2 == 0 ==> (HalfReaches(c) <==> c.threshold <= 0.5)
  {
    HalfOf(c, c.windowSize);
    hide FailureLimit;
  }

  lemma OneFailureTrips(c: Config)
    ensures Trips(c, [false]) <==> c.minCalls <= 1 && c.threshold <= 1.0
  {
    OnePair();
    hide Failures;
    RatioReaches(1.0, 1.0, c.threshold);
  }

  /** A useless answer to the trial request of a half-open circuit closes it, with one failure
      on record, unless a single failure is enough to open it. */
  lemma UselessTrialCloses(c: Config, b: Breaker, ok: real, bad: real)
    requires Usable(c) && c.windowSize > 0 && b.state == HalfOpen
    ensures Run(c, b, [Ok(ok), Bad(bad)])
            == if c.minCalls <= 1 && c.threshold <= 1.0 then Breaker(Open, bad, [])
               else Breaker(Closed, b.openedAt, [false])
  {
    hide Run, Trips, Failures;
    OneFailureTrips(c);
    RunNothing(c, b);
    RunSnoc(c, b, [], Ok(ok));
    RunSnoc(c, b, [Ok(ok)], Bad(bad));
    assert [] + [Ok(ok)] == [Ok(ok)] && [Ok(ok)] + [Bad(bad)] == [Ok(ok), Bad(bad)];
    assert Append(c, [], false) == [false];
  }
}
