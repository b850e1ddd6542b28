/** What a provider that is down, and one that works, does to the breaker over whole agent runs. */
module AgentStreams {
  import opened CircuitBreaker
  import opened BreakerRuns
  import opened BreakerTrips
  import opened LlmCalls

  // ----- One call -----

  /** A call to a closed breaker is admitted; one that raises counts as a failure at the time it
      raises, one that answers as a success. */
  lemma CallCounts(c: Config, b: Breaker, reply: Reply, asked: real, answered: real)
    requires Usable(c) && b.state == Closed
    ensures reply.Raised? ==> AfterCall(c, b, reply, asked, answered) == Step(c, b, Bad(answered))
    ensures reply.Answered? ==> AfterCall(c, b, reply, asked, answered) == Step(c, b, Ok(answered))
  {
    hide Trips, Append;
  }

  // ----- A provider that is down -----

  ghost predicate AllRaise(runs: seq<AgentRun>) {
    forall i | 0 <= i < |runs| :: runs[i].reply.Raised?
  }

  /** No answer to these prompts is in the cache. */
  ghost predicate NotCached(entries: map<string, string>, runs: seq<AgentRun>) {
    forall i | 0 <= i < |runs| :: runs[i].key !in entries
  }

  /** What is never answered is never cached. */
  lemma {:induction false} OutageCachesNothing(c: Config, b: Breaker, entries: map<string, string>,
                                               parses: string -> bool, runs: seq<AgentRun>)
    requires Usable(c) && AllRaise(runs) && NotCached(entries, runs)
    ensures RunsCache(c, b, entries, parses, runs) == entries
  {
    hide Admits, Run, RunsEvents;
    if runs != [] {
      OutageCachesNothing(c, b, entries, parses, runs[..|runs| - 1]);
    }
  }

  lemma RaisedRun(c: Config, b: Breaker, entries: map<string, string>, parses: string -> bool,
                  runs: seq<AgentRun>)
    requires Usable(c) && runs != [] && AllRaise(runs) && NotCached(entries, runs)
    requires var n := |runs| - 1;
      Run(c, b, RunsEvents(c, b, entries, parses, runs[..n])).state == Closed
    ensures var n := |runs| - 1;
      RunsEvents(c, b, entries, parses, runs)
      == RunsEvents(c, b, entries, parses, runs[..n]) + [Ask(runs[n].asked), Bad(runs[n].answered)]
  {
    hide Run;
    var n := |runs| - 1;
    OutageCachesNothing(c, b, entries, parses, runs[..n]);
    hide RunsCache;
    ClosedAdmits(c, Run(c, b, RunsEvents(c, b, entries, parses, runs[..n])), runs[n].asked);
  }

  lemma AskAndBad(c: Config, b: Breaker, es: seq<Event>, asked: real, answered: real)
    requires Usable(c) && Run(c, b, es).state == Closed
    ensures var more := es + [Ask(asked), Bad(answered)];
      && Run(c, b, more) == Step(c, Run(c, b, es), Bad(answered))
      && (OpensOnFailure(c, Run(c, b, es)) ==> OpensDuring(c, b, more))
      && (OpensDuring(c, b, es) ==> OpensDuring(c, b, more))
  {
    hide Run, OpensOnFailure, Append;
    var more := es + [Ask(asked)];
    assert more + [Bad(answered)] == es + [Ask(asked), Bad(answered)];
    RunSnoc(c, b, es, Ask(asked));
    RunSnoc(c, b, more, Bad(answered));
    if OpensOnFailure(c, Run(c, b, es)) {
      OpensLast(c, b, more, Bad(answered));
    }
    if OpensDuring(c, b, es) {
      OpensDuringMore(c, b, es, Ask(asked));
      OpensDuringMore(c, b, more, Bad(answered));
    }
  }

  lemma OpensDuringEarlier(c: Config, b: Breaker, entries: map<string, string>,
                           parses: string -> bool, runs: seq<AgentRun>)
    requires Usable(c) && runs != []
    requires OpensDuring(c, b, RunsEvents(c, b, entries, parses, runs[..|runs| - 1]))
    ensures OpensDuring(c, b, RunsEvents(c, b, entries, parses, runs))
  {
    hide OpensDuring, AgentEvents, RunsCache, Run, Admits;
    var before := RunsEvents(c, b, entries, parses, runs[..|runs| - 1]);
    var all := RunsEvents(c, b, entries, parses, runs);
    assert before <= all;
    assert all[..|before|] == before;
    OpensDuringPrefix(c, b, all, |before|);
  }

  /** Until the circuit opens, each run adds one failure to the window. */
  lemma {:induction false} OutagePilesUp(c: Config, b: Breaker, entries: map<string, string>,
                                         parses: string -> bool, runs: seq<AgentRun>)
    requires Usable(c) && b.state == Closed && |b.window| <= c.windowSize
    requires AllRaise(runs) && NotCached(entries, runs)
    ensures var es := RunsEvents(c, b, entries, parses, runs);
      OpensDuring(c, b, es)
      || Run(c, b, es) == b.(window := Recent(b.window + Failing(|runs|), c.windowSize))
  {
    hide Run, OpensDuring, Append, Recent, Trips, RunsCache;
    if runs == [] {
      RunNothing(c, b);
      assert b.window + Failing(0) == b.window;
      RecentIsAll(b.window, c.windowSize);
    } else {
      var n := |runs| - 1;
      var front, before := runs[..n], RunsEvents(c, b, entries, parses, runs[..n]);
      OutagePilesUp(c, b, entries, parses, front);
      if OpensDuring(c, b, before) {
        OpensDuringEarlier(c, b, entries, parses, runs);
      } else {
        RaisedRun(c, b, entries, parses, runs);
        AskAndBad(c, b, before, runs[n].asked, runs[n].answered);
        AppendIsRecent(c, b.window + Failing(n), false);
        assert b.window + Failing(n) + [false] == b.window + Failing(|runs|);
      }
    }
  }

  /** A provider that is down is cut off: agent runs whose calls all raise open a closed circuit as
      soon as their number reaches the minimum of calls and the threshold times the window size. */
  lemma OutageTrips(c: Config, b: Breaker, entries: map<string, string>, parses: string -> bool,
                    runs: seq<AgentRun>)
    requires 1 <= c.minCalls <= c.windowSize && c.threshold <= 1.0
    requires b.state == Closed && |b.window| <= c.windowSize
    requires AllRaise(runs) && NotCached(entries, runs)
    requires |runs| >= c.minCalls && |runs| as real >= c.threshold * (c.windowSize as real)
    ensures OpensDuring(c, b, RunsEvents(c, b, entries, parses, runs))
  {
    hide Run, OpensDuring, Append, Recent, Trips, RunsCache, RunsEvents;
    var n := |runs| - 1;
    var before := RunsEvents(c, b, entries, parses, runs[..n]);
    OutagePilesUp(c, b, entries, parses, runs[..n]);
    if OpensDuring(c, b, before) {
      OpensDuringEarlier(c, b, entries, parses, runs);
    } else {
      RaisedRun(c, b, entries, parses, runs);
      AskAndBad(c, b, before, runs[n].asked, runs[n].answered);
      AppendIsRecent(c, b.window + Failing(n), false);
      assert b.window + Failing(n) + [false] == b.window + Failing(|runs|);
      RecentTrips(c, b.window, |runs|);
    }
  }

  // ----- A provider that works -----

  /** All replies have the expected shape, and so have the answers that are cached already. */
  ghost predicate AllUseful(entries: map<string, string>, parses: string -> bool, runs: seq<AgentRun>) {
    && (forall key | key in entries :: parses(entries[key]))
    && forall i | 0 <= i < |runs| :: runs[i].reply.Answered? && parses(runs[i].reply.text)
  }

  ghost predicate NoneBad(es: seq<Event>) {
    forall i | 0 <= i < |es| :: !es[i].Bad?
  }

  /** No failure is ever recorded, and only useful answers are cached. */
  lemma {:induction false} UsefulRunsEvents(c: Config, b: Breaker, entries: map<string, string>,
                                            parses: string -> bool, runs: seq<AgentRun>)
    requires Usable(c) && AllUseful(entries, parses, runs)
    ensures NoneBad(RunsEvents(c, b, entries, parses, runs))
    ensures forall key | key in RunsCache(c, b, entries, parses, runs) ::
      parses(RunsCache(c, b, entries, parses, runs)[key])
  {
    hide Run, Admits;
    if runs != [] {
      UsefulRunsEvents(c, b, entries, parses, runs[..|runs| - 1]);
    }
  }

  /** A provider that works is never cut off, whatever the breaker's limits: no agent run opens the
      circuit, be its answers fresh or cached. */
  lemma UsefulRunsNeverTrip(c: Config, b: Breaker, entries: map<string, string>,
                            parses: string -> bool, runs: seq<AgentRun>)
    requires Usable(c) && AllUseful(entries, parses, runs)
    ensures !OpensDuring(c, b, RunsEvents(c, b, entries, parses, runs))
  {
    hide RunsEvents, Run, RunsCache, OpensOnFailure;
    UsefulRunsEvents(c, b, entries, parses, runs);
  }

  // ----- One prompt again and again -----

  ghost predicate SamePrompt(runs: seq<AgentRun>, key: string) {
    forall i | 0 <= i < |runs| :: runs[i].key == key
  }

  /** The times at which the answers are judged, as failures. */
  function Judged(runs: seq<AgentRun>): seq<Event> {
    if runs == [] then [] else Judged(runs[..|runs| - 1]) + [Bad(runs[|runs| - 1].judged)]
  }

  lemma {:induction false} JudgedAreBad(runs: seq<AgentRun>)
    ensures AllBad(Judged(runs)) && |Judged(runs)| == |runs|
  {
    if runs != [] {
      JudgedAreBad(runs[..|runs| - 1]);
    }
  }

  lemma FirstPrompt(c: Config, b: Breaker, entries: map<string, string>, parses: string -> bool,
                    runs: seq<AgentRun>)
    requires Usable(c) && b.state == Closed && |runs| == 1 && runs[0].key !in entries
    requires runs[0].reply.Answered? && !parses(runs[0].reply.text)
    ensures RunsEvents(c, b, entries, parses, runs)
      == [Ask(runs[0].asked), Ok(runs[0].answered), Bad(runs[0].judged)] + Judged(runs[1..])
    ensures RunsCache(c, b, entries, parses, runs) == entries[runs[0].key := runs[0].reply.text]
  {
    hide Run;
    RunNothing(c, b);
    ClosedAdmits(c, b, runs[0].asked);
    assert runs[..0] == [];
    assert RunsEvents(c, b, entries, parses, []) == [] && RunsCache(c, b, entries, parses, []) == entries;
  }

  lemma CachedPrompt(c: Config, b: Breaker, entries: map<string, string>, parses: string -> bool,
                     runs: seq<AgentRun>, text: string)
    requires Usable(c) && runs != [] && !parses(text)
    requires var n := |runs| - 1;
      Lookup(RunsCache(c, b, entries, parses, runs[..n]), runs[n].key) == Some(text)
    ensures var n := |runs| - 1;
      && RunsEvents(c, b, entries, parses, runs)
         == RunsEvents(c, b, entries, parses, runs[..n]) + [Bad(runs[n].judged)]
      && RunsCache(c, b, entries, parses, runs) == RunsCache(c, b, entries, parses, runs[..n])
  {
    hide Run, Admits;
  }

  /** Only the first run calls the model; the others find its answer in the cache, and each of them
      records a failure all the same. */
  lemma {:induction false} RepeatedPromptEvents(c: Config, b: Breaker, entries: map<string, string>,
                                                parses: string -> bool, runs: seq<AgentRun>, key: string)
    requires Usable(c) && b.state == Closed && runs != []
    requires SamePrompt(runs, key) && key !in entries
    requires runs[0].reply.Answered? && !parses(runs[0].reply.text)
    ensures RunsEvents(c, b, entries, parses, runs)
      == [Ask(runs[0].asked), Ok(runs[0].answered), Bad(runs[0].judged)] + Judged(runs[1..])
    ensures RunsCache(c, b, entries, parses, runs) == entries[key := runs[0].reply.text]
  {
    hide RunsEvents, RunsCache;
    var n := |runs| - 1;
    var front := runs[..n];
    if n == 0 {
      FirstPrompt(c, b, entries, parses, runs);
    } else {
      RepeatedPromptEvents(c, b, entries, parses, front, key);
      CachedPrompt(c, b, entries, parses, runs, runs[0].reply.text);
      assert front[1..] == runs[1..][..n - 1] && runs[1..][n - 1] == runs[n];
      assert Judged(runs[1..]) == Judged(front[1..]) + [Bad(runs[n].judged)];
    }
  }

  lemma {:induction false} RunOfBoth(c: Config, b: Breaker, es: seq<Event>, fs: seq<Event>)
    requires Usable(c)
    ensures Run(c, b, es + fs) == Run(c, Run(c, b, es), fs)
  {
    hide Run, Step;
    if fs == [] {
      assert es + fs == es;
      RunNothing(c, Run(c, b, es));
    } else {
      var n := |fs| - 1;
      RunOfBoth(c, b, es, fs[..n]);
      RunSnoc(c, b, es + fs[..n], fs[n]);
      RunSnoc(c, Run(c, b, es), fs[..n], fs[n]);
      assert es + fs[..n] + [fs[n]] == es + fs && fs[..n] + [fs[n]] == fs;
    }
  }

  lemma OpensDuringSuffix(c: Config, b: Breaker, es: seq<Event>, fs: seq<Event>)
    requires Usable(c) && OpensDuring(c, Run(c, b, es), fs)
    ensures OpensDuring(c, b, es + fs)
  {
    hide Run, OpensOnFailure;
    var k :| 0 <= k < |fs| && OpensAt(c, Run(c, b, es), fs, k);
    RunOfBoth(c, b, es, fs[..k]);
    assert (es + fs)[..|es| + k] == es + fs[..k] && (es + fs)[|es| + k] == fs[k];
    assert OpensAt(c, b, es + fs, |es| + k);
  }

  /** A closed circuit stays in its bounds, and without a request it does not become half-open. */
  lemma AfterUselessAnswer(c: Config, b: Breaker, asked: real, answered: real, judged: real)
    requires Usable(c) && b.state == Closed && |b.window| <= c.windowSize
    ensures var after := Run(c, b, [Ask(asked), Ok(answered), Bad(judged)]);
      after.state != HalfOpen && |after.window| <= c.windowSize
  {
    hide Run, Trips;
    RunTwo(c, b, Ask(asked), Ok(answered));
    RunSnoc(c, b, [Ask(asked), Ok(answered)], Bad(judged));
    assert [Ask(asked), Ok(answered)] + [Bad(judged)] == [Ask(asked), Ok(answered), Bad(judged)];
  }

  /** One prompt that is always answered uselessly opens the circuit with a single call, after as
      many runs more as failures in a row would take. */
  lemma RepeatedPromptTrips(c: Config, b: Breaker, entries: map<string, string>,
                            parses: string -> bool, runs: seq<AgentRun>, key: string)
    requires 1 <= c.minCalls <= c.windowSize && c.threshold <= 1.0
    requires b.state == Closed && |b.window| <= c.windowSize && runs != []
    requires SamePrompt(runs, key) && key !in entries
    requires runs[0].reply.Answered? && !parses(runs[0].reply.text)
    requires |runs| > c.minCalls && (|runs| - 1) as real >= c.threshold * (c.windowSize as real)
    ensures OpensDuring(c, b, RunsEvents(c, b, entries, parses, runs))
  {
    hide RunsEvents, RunsCache, Run, OpensDuring, Judged;
    var first := [Ask(runs[0].asked), Ok(runs[0].answered), Bad(runs[0].judged)];
    RepeatedPromptEvents(c, b, entries, parses, runs, key);
    AfterUselessAnswer(c, b, runs[0].asked, runs[0].answered, runs[0].judged);
    JudgedAreBad(runs[1..]);
    FailuresTrip(c, Run(c, b, first), Judged(runs[1..]));
    OpensDuringSuffix(c, b, first, Judged(runs[1..]));
  }
}
