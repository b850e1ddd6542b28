/** The two places that feed the circuit breaker: the call itself and the use of its answer. */
module LlmCalls {
  import opened CircuitBreaker
  import opened BreakerRuns
  import opened BreakerTrips

  datatype Option<T> = None | Some(value: T)

  /** What the provider does with one call, its retries included. */
  datatype Reply = Answered(text: string) | Raised

  datatype CallResult = Text(text: string) | CircuitOpen | CallFailed

  /** Answers of calls at temperature 0, by the key made from model, prompts and budget. */
  class Cache {
    var entries: map<string, string>

    constructor ()
      ensures entries == map[]
    {
      entries := map[];
    }
  }

  /** The events that one call of the model records, and its result. */
  function CallEvents(admitted: bool, reply: Reply, asked: real, answered: real): seq<Event> {
    if !admitted then [Ask(asked)]
    else if reply.Raised? then [Ask(asked), Bad(answered)]
    else [Ask(asked), Ok(answered)]
  }

  lemma RunOne(c: Config, b: Breaker, e: Event)
    requires Usable(c)
    ensures Run(c, b, [e]) == Step(c, b, e)
  {
    hide Step;
    assert [] + [e] == [e];
    RunNothing(c, b);
    RunSnoc(c, b, [], e);
  }

  lemma RunTwo(c: Config, b: Breaker, e: Event, f: Event)
    requires Usable(c)
    ensures Run(c, b, [e, f]) == Step(c, Step(c, b, e), f)
  {
    hide Step;
    assert [e] + [f] == [e, f];
    RunOne(c, b, e);
    RunSnoc(c, b, [e], f);
  }

  /** The breaker after a call: a refused one records nothing, one that raises a failure, one that
      answers a success. */
  function AfterCall(c: Config, b: Breaker, reply: Reply, asked: real, answered: real): Breaker
    requires Usable(c)
  {
    if !Admits(c, b, asked) then b
    else Step(c, Step(c, b, Ask(asked)), if reply.Raised? then Bad(answered) else Ok(answered))
  }

  lemma RefusedCall(c: Config, b: Breaker, reply: Reply, asked: real, answered: real)
    requires Usable(c)
    ensures !Admits(c, b, asked) ==> AfterCall(c, b, reply, asked, answered) == b
  {
  }

  lemma CallIsRun(c: Config, b: Breaker, reply: Reply, asked: real, answered: real)
    requires Usable(c)
    ensures AfterCall(c, b, reply, asked, answered)
      == Run(c, b, CallEvents(Admits(c, b, asked), reply, asked, answered))
  {
    hide Run, Trips, Append;
    RunOne(c, b, Ask(asked));
    RunTwo(c, b, Ask(asked), Bad(answered));
    RunTwo(c, b, Ask(asked), Ok(answered));
  }

  /** `key` is None unless the temperature is 0. `reply` is what the provider would do. */
  method CallLlm(breaker: CircuitBreaker, cache: Cache, key: Option<string>, reply: Reply,
                 asked: real, answered: real)
    returns (r: CallResult)
    requires Usable(breaker.config)
    modifies breaker, cache
    ensures key.Some? && key.value in old(cache.entries) ==>
      r == Text(old(cache.entries)[key.value])
      && breaker.View() == old(breaker.View()) && cache.entries == old(cache.entries)
    ensures !(key.Some? && key.value in old(cache.entries)) ==>
      var admitted := Admits(breaker.config, old(breaker.View()), asked);
      && r == (if !admitted then CircuitOpen else if reply.Raised? then CallFailed else Text(reply.text))
      && breaker.View() == AfterCall(breaker.config, old(breaker.View()), reply, asked, answered)
      && cache.entries == if r.Text? && key.Some? then old(cache.entries)[key.value := reply.text]
                          else old(cache.entries)
  {
    hide Trips, Append;
    if key.Some? && key.value in cache.entries {
      return Text(cache.entries[key.value]);
    }
    var allowed := breaker.AllowRequest(asked);
    if !allowed {
      return CircuitOpen;
    }
    if reply.Raised? {
      breaker.RecordFailure(answered);
      return CallFailed;
    }
    breaker.RecordSuccess(answered);
    if key.Some? {
      cache.entries := cache.entries[key.value := reply.text];
    }
    return Text(reply.text);
  }

  /** The events of one agent run: those of the call, then one for the quality of the answer.
      An answer from the cache records its quality too. */
  function AgentEvents(blank: bool, cached: Option<string>, admitted: bool, reply: Reply,
                       parses: string -> bool, asked: real, answered: real, judged: real): seq<Event>
  {
    var judge := (text: string) => [if parses(text) then Ok(judged) else Bad(judged)];
    if blank then []
    else match cached
      case Some(text) => judge(text)
      case None =>
        CallEvents(admitted, reply, asked, answered)
        + if admitted && reply.Answered? then judge(reply.text) else []
  }

  /** The answer that is judged, if there is one. */
  function AnswerJudged(blank: bool, cached: Option<string>, admitted: bool, reply: Reply)
    : Option<string>
  {
    if blank then None
    else if cached.Some? then cached
    else if admitted && reply.Answered? then Some(reply.text)
    else None
  }

  /** An answer is kept under the key of its prompt. */
  function Remembered(entries: map<string, string>, key: string, text: Option<string>)
    : map<string, string>
  {
    if text.Some? then entries[key := text.value] else entries
  }

  function Lookup(entries: map<string, string>, key: string): Option<string> {
    if key in entries then Some(entries[key]) else None
  }

  lemma BlankIsNothing(c: Config, b: Breaker, reply: Reply, parses: string -> bool,
                       asked: real, answered: real, judged: real)
    requires Usable(c)
    ensures forall cached, admitted ::
      Run(c, b, AgentEvents(true, cached, admitted, reply, parses, asked, answered, judged)) == b
  {
    RunNothing(c, b);
  }

  /** The call first, if the answer is not cached, and then the judgement. */
  lemma AgentIsRun(c: Config, b: Breaker, cached: Option<string>, reply: Reply,
                   parses: string -> bool, asked: real, answered: real, judged: real)
    requires Usable(c)
    ensures var admitted := Admits(c, b, asked);
      var called := if cached.Some? then b else AfterCall(c, b, reply, asked, answered);
      var text := AnswerJudged(false, cached, admitted, reply);
      Run(c, b, AgentEvents(false, cached, admitted, reply, parses, asked, answered, judged))
      == if text.None? then called
         else Step(c, called, if parses(text.value) then Ok(judged) else Bad(judged))
  {
    hide Step, Admits, AfterCall, Run, CallEvents;
    var admitted := Admits(c, b, asked);
    var text := AnswerJudged(false, cached, admitted, reply);
    var before := if cached.Some? then [] else CallEvents(admitted, reply, asked, answered);
    RunNothing(c, b);
    CallIsRun(c, b, reply, asked, answered);
    if text.Some? {
      var judge := if parses(text.value) then Ok(judged) else Bad(judged);
      RunSnoc(c, b, before, judge);
      assert cached.Some? ==> before + [judge] == [judge];
    } else {
      assert before + [] == before;
    }
  }

  /** `blank` says that the file has no text; `parses`, that an answer has the expected shape.
      `text` is the answer that was judged. */
  method RunFindingAgent(breaker: CircuitBreaker, cache: Cache, blank: bool, key: string,
                         reply: Reply, parses: string -> bool,
                         asked: real, answered: real, judged: real)
    returns (text: Option<string>, succeeded: bool)
    requires Usable(breaker.config)
    modifies breaker, cache
    ensures var c, b, cached := breaker.config, old(breaker.View()), Lookup(old(cache.entries), key);
      blank || (cached.None? && !Admits(c, b, asked)) ==>
        breaker.View() == b && cache.entries == old(cache.entries)
    ensures var c, b, cached := breaker.config, old(breaker.View()), Lookup(old(cache.entries), key);
      && breaker.View()
         == Run(c, b, AgentEvents(blank, cached, Admits(c, b, asked), reply, parses,
                                  asked, answered, judged))
      && text == AnswerJudged(blank, cached, Admits(c, b, asked), reply)
      && succeeded == (blank || (text.Some? && parses(text.value)))
      && cache.entries == Remembered(old(cache.entries), key, text)
  {
    hide Step, Admits, AfterCall, Run, CallEvents, AgentEvents;
    if blank {
      BlankIsNothing(breaker.config, breaker.View(), reply, parses, asked, answered, judged);
      return None, true;
    }
    AgentIsRun(breaker.config, breaker.View(), Lookup(cache.entries, key), reply, parses,
               asked, answered, judged);
    RefusedCall(breaker.config, breaker.View(), reply, asked, answered);
    var r := CallLlm(breaker, cache, Some(key), reply, asked, answered);
    if !r.Text? {
      return None, false;
    }
    text := Some(r.text);
    succeeded := parses(r.text);
    if succeeded {
      breaker.RecordSuccess(judged);
    } else {
      breaker.RecordFailure(judged);
    }
  }

  // ----- A model that keeps answering uselessly -----

  /** One agent run, by the key of its prompt. */
  datatype AgentRun = AgentRun(key: string, reply: Reply, asked: real, answered: real, judged: real)

  /** The cache after agent runs one after the other. */
  ghost function RunsCache(c: Config, b: Breaker, entries: map<string, string>,
                           parses: string -> bool, runs: seq<AgentRun>): map<string, string>
    requires Usable(c)
  {
    if runs == [] then entries
    else
      var front, last := runs[..|runs| - 1], runs[|runs| - 1];
      var cache := RunsCache(c, b, entries, parses, front);
      var text := AnswerJudged(
        false, Lookup(cache, last.key),
        Admits(c, Run(c, b, RunsEvents(c, b, entries, parses, front)), last.asked), last.reply);
      Remembered(cache, last.key, text)
  }

  /** The events of agent runs one after the other. What each of them does depends on what the
      runs before it left in the breaker and in the cache. */
  ghost function RunsEvents(c: Config, b: Breaker, entries: map<string, string>,
                            parses: string -> bool, runs: seq<AgentRun>): seq<Event>
    requires Usable(c)
  {
    if runs == [] then []
    else
      var front, last := runs[..|runs| - 1], runs[|runs| - 1];
      var before := RunsEvents(c, b, entries, parses, front);
      before
      + AgentEvents(false, Lookup(RunsCache(c, b, entries, parses, front), last.key),
                    Admits(c, Run(c, b, before), last.asked), last.reply, parses,
                    last.asked, last.answered, last.judged)
  }

  /** No prompt has been asked before, neither in these runs nor earlier. */
  ghost predicate FreshPrompts(entries: map<string, string>, runs: seq<AgentRun>) {
    && (forall i | 0 <= i < |runs| :: runs[i].key !in entries)
    && forall i, j | 0 <= i < j < |runs| :: runs[i].key != runs[j].key
  }

  ghost predicate AllUseless(parses: string -> bool, runs: seq<AgentRun>) {
    forall i | 0 <= i < |runs| :: runs[i].reply.Answered? && !parses(runs[i].reply.text)
  }

  lemma {:induction false} OnlyAskedIsCached(c: Config, b: Breaker, entries: map<string, string>,
                                             parses: string -> bool, runs: seq<AgentRun>, key: string)
    requires Usable(c) && key in RunsCache(c, b, entries, parses, runs)
    ensures key in entries || exists i :: 0 <= i < |runs| && runs[i].key == key
  {
    hide Admits, AnswerJudged, Lookup;
    if runs != [] {
      var front, last := runs[..|runs| - 1], runs[|runs| - 1];
      assert runs == front + [last];
      if key == last.key {
        assert runs[|runs| - 1].key == key;
      } else {
        OnlyAskedIsCached(c, b, entries, parses, front, key);
        if i :| 0 <= i < |front| && front[i].key == key {
          assert runs[i].key == key;
        }
      }
    }
  }

  lemma NoAnswers()
    ensures IsUselessAnswers([], 0)
  {
  }

  lemma FreshKey(c: Config, b: Breaker, entries: map<string, string>, parses: string -> bool,
                 runs: seq<AgentRun>)
    requires Usable(c) && runs != [] && FreshPrompts(entries, runs)
    ensures var n := |runs| - 1;
      Lookup(RunsCache(c, b, entries, parses, runs[..n]), runs[n].key) == None
  {
    hide RunsCache;
    var n := |runs| - 1;
    assert forall i | 0 <= i < n :: runs[..n][i].key == runs[i].key;
    if runs[n].key in RunsCache(c, b, entries, parses, runs[..n]) {
      OnlyAskedIsCached(c, b, entries, parses, runs[..n], runs[n].key);
      assert false;
    }
  }

  lemma ClosedAdmits(c: Config, b: Breaker, now: real)
    requires b.state == Closed
    ensures Admits(c, b, now)
  {
  }

  /** A fresh prompt that is answered uselessly records an admission, a success and a failure. */
  lemma UselessAgentEvents(reply: Reply, parses: string -> bool,
                           asked: real, answered: real, judged: real)
    requires reply.Answered? && !parses(reply.text)
    ensures AgentEvents(false, None, true, reply, parses, asked, answered, judged)
      == [Ask(asked), Ok(answered), Bad(judged)]
  {
  }

  lemma OneMoreAnswer(es: seq<Event>, more: seq<Event>, n: nat)
    requires IsUselessAnswers(es, n) && |more| == 3
    requires more[0].Ask? && more[1].Ok? && more[2].Bad?
    ensures IsUselessAnswers(es + more, n + 1)
  {
    var all := es + more;
    forall i | 0 <= i < n + 1
      ensures all[3 * i].Ask? && all[3 * i + 1].Ok? && all[3 * i + 2].Bad?
    {
      if i < n {
        assert es[3 * i].Ask? && es[3 * i + 1].Ok? && es[3 * i + 2].Bad?;
      }
    }
  }

  lemma UselessStaysClosed(c: Config, b: Breaker, es: seq<Event>, n: nat)
    requires Usable(c) && IsUselessAnswers(es, n)
    requires b.state == Closed && |b.window| <= c.windowSize
    ensures OpensDuring(c, b, es) || Run(c, b, es).state == Closed
  {
    hide Run, OpensDuring, IsUselessAnswers;
    UselessPileUp(c, b, es, n);
  }

  /** Until something opens the circuit, agent runs with fresh prompts and useless replies record
      exactly the stream that BreakerTrips is about. */
  lemma {:induction false} UselessRunsEvents(c: Config, b: Breaker, entries: map<string, string>,
                                             parses: string -> bool, runs: seq<AgentRun>)
    requires Usable(c) && b.state == Closed && |b.window| <= c.windowSize
    requires FreshPrompts(entries, runs) && AllUseless(parses, runs)
    ensures var es := RunsEvents(c, b, entries, parses, runs);
      OpensDuring(c, b, es) || (IsUselessAnswers(es, |runs|) && Run(c, b, es).state == Closed)
  {
    hide Run, OpensDuring, Admits, AgentEvents, IsUselessAnswers;
    if runs == [] {
      RunNothing(c, b);
      NoAnswers();
    } else {
      var n := |runs| - 1;
      var front, last := runs[..n], runs[n];
      var before := RunsEvents(c, b, entries, parses, front);
      UselessRunsEvents(c, b, entries, parses, front);
      var cached := Lookup(RunsCache(c, b, entries, parses, front), last.key);
      var admitted := Admits(c, Run(c, b, before), last.asked);
      var more := AgentEvents(false, cached, admitted, last.reply, parses,
                              last.asked, last.answered, last.judged);
      assert RunsEvents(c, b, entries, parses, runs) == before + more;
      if OpensDuring(c, b, before) {
        assert (before + more)[..|before|] == before;
        OpensDuringPrefix(c, b, before + more, |before|);
      } else {
        FreshKey(c, b, entries, parses, runs);
        ClosedAdmits(c, Run(c, b, before), last.asked);
        UselessAgentEvents(last.reply, parses, last.asked, last.answered, last.judged);
        OneMoreAnswer(before, more, n);
        UselessStaysClosed(c, b, before + more, n + 1);
      }
    }
  }

  /** A model that answers every prompt and never usefully is cut off: if half of a window reaches
      the limit, which it does for every threshold of at most one half, then at most half a window
      of agent runs, rounded up, open a closed circuit. */
  lemma UselessRunsTrip(c: Config, b: Breaker, entries: map<string, string>,
                        parses: string -> bool, runs: seq<AgentRun>)
    requires 1 <= c.minCalls <= c.windowSize && HalfReaches(c)
    requires b.state == Closed && |b.window| <= c.windowSize
    requires FreshPrompts(entries, runs) && AllUseless(parses, runs)
    requires 2 * |runs| >= c.windowSize
    ensures OpensDuring(c, b, RunsEvents(c, b, entries, parses, runs))
  {
    hide OpensDuring, RunsEvents, IsUselessAnswers, HalfReaches, Run;
    var es := RunsEvents(c, b, entries, parses, runs);
    UselessRunsEvents(c, b, entries, parses, runs);
    if IsUselessAnswers(es, |runs|) {
      UselessAnswersTrip(c, b, es, |runs|);
    }
  }

  /** If it does not, a fresh breaker stays closed for any number of them. */
  lemma {:induction false} UselessRunsNeverTrip(c: Config, entries: map<string, string>,
                                                parses: string -> bool, runs: seq<AgentRun>)
    requires c.windowSize > 0 && !HalfReaches(c)
    requires FreshPrompts(entries, runs) && AllUseless(parses, runs)
    ensures var es := RunsEvents(c, FRESH, entries, parses, runs);
      IsUselessAnswers(es, |runs|) && !OpensDuring(c, FRESH, es)
  {
    hide OpensDuring, IsUselessAnswers, HalfReaches, Run, Admits, AgentEvents, Recent, Alternating;
    if runs == [] {
      NoAnswers();
    } else {
      var n := |runs| - 1;
      var front, last := runs[..n], runs[n];
      var before := RunsEvents(c, FRESH, entries, parses, front);
      UselessRunsNeverTrip(c, entries, parses, front);
      UselessAnswersNeverTrip(c, before, n);
      FreshKey(c, FRESH, entries, parses, runs);
      ClosedAdmits(c, Run(c, FRESH, before), last.asked);
      UselessAgentEvents(last.reply, parses, last.asked, last.answered, last.judged);
      OneMoreAnswer(before, [Ask(last.asked), Ok(last.answered), Bad(last.judged)], n);
    }
    UselessAnswersNeverTrip(c, RunsEvents(c, FRESH, entries, parses, runs), |runs|);
  }

  /** So for a fresh breaker half a window of them, or more, open it exactly in that case. */
  lemma UselessRunsTripExactlyWhen(c: Config, entries: map<string, string>,
                                   parses: string -> bool, runs: seq<AgentRun>)
    requires 1 <= c.minCalls <= c.windowSize
    requires FreshPrompts(entries, runs) && AllUseless(parses, runs)
    requires 2 * |runs| >= c.windowSize
    ensures OpensDuring(c, FRESH, RunsEvents(c, FRESH, entries, parses, runs)) <==> HalfReaches(c)
  {
    hide OpensDuring, RunsEvents, HalfReaches, FreshPrompts, AllUseless;
    if HalfReaches(c) {
      UselessRunsTrip(c, FRESH, entries, parses, runs);
    } else {
      UselessRunsNeverTrip(c, entries, parses, runs);
    }
  }

  /** The events of agent runs that all find `text` in the cache. */
  function RepeatedEvents(text: string, parses: string -> bool, reply: Reply, times: seq<real>)
    : seq<Event>
  {
    if times == [] then []
    else
      var t := times[|times| - 1];
      RepeatedEvents(text, parses, reply, times[..|times| - 1])
      + AgentEvents(false, Some(text), true, reply, parses, t, t, t)
  }

  lemma {:induction false} RepeatedAreBad(text: string, parses: string -> bool, reply: Reply,
                                          times: seq<real>)
    requires !parses(text)
    ensures AllBad(RepeatedEvents(text, parses, reply, times))
    ensures |RepeatedEvents(text, parses, reply, times)| == |times|
  {
    if times != [] {
      RepeatedAreBad(text, parses, reply, times[..|times| - 1]);
    }
  }

  /** The same prompt again is served from the cache and records a failure alone, without any
      call; so `n` repetitions of one useless answer open the circuit like `n` failed calls. */
  lemma RepeatedUselessAnswerTrips(c: Config, b: Breaker, text: string, parses: string -> bool,
                                   reply: Reply, times: seq<real>)
    requires 1 <= c.minCalls <= c.windowSize && c.threshold <= 1.0
    requires b.state != HalfOpen && |b.window| <= c.windowSize && !parses(text)
    requires |times| >= c.minCalls && |times| as real >= c.threshold * (c.windowSize as real)
    ensures OpensDuring(c, b, RepeatedEvents(text, parses, reply, times))
  {
    hide AgentEvents, OpensDuring;
    RepeatedAreBad(text, parses, reply, times);
    FailuresTrip(c, b, RepeatedEvents(text, parses, reply, times));
  }
}
