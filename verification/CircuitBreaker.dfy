/** The circuit breaker in front of the language model. */
module CircuitBreaker {

  datatype State = Closed | Open | HalfOpen

  /** Sizes and limits are fixed when the breaker is made. */
  datatype Config = Config(windowSize: nat, minCalls: int, threshold: real, cooldown: real)

  const DEFAULTS := Config(10, 5, 0.5, 60.0)

  /** With neither a window nor a minimum the failure rate would be a division by zero. */
  predicate Usable(c: Config) {
    c.windowSize > 0 || c.minCalls > 0
  }

  /** The fields of a breaker: `window` holds the latest outcomes, true for a success. */
  datatype Breaker = Breaker(state: State, openedAt: real, window: seq<bool>)

  const FRESH := Breaker(Closed, 0.0, [])

  // ----- Outcomes -----

  function Failures(outcomes: seq<bool>): (n: nat)
    ensures n <= |outcomes|
  {
    if outcomes == [] then 0
    else Failures(outcomes[..|outcomes| - 1]) + if outcomes[|outcomes| - 1] then 0 else 1
  }

  /** The last `n` outcomes, or all of them when there are fewer. */
  function Recent(outcomes: seq<bool>, n: nat): seq<bool> {
    if |outcomes| <= n then outcomes else outcomes[|outcomes| - n..]
  }

  /** Appending to a `deque` of bounded length drops the oldest entry when it is full. */
  function Append(c: Config, window: seq<bool>, ok: bool): seq<bool> {
    if c.windowSize == 0 then []
    else if |window| < c.windowSize then window + [ok]
    else window[1 + |window| - c.windowSize..] + [ok]
  }

  /** Enough outcomes, and too large a share of failures among them. */
  predicate Trips(c: Config, window: seq<bool>)
    requires window != [] || c.minCalls > 0
  {
    && |window| >= c.minCalls
    && (Failures(window) as real) / (|window| as real) >= c.threshold
  }

  // ----- The three operations -----

  /** `Ask` is a call of `allow_request`; `Ok` and `Bad` record an outcome. Each at a clock time. */
  datatype Event = Ask(now: real) | Ok(now: real) | Bad(now: real)

  predicate Admits(c: Config, b: Breaker, now: real) {
    b.state != Open || now - b.openedAt >= c.cooldown
  }

  predicate OpensOnFailure(c: Config, b: Breaker)
    requires Usable(c)
  {
    b.state == HalfOpen || Trips(c, Append(c, b.window, false))
  }

  function Step(c: Config, b: Breaker, e: Event): Breaker
    requires Usable(c)
  {
    match e
    case Ask(now) =>
      if b.state == Open && Admits(c, b, now) then b.(state := HalfOpen) else b
    case Ok(_) =>
      if b.state == HalfOpen then Breaker(Closed, b.openedAt, [])
      else b.(window := Append(c, b.window, true))
    case Bad(now) =>
      if OpensOnFailure(c, b) then Breaker(Open, now, [])
      else b.(window := Append(c, b.window, false))
  }

  function Run(c: Config, b: Breaker, es: seq<Event>): Breaker
    requires Usable(c)
  {
    if es == [] then b else Step(c, Run(c, b, es[..|es| - 1]), es[|es| - 1])
  }

  lemma RunSnoc(c: Config, b: Breaker, es: seq<Event>, e: Event)
    requires Usable(c)
    ensures Run(c, b, es + [e]) == Step(c, Run(c, b, es), e)
  {
    assert (es + [e])[..|es|] == es;
  }

  // ----- The object -----

  class CircuitBreaker {
    const config: Config
    var state: State
    var openedAt: real
    var window: seq<bool>

    ghost function View(): Breaker
      reads this
    {
      Breaker(state, openedAt, window)
    }

    constructor (config: Config)
      ensures View() == FRESH && this.config == config
    {
      this.config := config;
      state, openedAt, window := Closed, 0.0, [];
    }

    method AllowRequest(now: real) returns (allowed: bool)
      requires Usable(config)
      modifies this
      ensures allowed == Admits(config, old(View()), now)
      ensures View() == Step(config, old(View()), Ask(now))
    {
      if state != Open {
        return true;
      }
      if now - openedAt >= config.cooldown {
        state := HalfOpen;
        return true;
      }
      return false;
    }

    method RecordSuccess(ghost now: real)
      requires Usable(config)
      modifies this
      ensures View() == Step(config, old(View()), Ok(now))
    {
      window := Append(config, window, true);
      if state == HalfOpen {
        state := Closed;
        window := [];
      }
    }

    method RecordFailure(now: real)
      requires Usable(config)
      modifies this
      ensures View() == Step(config, old(View()), Bad(now))
    {
      window := Append(config, window, false);
      if state == HalfOpen {
        OpenCircuit(now);
        return;
      }
      if |window| >= config.minCalls {
        var failed := CountFailures();
        var failureRate := (failed as real) / (|window| as real);
        if failureRate >= config.threshold {
          OpenCircuit(now);
        }
      }
    }

    method OpenCircuit(now: real)
      modifies this
      ensures View() == Breaker(Open, now, [])
    {
      state, openedAt, window := Open, now, [];
    }

    /** `window.count(False)` */
    method CountFailures() returns (n: nat)
      ensures n == Failures(window)
    {
      n := 0;
      for i := 0 to |window|
        invariant n == Failures(window[..i])
      {
        assert window[..i + 1][..i] == window[..i];
        if !window[i] {
          n := n + 1;
        }
      }
      assert window[..|window|] == window;
    }

    method Reset()
      modifies this
      ensures View() == FRESH
    {
      window, state, openedAt := [], Closed, 0.0;
    }
  }
}
