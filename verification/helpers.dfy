/** The retry wrapper of the test harness's helper class (`Helpers.retry`).

    `retry(exceptions)` is a decorator factory: the decorator wraps an
    operation, and every call of the wrapper reads `max_attempts` and
    `retry_delay` from the helper's configuration, then calls the operation
    for attempt 1, 2, ... until it returns, raises an exception the handler
    does not catch, or fails on the last allowed attempt.  Here the three
    curried layers are flattened into the parameters of `Retry` (the
    reference definition) and `Wrapper` (the loop), and the side effects of
    each attempt (the call, the warning, the sleep) are recorded in a trace.
*/
module Helpers {

  /** The name of an exception class, e.g. "ConnectionError". */
  type Kind = string

  /** An exception raised by the wrapped operation: its class and `str(e)`. */
  datatype Error = Error(kind: Kind, message: string)

  /** What one call of the wrapped operation does: return a value or raise. */
  datatype Outcome<V> = Success(value: V) | Failure(error: Error)

  /** The wrapped operation, applied to its fixed arguments, seen as a script
      indexed by attempt number: `op(k)` is what the k-th call (k >= 1)
      returns or raises; `op(0)` is never consulted. */
  type Operation<V> = nat -> Outcome<V>

  /** The `exceptions` tuple given to `retry`: the default `(Exception,)`
      catches every failure, otherwise only the listed kinds are caught. */
  datatype Handler = AnyException | Kinds(kinds: set<Kind>)

  const DefaultHandler: Handler := AnyException

  predicate Catches(h: Handler, k: Kind)
  {
    match h
    case AnyException => true
    case Kinds(ks) => k in ks
  }

  /** A failure that the wrapper's `except` clause catches. */
  predicate Caught<V>(o: Outcome<V>, h: Handler)
  {
    o.Failure? && Catches(h, o.error.kind)
  }

  /** The helper's configuration, as far as the wrapper reads it. */
  type Config = map<string, int>

  const MaxAttemptsKey := "max_attempts"
  const RetryDelayKey := "retry_delay"
  const DefaultMaxAttempts := 3
  const DefaultRetryDelay := 1

  /** `config.get('max_attempts', 3)` */
  function MaxAttempts(config: Config): (n: int)
    ensures MaxAttemptsKey in config ==> n == config[MaxAttemptsKey]
    ensures MaxAttemptsKey !in config ==> n == DefaultMaxAttempts
  {
    if MaxAttemptsKey in config then config[MaxAttemptsKey] else DefaultMaxAttempts
  }

  /** `config.get('retry_delay', 1)`, in seconds */
  function RetryDelay(config: Config): (d: int)
    ensures RetryDelayKey in config ==> d == config[RetryDelayKey]
    ensures RetryDelayKey !in config ==> d == DefaultRetryDelay
  {
    if RetryDelayKey in config then config[RetryDelayKey] else DefaultRetryDelay
  }

  /** CPython's `time.sleep` first converts the delay to a signed 64-bit
      count of nanoseconds, so a whole number of seconds fits only when its
      magnitude is at most (2^63 - 1) / 10^9, rounded down. */
  const MaxSleepSeconds := 9_223_372_036

  /** What `time.sleep` raises when the delay does not fit that clock. */
  const SleepOverflowError := Error("OverflowError", "timestamp too large to convert to C _PyTime_t")

  /** What `time.sleep` raises when asked to sleep a negative time. */
  const SleepLengthError := Error("ValueError", "sleep length must be non-negative")

  /** `time.sleep(d)` sleeps, rather than raising. */
  predicate SleepAccepts(d: int)
  {
    0 <= d <= MaxSleepSeconds
  }

  /** The exception `time.sleep(d)` raises for a delay it refuses: the
      conversion is checked before the sign. */
  function SleepError(d: int): (e: Error)
    requires !SleepAccepts(d)
    ensures d > MaxSleepSeconds || d < -MaxSleepSeconds ==> e == SleepOverflowError
    ensures -MaxSleepSeconds <= d < 0 ==> e == SleepLengthError
  {
    if d > MaxSleepSeconds || d < -MaxSleepSeconds then SleepOverflowError else SleepLengthError
  }

  /** The observable side effects of the wrapper, in the order they happen. */
  datatype Event =
    | Call(attempt: nat)                                         // the operation is called
    | Warn(name: string, attempt: nat, message: string, delay: int)  // logger.warning(...)
    | Sleep(seconds: nat)                                        // time.sleep(delay) returned

  /** What the caller of the wrapper observes. */
  datatype Result<V> =
    | Returned(value: V)   // the operation's return value, passed through
    | Raised(error: Error) // an exception propagates out of the wrapper
    | ReturnedNone         // the loop ran out without returning: Python's implicit None

  datatype Run<V> = Run(result: Result<V>, trace: seq<Event>)

  /** The wrapper's behaviour from `attempt` on, for the budget `n` and the
      delay `d` it read from the configuration. */
  function RunFrom<V>(n: int, d: int, h: Handler, name: string, op: Operation<V>, attempt: nat): (run: Run<V>)
    requires attempt >= 1
    ensures run.result.ReturnedNone? <==> attempt > n
    ensures attempt > n ==> run.trace == []
    ensures attempt <= n ==> |run.trace| > 0 && run.trace[0] == Call(attempt)
    decreases if attempt <= n then n - attempt + 1 else 0
  {
    if attempt > n then Run(ReturnedNone, [])
    else
      var outcome := op(attempt);
      if outcome.Success? then Run(Returned(outcome.value), [Call(attempt)])
      else if !Catches(h, outcome.error.kind) then Run(Raised(outcome.error), [Call(attempt)])
      else
        var warning := Warn(name, attempt, outcome.error.message, d);
        if attempt == n then Run(Raised(outcome.error), [Call(attempt), warning])
        else if !SleepAccepts(d) then Run(Raised(SleepError(d)), [Call(attempt), warning])
        else
          var rest := RunFrom(n, d, h, name, op, attempt + 1);
          Run(rest.result, [Call(attempt), warning, Sleep(d)] + rest.trace)
  }

  /** One call of `retry(exceptions)(func)` named `name`, under the
      configuration current at the time of the call. */
  function Retry<V>(config: Config, h: Handler, name: string, op: Operation<V>): (run: Run<V>)
    ensures run.result.ReturnedNone? <==> MaxAttempts(config) <= 0
    ensures MaxAttempts(config) <= 0 ==> run.trace == []
    ensures MaxAttempts(config) >= 1 ==> |run.trace| > 0 && run.trace[0] == Call(1)
  {
    RunFrom(MaxAttempts(config), RetryDelay(config), h, name, op, 1)
  }

  /** The wrapper's loop, step by step, accumulating the side effects. */
  method Wrapper<V>(config: Config, h: Handler, name: string, op: Operation<V>)
    returns (result: Result<V>, trace: seq<Event>)
    ensures Run(result, trace) == Retry(config, h, name, op)
  {
    var n := MaxAttempts(config);
    var delay := RetryDelay(config);
    ghost var whole := Retry(config, h, name, op);
    trace := [];
    var attempt: nat := 1;
    while attempt <= n
      invariant attempt >= 1
      invariant whole.result == RunFrom(n, delay, h, name, op, attempt).result
      invariant whole.trace == trace + RunFrom(n, delay, h, name, op, attempt).trace
      decreases n - attempt
    {
      ghost var step := RunFrom(n, delay, h, name, op, attempt);
      var outcome := op(attempt);
      match outcome
      case Success(v) =>
        assert step == Run(Returned(v), [Call(attempt)]);
        trace := trace + [Call(attempt)];
        result := Returned(v);
        return;
      case Failure(e) =>
        if !Catches(h, e.kind) {
          assert step == Run(Raised(e), [Call(attempt)]);
          trace := trace + [Call(attempt)];
          result := Raised(e);
          return;
        }
        var warning := Warn(name, attempt, e.message, delay);
        if attempt == n {
          assert step == Run(Raised(e), [Call(attempt), warning]);
          trace := trace + [Call(attempt), warning];
          result := Raised(e);
          return;
        }
        if !SleepAccepts(delay) {
          assert step == Run(Raised(SleepError(delay)), [Call(attempt), warning]);
          trace := trace + [Call(attempt), warning];
          result := Raised(SleepError(delay));
          return;
        }
        ghost var rest := RunFrom(n, delay, h, name, op, attempt + 1);
        var round := [Call(attempt), warning, Sleep(delay)];
        assert step == Run(rest.result, round + rest.trace);
        assert trace + (round + rest.trace) == (trace + round) + rest.trace;
        trace := trace + round;
        attempt := attempt + 1;
    }
    result := ReturnedNone;
  }
}
