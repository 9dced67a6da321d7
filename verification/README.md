# Retry wrapper of the HTTP API test harness, in Dafny

The test harness wraps each HTTP request in a retry decorator,
`Helpers.retry(exceptions=(Exception,))` (utilities/helpers.py). A call of the
decorated function reads `max_attempts` (default 3) and `retry_delay`
(default 1) from the helper's configuration. It then calls the operation
for attempt 1, 2, ..., `max_attempts`:

- a return ends the loop with that value;
- an exception whose kind is not in `exceptions` escapes at once;
- a caught exception is logged as a warning with the attempt number. On the
  last attempt it is re-raised unchanged; otherwise the wrapper sleeps
  `retry_delay` seconds and tries again.

With `max_attempts <= 0` the loop body never runs and the wrapper returns `None`.

The model has two modules:

- `Helpers` (helpers.dfy) holds the data model. An exception is an `Error`
  (kind, message); one call of the operation gives an `Outcome`. The operation
  is an `Operation`: a script indexed by attempt number, where `op(k)` is what
  the k-th call returns or raises. The `exceptions` tuple is a `Handler`, and
  the configuration is a `Config` map. `RunFrom` and `Retry` are the
  reference definition of one wrapped call. They return the result the caller
  sees (`Returned`, `Raised` or `ReturnedNone`) and a trace of the side
  effects in order: `Call(attempt)`, `Warn(name, attempt, message, delay)` and
  `Sleep(seconds)`. `Wrapper` is the loop itself, written as a method with
  early returns, and it is proved to produce exactly `Retry`'s result and trace.
- `RetryProperties` (retry_properties.dfy) proves what the wrapper promises:
  the call counts, which value or exception comes back, where warnings and
  sleeps fall, and the behaviour at the edge cases. It ends with worked
  examples on the decorated `make_request` of the HTTP tests.

Behaviours of the code that are easy to miss:

- A warning is logged for every caught failure, including the last one
  before the re-raise, and not only for the failures that are retried.
- `max_attempts <= 0` is accepted: the operation is never called and the
  wrapper returns `None`. It is not rejected or clamped to 1.
- By default everything derived from `Exception` is caught, so an
  `AssertionError` raised inside the operation is retried too.
- A negative `retry_delay` is not a shorter pause. `time.sleep` raises
  `ValueError("sleep length must be non-negative")` after the first caught
  failure that is not on the last attempt. That error escapes the wrapper,
  because it is raised in the `except` clause, outside the `try`.
- A `retry_delay` too large for CPython's clock escapes the same way. The
  clock is a signed 64-bit count of nanoseconds, so the limit is
  `MaxSleepSeconds` = 9223372036 seconds. Beyond it, `time.sleep` raises
  `OverflowError`, and it checks this before the sign, so a delay below
  -9223372036 raises `OverflowError` too.
- In both cases the model records `Raised(SleepError(d))` with no `Sleep`
  event. `SleepError(d)` is the exception `time.sleep` raises for delay `d`.

## Model

| member | source | states |
|---|---|---|
| `Helpers.MaxAttempts` | utilities/helpers.py:24 | the budget is the configured `max_attempts` when the key is present and 3 when it is missing |
| `Helpers.RetryDelay` | utilities/helpers.py:25 | the delay is the configured `retry_delay` when the key is present and 1 when it is missing |
| `Helpers.RunFrom` | utilities/helpers.py:26-36 | the loop from a given attempt on falls through to `None` exactly when that attempt is past the budget, with an empty trace; otherwise its first effect is the call of that attempt |
| `Helpers.SleepError` | utilities/helpers.py:35 | `time.sleep` refuses a delay outside 0..9223372036 seconds: `OverflowError` when the delay does not fit the 64-bit nanosecond clock (checked first), `ValueError` for the remaining negative delays |
| `Helpers.Retry` | utilities/helpers.py:23-36 | a wrapped call falls through the loop to the implicit `None` (`ReturnedNone`) exactly when `max_attempts <= 0`, and then the operation is never called and nothing is logged or slept; otherwise the first effect is the call of attempt 1 |
| `Helpers.Wrapper` | utilities/helpers.py:23-36 | the loop (call, return on success, let uncaught kinds escape, warn, re-raise on the last attempt, sleep, next attempt) returns exactly the result and the trace of `Retry` |
| `RetryProperties.RetriedPrefix` | utilities/helpers.py:26-35 | if attempts a..k-1 all fail with caught exceptions, each one adds one call, one warning with its attempt number and one sleep, and the outcome is that of attempt k |
| `RetryProperties.AlwaysFailing` | utilities/helpers.py:26-34 | an operation that always fails with a caught exception is called exactly N = `max_attempts` times, numbered 1..N; it logs N warnings numbered 1..N and sleeps N-1 times; the N-th call's exception is re-raised unchanged |
| `RetryProperties.SucceedsOnAttempt` | utilities/helpers.py:26-28 | after k-1 caught failures, a success on attempt k <= N gives exactly k calls, k-1 warnings and k-1 sleeps, and returns that call's value unchanged |
| `RetryProperties.NotCaughtEscapes` | utilities/helpers.py:26-29 | an exception of a kind the handler does not catch, raised on attempt k, propagates unchanged right after that call: k calls, no warning or sleep for it, whatever budget remains |
| `RetryProperties.CallNumbersFrom` | utilities/helpers.py:26 | from attempt a on, the calls are numbered a, a+1, ... without gaps, and there are between 1 and N-a+1 of them when a <= N, none otherwise |
| `RetryProperties.LastCallFrom` | utilities/helpers.py:26-35 | from attempt a on, every call but the last failed with a caught exception. A return passes on the last call's value. A raise is the last call's own exception, either uncaught or on attempt N, or else the exception of a `time.sleep` that refuses the delay, after a caught failure before attempt N |
| `RetryProperties.CallsAndOutcome` | utilities/helpers.py:24-36 | for every configuration, handler and operation, the calls are numbered 1..c with c <= max(N, 0), and c >= 1 when N >= 1. All calls before the c-th failed with caught exceptions, and what the caller gets is decided by the c-th call alone |
| `RetryProperties.ShapeFrom` | utilities/helpers.py:29-35 | from attempt a on, a warning directly follows a call exactly when that call's failure was caught, and every sleep sits between a warning below the budget and the next call |
| `RetryProperties.WarningsAndSleeps` | utilities/helpers.py:29-35 | in every trace, each caught failure gets exactly one warning, right after its call, with the attempt number, the operation's name, the exception message and the delay. Each sleep lasts the configured delay and falls between the warning for an attempt a < N and the call of attempt a+1, never after the last attempt |
| `RetryProperties.RefusedDelay` | utilities/helpers.py:25-35 | with a delay `time.sleep` refuses (negative, or beyond its clock) and a budget of at least 2, a caught failure on attempt 1 is logged, then the sleep's `ValueError` or `OverflowError` escapes with no further call |
| `RetryProperties.NegativeDelayRefused` | utilities/helpers.py:25-35 | with `retry_delay` -1, one call, no sleep, and the `ValueError` of `time.sleep` reaches the caller |
| `RetryProperties.OversizedDelayOverflows` | utilities/helpers.py:25-35 | with `retry_delay` 10^10, one call, no sleep, and the `OverflowError` of `time.sleep` reaches the caller |
| `RetryProperties.ThirdCallSucceeds` | utilities/helpers.py:26-35 | with `max_attempts` 3 and `retry_delay` 0, an operation that fails twice and then returns 42 gives 42 after 3 calls and 2 warnings |
| `RetryProperties.SingleAttemptReraises` | utilities/helpers.py:26-34 | with `max_attempts` 1, a ConnectionError is re-raised after a single call and no sleep |
| `RetryProperties.DefaultsAllowThreeCalls` | utilities/helpers.py:24-35 | with nothing configured, an operation that always times out is called 3 times and sleeps twice, and the third timeout is re-raised |
| `RetryProperties.OtherKindEscapesAtOnce` | utilities/helpers.py:19-29 | a handler for ConnectionError only lets a timeout through after one call, with no warning |

## Left out

- `Helpers.load_config` (utilities/helpers.py:14-17) reads and parses a YAML file, which is I/O. The configuration is a parameter of every wrapped call. This also captures that the wrapper reads it on each call, not at decoration time.
- Configuration values are integers of any size. A float `retry_delay` (fractional seconds, with its own rounding and range limits in `time.sleep`) and non-numeric values (which make `max_attempts + 1` raise `TypeError`) are not modelled. A huge `max_attempts` is harmless in Python (`range` takes any int), and the model gives it the same meaning.
- `SleepOverflowError` uses the CPython 3.8-3.12 wording of the `OverflowError` message. 3.13 says `PyTime_t`. Platform limits on the sleep length other than the 64-bit nanosecond clock are not modelled.
- `ReturnedNone` marks only the loop's fall-through. An operation that itself returns `None` gives `Returned(None)`. Python callers cannot tell these two apart, because both are the value `None`.
- `generate_random_query_params`, `generate_random_headers` and `generate_random_json_data` (utilities/helpers.py:39-49) are not modelled. They wrap the Faker library, whose output is random.
- Logging setup and message formatting (utilities/helpers.py:10-11, 31) are not modelled. A warning is recorded with its fields (function name, attempt, `str(e)`, delay) instead of the formatted text. The text says "Retrying in ... seconds" even on the last attempt, when no retry follows.
- `time.sleep` is not modelled as real time. It is a `Sleep` event in the trace; elapsed time is not modelled.
- The exception class hierarchy and `isinstance` matching are not modelled. Matching is membership of a kind in a set, and the default `(Exception,)` is "catch every kind". Exceptions outside `Exception`, such as `KeyboardInterrupt`, are therefore not distinguished.
- The operation's arguments (`*args`, `**kwargs`) and `functools.wraps` metadata are not modelled. The operation is taken already applied to its arguments, as a script of outcomes indexed by attempt number.
- The three curried layers (`retry` returns `decorator`, which returns `wrapper`) are flattened into the parameters of `Retry` and `Wrapper`.
- tests/test_httpbin.py is not modelled: it makes live HTTP requests and checks their responses. Only its use of the decorator (tests/test_httpbin.py:10-15) appears, in the worked examples.
- conftest.py is not modelled: it holds pytest fixtures and the HTTP session lifecycle.
