/** What the retry wrapper promises, stated over the reference definition
    `Helpers.Retry` (which `Helpers.Wrapper` is proved to compute): how many
    calls happen, which value or exception reaches the caller, and where the
    warnings and the sleeps fall in the trace. */
module RetryProperties {
  import opened Helpers

  /** The attempt numbers of the calls in a trace, in order. */
  function Calls(t: seq<Event>): (r: seq<nat>)
  {
    if t == [] then [] else (if t[0].Call? then [t[0].attempt] else []) + Calls(t[1..])
  }

  /** The attempt numbers carried by the warnings in a trace, in order. */
  function Warnings(t: seq<Event>): (r: seq<nat>)
  {
    if t == [] then [] else (if t[0].Warn? then [t[0].attempt] else []) + Warnings(t[1..])
  }

  /** The number of sleeps in a trace. */
  function Sleeps(t: seq<Event>): (r: nat)
  {
    if t == [] then 0 else (if t[0].Sleep? then 1 else 0) + Sleeps(t[1..])
  }

  /** lo, lo + 1, ..., hi - 1 */
  function Interval(lo: nat, hi: nat): (r: seq<nat>)
    ensures |r| == if lo <= hi then hi - lo else 0
    decreases hi - lo
  {
    if lo >= hi then [] else [lo] + Interval(lo + 1, hi)
  }

  /** Interval(lo, hi) followed by s starts with lo. */
  lemma IntervalCons(lo: nat, hi: nat, s: seq<nat>)
    requires lo < hi
    ensures Interval(lo, hi) + s == [lo] + (Interval(lo + 1, hi) + s)
  {
    assert Interval(lo, hi) == [lo] + Interval(lo + 1, hi);
  }

  /** Interval(lo, hi) followed by hi is Interval(lo, hi + 1). */
  lemma {:induction false} IntervalSnoc(lo: nat, hi: nat)
    requires lo <= hi
    ensures Interval(lo, hi) + [hi] == Interval(lo, hi + 1)
    decreases hi - lo
  {
    if lo < hi {
      IntervalSnoc(lo + 1, hi);
      assert [lo] + Interval(lo + 1, hi) + [hi] == [lo] + (Interval(lo + 1, hi) + [hi]);
    }
  }

  /** How each projection sees one event put in front of a trace. */
  lemma ConsProjections(e: Event, t: seq<Event>)
    ensures Calls([e] + t) == (if e.Call? then [e.attempt] else []) + Calls(t)
    ensures Warnings([e] + t) == (if e.Warn? then [e.attempt] else []) + Warnings(t)
    ensures Sleeps([e] + t) == (if e.Sleep? then 1 else 0) + Sleeps(t)
  {
    assert ([e] + t)[1..] == t;
  }

  /** The projections of a last attempt that returned or raised an
      exception the handler does not catch: its call alone. */
  lemma CallOnlyRound(a: nat)
    ensures Calls([Call(a)]) == [a] && Warnings([Call(a)]) == [] && Sleeps([Call(a)]) == 0
  {
    ConsProjections(Call(a), []);
    assert [Call(a)] + [] == [Call(a)];
  }

  /** The projections of a last attempt whose exception was caught: its call
      and its warning. */
  lemma WarnedRound(a: nat, w: Event)
    requires w.Warn? && w.attempt == a
    ensures Calls([Call(a), w]) == [a] && Warnings([Call(a), w]) == [a] && Sleeps([Call(a), w]) == 0
  {
    ConsProjections(w, []);
    ConsProjections(Call(a), [w]);
    assert [w] + [] == [w] && [Call(a)] + [w] == [Call(a), w];
  }

  /** The projections of one retried attempt: call, warning, sleep. */
  lemma RetriedRound(a: nat, w: Event, s: Event, t: seq<Event>)
    requires w.Warn? && w.attempt == a && s.Sleep?
    ensures Calls([Call(a), w, s] + t) == [a] + Calls(t)
    ensures Warnings([Call(a), w, s] + t) == [a] + Warnings(t)
    ensures Sleeps([Call(a), w, s] + t) == 1 + Sleeps(t)
  {
    ConsProjections(s, t);
    ConsProjections(w, [s] + t);
    ConsProjections(Call(a), [w] + ([s] + t));
    assert [Call(a), w, s] + t == [Call(a)] + ([w] + ([s] + t));
  }

  /** Attempts a .. k-1 all fail with a caught exception: the wrapper logs
      each one, sleeps after each one and carries on with attempt k. */
  lemma {:induction false} RetriedPrefix<V>(n: int, d: int, h: Handler, name: string, op: Operation<V>, a: nat, k: nat)
    requires 1 <= a <= k <= n
    requires SleepAccepts(d) || a == k
    requires forall i :: a <= i < k ==> Caught(op(i), h)
    ensures var whole := RunFrom(n, d, h, name, op, a);
            var tail := RunFrom(n, d, h, name, op, k);
            whole.result == tail.result &&
            Calls(whole.trace) == Interval(a, k) + Calls(tail.trace) &&
            Warnings(whole.trace) == Interval(a, k) + Warnings(tail.trace) &&
            Sleeps(whole.trace) == k - a + Sleeps(tail.trace)
    decreases k - a
  {
    if a < k {
      RetriedPrefix(n, d, h, name, op, a + 1, k);
      var e := op(a).error;
      var rest := RunFrom(n, d, h, name, op, a + 1);
      assert RunFrom(n, d, h, name, op, a).trace
          == [Call(a), Warn(name, a, e.message, d), Sleep(d)] + rest.trace;
      RetriedRound(a, Warn(name, a, e.message, d), Sleep(d), rest.trace);
      var tail := RunFrom(n, d, h, name, op, k);
      IntervalCons(a, k, Calls(tail.trace));
      IntervalCons(a, k, Warnings(tail.trace));
    } else {
      assert Interval(a, k) == [];
    }
  }

  /** An operation that fails with a caught exception on every attempt is
      called exactly `max_attempts` times, each failure is logged with its
      attempt number, the wrapper sleeps between attempts only, and the last
      exception reaches the caller unchanged. */
  lemma AlwaysFailing<V>(config: Config, h: Handler, name: string, op: Operation<V>)
    requires MaxAttempts(config) >= 1
    requires SleepAccepts(RetryDelay(config)) || MaxAttempts(config) == 1
    requires forall k :: 1 <= k <= MaxAttempts(config) ==> Caught(op(k), h)
    ensures var n := MaxAttempts(config);
            var run := Retry(config, h, name, op);
            run.result.Raised? && op(n) == Failure(run.result.error) &&
            Calls(run.trace) == Interval(1, n + 1) &&
            Warnings(run.trace) == Interval(1, n + 1) &&
            Sleeps(run.trace) == n - 1
  {
    var n, d := MaxAttempts(config), RetryDelay(config);
    RetriedPrefix(n, d, h, name, op, 1, n);
    assert Caught(op(n), h);
    var last := RunFrom(n, d, h, name, op, n);
    var w := Warn(name, n, op(n).error.message, d);
    assert last == Run(Raised(op(n).error), [Call(n), w]);
    WarnedRound(n, w);
    IntervalSnoc(1, n);
  }

  /** After k - 1 caught failures, the first attempt k <= max_attempts that
      returns ends the loop: the operation has been called exactly k times
      and its value is returned unchanged. */
  lemma SucceedsOnAttempt<V>(config: Config, h: Handler, name: string, op: Operation<V>, k: nat)
    requires 1 <= k <= MaxAttempts(config)
    requires SleepAccepts(RetryDelay(config)) || k == 1
    requires forall i :: 1 <= i < k ==> Caught(op(i), h)
    requires op(k).Success?
    ensures var run := Retry(config, h, name, op);
            run.result == Returned(op(k).value) &&
            Calls(run.trace) == Interval(1, k + 1) &&
            Warnings(run.trace) == Interval(1, k) &&
            Sleeps(run.trace) == k - 1
  {
    var n, d := MaxAttempts(config), RetryDelay(config);
    RetriedPrefix(n, d, h, name, op, 1, k);
    assert RunFrom(n, d, h, name, op, k).trace == [Call(k)];
    CallOnlyRound(k);
    IntervalSnoc(1, k);
    assert Interval(1, k) + [] == Interval(1, k);
  }

  /** An exception the handler does not catch propagates straight out of the
      call that raised it: no warning and no sleep follow that call, and no
      further attempt is made, whatever budget is left. */
  lemma NotCaughtEscapes<V>(config: Config, h: Handler, name: string, op: Operation<V>, k: nat)
    requires 1 <= k <= MaxAttempts(config)
    requires SleepAccepts(RetryDelay(config)) || k == 1
    requires forall i :: 1 <= i < k ==> Caught(op(i), h)
    requires op(k).Failure? && !Catches(h, op(k).error.kind)
    ensures var run := Retry(config, h, name, op);
            run.result == Raised(op(k).error) &&
            Calls(run.trace) == Interval(1, k + 1) &&
            Warnings(run.trace) == Interval(1, k) &&
            Sleeps(run.trace) == k - 1 &&
            run.trace[|run.trace| - 1] == Call(k)
  {
    var n, d := MaxAttempts(config), RetryDelay(config);
    RetriedPrefix(n, d, h, name, op, 1, k);
    assert RunFrom(n, d, h, name, op, k).trace == [Call(k)];
    CallOnlyRound(k);
    IntervalSnoc(1, k);
    assert Interval(1, k) + [] == Interval(1, k);
    LastOfRetried(n, d, h, name, op, 1, k);
  }

  /** The trace from attempt a ends where the trace from attempt k ends, when
      the attempts in between were all retried. */
  lemma {:induction false} LastOfRetried<V>(n: int, d: int, h: Handler, name: string, op: Operation<V>, a: nat, k: nat)
    requires 1 <= a <= k <= n
    requires SleepAccepts(d) || a == k
    requires forall i :: a <= i < k ==> Caught(op(i), h)
    ensures var whole := RunFrom(n, d, h, name, op, a).trace;
            var tail := RunFrom(n, d, h, name, op, k).trace;
            whole[|whole| - 1] == tail[|tail| - 1]
    decreases k - a
  {
    if a < k {
      LastOfRetried(n, d, h, name, op, a + 1, k);
    }
  }


  /** From attempt a on, the calls are numbered a, a + 1, ... without a gap
      and there are no more of them than the budget allows. */
  lemma {:induction false} CallNumbersFrom<V>(n: int, d: int, h: Handler, name: string, op: Operation<V>, a: nat)
    requires a >= 1
    ensures var c := |Calls(RunFrom(n, d, h, name, op, a).trace)|;
            Calls(RunFrom(n, d, h, name, op, a).trace) == Interval(a, a + c) &&
            (a <= n ==> 1 <= c <= n - a + 1) &&
            (a > n ==> c == 0)
    decreases if a <= n then n - a + 1 else 0
  {
    var run := RunFrom(n, d, h, name, op, a);
    if a > n {
      assert run.trace == [];
    } else if !Caught(op(a), h) {
      assert run.trace == [Call(a)];
      CallOnlyRound(a);
    } else if a == n || !SleepAccepts(d) {
      var w := Warn(name, a, op(a).error.message, d);
      assert run.trace == [Call(a), w];
      WarnedRound(a, w);
    } else {
      CallNumbersFrom(n, d, h, name, op, a + 1);
      var rest := RunFrom(n, d, h, name, op, a + 1);
      var w := Warn(name, a, op(a).error.message, d);
      assert run.trace == [Call(a), w, Sleep(d)] + rest.trace;
      RetriedRound(a, w, Sleep(d), rest.trace);
      var c := |Calls(rest.trace)|;
      assert Interval(a, a + 1 + c) == [a] + Interval(a + 1, a + 1 + c);
    }
  }

  /** From attempt a on, every call but the last one failed with a caught
      exception, and what the caller gets is decided by the last call alone:
      its value, its exception, or the error of a sleep that `time.sleep`
      refuses. */
  lemma {:induction false} LastCallFrom<V>(n: int, d: int, h: Handler, name: string, op: Operation<V>, a: nat)
    requires a >= 1
    ensures var run := RunFrom(n, d, h, name, op, a);
            var last := a + |Calls(run.trace)| - 1;
            (forall i :: a <= i < last ==> Caught(op(i), h)) &&
            (run.result.Returned? ==> op(last) == Success(run.result.value)) &&
            (run.result.Raised? ==>
               (op(last) == Failure(run.result.error) && (!Catches(h, run.result.error.kind) || last == n)) ||
               (!SleepAccepts(d) && run.result.error == SleepError(d) && Caught(op(last), h) && last < n))
    decreases if a <= n then n - a + 1 else 0
  {
    var run := RunFrom(n, d, h, name, op, a);
    if a > n {
    } else if op(a).Success? {
      assert run == Run(Returned(op(a).value), [Call(a)]);
      CallOnlyRound(a);
    } else if !Caught(op(a), h) {
      assert run == Run(Raised(op(a).error), [Call(a)]);
      CallOnlyRound(a);
    } else {
      var w := Warn(name, a, op(a).error.message, d);
      if a == n {
        assert run == Run(Raised(op(a).error), [Call(a), w]);
        WarnedRound(a, w);
      } else if !SleepAccepts(d) {
        assert run == Run(Raised(SleepError(d)), [Call(a), w]);
        WarnedRound(a, w);
      } else {
        LastCallFrom(n, d, h, name, op, a + 1);
        var rest := RunFrom(n, d, h, name, op, a + 1);
        assert run == Run(rest.result, [Call(a), w, Sleep(d)] + rest.trace);
        RetriedRound(a, w, Sleep(d), rest.trace);
        assert |Calls(run.trace)| == 1 + |Calls(rest.trace)|;
      }
    }
  }

  /** The calls the wrapper makes and the outcome its caller sees. */
  lemma CallsAndOutcome<V>(config: Config, h: Handler, name: string, op: Operation<V>)
    ensures var n, d := MaxAttempts(config), RetryDelay(config);
            var run := Retry(config, h, name, op);
            var c := |Calls(run.trace)|;
            Calls(run.trace) == Interval(1, c + 1) &&
            c <= (if n > 0 then n else 0) &&
            (n >= 1 ==> c >= 1) &&
            (forall i :: 1 <= i < c ==> Caught(op(i), h)) &&
            (run.result.Returned? ==> op(c) == Success(run.result.value)) &&
            (run.result.Raised? ==>
               (op(c) == Failure(run.result.error) && (!Catches(h, run.result.error.kind) || c == n)) ||
               (!SleepAccepts(d) && run.result.error == SleepError(d) && Caught(op(c), h) && c < n))
  {
    CallNumbersFrom(MaxAttempts(config), RetryDelay(config), h, name, op, 1);
    LastCallFrom(MaxAttempts(config), RetryDelay(config), h, name, op, 1);
  }

  /** A call is directly followed by a warning exactly when it failed with a
      caught exception, and every warning names the attempt of the call just
      before it, the operation, that call's exception message and the delay. */
  ghost predicate WarnsExactlyOnCaught<V>(t: seq<Event>, h: Handler, name: string, d: int, op: Operation<V>)
  {
    (forall j {:trigger t[j]} :: 0 <= j < |t| && t[j].Call? ==>
       (Caught(op(t[j].attempt), h) <==> j + 1 < |t| && t[j + 1].Warn?)) &&
    (forall j :: 0 <= j < |t| && t[j].Warn? ==>
       0 < j && t[j - 1] == Call(t[j].attempt) && Caught(op(t[j].attempt), h) &&
       t[j] == Warn(name, t[j].attempt, op(t[j].attempt).error.message, d))
  }

  /** Every sleep lasts the configured delay and sits between the warning for
      an attempt below the budget and the call of the next attempt. */
  ghost predicate SleepsOnlyBetweenAttempts(t: seq<Event>, n: int, d: int)
  {
    forall j :: 0 <= j < |t| && t[j].Sleep? ==>
      0 < j < |t| - 1 && t[j - 1].Warn? && t[j - 1].attempt < n &&
      t[j + 1] == Call(t[j - 1].attempt + 1) && t[j].seconds == d
  }

  /** Putting a retried attempt (call, warning, sleep) in front of a trace
      that starts with the next call keeps the warnings where they belong. */
  lemma WarnsAfterRound<V>(t: seq<Event>, rest: seq<Event>, a: nat, h: Handler, name: string, d: nat, op: Operation<V>)
    requires Caught(op(a), h)
    requires t == [Call(a), Warn(name, a, op(a).error.message, d), Sleep(d)] + rest
    requires |rest| > 0 && rest[0].Call?
    requires WarnsExactlyOnCaught(rest, h, name, d, op)
    ensures WarnsExactlyOnCaught(t, h, name, d, op)
  {
    forall j | 0 <= j < |t| && t[j].Call?
      ensures Caught(op(t[j].attempt), h) <==> j + 1 < |t| && t[j + 1].Warn?
    {
      if j >= 3 {
        var k := j - 3;
        assert t[j] == rest[k] && rest[k].Call?;
        assert Caught(op(rest[k].attempt), h) <==> k + 1 < |rest| && rest[k + 1].Warn?;
        if j + 1 < |t| { assert t[j + 1] == rest[k + 1]; }
      }
    }
    forall j | 0 <= j < |t| && t[j].Warn?
      ensures 0 < j && t[j - 1] == Call(t[j].attempt) && Caught(op(t[j].attempt), h) &&
              t[j] == Warn(name, t[j].attempt, op(t[j].attempt).error.message, d)
    {
      if j >= 4 {
        assert t[j] == rest[j - 3] && t[j - 1] == rest[j - 4];
      }
    }
  }

  /** The same for the sleeps, when the retried attempt a is below the budget
      and the trace behind it starts with the call of attempt a + 1. */
  lemma SleepsAfterRound(t: seq<Event>, rest: seq<Event>, a: nat, n: int, w: Event, d: nat)
    requires a < n && w.Warn? && w.attempt == a
    requires t == [Call(a), w, Sleep(d)] + rest
    requires |rest| > 0 && rest[0] == Call(a + 1)
    requires SleepsOnlyBetweenAttempts(rest, n, d)
    ensures SleepsOnlyBetweenAttempts(t, n, d)
  {
    forall j | 0 <= j < |t| && t[j].Sleep?
      ensures 0 < j < |t| - 1 && t[j - 1].Warn? && t[j - 1].attempt < n &&
              t[j + 1] == Call(t[j - 1].attempt + 1) && t[j].seconds == d
    {
      if j >= 4 {
        assert t[j] == rest[j - 3] && t[j - 1] == rest[j - 4];
        if j + 1 < |t| { assert t[j + 1] == rest[j - 2]; }
      }
    }
  }

  /** From attempt a on, warnings and sleeps sit where the two predicates
      above say. */
  lemma {:induction false} ShapeFrom<V>(n: int, d: int, h: Handler, name: string, op: Operation<V>, a: nat)
    requires a >= 1
    ensures var t := RunFrom(n, d, h, name, op, a).trace;
            WarnsExactlyOnCaught(t, h, name, d, op) && SleepsOnlyBetweenAttempts(t, n, d)
    decreases if a <= n then n - a + 1 else 0
  {
    var t := RunFrom(n, d, h, name, op, a).trace;
    if a > n {
      assert t == [];
    } else if !Caught(op(a), h) {
      assert t == [Call(a)];
    } else if a == n || !SleepAccepts(d) {
      assert t == [Call(a), Warn(name, a, op(a).error.message, d)];
    } else {
      ShapeFrom(n, d, h, name, op, a + 1);
      var rest := RunFrom(n, d, h, name, op, a + 1).trace;
      var w := Warn(name, a, op(a).error.message, d);
      assert t == [Call(a), w, Sleep(d)] + rest;
      WarnsAfterRound(t, rest, a, h, name, d, op);
      SleepsAfterRound(t, rest, a, n, w, d);
    }
  }

  /** Where the warnings and the sleeps fall in the wrapper's trace. */
  lemma WarningsAndSleeps<V>(config: Config, h: Handler, name: string, op: Operation<V>)
    ensures var t := Retry(config, h, name, op).trace;
            WarnsExactlyOnCaught(t, h, name, RetryDelay(config), op) &&
            SleepsOnlyBetweenAttempts(t, MaxAttempts(config), RetryDelay(config))
  {
    ShapeFrom(MaxAttempts(config), RetryDelay(config), h, name, op, 1);
  }

  /** A `retry_delay` that `time.sleep` refuses (negative, or too large for
      its clock): the first caught failure is logged, then the sleep's
      exception escapes the wrapper and no second call is made. */
  lemma RefusedDelay<V>(config: Config, h: Handler, name: string, op: Operation<V>)
    requires MaxAttempts(config) >= 2 && !SleepAccepts(RetryDelay(config))
    requires Caught(op(1), h)
    ensures Retry(config, h, name, op)
         == Run(Raised(SleepError(RetryDelay(config))), [Call(1), Warn(name, 1, op(1).error.message, RetryDelay(config))])
  {
  }

  // Worked examples: the decorated `make_request` of the HTTP tests under
  // concrete configurations and concrete failure patterns.

  const ConnectionReset := Error("ConnectionError", "connection reset by peer")
  const ReadTimeout := Error("Timeout", "read timed out")

  /** Raises ConnectionError on its first two calls, then returns 42. */
  function FlakyTwice(k: nat): Outcome<int>
  {
    if k <= 2 then Failure(ConnectionReset) else Success(42)
  }

  /** Raises ConnectionError on every call. */
  function AlwaysReset(k: nat): Outcome<int>
  {
    Failure(ConnectionReset)
  }

  /** Times out on every call. */
  function AlwaysTimesOut(k: nat): Outcome<int>
  {
    Failure(ReadTimeout)
  }

  /** max_attempts 3, retry_delay 0: two failures, then 42 on the third call. */
  lemma ThirdCallSucceeds()
    ensures var run := Retry(map[MaxAttemptsKey := 3, RetryDelayKey := 0], DefaultHandler, "make_request", FlakyTwice);
            run.result == Returned(42) && |Calls(run.trace)| == 3 && |Warnings(run.trace)| == 2
  {
    SucceedsOnAttempt(map[MaxAttemptsKey := 3, RetryDelayKey := 0], DefaultHandler, "make_request", FlakyTwice, 3);
  }

  /** max_attempts 1: a single call, whose ConnectionError is re-raised. */
  lemma SingleAttemptReraises()
    ensures var run := Retry(map[MaxAttemptsKey := 1], DefaultHandler, "make_request", AlwaysReset);
            run.result == Raised(ConnectionReset) && |Calls(run.trace)| == 1 && Sleeps(run.trace) == 0
  {
    AlwaysFailing(map[MaxAttemptsKey := 1], DefaultHandler, "make_request", AlwaysReset);
  }

  /** Nothing configured: three calls, two one-second sleeps, and the third
      timeout reaches the caller. */
  lemma DefaultsAllowThreeCalls()
    ensures var run := Retry(map[], DefaultHandler, "make_request", AlwaysTimesOut);
            run.result == Raised(ReadTimeout) && |Calls(run.trace)| == 3 && Sleeps(run.trace) == 2
  {
    AlwaysFailing(map[], DefaultHandler, "make_request", AlwaysTimesOut);
  }

  /** retry_delay -1: the first failure is logged, then `time.sleep`'s
      ValueError escapes; no second call. */
  lemma NegativeDelayRefused()
    ensures var run := Retry(map[RetryDelayKey := -1], DefaultHandler, "make_request", AlwaysReset);
            run.result == Raised(SleepLengthError) && |Calls(run.trace)| == 1 && Sleeps(run.trace) == 0
  {
    var config := map[RetryDelayKey := -1];
    RefusedDelay(config, DefaultHandler, "make_request", AlwaysReset);
    WarnedRound(1, Warn("make_request", 1, ConnectionReset.message, -1));
  }

  /** retry_delay 10^10 seconds does not fit `time.sleep`'s clock: the first
      failure is logged and the OverflowError escapes; no second call. */
  lemma OversizedDelayOverflows()
    ensures var run := Retry(map[RetryDelayKey := 10_000_000_000], DefaultHandler, "make_request", AlwaysReset);
            run.result == Raised(SleepOverflowError) && |Calls(run.trace)| == 1 && Sleeps(run.trace) == 0
  {
    var config := map[RetryDelayKey := 10_000_000_000];
    RefusedDelay(config, DefaultHandler, "make_request", AlwaysReset);
    WarnedRound(1, Warn("make_request", 1, ConnectionReset.message, 10_000_000_000));
  }

  /** A handler for ConnectionError only lets a timeout through at once. */
  lemma OtherKindEscapesAtOnce()
    ensures var run := Retry(map[], Kinds({"ConnectionError"}), "make_request", AlwaysTimesOut);
            run.result == Raised(ReadTimeout) && |Calls(run.trace)| == 1 && Warnings(run.trace) == []
  {
    NotCaughtEscapes(map[], Kinds({"ConnectionError"}), "make_request", AlwaysTimesOut, 1);
  }
}
