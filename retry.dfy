/** The retry policy that wraps the post and comment fetches: retry transient
    failures with exponential backoff and jitter, then translate the final
    error. The wrapped function is given as the outcome of each attempt,
    the random jitter as a value in [0, 1] per attempt, and every sleep is
    recorded in a trace instead of being slept. */
module Retry {
  import opened Wrappers
  import opened Text
  import opened ErrorHandler

  /** max_retries, base_delay and max_delay (seconds) of one wrapped function. */
  datatype Policy = Policy(maxRetries: int, baseDelay: real, maxDelay: real)

  /** The decorator's defaults, used for both fetch functions. */
  const DefaultPolicy: Policy := Policy(3, 2.0, 30.0)

  /** Which function is wrapped: it decides how a final library error is translated. */
  datatype Operation = FetchPost | FetchComments | OtherOperation(name: string)

  function OperationName(op: Operation): string {
    match op
    case FetchPost => "fetch_post_data"
    case FetchComments => "fetch_comments_data"
    case OtherOperation(name) => name
  }

  /** What one call of the wrapped function does: return a value or raise. */
  datatype Attempt<T> = Returns(value: T) | Raises(error: Error)

  /** The outcome of the wrapper: what it returns or raises, how many times it
      called the wrapped function, and the delays it slept, in order. */
  datatype Run<T> = Run(result: Result<T, Error>, attempts: nat, sleeps: seq<real>)

  function Min(a: real, b: real): real {
    if a <= b then a else b
  }

  /** The text of the error mentions an HTTP 401 or 403 status. */
  predicate MentionsAuthFailure(e: Error) {
    Contains(e.message, "401") || Contains(e.message, "403")
  }

  /** The error that leaves the wrapper once it stops retrying. A library
      (PRAW) error mentioning 401 or 403 becomes an authentication error; any
      other library error becomes the retrieval error of the wrapped fetch;
      everything else is raised unchanged. A translated error keeps the
      original as its cause and repeats its text. */
  function FinalError(e: Error, op: Operation): (r: Error)
    ensures IsPrawException(e.cls) && MentionsAuthFailure(e) ==> r.cls == Extractor(Authentication)
    ensures IsPrawException(e.cls) && !MentionsAuthFailure(e) && op == FetchPost ==> r.cls == Extractor(PostRetrieval)
    ensures IsPrawException(e.cls) && !MentionsAuthFailure(e) && op == FetchComments ==> r.cls == Extractor(CommentRetrieval)
    ensures (!IsPrawException(e.cls) || (!MentionsAuthFailure(e) && op.OtherOperation?)) ==> r == e
    ensures r != e ==> r.cause == Some(e) && r.status == None && Contains(r.message, e.message)
  {
    var name := OperationName(op);
    if IsPrawException(e.cls) && MentionsAuthFailure(e) then
      var text := "Authentication failed during " + name + ": ";
      ContainsAt(text + e.message, e.message, |text|);
      Error(Extractor(Authentication), text + e.message, None, Some(e))
    else if IsPrawException(e.cls) && op == FetchPost then
      var text := "API error in " + name + ": ";
      ContainsAt(text + e.message, e.message, |text|);
      Error(Extractor(PostRetrieval), text + e.message, None, Some(e))
    else if IsPrawException(e.cls) && op == FetchComments then
      var text := "API error in " + name + ": ";
      ContainsAt(text + e.message, e.message, |text|);
      Error(Extractor(CommentRetrieval), text + e.message, None, Some(e))
    else
      e
  }

  /** The delay to sleep after a failed attempt: the current delay plus a
      jitter of `u` times a tenth of it (`u` in [0, 1]), capped at max_delay. */
  function SleepFor(p: Policy, delay: real, u: real): real {
    Min(delay + u * (delay * 0.1), p.maxDelay)
  }

  /** The wrapper's behaviour from the state (retries, current_delay) on. */
  function RunFrom<T>(p: Policy, op: Operation, call: nat -> Attempt<T>, rand: nat -> real,
                      retries: nat, delay: real): Run<T>
    decreases if p.maxRetries > retries then p.maxRetries - retries else 0
  {
    match call(retries)
    case Returns(v) => Run(Success(v), retries + 1, [])
    case Raises(e) =>
      if retries >= p.maxRetries || !IsRetryable(e) then
        Run(Failure(FinalError(e, op)), retries + 1, [])
      else
        var rest := RunFrom(p, op, call, rand, retries + 1, Min(delay * 2.0, p.maxDelay));
        rest.(sleeps := [SleepFor(p, delay, rand(retries))] + rest.sleeps)
  }

  /** The wrapper's behaviour on a fresh call. */
  function RunAll<T>(p: Policy, op: Operation, call: nat -> Attempt<T>, rand: nat -> real): Run<T> {
    RunFrom(p, op, call, rand, 0, p.baseDelay)
  }

  /** A run with earlier sleeps put in front of its trace. */
  function AfterSleeps<T>(earlier: seq<real>, r: Run<T>): Run<T> {
    r.(sleeps := earlier + r.sleeps)
  }

  /** One step of the wrapper: a retryable failure with retries left sleeps
      once and continues from the next state. */
  lemma RetryStep<T>(p: Policy, op: Operation, call: nat -> Attempt<T>, rand: nat -> real,
                     retries: nat, delay: real, earlier: seq<real>)
    requires call(retries).Raises? && retries < p.maxRetries && IsRetryable(call(retries).error)
    ensures AfterSleeps(earlier, RunFrom(p, op, call, rand, retries, delay))
         == AfterSleeps(earlier + [SleepFor(p, delay, rand(retries))],
                        RunFrom(p, op, call, rand, retries + 1, Min(delay * 2.0, p.maxDelay)))
  {
    var rest := RunFrom(p, op, call, rand, retries + 1, Min(delay * 2.0, p.maxDelay));
    assert earlier + ([SleepFor(p, delay, rand(retries))] + rest.sleeps)
        == (earlier + [SleepFor(p, delay, rand(retries))]) + rest.sleeps;
  }

  /** The last step of the wrapper: a return, or a failure that is not
      retried, ends the run with the trace slept so far. */
  lemma RunStops<T>(p: Policy, op: Operation, call: nat -> Attempt<T>, rand: nat -> real,
                    retries: nat, delay: real, earlier: seq<real>)
    requires call(retries).Raises? ==> retries >= p.maxRetries || !IsRetryable(call(retries).error)
    ensures call(retries).Returns? ==>
      AfterSleeps(earlier, RunFrom(p, op, call, rand, retries, delay))
        == Run(Success(call(retries).value), retries + 1, earlier)
    ensures call(retries).Raises? ==>
      AfterSleeps(earlier, RunFrom(p, op, call, rand, retries, delay))
        == Run(Failure(FinalError(call(retries).error, op)), retries + 1, earlier)
  {
    assert earlier + [] == earlier;
  }

  /** The wrapper itself: attempt, and on a retryable failure with retries
      left, sleep, count the retry and double the delay. */
  method RetryWithBackoff<T>(p: Policy, op: Operation, call: nat -> Attempt<T>, rand: nat -> real)
    returns (result: Result<T, Error>, attempts: nat, sleeps: seq<real>)
    ensures Run(result, attempts, sleeps) == RunAll(p, op, call, rand)
  {
    var retries: nat := 0;
    var currentDelay := p.baseDelay;
    sleeps := [];
    assert AfterSleeps([], RunAll(p, op, call, rand)) == RunAll(p, op, call, rand);
    while true
      invariant RunAll(p, op, call, rand) == AfterSleeps(sleeps, RunFrom(p, op, call, rand, retries, currentDelay))
      decreases if p.maxRetries > retries then p.maxRetries - retries else 0
    {
      var outcome := call(retries);
      if outcome.Returns? {
        result, attempts := Success(outcome.value), retries + 1;
        RunStops(p, op, call, rand, retries, currentDelay, sleeps);
        return;
      }
      var e := outcome.error;
      if retries >= p.maxRetries || !IsRetryable(e) {
        result, attempts := Failure(FinalError(e, op)), retries + 1;
        RunStops(p, op, call, rand, retries, currentDelay, sleeps);
        return;
      }
      var jitter := rand(retries) * (currentDelay * 0.1);
      var actualDelay := Min(currentDelay + jitter, p.maxDelay);
      assert actualDelay == SleepFor(p, currentDelay, rand(retries));
      RetryStep(p, op, call, rand, retries, currentDelay, sleeps);
      sleeps := sleeps + [actualDelay];
      retries := retries + 1;
      currentDelay := Min(currentDelay * 2.0, p.maxDelay);
    }
  }

  /** The current delay after `n` retries that started from `delay`. */
  function DelayAfter(p: Policy, delay: real, n: nat): real {
    if n == 0 then delay else Min(DelayAfter(p, delay, n - 1) * 2.0, p.maxDelay)
  }

  /** The current delay before retry number `n` of a fresh call. */
  function DelayAt(p: Policy, n: nat): real {
    DelayAfter(p, p.baseDelay, n)
  }

  function Pow2(n: nat): (r: real)
    ensures r >= 1.0
  {
    if n == 0 then 1.0 else 2.0 * Pow2(n - 1)
  }

  /** What every run looks like: attempts are numbered from `retries`; all but
      the last raised a retryable error and were followed by one sleep each;
      the last attempt decides the result; and retrying never goes past
      max_retries. */
  lemma {:induction false} RunShape<T>(p: Policy, op: Operation, call: nat -> Attempt<T>, rand: nat -> real,
                                       retries: nat, delay: real)
    ensures var r := RunFrom(p, op, call, rand, retries, delay);
      && r.attempts > retries
      && |r.sleeps| == r.attempts - 1 - retries
      && (r.attempts - 1 <= p.maxRetries || r.attempts - 1 == retries)
      && (forall i :: retries <= i < r.attempts - 1 ==> call(i).Raises? && IsRetryable(call(i).error))
      && (r.result.Success? ==> call(r.attempts - 1) == Returns(r.result.value))
      && (r.result.Failure? ==>
            && call(r.attempts - 1).Raises?
            && r.result.error == FinalError(call(r.attempts - 1).error, op)
            && (r.attempts - 1 >= p.maxRetries || !IsRetryable(call(r.attempts - 1).error)))
    decreases if p.maxRetries > retries then p.maxRetries - retries else 0
  {
    match call(retries)
    case Returns(v) =>
    case Raises(e) =>
      if retries < p.maxRetries && IsRetryable(e) {
        RunShape(p, op, call, rand, retries + 1, Min(delay * 2.0, p.maxDelay));
      }
  }

  /** An operation that always fails with a retryable error is attempted
      exactly max_retries + 1 times with max_retries sleeps, and the last
      error leaves the wrapper (translated). */
  lemma AlwaysRetryableFailure<T>(p: Policy, op: Operation, call: nat -> Attempt<T>, rand: nat -> real)
    requires p.maxRetries >= 0
    requires forall i :: call(i).Raises? && IsRetryable(call(i).error)
    ensures var r := RunAll(p, op, call, rand);
      && r.attempts == p.maxRetries + 1
      && |r.sleeps| == p.maxRetries
      && r.result == Failure(FinalError(call(p.maxRetries).error, op))
  {
    RunShape(p, op, call, rand, 0, p.baseDelay);
  }

  /** A first attempt that returns is the wrapper's result, with no sleep. */
  lemma FirstSuccess<T>(p: Policy, op: Operation, call: nat -> Attempt<T>, rand: nat -> real)
    requires call(0).Returns?
    ensures RunAll(p, op, call, rand) == Run(Success(call(0).value), 1, [])
  {
  }

  /** A non-retryable first error leaves the wrapper at once, with no sleep. */
  lemma NonRetryableFailsAtOnce<T>(p: Policy, op: Operation, call: nat -> Attempt<T>, rand: nat -> real)
    requires call(0).Raises? && !IsRetryable(call(0).error)
    ensures RunAll(p, op, call, rand) == Run(Failure(FinalError(call(0).error, op)), 1, [])
  {
  }

  /** One retryable failure followed by a success: two attempts, one sleep. */
  lemma FailOnceThenSucceed<T>(p: Policy, op: Operation, call: nat -> Attempt<T>, rand: nat -> real)
    requires p.maxRetries >= 1
    requires call(0).Raises? && IsRetryable(call(0).error) && call(1).Returns?
    ensures RunAll(p, op, call, rand)
         == Run(Success(call(1).value), 2, [SleepFor(p, p.baseDelay, rand(0))])
  {
    var r1 := RunFrom(p, op, call, rand, 1, Min(p.baseDelay * 2.0, p.maxDelay));
    assert r1 == Run(Success(call(1).value), 2, []);
  }

  /** Sleep number `i` of a run started in state (retries, delay) uses the
      delay reached after `i` doublings and the jitter of that attempt. */
  lemma {:induction false} SleepTraceFrom<T>(p: Policy, op: Operation, call: nat -> Attempt<T>, rand: nat -> real,
                                            retries: nat, delay: real)
    ensures var r := RunFrom(p, op, call, rand, retries, delay);
      forall i :: 0 <= i < |r.sleeps| ==> r.sleeps[i] == SleepFor(p, DelayAfter(p, delay, i), rand(retries + i))
    decreases if p.maxRetries > retries then p.maxRetries - retries else 0
  {
    match call(retries)
    case Returns(v) =>
    case Raises(e) =>
      if retries < p.maxRetries && IsRetryable(e) {
        var d2 := Min(delay * 2.0, p.maxDelay);
        var rest := RunFrom(p, op, call, rand, retries + 1, d2);
        SleepTraceFrom(p, op, call, rand, retries + 1, d2);
        var r := RunFrom(p, op, call, rand, retries, delay);
        assert r.sleeps == [SleepFor(p, delay, rand(retries))] + rest.sleeps;
        forall i | 0 <= i < |r.sleeps|
          ensures r.sleeps[i] == SleepFor(p, DelayAfter(p, delay, i), rand(retries + i))
        {
          if i > 0 {
            assert r.sleeps[i] == rest.sleeps[i - 1];
            assert rest.sleeps[i - 1] == SleepFor(p, DelayAfter(p, d2, i - 1), rand(retries + 1 + (i - 1)));
            DelayAfterShift(p, delay, i - 1);
          }
        }
      }
  }

  /** Doubling from the doubled delay is doubling once more. */
  lemma {:induction false} DelayAfterShift(p: Policy, delay: real, n: nat)
    ensures DelayAfter(p, Min(delay * 2.0, p.maxDelay), n) == DelayAfter(p, delay, n + 1)
  {
    if n > 0 {
      DelayAfterShift(p, delay, n - 1);
    }
  }

  /** Every sleep of a fresh call is min(current_delay + jitter, max_delay). */
  lemma SleepTrace<T>(p: Policy, op: Operation, call: nat -> Attempt<T>, rand: nat -> real)
    ensures var r := RunAll(p, op, call, rand);
      forall i :: 0 <= i < |r.sleeps| ==> r.sleeps[i] == SleepFor(p, DelayAt(p, i), rand(i))
  {
    SleepTraceFrom(p, op, call, rand, 0, p.baseDelay);
  }

  /** The backoff in closed form: the delay before retry `n` is
      min(base_delay * 2^n, max_delay) once the first retry has happened, and
      base_delay itself before it. */
  lemma {:induction false} DelayClosedForm(p: Policy, n: nat)
    requires 0.0 <= p.baseDelay && 0.0 <= p.maxDelay
    ensures n > 0 ==> DelayAt(p, n) == Min(p.baseDelay * Pow2(n), p.maxDelay)
    ensures DelayAt(p, 0) == p.baseDelay
  {
    assert DelayAfter(p, p.baseDelay, 0) == p.baseDelay;
    if n == 1 {
      assert Pow2(1) == 2.0;
      assert DelayAt(p, 1) == Min(p.baseDelay * 2.0, p.maxDelay);
    } else if n > 1 {
      var m: nat := n - 1;
      DelayClosedForm(p, m);
      assert DelayAt(p, m) == Min(p.baseDelay * Pow2(m), p.maxDelay);
      var x := p.baseDelay * Pow2(m);
      assert p.baseDelay * Pow2(n) == x * 2.0;
      ScaledNonNegative(p.baseDelay, Pow2(m));
      assert DelayAt(p, n - 1) == Min(x, p.maxDelay);
      assert DelayAt(p, n) == Min(DelayAt(p, n - 1) * 2.0, p.maxDelay);
      if x > p.maxDelay {
        // capped already: doubling the cap is capped again
        assert DelayAt(p, n - 1) == p.maxDelay;
        assert x * 2.0 > p.maxDelay;
      }
    }
  }

  lemma ScaledNonNegative(a: real, b: real)
    requires 0.0 <= a && 1.0 <= b
    ensures 0.0 <= a * b
  {
  }

  /** With non-negative delays and jitter draws in [0, 1], every sleep lies
      between min(current_delay, max_delay) and max_delay. */
  lemma SleepBounds<T>(p: Policy, op: Operation, call: nat -> Attempt<T>, rand: nat -> real)
    requires 0.0 <= p.baseDelay && 0.0 <= p.maxDelay
    requires forall i :: 0.0 <= rand(i) <= 1.0
    ensures var r := RunAll(p, op, call, rand);
      forall i :: 0 <= i < |r.sleeps| ==>
        Min(DelayAt(p, i), p.maxDelay) <= r.sleeps[i] <= p.maxDelay
  {
    SleepTrace(p, op, call, rand);
    var r := RunAll(p, op, call, rand);
    forall i | 0 <= i < |r.sleeps|
      ensures Min(DelayAt(p, i), p.maxDelay) <= r.sleeps[i] <= p.maxDelay
    {
      DelayNonNegative(p, p.baseDelay, i);
      SleepForBounds(p, DelayAt(p, i), rand(i));
    }
  }

  lemma SleepForBounds(p: Policy, delay: real, u: real)
    requires 0.0 <= delay && 0.0 <= u
    ensures Min(delay, p.maxDelay) <= SleepFor(p, delay, u) <= p.maxDelay
  {
    assert 0.0 <= delay * 0.1;
    assert 0.0 <= u * (delay * 0.1);
  }

  lemma {:induction false} DelayNonNegative(p: Policy, delay: real, n: nat)
    requires 0.0 <= delay && 0.0 <= p.maxDelay
    ensures 0.0 <= DelayAfter(p, delay, n)
  {
    if n > 0 {
      DelayNonNegative(p, delay, n - 1);
    }
  }
}
