/** The library's two retry designs.

    - `retry(count, suppress)` in `utilities/execution.py`: a decorator whose wrapper
      runs `for i in range(count + 1)` and returns the first value that does not raise.
    - `sync_retry_supress` / `async_retry_supress` (three copies of the same code): the
      call is wrapped in tenacity's `retry(stop=stop_after_attempt(retries_count),
      reraise=True)`, and an outer `try` logs the surviving exception at debug level
      and then re-raises it or returns `None`.

    The wrapped function is given by `call`: `call(i)` is what its (i+1)-th invocation
    does, return or raise. */
module Retrying {
  import opened Builtins

  /** One use of a wrapper: what it returns (`Ok(None)` is a returned `None`) or
      raises, how many times the wrapped function was invoked, and the exceptions
      written to the debug log. */
  datatype Reply<O, E> = Reply(result: Outcome<Option<O>, E>, calls: nat, log: seq<E>)

  // ---------------------------------------------------------------------------
  // retry(count, suppress) — utilities/execution.py

  /** The loop `for i in range(count + 1)` of the wrapper, from iteration `i` on:
      a value returned by the call is returned at once; an exception is swallowed
      while `i < count`; on the last iteration it is re-raised unless `suppress`,
      in which case the loop ends and the wrapper returns `None`. */
  function RetryLoop<O, E>(count: int, suppress: bool, call: nat -> Outcome<O, E>, i: nat): (r: Reply<O, E>)
    ensures r.log == []
    ensures i <= r.calls <= Max(i, count + 1)
    ensures i <= count ==> r.calls > i
    ensures i > count ==> r == Reply(Ok(None), i, [])
    ensures forall j :: i <= j < r.calls - 1 ==> call(j).Raise?
    ensures r.calls > i && call(r.calls - 1).Ok? ==> r.result == Ok(Some(call(r.calls - 1).value))
    ensures r.calls > i && call(r.calls - 1).Raise? ==>
              r.calls == count + 1 && r.result == (if suppress then Ok(None) else Raise(call(count).error))
    decreases Max(0, count + 1 - i)
  {
    if i > count then Reply(Ok(None), i, [])
    else
      match call(i)
      case Ok(v) => Reply(Ok(Some(v)), i + 1, [])
      case Raise(e) =>
        if i < count then RetryLoop(count, suppress, call, i + 1)
        else if suppress then Reply(Ok(None), i + 1, [])
        else Reply(Raise(e), i + 1, [])
  }

  /** The wrapper produced by `retry(count, suppress)(func)`, called once. */
  method Retry<O, E>(count: int, suppress: bool, call: nat -> Outcome<O, E>) returns (r: Reply<O, E>)
    ensures r == RetryLoop(count, suppress, call, 0)
  {
    var i := 0;
    while i <= count
      invariant 0 <= i
      invariant RetryLoop(count, suppress, call, i) == RetryLoop(count, suppress, call, 0)
      decreases count - i
    {
      var outcome := call(i);
      if outcome.Ok? {
        return Reply(Ok(Some(outcome.value)), i + 1, []);
      }
      if i == count && !suppress {
        return Reply(Raise(outcome.error), i + 1, []);
      }
      i := i + 1;
    }
    r := Reply(Ok(None), i, []);
  }

  // ---------------------------------------------------------------------------
  // sync_retry_supress / async_retry_supress — utilities/core/utils.py,
  // utilities/retries.py, utilities/exec/retries.py

  /** The settings the decorators read from the configuration object, passed
      explicitly: the attempt bound, the (equal) minimum and maximum backoff wait,
      and whether a surviving exception is swallowed. */
  datatype RetryConfig = RetryConfig(retriesCount: int, retryMinWait: real, suppressError: bool)

  /** The defaults of `RequestConfig` in `utilities/config.py`. */
  const DefaultConfig := RetryConfig(5, 0.5, true)

  /** Tenacity's attempt loop from attempt `i` (0-based) on: the call is made; a value
      ends the loop; an exception ends it when the 1-based attempt number has reached
      `stopAfter` (the stop test `stop_after_attempt` is consulted only after an
      attempt, so one attempt is always made), and otherwise the next attempt follows. */
  datatype Attempts<O, E> = Attempts(last: Outcome<O, E>, calls: nat)

  function TenacityLoop<O, E>(stopAfter: int, call: nat -> Outcome<O, E>, i: nat): (a: Attempts<O, E>)
    ensures i < a.calls <= Max(i + 1, stopAfter)
    ensures a.last == call(a.calls - 1)
    ensures forall j :: i <= j < a.calls - 1 ==> call(j).Raise?
    ensures a.last.Raise? ==> a.calls == Max(i + 1, stopAfter)
    decreases Max(0, stopAfter - i)
  {
    match call(i)
    case Ok(v) => Attempts(Ok(v), i + 1)
    case Raise(e) =>
      if i + 1 >= stopAfter then Attempts(Raise(e), i + 1)
      else TenacityLoop(stopAfter, call, i + 1)
  }

  /** `inner(...)` of `sync_retry_supress`: with `reraise=True` tenacity re-raises the
      last attempt's own exception; the outer `except` logs it and re-raises it
      unchanged, or returns `None` when `suppressError` is set. */
  function RetrySuppress<O, E>(config: RetryConfig, call: nat -> Outcome<O, E>): (r: Reply<O, E>)
    ensures 1 <= r.calls <= Max(1, config.retriesCount)
    ensures forall j :: 0 <= j < r.calls - 1 ==> call(j).Raise?
    ensures call(r.calls - 1).Ok? ==> r.result == Ok(Some(call(r.calls - 1).value)) && r.log == []
    ensures call(r.calls - 1).Raise? ==>
              && r.calls == Max(1, config.retriesCount)
              && r.log == [call(r.calls - 1).error]
              && r.result == (if config.suppressError then Ok(None) else Raise(call(r.calls - 1).error))
  {
    var a := TenacityLoop(config.retriesCount, call, 0);
    match a.last
    case Ok(v) => Reply(Ok(Some(v)), a.calls, [])
    case Raise(e) => Reply(if config.suppressError then Ok(None) else Raise(e), a.calls, [e])
  }

  /** An operation that fails `m` times and then succeeds, under a bound above `m`,
      is called exactly `m + 1` times and its value is returned, with nothing logged. */
  lemma SucceedsAfterFailures<O, E>(config: RetryConfig, call: nat -> Outcome<O, E>, m: nat)
    requires m < config.retriesCount
    requires forall j :: 0 <= j < m ==> call(j).Raise?
    requires call(m).Ok?
    ensures RetrySuppress(config, call) == Reply(Ok(Some(call(m).value)), m + 1, [])
  {
  }

  /** With the default configuration an operation that always raises is called five
      times; the caller gets `None` and one debug log entry. */
  lemma DefaultConfigAlwaysFailing<O, E>(call: nat -> Outcome<O, E>)
    requires forall j :: call(j).Raise?
    ensures RetrySuppress(DefaultConfig, call) == Reply(Ok(None), 5, [call(4).error])
  {
  }

  /** For `count >= 0` the two designs agree: `retry(count, suppress)` behaves as the
      tenacity wrapper bounded at `count + 1` attempts, except that it logs nothing.
      For `count < 0` they part: `retry` never calls the function, tenacity calls it once. */
  lemma {:induction false} CountedRetryMatchesTenacity<O, E>(count: int, suppress: bool, call: nat -> Outcome<O, E>, wait: real)
    ensures var counted := RetryLoop(count, suppress, call, 0);
            var tenacity := RetrySuppress(RetryConfig(count + 1, wait, suppress), call);
            if count >= 0 then counted.result == tenacity.result && counted.calls == tenacity.calls
            else counted.calls == 0 && tenacity.calls == 1
  {
    if count >= 0 {
      LoopsAgree(count, suppress, call, 0);
    }
  }

  lemma {:induction false} LoopsAgree<O, E>(count: int, suppress: bool, call: nat -> Outcome<O, E>, i: nat)
    requires i <= count
    ensures var counted := RetryLoop(count, suppress, call, i);
            var a := TenacityLoop(count + 1, call, i);
            && counted.calls == a.calls
            && counted.result == match a.last
                                 case Ok(v) => Ok(Some(v))
                                 case Raise(e) => if suppress then Ok(None) else Raise(e)
    decreases count - i
  {
    match call(i)
    case Ok(v) =>
      assert RetryLoop(count, suppress, call, i) == Reply(Ok(Some(v)), i + 1, []);
      assert TenacityLoop(count + 1, call, i) == Attempts(Ok(v), i + 1);
    case Raise(e) =>
      if i < count {
        LoopsAgree(count, suppress, call, i + 1);
        assert RetryLoop(count, suppress, call, i) == RetryLoop(count, suppress, call, i + 1);
        assert TenacityLoop(count + 1, call, i) == TenacityLoop(count + 1, call, i + 1);
      } else {
        assert TenacityLoop(count + 1, call, i) == Attempts(Raise(e), i + 1);
      }
  }

  // ---------------------------------------------------------------------------
  // wait_exponential(min=retry_min_wait, max=retry_min_wait)

  function Pow2(k: nat): (p: real)
    ensures p >= 1.0
  {
    if k == 0 then 1.0 else 2.0 * Pow2(k - 1)
  }

  function RealMax(a: real, b: real): real {
    if a >= b then a else b
  }

  function RealMin(a: real, b: real): real {
    if a <= b then a else b
  }

  /** Tenacity's `wait_exponential(min, max)` (multiplier 1, base 2): the sleep after
      the failed attempt numbered `attempt` is `2 ** (attempt - 1)` clamped into
      `[max(0, min), max]`. */
  function ExponentialWait(attempt: nat, min: real, max: real): (w: real)
    requires attempt >= 1
    ensures w >= 0.0 && w >= min
    ensures 0.0 <= min <= max ==> w <= max
  {
    RealMax(RealMax(0.0, min), RealMin(Pow2(attempt - 1), max))
  }

  lemma {:induction false} Pow2Monotone(a: nat, b: nat)
    requires a <= b
    ensures Pow2(a) <= Pow2(b)
    decreases b
  {
    if a < b {
      Pow2Monotone(a, b - 1);
    }
  }

  /** Waits never shrink from one attempt to the next. */
  lemma WaitNonDecreasing(a: nat, b: nat, min: real, max: real)
    requires 1 <= a <= b
    ensures ExponentialWait(a, min, max) <= ExponentialWait(b, min, max)
  {
    Pow2Monotone(a - 1, b - 1);
  }

  /** The decorators pass the same value as minimum and maximum, so every wait is
      that value (or 0 if it is negative): the backoff is constant. */
  lemma ConfiguredWaitIsConstant(config: RetryConfig, attempt: nat)
    requires attempt >= 1
    ensures ExponentialWait(attempt, config.retryMinWait, config.retryMinWait) == RealMax(0.0, config.retryMinWait)
  {
  }
}
