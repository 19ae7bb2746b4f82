/** `utilities/parallel.py`: pool runs that pair each input with its result.
    All three functions clamp the worker count to the number of items and assert
    that at least one worker remains, so an empty input is an assertion failure. */
module Parallel {
  import opened Builtins
  import opened Executors

  /** Python's `zip`, which stops at the shorter argument. */
  function Zip<A, B>(xs: seq<A>, ys: seq<B>): (r: seq<(A, B)>)
    ensures |r| == Min(|xs|, |ys|)
    ensures forall i :: 0 <= i < |r| ==> r[i] == (xs[i], ys[i])
    decreases |xs|
  {
    if xs == [] || ys == [] then [] else [(xs[0], ys[0])] + Zip(xs[1..], ys[1..])
  }

  /** `run_threads` (a `ThreadPool` and `imap`) and `run_processes` (a `Pool` and
      `map`): clamp, assert, map in input order, and zip the inputs with the results. */
  function RunPaired<I, O, E>(items: seq<I>, f: I -> Outcome<O, E>, nWorkers: int): (r: Outcome<seq<(I, O)>, Fault<E>>)
    ensures Min(nWorkers, |items|) < 1 ==> r == Raise(AssertionFailed(Min(nWorkers, |items|)))
    ensures r.Ok? <==> |items| >= 1 && nWorkers >= 1 && forall i :: 0 <= i < |items| ==> f(items[i]).Ok?
    ensures r.Ok? ==> |r.value| == |items| &&
                      forall i :: 0 <= i < |items| ==> r.value[i] == (items[i], f(items[i]).value)
    ensures r.Raise? && Min(nWorkers, |items|) >= 1 ==>
              r.error.Raised? &&
              exists i :: 0 <= i < |items| && f(items[i]) == Raise(r.error.error) &&
                          forall j :: 0 <= j < i ==> f(items[j]).Ok?
  {
    var n := Min(nWorkers, |items|);
    if n < 1 then Raise(AssertionFailed(n))
    else
      match MapAll(f, items)
      case Raise(e) => Raise(Raised(e))
      case Ok(outs) => Ok(Zip(items, outs))
  }

  /** The tqdm bar of `run_async`, reduced to its counter. */
  class ProgressBar {
    var n: nat
    const total: int

    constructor (total: int)
      ensures n == 0 && this.total == total
    {
      this.total := total;
      n := 0;
    }

    /** `progress_bar.update(n=k)` */
    method Update(k: nat)
      modifies this
      ensures n == old(n) + k
    {
      n := n + k;
    }
  }

  /** `run_async`: the semaphore is built from the unclamped `nWorkers` (and refuses a
      negative one) before the clamp and the assertion; then every item's worker runs
      `afunc` and, in its `finally`, advances the progress bar by one; `gather` returns
      the results in input order, or raises. Also returns the bar's final count. */
  method RunAsync<I, O, E>(items: seq<I>, afunc: I -> Outcome<O, E>, nWorkers: int)
    returns (r: Outcome<seq<(I, O)>, Fault<E>>, progress: nat)
    ensures nWorkers < 0 ==> r == Raise(SemaphoreNegative)
    ensures nWorkers >= 0 ==> r == RunPaired(items, afunc, nWorkers)
    ensures progress == if nWorkers >= 1 && |items| >= 1 then |items| else 0
  {
    if nWorkers < 0 {
      return Raise(SemaphoreNegative), 0;
    }
    var clamped := Min(nWorkers, |items|);
    if clamped < 1 {
      return Raise(AssertionFailed(clamped)), 0;
    }
    var bar := new ProgressBar(|items|);
    var results: Outcome<seq<O>, E> := Ok([]);
    var i := 0;
    while i < |items|
      invariant 0 <= i <= |items|
      invariant bar.n == i
      invariant results == MapAll(afunc, items[..i])
    {
      var outcome := afunc(items[i]);
      bar.Update(1);
      MapAllSnoc(afunc, items[..i], items[i]);
      assert items[..i + 1] == items[..i] + [items[i]];
      results := Then(results, Single(outcome));
      i := i + 1;
    }
    progress := bar.n;
    assert items[..|items|] == items;
    r := match results
      case Raise(e) => Raise(Raised(e))
      case Ok(outs) => Ok(Zip(items, outs));
  }
}
