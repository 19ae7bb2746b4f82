/** The pool-backed maps of `utilities/execution.py` and `utilities/parallelization.py`.
    A pool's `map` is modelled by its sequential meaning: the function is applied to
    every input and the results come back in input order; iterating the results
    re-raises the exception of the first input, in input order, whose call raised. */
module Executors {
  import opened Builtins
  import opened Chunker

  /** What an executor call can raise. */
  datatype Fault<+E> =
    | Raised(error: E)              // an exception raised by the mapped function itself
    | WorkersNotPositive            // ValueError: a pool built with a worker count <= 0
    | ZeroDivision                  // ZeroDivisionError: `len(items) / chunk_size` with chunk_size == 0
    | AssertionFailed(workers: int) // `assert n_threads >= 1` failing on the clamped count
    | SemaphoreNegative             // ValueError: `asyncio.Semaphore` given a negative value
    | FuncGivenTwice                // TypeError: the argument `func` bound both by position and by keyword

  /** Sequential meaning of `pool.map(f, xs)` once its results are consumed. */
  function MapAll<I, O, E>(f: I -> Outcome<O, E>, xs: seq<I>): (r: Outcome<seq<O>, E>)
    ensures r.Ok? <==> forall i :: 0 <= i < |xs| ==> f(xs[i]).Ok?
    ensures r.Ok? ==> |r.value| == |xs| && forall i :: 0 <= i < |xs| ==> r.value[i] == f(xs[i]).value
    ensures r.Raise? ==> exists i :: 0 <= i < |xs| && f(xs[i]) == Raise(r.error) &&
                                     forall j :: 0 <= j < i ==> f(xs[j]).Ok?
    decreases |xs|
  {
    if xs == [] then Ok([])
    else match f(xs[0])
      case Raise(e) => Raise(e)
      case Ok(y) =>
        var rest := MapAll(f, xs[1..]);
        assert forall i :: 1 <= i < |xs| ==> xs[i] == xs[1..][i - 1];
        match rest
        case Raise(e) =>
          assert exists i :: 0 <= i < |xs| && f(xs[i]) == Raise(e) &&
                             forall j :: 0 <= j < i ==> f(xs[j]).Ok? by {
            var k :| 0 <= k < |xs| - 1 && f(xs[1..][k]) == Raise(e) &&
                     forall j :: 0 <= j < k ==> f(xs[1..][j]).Ok?;
            assert f(xs[k + 1]) == Raise(e);
            assert forall j :: 0 <= j < k + 1 ==> f(xs[j]).Ok? by {
              forall j | 0 <= j < k + 1 ensures f(xs[j]).Ok? {
                if j > 0 { assert xs[j] == xs[1..][j - 1]; }
              }
            }
          }
          Raise(e)
        case Ok(ys) => Ok([y] + ys)
  }

  /** Two pieces of work done one after the other: the first exception wins. */
  function Then<T, E>(a: Outcome<seq<T>, E>, b: Outcome<seq<T>, E>): Outcome<seq<T>, E> {
    match a
    case Raise(e) => Raise(e)
    case Ok(va) =>
      match b
      case Raise(e) => Raise(e)
      case Ok(vb) => Ok(va + vb)
  }

  /** Mapping over a concatenation is mapping over each part in turn. */
  lemma {:induction false} MapAllAppend<I, O, E>(f: I -> Outcome<O, E>, a: seq<I>, b: seq<I>)
    ensures MapAll(f, a + b) == Then(MapAll(f, a), MapAll(f, b))
    decreases |a|
  {
    if a == [] {
      assert a + b == b;
      if MapAll(f, b).Ok? {
        assert [] + MapAll(f, b).value == MapAll(f, b).value;
      }
    } else {
      assert (a + b)[0] == a[0];
      assert (a + b)[1..] == a[1..] + b;
      MapAllAppend(f, a[1..], b);
      match f(a[0])
      case Raise(e) =>
      case Ok(y) =>
        match MapAll(f, a[1..])
        case Raise(e) =>
        case Ok(ys) =>
          match MapAll(f, b)
          case Raise(e) =>
          case Ok(zs) => assert [y] + (ys + zs) == ([y] + ys) + zs;
    }
  }

  /** One call's outcome as a one-element result list. */
  function Single<T, E>(o: Outcome<T, E>): Outcome<seq<T>, E> {
    match o
    case Ok(v) => Ok([v])
    case Raise(e) => Raise(e)
  }

  /** Mapping over one more input: the first exception so far, else that input's call. */
  lemma MapAllSnoc<I, O, E>(f: I -> Outcome<O, E>, xs: seq<I>, x: I)
    ensures MapAll(f, xs + [x]) == Then(MapAll(f, xs), Single(f(x)))
  {
    MapAllAppend(f, xs, [x]);
    assert MapAll(f, [x]) == Single(f(x)) by {
      assert [x][1..] == [];
      if f(x).Ok? {
        assert [f(x).value] + [] == [f(x).value];
      }
    }
  }

  /** An exception of the mapped function, as it leaves the pool. */
  function Lift<T, E>(o: Outcome<T, E>): Outcome<T, Fault<E>> {
    match o
    case Ok(v) => Ok(v)
    case Raise(e) => Raise(Raised(e))
  }

  /** `run_th` / `run_mp` (and `parallelization_th` / `parallelization_mp`): build a
      thread or process pool of `maxWorkers` workers and collect `pool.map(func, items)`
      into a list. The pool constructor refuses a worker count below 1. */
  function ExecutorMap<I, O, E>(items: seq<I>, f: I -> Outcome<O, E>, maxWorkers: int): (r: Outcome<seq<O>, Fault<E>>)
    ensures maxWorkers <= 0 ==> r == Raise(WorkersNotPositive)
    ensures maxWorkers >= 1 ==> (r.Ok? <==> forall i :: 0 <= i < |items| ==> f(items[i]).Ok?)
    ensures r.Ok? ==> |r.value| == |items| &&
                      forall i :: 0 <= i < |items| ==> r.value[i] == f(items[i]).value
    ensures maxWorkers >= 1 && r.Raise? ==>
              r.error.Raised? &&
              exists i :: 0 <= i < |items| && f(items[i]) == Raise(r.error.error) &&
                          forall j :: 0 <= j < i ==> f(items[j]).Ok?
  {
    if maxWorkers <= 0 then Raise(WorkersNotPositive) else Lift(MapAll(f, items))
  }

  /** The per-chunk job `partial(run_th, func=func, n_threads=n_threads, tqdm_off=True)`. */
  function Inner<I(!new), O, E>(f: I -> Outcome<O, E>, nThreads: int): (job: seq<I> -> Outcome<seq<O>, Fault<E>>)
    ensures forall chunk :: job(chunk) == ExecutorMap(chunk, f, nThreads)
  {
    chunk => ExecutorMap(chunk, f, nThreads)
  }

  /** The per-chunk result lists joined with `extend`, when no chunk raised. */
  function FlattenOk<T, E>(o: Outcome<seq<seq<T>>, E>): Outcome<seq<T>, E> {
    match o
    case Ok(groups) => Ok(Flatten(groups))
    case Raise(e) => Raise(e)
  }

  /** Mapping the inner pool over any split of the input and joining the per-part
      results is the same as mapping over the whole input. */
  lemma {:induction false} MapOverGroups<I(!new), O, E>(f: I -> Outcome<O, E>, nThreads: int, groups: seq<seq<I>>)
    requires nThreads >= 1
    ensures FlattenOk(MapAll(Inner(f, nThreads), groups)) == Lift(MapAll(f, Flatten(groups)))
    decreases |groups|
  {
    if groups != [] {
      var c := groups[0];
      assert Flatten(groups) == c + Flatten(groups[1..]);
      MapAllAppend(f, c, Flatten(groups[1..]));
      MapOverGroups(f, nThreads, groups[1..]);
      assert Inner(f, nThreads)(c) == Lift(MapAll(f, c));
    }
  }

  /** Chunk, run the inner pool per chunk and flatten: the result is that of one flat
      map over the items, with the same first exception. An empty input has no chunk,
      so no inner pool is ever built and nothing can fail. */
  lemma ChunkedRunIsFlatRun<I(!new), O, E>(f: I -> Outcome<O, E>, nThreads: int, items: seq<I>, chunkSize: int)
    ensures FlattenOk(MapAll(Inner(f, nThreads), Chunks(items, chunkSize))) ==
            if items == [] then Ok([]) else ExecutorMap(items, f, nThreads)
  {
    var cs := Chunks(items, chunkSize);
    if nThreads >= 1 {
      MapOverGroups(f, nThreads, cs);
      FlattenChunks(items, chunkSize);
    } else if items != [] {
      assert Inner(f, nThreads)(cs[0]) == Raise(WorkersNotPositive);
    }
  }

  /** The body shared by `run_mp_th` and `parallelization_mp_th`, for a per-chunk job
      `job`: compute the progress total, which divides by `chunkSize`; map `job` over
      the chunks on a process pool of `nPools` workers; then extend one result list
      with every per-chunk list, in chunk order. */
  method ChunkedRun<I, O, E>(items: seq<I>, job: seq<I> -> Outcome<seq<O>, Fault<E>>, nPools: int, chunkSize: int)
    returns (r: Outcome<seq<O>, Fault<E>>)
    ensures chunkSize == 0 ==> r == Raise(ZeroDivision)
    ensures chunkSize != 0 && nPools <= 0 ==> r == Raise(WorkersNotPositive)
    ensures chunkSize != 0 && nPools >= 1 ==> r == FlattenOk(MapAll(job, Chunks(items, chunkSize)))
  {
    if chunkSize == 0 {
      return Raise(ZeroDivision);
    }
    if nPools <= 0 {
      return Raise(WorkersNotPositive);
    }
    var chunks := Chunking(items, chunkSize);
    var outputs := MapAll(job, chunks);
    if outputs.Raise? {
      return Raise(outputs.error);
    }
    var results: seq<O> := [];
    for i := 0 to |outputs.value|
      invariant results == Flatten(outputs.value[..i])
    {
      FlattenAppend(outputs.value[..i], [outputs.value[i]]);
      assert outputs.value[..i + 1] == outputs.value[..i] + [outputs.value[i]];
      results := results + outputs.value[i];
    }
    assert outputs.value[..|outputs.value|] == outputs.value;
    r := Ok(results);
  }

  /** `run_mp_th`: the per-chunk job is `run_th` with the chunk bound to `items`, so the
      whole run is one flat map of `f` over the items on a thread pool. */
  method RunMpTh<I(!new), O, E>(items: seq<I>, f: I -> Outcome<O, E>, nPools: int, chunkSize: int, nThreads: int)
    returns (r: Outcome<seq<O>, Fault<E>>)
    ensures chunkSize == 0 ==> r == Raise(ZeroDivision)
    ensures chunkSize != 0 && nPools <= 0 ==> r == Raise(WorkersNotPositive)
    ensures chunkSize != 0 && nPools >= 1 ==>
              r == if items == [] then Ok([]) else ExecutorMap(items, f, nThreads)
  {
    r := ChunkedRun(items, Inner(f, nThreads), nPools, chunkSize);
    ChunkedRunIsFlatRun(f, nThreads, items, chunkSize);
  }

  /** The per-chunk job of `parallelization_mp_th` as written:
      `partial(parallelization_th, func=func, ...)` called with the chunk as its only
      positional argument. `parallelization_th` takes `func` first, so the chunk and
      the keyword both bind `func` and the call raises before any work is done. */
  function ClashingInner<I(!new), O, E>(f: I -> Outcome<O, E>, nThreads: int): (job: seq<I> -> Outcome<seq<O>, Fault<E>>)
    ensures forall chunk :: job(chunk) == Raise(FuncGivenTwice)
  {
    chunk => Raise(FuncGivenTwice)
  }

  /** `parallelization_mp_th` as written: the same steps as `run_mp_th` with the
      clashing per-chunk job. */
  method ParallelizationMpTh<I(!new), O, E>(items: seq<I>, f: I -> Outcome<O, E>, nPools: int, chunkSize: int, nThreads: int)
    returns (r: Outcome<seq<O>, Fault<E>>)
    ensures chunkSize == 0 ==> r == Raise(ZeroDivision)
    ensures chunkSize != 0 && nPools <= 0 ==> r == Raise(WorkersNotPositive)
    ensures chunkSize != 0 && nPools >= 1 ==> r == if items == [] then Ok([]) else Raise(FuncGivenTwice)
  {
    r := ChunkedRun(items, ClashingInner(f, nThreads), nPools, chunkSize);
    if chunkSize != 0 && items != [] {
      ParallelizationMpThAlwaysRaises(items, f, chunkSize, nThreads);
    }
  }

  /** A non-empty input has a first chunk, and the clashing job raises on it. */
  lemma ParallelizationMpThAlwaysRaises<I(!new), O, E>(items: seq<I>, f: I -> Outcome<O, E>, chunkSize: int, nThreads: int)
    requires items != []
    ensures FlattenOk(MapAll(ClashingInner(f, nThreads), Chunks(items, chunkSize))) == Raise(FuncGivenTwice)
  {
    var cs := Chunks(items, chunkSize);
    assert cs != [];
    assert ClashingInner(f, nThreads)(cs[0]) == Raise(FuncGivenTwice);
  }

  /** The discrepancy: on every non-empty input, with a valid chunk size and pool,
      `parallelization_mp_th` raises where `run_mp_th`, with the same arguments and a
      function that never raises, returns one result per item. */
  lemma ParallelizationMpThDiffersFromRunMpTh<I(!new), O, E>(items: seq<I>, f: I -> Outcome<O, E>, chunkSize: int, nThreads: int)
    requires items != [] && chunkSize != 0 && nThreads >= 1
    requires forall x :: f(x).Ok?
    ensures FlattenOk(MapAll(ClashingInner(f, nThreads), Chunks(items, chunkSize))).Raise?
    ensures FlattenOk(MapAll(Inner(f, nThreads), Chunks(items, chunkSize))).Ok?
  {
    ParallelizationMpThAlwaysRaises(items, f, chunkSize, nThreads);
    ChunkedRunIsFlatRun(f, nThreads, items, chunkSize);
  }

  /** The total shown by the progress bar of `run_mp_th`: `round(len(items) / chunk_size)`. */
  function ProgressTotal(n: nat, chunkSize: int): (t: int)
    requires chunkSize != 0
    ensures 2 * Abs(n - t * chunkSize) <= Abs(chunkSize)
    ensures 2 * Abs(n - t * chunkSize) == Abs(chunkSize) ==> t % 2 == 0
  {
    RoundDiv(n, chunkSize)
  }

  /** The progress total is display-only and is not the number of chunks: ten items
      in chunks of three make four chunks but a total of three. */
  lemma ProgressTotalDiffersFromChunkCount<I>(items: seq<I>)
    requires |items| == 10
    ensures ProgressTotal(|items|, 3) == 3
    ensures |Chunks(items, 3)| == 4
  {
    ChunkCount(items, 3);
  }
}
