# utilities: the deterministic core, modelled in Dafny

The Python library `utilities` wraps thread pools, process pools, asyncio, tenacity,
OpenCV and PIL behind a few helpers. Under the concurrency and the I/O sit five pieces of
plain logic, and this project models them and proves what they promise:

- **Chunking** (`chunking`, four identical copies): an accumulate-and-flush loop that splits
  a list into consecutive groups of `chunk_size` (module `Chunker`).
- **Executors** (`run_th`, `run_mp`, `run_mp_th` in `utilities/execution.py`, and their
  twins in `utilities/parallelization.py`): a pool `map` is modelled by its sequential
  meaning. Results come back in input order. The exception that surfaces is that of the
  first input, in input order, whose call raised. The chunk-map-flatten run is proved
  equal to one flat map (module `Executors`).
- **Paired runs** (`run_threads`, `run_processes`, `run_async` in `utilities/parallel.py`):
  the worker count is clamped to the input length and asserted positive, and every item is
  zipped with its result. `run_async` also counts one progress update per item (module
  `Parallel`).
- **Retry wrappers**: the counted decorator `retry(count, suppress)` and the tenacity-backed
  `sync_retry_supress` / `async_retry_supress` (three copies), with their attempt bound,
  first-success return, terminal re-raise or `None`, and debug log (module `Retrying`).
- **Image resizing**: the target-size arithmetic with Python's round-half-even `round`
  (module `Builtins`), the resize-in-place helpers, and the keep-or-delete decision of
  `data.file.resize_image` (module `Resize`).
- **Dataclass to dict** (`custom_dict_factory`, `AsDictMixin.asdict`): drop `None` values
  when asked, replace Enum members by their values, drop ignored keys (module
  `DataclassDict`).

Exceptions are values: a call either returns (`Ok`) or raises (`Raise`), and the wrapped user
function is a Dafny function `I -> Outcome<O, E>`. For the retry wrappers, `call(i)` is what
the (i+1)-th invocation does. Pool constructors and `asyncio.Semaphore` raise `ValueError`
for the worker counts they refuse, and the model raises the matching `Fault` value.

Copies that share one model:
- The `chunking` functions of `utilities/data.py`, `utilities/utils.py`,
  `utilities/data/spliting.py` and `utilities/core/utils.py` are textually the same loop.
  `Chunker.Chunking` models all four.
- `run_th`, `run_mp`, `parallelization_th` and `parallelization_mp` are all
  `Executors.ExecutorMap`.
- The synchronous and asynchronous `*_retry_supress` wrappers of `utilities/core/utils.py`,
  `utilities/retries.py` and `utilities/exec/retries.py` are all `Retrying.RetrySuppress`.
  The async versions only add `await`.
- The dimension branch of `resize_img` (`utilities/core/files.py`) and of
  `vision.resize_image` is `Resize.ResizeFile`. `ResizeImage.resize` is `Resize.TargetSize`.

Edge cases of the code that the model keeps:
- `chunking` does not reject `chunk_size <= 0`: its test `len(chunk) >= chunk_size` makes
  every item a group of its own (`Chunker.SmallSizeGivesSingletons`).
- `run_threads`, `run_processes` and `run_async` do not return `[]` for an empty input:
  they clamp the worker count to `len(items)` and then fail their assertion. They also
  lower a worker count above `len(items)` rather than refusing it.
- `run_th`, `run_mp` and `run_mp_th` return `[]` for an empty input, but only when the pool
  accepts the worker count and, for `run_mp_th`, `chunk_size != 0`: its `round(len(items) /
  chunk_size)` raises `ZeroDivisionError` first.
- The tenacity wrappers log every terminal failure at debug level, also the ones they
  re-raise.
- `retry(count, suppress)` with a negative `count` never calls the function and returns
  `None`. The tenacity wrappers always make at least one attempt.

## Model

| member | source | states |
|---|---|---|
| Builtins.RoundHalfEven | utilities/types/data.py:18-20 | `round(n / d)`: the result is within half a divisor of the exact quotient, and a tie goes to the even neighbour |
| Builtins.RoundHalfEvenUnique | utilities/types/data.py:18-20 | those two properties determine the rounded value uniquely, so `RoundHalfEven` is Python's `round` and no other function |
| Builtins.RoundDiv | utilities/execution.py:48 | `round(n / d)` for a divisor of either sign: within half of `abs(d)`, even on a tie |
| Chunker.Width | utilities/data.py:17 | the flush length is at least 1, and it is `chunk_size` itself whenever `chunk_size >= 1` |
| Chunker.Chunking | utilities/data.py:13-21 | the generator's buffer loop yields exactly the groups `Chunks(items, chunk_size)`: full groups as the buffer fills, then a non-empty remainder |
| Chunker.FlattenChunks | utilities/utils.py:10-18 | concatenating the yielded groups gives back the input, in order |
| Chunker.ChunkLengths | utilities/data/spliting.py:9-17 | every group but the last has exactly the flush length, the last has 1 to that many items, and an empty input yields no group |
| Chunker.ChunkCount | utilities/data/spliting.py:11-17 | the number of groups is the ceiling of `len(items) / chunk_size` (for `chunk_size >= 1`) |
| Chunker.SmallSizeGivesSingletons | utilities/core/utils.py:72-79 | with `chunk_size <= 1`, zero and negatives included, nothing fails and every item is its own group |
| Executors.MapAll | utilities/execution.py:22-23 | a pool map succeeds iff every call returns; the results are index-aligned with the inputs; otherwise the exception raised is that of the first raising input |
| Executors.MapAllAppend | utilities/execution.py:58-61 | mapping over a concatenation is mapping over each part in turn, the first exception winning |
| Executors.MapAllSnoc | utilities/parallel.py:67 | mapping over one more input extends the results by that input's result, or keeps the earlier exception |
| Executors.ExecutorMap | utilities/execution.py:15-34 | `run_th` / `run_mp`: a worker count below 1 raises `ValueError`; otherwise one output per input in input order, or the first input's exception |
| Executors.Inner | utilities/execution.py:47 | the per-chunk job `partial(run_th, func=func, n_threads=n_threads, tqdm_off=True)` applied to a chunk is `run_th` over that chunk |
| Executors.MapOverGroups | utilities/parallelization.py:45-49 | mapping the inner thread run over any split of the input and extending the outputs equals one flat map over the joined input |
| Executors.ChunkedRunIsFlatRun | utilities/execution.py:52-61 | chunk, map the inner run per chunk, flatten: the same as one flat map of `func` over the items; an empty input gives `[]` and builds no inner pool |
| Executors.ChunkedRun | utilities/execution.py:46-61 | the shared body of the two-level runs: a zero chunk size raises `ZeroDivisionError`, then a pool size below 1 raises `ValueError`, else the per-chunk outputs are extended in chunk order |
| Executors.RunMpTh | utilities/execution.py:37-61 | `run_mp_th` returns `[func(x) for x in items]` with the thread-pool faults and first exception of a flat `run_th`, after its two up-front error checks |
| Executors.ClashingInner | utilities/parallelization.py:42 | the per-chunk job `partial(parallelization_th, func=func, ...)` applied to any chunk raises `TypeError`, because the chunk lands on the parameter `func` that the keyword also binds |
| Executors.ParallelizationMpTh | utilities/parallelization.py:33-49 | `parallelization_mp_th` as written: after the same up-front checks it returns `[]` for an empty input and raises `TypeError` for every other input |
| Executors.ParallelizationMpThAlwaysRaises | utilities/parallelization.py:42-45 | the per-chunk job `partial(parallelization_th, func=func, ...)` raises on the first chunk of any non-empty input |
| Executors.ParallelizationMpThDiffersFromRunMpTh | utilities/parallelization.py:42 | on a non-empty input and a function that never raises, `parallelization_mp_th` raises where the keyword-correct chunked run returns results |
| Executors.ProgressTotal | utilities/execution.py:48 | the progress total is `len(items) / chunk_size` rounded: within half of `abs(chunk_size)` of the exact quotient, and even on a tie |
| Executors.ProgressTotalDiffersFromChunkCount | utilities/execution.py:48-52 | the progress total is display-only: 10 items in chunks of 3 give 4 chunks but a total of 3 |
| Parallel.Zip | utilities/parallel.py:26 | `zip` stops at the shorter list and pairs elements index by index |
| Parallel.RunPaired | utilities/parallel.py:14-41 | `run_threads` / `run_processes`: `min(n, len(items)) < 1` fails the assertion (so an empty input fails); otherwise element i is `(items[i], func(items[i]))`, or the first raising input's exception surfaces |
| Parallel.ProgressBar.constructor | utilities/parallel.py:56 | the bar starts at 0 with total `len(items)` |
| Parallel.ProgressBar.Update | utilities/parallel.py:64 | `update(n=k)` advances the counter by exactly `k` |
| Parallel.RunAsync | utilities/parallel.py:44-71 | the semaphore refuses a negative unclamped count first; otherwise the result is that of `RunPaired`, and the progress counter ends at `len(items)` when workers run and at 0 when the assertion fails |
| Retrying.RetryLoop | utilities/execution.py:77-86 | the loop `for i in range(count + 1)`: at most `count + 1` calls and at least one when `count >= 0`; all calls before the last raised; the first success is returned at once; after `count + 1` failures the last exception is re-raised, or `None` returned when suppressing; with `count < 0` no call and `None` |
| Retrying.Retry | utilities/execution.py:74-89 | the wrapper's loop with early return computes exactly `RetryLoop` from attempt 0 |
| Retrying.TenacityLoop | utilities/core/utils.py:17-21 | tenacity's attempt loop under `stop_after_attempt(N)`: at most `max(1, N)` attempts, stopping at the first success; a last failure means all `max(1, N)` attempts were made |
| Retrying.RetrySuppress | utilities/retries.py:28-43 | the wrapper makes 1 to `max(1, retries_count)` calls; a success is returned unchanged with nothing logged; after the last attempt fails, the attempt's own exception (`reraise=True`) is logged once and then re-raised unchanged, or `None` is returned when suppressing |
| Retrying.SucceedsAfterFailures | utilities/exec/retries.py:22-37 | an operation failing `m < retries_count` times then succeeding is called `m + 1` times and its value is returned |
| Retrying.DefaultConfigAlwaysFailing | utilities/config.py:14-19 | with the defaults (5 attempts, suppression on), an always-failing operation is called 5 times, gives `None` and one log entry |
| Retrying.CountedRetryMatchesTenacity | utilities/execution.py:74-89 | for `count >= 0`, `retry(count, suppress)` returns and raises exactly as the tenacity wrapper bounded at `count + 1` attempts, with as many calls; for `count < 0` the first makes no call and the second makes one |
| Retrying.ExponentialWait | utilities/retries.py:21-25 | tenacity's `wait_exponential(min, max)` is never negative, never below `min`, and at most `max` when `0 <= min <= max` |
| Retrying.WaitNonDecreasing | utilities/exec/retries.py:15-19 | waits never shrink from one attempt to the next |
| Retrying.ConfiguredWaitIsConstant | utilities/core/utils.py:17-18 | with `min == max == retry_min_wait` every wait is that value (0 if negative): the backoff is constant |
| Resize.TargetSize | utilities/types/data.py:15-21 | a zero width or height raises `ZeroDivisionError`; otherwise the shorter side (the width on a tie) becomes `size` and the other side is `round(size * long / short)`: within half a pixel of the exact quotient, and even when the quotient lies exactly halfway |
| Resize.SquareImage | utilities/types/data.py:17-18 | a square image becomes `(size, size)` |
| Resize.ShorterSideBecomesSize | utilities/types/data.py:17-20 | for `size >= 0` the smaller resized side is exactly `size` and the orientation is kept |
| Resize.ResizeFile | utilities/core/files.py:178-189 | no image gives `None`; a zero side raises `ZeroDivisionError`, and nothing else raises; otherwise the same path comes back, with `TargetSize` of the image's width and height (read from the `(height, width, ...)` shape) and, for `size >= 0`, a shorter side of `size` |
| Resize.LoadCvAsWritten | utilities/core/files.py:161-165 | the loader as written raises `cv2.error` exactly when OpenCV could not read the file, and otherwise returns the image |
| Resize.ResizeFileAsWritten | utilities/vision.py:20-36 | with the loader as written the `None` result is unreachable: an unreadable file raises, a readable one behaves as `ResizeFile` |
| Resize.UnreadableFileRaises | utilities/vision.py:26-28 | for an unreadable file the intended result is `None`, but the code as written raises |
| Resize.ImageShape | utilities/data/file.py:56-60 | `(width, height, len(mode))` for a loaded image, `None` otherwise |
| Resize.ResizeImageFile | utilities/data/file.py:63-80 | the file is deleted and `None` returned exactly when the load failed, the resize or save raised, or `check` is set and the mode does not have 3 letters; otherwise the item's path is returned, and then with `check` the image has 3 channels |
| DataclassDict.Convert | utilities/types/datacls.py:15-19 | an Enum member becomes its `.value`; every other value is unchanged |
| DataclassDict.Kept | utilities/types/datacls.py:21 | the filter `not ignore_none or v is not None`: every pair is kept with `ignore_none` off; with it on, exactly the pairs whose unconverted value is not `None` |
| DataclassDict.DictFactory | utilities/types/datacls.py:13-23 | a key is present iff some pair with that key passes `not ignore_none or v is not None`, and it maps to the converted value of the last such pair |
| DataclassDict.FieldsOfDataclass | utilities/types/datacls.py:21 | for distinct field names, a field is present iff it is kept, and then holds its own converted value |
| DataclassDict.KeepsEveryFieldWhenNotIgnoringNone | utilities/types/datacls.py:21 | with `ignore_none` off the keys are all the field names |
| DataclassDict.NoneTestedBeforeConversion | utilities/types/datacls.py:15-21 | the `None` test looks at the unconverted value: an Enum member whose value is `None` survives and is stored as `None` |
| DataclassDict.AsDict | utilities/types/datacls.py:28-30 | `asdict` removes exactly the keys in `ignore_attrs` and leaves every other key and value as the factory built it |
| DataclassDict.AsDictOfDataclass | utilities/types/datacls.py:26-30 | a field appears in `asdict(...)` iff it is neither ignored nor dropped as `None`, and then with its converted value |

## Left out

- Real concurrency: thread and process scheduling, `asyncio` suspension and the semaphore's
  admission bound are not modelled. Pools and `gather` are sequential maps in input order.
- Executors.MapAll: when several calls raise, the model reports the first raising input in
  input order. `ThreadPoolExecutor.map`, `ProcessPoolExecutor.map` and `ThreadPool.imap`
  surface that one too. `multiprocessing.Pool.map` and `asyncio.gather` surface the first
  failure in completion order, which the model does not capture.
- Parallel.RunPaired: for `run_processes` (a `multiprocessing.Pool.map`) the exception that
  surfaces is the first to fail in completion order, not necessarily the first raising
  input as the contract states.
- Parallel.RunAsync: the exception that `gather` surfaces is likewise the first to fail in
  completion order, not necessarily the first raising input.
- Executors.ExecutorMap, Executors.RunMpTh and Parallel.RunPaired: process pools (`run_mp`,
  `run_mp_th`, `parallelization_mp`, `parallelization_mp_th`, `run_processes`) raise when
  `func`, an item or a result cannot be pickled (a lambda, for example). The model has no
  pickling and returns results in that case.
- Parallel.RunAsync: the counter is stated at `len(items)` even when a call raises. The real
  `gather` returns at the first exception while other workers may still be pending, so the
  counter can be lower at that moment.
- `BaseException` subclasses that `except Exception` does not catch (such as
  `KeyboardInterrupt`) are not modelled. Every raise is an ordinary exception.
- Laziness: `chunking` is a generator. The model returns all groups at once; that a consumer
  may stop early is not captured.
- tqdm progress bars: display, `leave`, `disable` and the `tqdm_off=True` of the inner
  runs are not modelled. Only `run_async`'s counter is, as `Parallel.ProgressBar`.
- Retrying.ExponentialWait: the waits are exact reals. Float rounding, jitter and the
  actual sleeping are not modelled.
- Configuration: `Config.load` and the global `CFG` read a file. The model passes the
  settings as a `RetryConfig` value. `utilities/retries.py` reads `CFG.retries`, which the
  `Config` class in `utilities/config.py` does not define (it has only `request`), so that
  module would fail at import. The model ignores this and uses the settings as given.
- Logging is the list of logged exceptions. The logger, level and message text are not
  modelled.
- File, JSON, YAML, JSONL and md5 helpers, and `delete_file`'s directory check, are library
  I/O and are not modelled.
- Image decoding, resampling and saving (OpenCV and PIL) are not modelled. A load result is
  the image's dimensions (or `None`); a failed PIL resize or save is a flag.
- Resize.ImageShape and Resize.ResizeImageFile: PIL's `load_image` turns only
  `FileNotFoundError`, `ValueError`, `TypeError`, `UnidentifiedImageError` and
  `DecompressionBombError` into `None`. Any other `OSError` from `Image.open`
  (`PermissionError`, `IsADirectoryError`, ...) propagates, so `image_shape` and
  `resize_image` raise and no file is deleted. The `Option<PilImage>` load result cannot
  express that path, and the model does not capture it.
- Resize.TargetSize and Executors.ProgressTotal: Python rounds the float quotient
  (`round(size * long / short)`, `round(len(items) / chunk_size)`), and the model rounds the
  exact rational. The two agree while the numerator is below 2^52, which covers every
  realistic image side and list length; beyond that, float rounding is not modelled.
- Resize.ResizeFile: `cv2.resize` failing on a non-positive target size is not modelled.
  The model returns the path whatever the size.
- `Path(path)` normalisation is not modelled. Paths are strings compared as given.
- `train_valid_test_split` uses pandas and scikit-learn with float fractions and is not
  modelled.
- `FromDictMixin.from_dict` is a call into `dacite` and is not modelled.
- DataclassDict.DictFactory: `dataclasses.asdict` recursing into nested dataclasses,
  lists and dicts, and its deep copies, are not modelled. Non-Enum values are opaque.
- The thin pool wrappers of `utilities/exec/multi.py` and the HTTP clients are not part of
  this model.

## Findings

| source | as written | input that shows it | evidently intended | confidence | as-written member | corrected member |
|---|---|---|---|---|---|---|
| utilities/parallelization.py:42 | `partial(parallelization_th, func=func, ...)` is called with the chunk as its only positional argument. `parallelization_th` takes `func` first, so `func` is given twice and every per-chunk call raises `TypeError` | any non-empty `items`, any `chunk_size != 0`, `n_pools >= 1` | the chunk is passed as `items`, as `run_mp_th` does (its `run_th` takes `items` first), and the result is `[func(x) for x in items]` | high, not executed | Executors.ParallelizationMpTh | Executors.RunMpTh |
| utilities/core/files.py:161-165, utilities/vision.py:20-21 | the loader passes `cv2.imread`'s result straight to `cv2.cvtColor`. `imread` gives `None` for an unreadable file, and `cvtColor` raises `cv2.error` on `None`. `load_img` catches only `FileNotFoundError` and `load_image` catches nothing, so the `image is None` branch of the resize helpers is dead | a path to a missing or non-image file | the loader returns `None` for an unreadable file and the resize helper returns `None`: `load_img` says so in its `Optional[np.ndarray]` return type and docstring (utilities/core/files.py:152-158); for `vision.load_image`, annotated `-> np.ndarray`, the intent is carried by `resize_image`'s `if image is None: return None` branch and `Optional[Path]` return (utilities/vision.py:24-28) | high, not executed | Resize.ResizeFileAsWritten | Resize.ResizeFile |
