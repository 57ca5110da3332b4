# flow: a Dafny model of a callback-style control-flow toolkit

The toolkit (`src/flow.js`) runs callback-style operations in three ways and
reports one aggregate result, or an error, through a completion callback:

- `serial` runs them one after another, feeding each result into the next operation.
- `map` and `filter` run them all at once.
- `mapLimit` and `filterLimit` run them at most `limit` at a time.
- `makeAsync` wraps a synchronous function as such an operation.

This project models each combinator and proves what it promises.

- **Values** (`values.dfy`): JavaScript values, as far as the toolkit inspects them.
  `Truthy` is JavaScript truthiness. `Outcome` is what an operation reports to its
  callback: `Ok(value)` or `Err`.
- **Serial** (`serial.dfy`): `serial` is a left fold over the operations, seeded with
  `0`. An element is either `NotFunction` or `Fn(call)`. `call` takes an optional
  input: the first operation gets none, and later ones get the running total.
  `Reduce` is the index-by-index loop. It is proved equal to the fold.
- **Parallel** (`parallel.dfy`): `All` models `Promise.all`. `Map` and `Filter`
  model the unlimited combinators. `Select` models `Array.prototype.filter` by
  position.
- **Async** (`async.dfy`): `makeAsync`.
- **Scheduler** (`scheduler.dfy`): the bounded scheduler behind `mapLimit` and
  `filterLimit`, as a state machine. A `Config` holds the items, the per-item
  operation and `limit`. A state holds four parts:
  - how far the synchronous launch loop has got;
  - the items deferred to `setInterval` polling;
  - the running set;
  - the counter `operationsInProcess`, and the recorded outcomes.

  There are three steps:
  - `Launch`: the launch loop reaches the next item. It starts the item unless
    `count == limit`; in that case it defers the item.
  - `Poll(j)`: the deferred item at position `j` starts. This needs `count < limit`.
  - `Complete(i)`: a running item calls back and the counter goes down, even on an
    error.

  Timer order and completion order are free choices, so every interleaving is
  covered. `Settled` is what `Promise.all` has delivered so far.
- **Limited** (`limited.dfy`): what the callbacks of `mapLimit` and `filterLimit`
  receive.

Operations are pure functions from their input to an `Outcome`. Whatever they do
internally, including I/O, is outside the model.

## Model

| member | source | states |
|---|---|---|
| Parallel.All | src/flow.js:67-75 | `Promise.all` over per-item outcomes succeeds exactly when every outcome succeeds. On success its values are index-aligned with the outcomes. |
| Parallel.Map | src/flow.js:50-76 | `map` succeeds exactly when every item's operation succeeds. Position i then holds item i's result. An empty input gives `[]`. Any failure gives an error and no result. |
| Parallel.SelectIndices | src/flow.js:111-114 | Filtering by position keeps exactly the kept positions, in strictly increasing order: the result is the ordered subsequence. |
| Parallel.SelectCongruent | src/flow.js:111-114 | Two selections that keep the same positions, and agree on the kept elements, give equal results. |
| Parallel.SelectTruthyIsTruthy | src/flow.js:239-241 | Compacting a sequence with `filter(item => item)` leaves only truthy values. |
| Parallel.CountTrueStrict | src/flow.js:239-241 | Keeping a strict subset of the positions keeps strictly fewer elements. |
| Parallel.Filter | src/flow.js:84-118 | A non-array input is an error, whatever the operation does. On an array, `filter` succeeds exactly when every verdict succeeds, and keeps at most the items. |
| Parallel.FilterKeepsTruthyInOrder | src/flow.js:109-114 | A successful `filter` returns exactly the items whose verdict is truthy, in their original relative order. |
| Parallel.MapExample | test/flow-test.js:26-48 | `map([1,2,3], +2)` gives `[3,4,5]`. `map([3,null,5], +2)` fails. `map([])` gives `[]`. |
| Parallel.FilterExample | test/flow-test.js:107-123 | `filter([1,15,30], >10)` gives `[15,30]`. A non-array input fails. `filter([])` gives `[]`. |
| Serial.Run | src/flow.js:16-35 | The fold is seeded with 0, so an empty chain gives 0. A finished chain contains only functions. A stop is reported at an index holding a non-function, or a function that failed, and every earlier element is a function. |
| Serial.StopsAtFirstFailure | src/flow.js:24-34 | A stopped chain stops at its first failure. The prefix before it finished, and the element there is what failed, on that prefix's total. |
| Serial.Step | src/flow.js:17-34 | One reducer step. A non-function stops the chain without being called. A function called on the step's input stops the chain at its index when it fails; when it succeeds, its value becomes the new total. |
| Serial.NoOperationRunsAfterFailure | src/flow.js:24-34 | Once a chain has stopped, appending operations leaves its outcome, and so the first report, unchanged. After a failing operation no later operation runs. After a non-function the reducer goes on calling later operations (see Left out). |
| Serial.EachOperationGetsPreviousResult | src/flow.js:17-35 | In a chain that finishes, every element is a function. Operation 0 is called with no input and operation k > 0 with the result of operation k - 1; what operation k returns is the total after it. |
| Serial.Reduce | src/flow.js:17-35 | The reduce loop is proved to equal the fold. Operation 0 is called without input and operation i>0 with the previous result. The loop stops at the first non-function or failure. The number of operations it calls equals `CallsBeforeReport`. |
| Serial.CalledExactlyBeforeReport | src/flow.js:17-35 | Operation k is called before the first report exactly when k is below `CallsBeforeReport`, that is, exactly when it is a function and every operation before it succeeded. |
| Serial.FailureReportedWithoutError | src/flow.js:26-28 | As written, a failing operation reaches the callback with a falsy error. The result is the same as an operation that succeeded with `undefined`. |
| Serial.ReportAsWritten | src/flow.js:16-41 | As written, success reports `(null, total)`. A non-function is reported with a truthy error. A failing operation is reported with a falsy (`undefined`) error. Every stop reports an `undefined` result. |
| Serial.ReportOf | src/flow.js:18-22 | With the failure passed on, the callback's error is truthy exactly when the chain did not finish. On success the result is the chain's total. |
| Serial.Serial | src/flow.js:16-42 | The corrected `serial` of the first Findings row: it reports an error exactly when the chain did not finish, and otherwise the fold's total. Any non-function element is reported as an error. `serial([])` reports `(null, 0)`. |
| Serial.NotAFunctionIsReported | src/flow.js:18-22 | Under the corrected `serial`, a non-function anywhere in the array gives an error and no result. |
| Serial.SerialExample | test/flow-test.js:78-96 | `[incByTwo, multiplyByTwo, incByTwo, incByTwo]` over `[1,2,5]` gives `[10,12,18]`. `[]` gives 0. `['Hello']` fails. |
| Async.Call | src/flow.js:126-131 | The wrapped operation succeeds exactly on truthy input, and then with `f(data)`. |
| Async.MakeAsync | src/flow.js:125-133 | The operation `makeAsync(f)` succeeds exactly on truthy input, and then with `f(data)`. Falsy input fails whatever `f` is. |
| Async.MapMadeAsync | src/flow.js:125-133 | Mapping `makeAsync(f)` succeeds exactly when every item is truthy. It then gives `f` of each item, in order. |
| Async.MakeAsyncExample | test/flow-test.js:132-155 | Squaring `[2,10,30]` gives `[4,100,900]`. `null` fails. |
| Scheduler.Next | src/flow.js:151-175 | A step never takes the counter past the limit. A launch defers its item when the counter is at the limit and starts it otherwise. A poll starts a deferred item and removes it from the queue. A completion frees the item's slot and records its outcome. |
| Scheduler.Settled | src/flow.js:179-180 | `Promise.all` delivers a failure exactly when some recorded outcome is a failure. It delivers nothing while no failure is recorded and some item is not done. A success holds every item's value, index-aligned. |
| Scheduler.DeferKeepsInv | src/flow.js:170-171 | Deferring an item when the counter equals the limit keeps the invariant. The deferred queue gains a fresh index. |
| Scheduler.StartKeepsInv | src/flow.js:172-175 | Starting an item at once when the counter is not at the limit keeps the invariant, so the counter stays within the limit. |
| Scheduler.PollKeepsInv | src/flow.js:160-167 | A poll that starts any deferred item while `count < limit` keeps the invariant. |
| Scheduler.CompleteKeepsInv | src/flow.js:151-158 | A completion keeps the invariant. It decrements the counter and records the outcome, success or error. |
| Scheduler.StepKeepsInv | src/flow.js:151-175 | Every step keeps the invariant: the counter is within `0..limit` and counts the running items. Deferred, running and done items are disjoint and cover the launched items. Each recorded outcome is that item's. |
| Scheduler.ExecKeepsInv | src/flow.js:143-177 | Every sequence of enabled steps keeps the invariant. |
| Scheduler.InvPartitions | src/flow.js:144-180 | Under the invariant, pending (deferred or not yet launched), running and done indices partition `0..n-1`, and their sizes add up to n. |
| Scheduler.CountWithinLimit | src/flow.js:156-175 | Over every interleaving with `limit >= 1`, the counter never exceeds `limit` and equals the number of running operations. Pending, running and done partition `0..n-1`, and their sizes add up to n. |
| Scheduler.StepDecreases | src/flow.js:160-175 | Every step lowers a bound on the remaining steps, so every run finishes. |
| Scheduler.Progress | src/flow.js:160-175 | With `limit >= 1`, some step is enabled until every item is done: no item is left waiting forever. |
| Scheduler.SettledIsMap | src/flow.js:179-182 | Whatever the completion order, a delivered result equals the unlimited `map` of the same items. This includes an early failure. |
| Scheduler.TerminalSettles | src/flow.js:179-182 | Once every item is done, a result has been delivered. |
| Scheduler.SettledIsFinal | src/flow.js:151-158 | A delivered result never changes afterwards: later completions do not overwrite it. |
| Scheduler.RunDeliversMap | src/flow.js:179-182 | Over every interleaving and every `limit >= 1`, a delivered result is the unlimited `map`, and one is delivered by the end. For `limit >= n` this is agreement with `map`. |
| Scheduler.NothingDeferredWithinLimit | src/flow.js:170-175 | With `limit >= n`, no item is ever deferred: each starts when the launch loop reaches it, as in `map`. |
| Scheduler.RunToCompletion | src/flow.js:143-186 | A complete run returns the unlimited `map`'s result. Its peak counter lies in `1..limit` for non-empty input. |
| Limited.MapLimitCallback | src/flow.js:179-185 | `mapLimit` hands data to its callback only after every item succeeded, and that data is the delivered result. |
| Limited.MapLimitAgreesWithMap | src/flow.js:179-185 | Over every interleaving, `mapLimit`'s data is the unlimited `map`'s, index-aligned with the items. By the end it is handed over exactly when every item succeeds. |
| Limited.FilterSlot | src/flow.js:204-215 | Each item's promise resolves with the item when its verdict is truthy and with `null` otherwise. It fails exactly when the verdict fails. |
| Limited.FilterLimitAsWritten | src/flow.js:236-244 | As written, `filterLimit` delivers when `Promise.all` over the slots does, fails exactly when some verdict failed, and hands over at most the items, every one of them truthy. |
| Limited.FilterLimit | src/flow.js:196-245 | The corrected `filterLimit` of the second Findings row delivers when `Promise.all` does. It fails exactly when some verdict failed. On success every verdict succeeded and at most the items are handed over. |
| Limited.FilterLimitAsWrittenKeeps | src/flow.js:236-241 | As written, a finished `filterLimit` fails exactly when some verdict fails. Otherwise it keeps item i exactly when the verdict and the item are both truthy, in order. |
| Limited.FilterLimitDropsFalsyItem | src/flow.js:210-241 | As written, `filterLimit([0], 1, accept all)` gives `[]`, while `filter` gives `[0]`. |
| Limited.AsWrittenAgreesIffKeptItemsTruthy | src/flow.js:210-214 | As-written `filterLimit` agrees with `filter` exactly when no item with a truthy verdict is itself falsy. |
| Limited.FilterLimitAgreesWithFilter | src/flow.js:196-245 | The corrected `filterLimit` delivers only the unlimited `filter`'s result, over every interleaving, and delivers it by the end. |
| Limited.MapLimitExample | src/flow.js:143-186 | `mapLimit([1..5], 2, increment)` never has three increments in flight. A finished run hands over `[2,3,4,5,6]`. |

## Left out

- Bluebird's `Promise.reduce` and `Promise.all`, and `setInterval` timing. Nondeterministic steps replace timers and the event loop. Completions may interleave with the synchronous launch loop, which covers callbacks made synchronously.
- Operation internals and their I/O: each operation is a pure function from its input to an `Outcome`.
- Serial.NoOperationRunsAfterFailure: after a non-function, `Promise.reduce` goes on calling the later operations with an `undefined` total (src/flow.js:19-21, 33). The fold stops there and only says that the first report is unchanged.
- Settle races: `reject(); resolve(data)` in one callback is modelled as its first settlement, which is a failure. An operation calling back twice is assumed not to happen. After a non-function element, `serial` calls `callback` and then lets the reduce continue, calling back a second time; only the first call is modelled.
- Limited.MapLimitCallback: `mapLimit`'s rejection handler throws and never calls `callback`. The model only says that no data is handed over on failure; the throw is not modelled.
- `limit <= 0` and non-integer limits: the code never checks `limit`. Every scheduler property requires `limit >= 1`. The invariant itself holds for `limit >= 0`.
- The `if (!items.length) reject(...)` checks inside the per-item launchers: they cannot fire, because the launchers only run on non-empty arrays.
- Error values and their wrapping in `new Error(...)`: every failure is the one `Err`.
- Non-array `items` for `map`, `mapLimit` and `filterLimit`: `items.map` throws a TypeError, which no callback reports. These take a sequence. Only `filter` checks for an array, and it takes a `Value`.
- JavaScript numbers are modelled as integers: NaN, fractions and `-0` are not modelled.
- Behaviours of the code worth knowing, which the model follows:
  - Deferred items are not admitted first-in, first-out: whichever interval fires first takes the slot. `Poll(j)` picks any deferred item.
  - Admissions continue after a failure: the intervals keep polling.
  - `serial` notices a non-function only when the reduce reaches it, after the earlier operations have run.
  - A zero or negative limit is not rejected.

## Findings

| source | as written | input that shows it | evidently intended | confidence | as-written member | corrected member |
|---|---|---|---|---|---|---|
| src/flow.js:26-28 | `reject()` is called with no reason, so `.catch` hands `undefined` to `callback` | `serial([op that calls cb(new Error('x'))], cb)` calls `cb(undefined)`, so the failure looks like a success with an `undefined` result | pass the failure on, e.g. `reject(err)`, so `callback` receives a truthy error | high, not executed | Serial.ReportAsWritten (Serial.FailureReportedWithoutError) | Serial.ReportOf (Serial.Serial) |
| src/flow.js:210-241 | a rejected item resolves `null` and the result is compacted with `data.filter(item => item)`, which also drops accepted items that are falsy | `filterLimit([0], 1, accept all)` gives `[]`; `filter([0], accept all)` gives `[0]` | keep item i exactly when its verdict is truthy, as `filter` does | medium, not executed | Limited.FilterLimitAsWritten (Limited.FilterLimitDropsFalsyItem) | Limited.FilterLimit (Limited.FilterLimitAgreesWithFilter) |
