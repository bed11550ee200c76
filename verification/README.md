# JavaScript teaching snippets, modelled in Dafny

The repository is a set of standalone JavaScript snippets. This project models
the ones with logic that can be stated exactly. Each snippet is a Dafny module
of its own:

- `FlatMap` (flat_map.dfy): `Array.prototype.myFlat(depth = 1)` and its inner
  `flatten(arr, currentDepth)`. Values are `Leaf | Nested(items)`. Depth is
  `Fin(int) | Inf`, so that `Infinity - 1 == Infinity` holds.
- `Includes` (includes.dfy): `Array.prototype.myIncludes(searchElement, fromIndex)`,
  its start-index computation, and a corrected search that uses that index.
- `Closure` (closure.dfy): `memoize`, `fibonacci`, `solveCreateCounter` and
  `once`. Each closure's private variables become a state record (`Memo`,
  `Counter`, `OnceState`). Each call of the returned function is a step
  function that returns the call's result and the next state.
- `Retry` (retry.dfy): `retryAsyncOperation`. The function `attempt(i)` gives
  how the promise from the i-th call of `asyncfun()` settles. This removes the
  promise and timer plumbing and leaves a pure function.
- `RangeIterator` (range_iterator.dfy): the `range` object's `next()`. Its
  cursor is `range.start` itself.
- `ObjectKeys` (object_keys.dfy): `Object.myKeys(obj)`. The object is given as
  its `for...in` enumeration: a sequence of visited keys, each with its
  `hasOwnProperty` answer.
- `Js` (js.dfy): the shared value model. It has undefined, null, booleans,
  integer numbers, strings and object references, plus truthiness, `===`,
  and normal versus thrown completions.

The prototype-augmentation guards (`if (!Array.prototype.myFlat)` and the
like) are modelled as plain functions. In three places the code differs from
the built-in it imitates, and the model follows the code:

- The built-in `Array.prototype.flat(0)` returns a shallow copy, while
  `myFlat(0)` returns `this`, the receiver array itself.
- The built-in `flat` treats a negative depth as 0, so `[1, [2]].flat(-1)` is
  `[1, [2]]`. A negative depth never equals `0` after repeated decrements
  (flat-map.js:7), so `myFlat(-1)` flattens completely and gives `[1, 2]`. The
  same holds for a fractional depth, which the model leaves out.
- `myIncludes` never uses the start index it computes (see Findings).

The built-in `includes` also finds `NaN`, which `===` in `myIncludes` misses.
`NaN` is not modelled.

## Model

| member | source | states |
|---|---|---|
| FlatMap.Flatten | flat-map.js:6-16 | the inner `flatten` returns an array exactly when it is given one |
| FlatMap.MyFlat | flat-map.js:5-17 | an omitted depth acts as depth 1; depth 0 or a non-array receiver returns the receiver unchanged; the leaves keep their order and number at every depth; depth n >= 0 lowers the nesting height by n, but not below a flat array; `Infinity` or a negative depth gives exactly the leaves as a flat array |
| FlatMap.LemmaReduceSplice | flat-map.js:10-15 | the `reduce` with `concat` equals appending each element's contribution, left to right, to the accumulator |
| FlatMap.LemmaFlattenSplices | flat-map.js:10-15 | at a nonzero depth, a leaf element is kept as itself, and an array element is spliced in after flattening it at depth - 1 |
| FlatMap.LemmaFlattenLeaves | flat-map.js:10-15 | flattening at any depth keeps the sequence of non-array leaves, so their relative order and count are unchanged |
| FlatMap.LemmaFlattenHeight | flat-map.js:7-12 | for depth n >= 0, the output's nesting height is max(height - n, 1) |
| FlatMap.LemmaFlattenUnbounded | flat-map.js:7-12 | at `Infinity` or a negative depth, the output is exactly the leaves, in order, with no nested array |
| FlatMap.LemmaNegativeDepthFlattens | flat-map.js:5-17 | `[1, [2]].myFlat(-1)` gives `[1, 2]`, where the built-in would keep `[1, [2]]` |
| FlatMap.LemmaDeepEnoughIsFlat | flat-map.js:7-12 | a depth at least the nesting depth leaves no nested array |
| FlatMap.LemmaDemoDepthOne | flat-map.js:21-26 | for the demo array, `myFlat()` and `myFlat(1)` both give `[1, 2, 3, 5, 3, [3, 5, 3]]` |
| FlatMap.LemmaDemoDeep | flat-map.js:21-32 | for the demo array, `myFlat(3)` and `myFlat(Infinity)` both give `[1, 2, 3, 5, 3, 3, 5, 3]` |
| Includes.StartIndex | main.js:24-29 | the start index is never negative; an omitted or 0 fromIndex gives 0; a positive one is kept as is; a negative -k counts k back from the end, and clamps to 0 exactly when k >= length |
| Includes.MyIncludes | main.js:23-37 | as written, the result is true iff some element `=== searchElement`, whatever fromIndex is; an empty array gives false |
| Includes.MyIncludesFromIndex | main.js:24-36 | corrected search: true iff some element at or after the start index `=== searchElement`; false when the start index is at or past the end |
| Includes.LemmaFromIndexIgnored | main.js:24-31 | `[1, 2, 3].myIncludes(1, 1)` finds 1 when searching from 0, but not from the computed start index 1 |
| Includes.LemmaDemoCalls | main.js:41-48 | `[1..5]` includes 3 but not 6; the fruits include 'banana' and 'mango' but not 'grape' |
| Closure.MemoCall | closure.js:25-38 | a truthy cached value is returned without calling `fn`, and the cache is unchanged; otherwise `fn(args)` is returned and a normal result is stored under the key; a throwing `fn` leaves the cache unchanged; entries are never removed, and no other entry changes |
| Closure.RunMemo | closure.js:27-37 | over any call sequence, each call gives one result, `fn` runs at most once per call, and the cache only grows, and only by keys of the calls made |
| Closure.LemmaMemoTruthyBound | closure.js:21-35 | when every value already cached is truthy, and `fn` never throws and returns only truthy values, `fn` runs at most once per key not already cached; from an empty cache, at most once per distinct argument key over the whole run |
| Closure.LemmaMemoCallTransparent | closure.js:29-37 | if the cache agrees with `fn` and `fn` depends only on the key, a call returns `fn(args)` and the cache still agrees with `fn` |
| Closure.LemmaMemoTransparent | closure.js:29-37 | under the same condition, every call in any sequence returns `fn(args)` |
| Closure.LemmaMemoTruthyCached | closure.js:31-33 | after a call that returned a truthy value, the same call is served from the cache and `fn` is not invoked |
| Closure.LemmaMemoFalsyRecomputed | closure.js:31-35 | a function returning 0 is invoked again on a repeated call, even though its result is stored |
| Closure.MemoCallFixed | closure.js:29-37 | corrected lookup by presence: any stored result is returned without calling `fn`; a throwing `fn` leaves the cache unchanged; the other cache frame conditions are the same as MemoCall |
| Closure.RunMemoFixed | closure.js:27-37 | the call sequence with the corrected lookup: one result per call, and the cache grows only by keys of the calls made |
| Closure.LemmaMemoFixedBound | closure.js:21-35 | with the corrected lookup, when `fn` never throws, `fn` runs at most once per distinct argument key not already cached, whatever it returns |
| Closure.LemmaMemoFixedCached | closure.js:29-37 | with the corrected lookup, a repeated call never invokes `fn` once the first call returned normally |
| Closure.Fibonacci | closure.js:41-46 | returns n for n <= 1; is non-negative for n >= 0; is at least n - 1 for n >= 2 |
| Closure.FibonacciLoop | closure.js:41-46 | a bottom-up iteration computes the same value as the recursive definition for every n |
| Closure.CounterCall | closure.js:131-146 | `increment` returns the old count + 1 and `decrement` the old count - 1, and that value becomes the stored count |
| Closure.RunCounter | closure.js:131-146 | over a call sequence, the last call returns the final count, no calls leave the counter alone, and the count moves by at most one per call |
| Closure.LemmaCounterRun | closure.js:131-146 | after any sequence of calls, each returned value is the starting count plus increments minus decrements so far |
| Closure.CallOn | closure.js:131-153 | calling one counter moves only that counter, by one; every other counter is unchanged |
| Closure.LemmaCounterDemo | closure.js:121-153 | `counter1` prints 1 then 2; `counter2`'s decrements at lines 126 and 153 print -1 then -2, and `counter3`'s increments in between print 1 then 2 without moving `counter2` |
| Closure.OnceCall | closure.js:158-168 | before a normal call, `fn` runs with the same receiver and arguments; afterwards the stored result is returned without calling `fn`; `isCalled` is set exactly on a normal return and is never cleared |
| Closure.RunOnce | closure.js:158-168 | over a call sequence, `fn` runs at most once per call, and `isCalled` ends up set exactly when it was already set or some call returned normally |
| Closure.LemmaOnceCalledStays | closure.js:161-167 | once `isCalled` is set, no later call invokes `fn`; each returns the stored result, and the state never changes |
| Closure.LemmaOnceExactlyOnce | closure.js:158-168 | when the first call returns normally, `fn` runs exactly once over the whole sequence, and every call returns the first call's result whatever its arguments |
| Closure.LemmaOnceAtMostOnce | closure.js:161-167 | when `fn` never throws, it is invoked at most once over any call sequence |
| Closure.LemmaOnceDemo | closure.js:170-177 | calling `executeOnce()` twice returns "Result" both times, and `expensiveOperation` runs once |
| Retry.AttemptsOperation | promise.js:117-125 | attempts end at the first success or when `attemptsLeft` runs out; the outcome is the last attempt's; every earlier attempt failed |
| Retry.RetryAsyncOperation | promise.js:115-128 | one to `retryCount + 1` attempts; the promise settles as the last attempt did; no attempt follows a success; a rejection comes only after the whole budget is used |
| Retry.LemmaRejectedExhausts | promise.js:119-123 | a rejection is reached only after the whole budget is used: `attemptsLeft + 1` attempts, or 1 when `attemptsLeft` is negative |
| Retry.LemmaRetryFirstSuccess | promise.js:115-128 | resolves with the first successful attempt within the budget, after exactly that many attempts; otherwise rejects with the last budgeted attempt's error after using them all |
| Retry.LemmaNoRetries | promise.js:119-126 | with `retryCount` 0, exactly one attempt is made, and it decides the outcome |
| Retry.LemmaFourAttempts | promise.js:144-146 | with `retryCount` 3 and four failures, exactly four attempts are made, and the fourth error is reported |
| RangeIterator.Next | Iterators.js:8-15 | while `start <= end`, yields `start` and moves it up by one; otherwise `done`, leaving the object unchanged; `end` never moves |
| RangeIterator.LemmaCallNext | Iterators.js:9-14 | successive calls yield start, start + 1, ... while values remain, that is for min(n, max(0, end - start + 1)) of n calls, then `done`; `end` never moves, and `start` advances once per value yielded, so it stops at end + 1 once the range is spent, or stays put if `start > end` from the outset |
| RangeIterator.LemmaDoneStays | Iterators.js:9-13 | once `next()` returns `done`, every later call also returns `done` |
| RangeIterator.ForOf | Iterators.js:8-22 | a `for...of` loop collects one value per remaining step, each between `start` and `end`, and leaves the range spent with `end` unchanged |
| RangeIterator.LemmaForOf | Iterators.js:3-22 | a `for...of` loop sees exactly start..end, in increasing order, and leaves `range.start` past the end |
| RangeIterator.LemmaSecondLoopEmpty | Iterators.js:6-10 | since the cursor is `range.start`, a second loop over the same object yields nothing |
| RangeIterator.LemmaDemo | Iterators.js:3-22 | `{start: 1, end: 5}` yields 1, 2, 3, 4, 5 |
| ObjectKeys.MyKeys | object.key.js:6-14 | the loop returns exactly the reference filter of the enumeration: the visited keys that are own properties, in enumeration order; the result is no longer than the enumeration |
| ObjectKeys.LemmaOwnNamesOrder | object.key.js:7-13 | the j-th result key is at the j-th own position of the enumeration, and these positions strictly increase |
| ObjectKeys.LemmaOwnNamesSound | object.key.js:9-10 | every returned key was visited as an own key |
| ObjectKeys.LemmaOwnNamesComplete | object.key.js:8-10 | every own key visited is returned |
| ObjectKeys.LemmaInheritedExcluded | object.key.js:9 | an inherited key that shares its name with no own key is not returned |
| ObjectKeys.LemmaDemo | object.key.js:18-19 | `{name: "Bob", age: "1000"}` gives `["name", "age"]` |

## Left out

- Logging and demonstration output (`console.log`) is left out. The
  memory-retention demos `leakyFunction` and `optimizedFunction` are left out:
  they only log.
- `memoize(fibonacci(5))` (closure.js:49) is left out. It passes a number
  where a function is expected.
- `JSON.stringify(args)` is an abstract `key` function of the arguments. It is
  total, so the TypeError it throws for cyclic arguments or a BigInt
  (closure.js:30) is left out: the real wrapper then throws before it calls
  `fn` or touches the cache. The key is also not injective (for instance, `undefined` and `null` both become `null`), so
  the transparency lemmas assume that `fn` depends only on the key.
- A memo key always starts with `[`. It therefore never names an inherited
  property of the cache object, and the model does not track such properties.
- `fn` in `memoize` and `once` is a function of its receiver and arguments. Its
  side effects and non-determinism are not modelled. Thrown exceptions are
  modelled.
- Re-entrant calls are left out. If `fn` calls the memoized wrapper itself,
  `cache[key] = result` (closure.js:35) writes into the live cache object, so
  the entries that the inner calls added survive. `MemoCall` instead builds the
  next cache from the one it had before the call. In `once`, `isCalled` is
  still false while `fn` runs, so a re-entrant call would invoke `fn` again.
  The model does not show that either.
- The original `createCounter` (closure.js:106-119) has no model of its own.
  Its `counter++; return counter` returns and stores the same values as
  `solveCreateCounter`, so `CounterCall` stands for both, and the demonstration
  uses it for `counter1` and `counter2`.
- Numbers are mathematical integers. NaN, -0, fractions, and the 2^53
  precision limit of counters and of Fibonacci values are not modelled.
- A non-numeric `depth` or `fromIndex` is left out, because the comparisons
  would involve coercions. A fractional depth is left out as well.
- Array holes (`reduce` skips them) and `Symbol.isConcatSpreadable` are left
  out. So is the object identity of arrays, including that `myFlat(0)` returns
  the same array.
- `attempt(i)` always settles. An attempt whose promise never settles leaves the
  returned promise pending forever (promise.js:118); that case is left out.
- Retry timers and the `deley` argument only space attempts out in time. They
  are left out.
- If `asyncfun()` throws synchronously or returns a non-promise, the settling
  differs. That case is left out.
- `Promise.all`, `race`, `any` and `allSettled` (promise.js:1-60) are built-in
  library calls, so they are left out.
- `promiseTimeout` (promise.js:69-90) is left out. Its outcome depends on the
  event loop's timer ordering.
- `simulateAsyncOperation` (promise.js:130-142) is left out. It uses
  `Math.random` and timers.
- this_Borrowing.js is not part of this model. It shows dynamic `this`
  binding, not an algorithm.
- `limitCalls` and `compose` do not appear in the source files, so they are
  not part of this model.
- The `for...in` enumeration order, including its walk up the prototype
  chain, is an input to `Object.myKeys`.
- An overridden `hasOwnProperty` and a null-prototype object, which has no
  such method, are left out.
- Closure.Fibonacci: its contract gives bounds, not the exact value. FibonacciLoop
  supplies the exact value as an independent computation.

## Findings

| source | as written | input that shows it | evidently intended | confidence | as-written member | corrected member |
|---|---|---|---|---|---|---|
| main.js:24-31 | The start index is computed, but the loop starts at 0. | `[1, 2, 3].myIncludes(1, 1)` returns true. | Search from the start index, which gives false here. | high; not executed | Includes.MyIncludes, Includes.LemmaFromIndexIgnored | Includes.MyIncludesFromIndex |
| closure.js:31 | `if (cache[key])` tests whether the stored value is truthy. | A function that returns 0, called twice with the same arguments, runs twice. | Test whether the key is present, so that any stored result is reused. | medium; not executed | Closure.MemoCall, Closure.LemmaMemoFalsyRecomputed | Closure.MemoCallFixed, Closure.LemmaMemoFixedCached |
