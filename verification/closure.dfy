/** The closure snippets: `memoize`, `fibonacci`, `solveCreateCounter` and `once`.
    Each closure's private variables become an explicit state record, and each
    call of the returned function a step from one state to the next. */
module Closure {
  import opened Js

  /** The argument list of a call. */
  type Args = seq<Value>

  // ---------------------------------------------------------------------------
  // memoize(fn)

  /** The closure's `cache` object, from argument key to stored result. */
  datatype Memo = Memo(cache: map<string, Value>)

  /** `let cache = {}` */
  const NewMemo := Memo(map[])

  /** One call of the memoized function: what it returned or threw, the cache
      afterwards, and whether `fn` was invoked. */
  datatype MemoStep = MemoStep(out: Completion, next: Memo, invoked: bool)

  /** `cache[key]` read as a condition: present and truthy. */
  predicate Hit(m: Memo, k: string)
  {
    k in m.cache && Truthy(m.cache[k])
  }

  /** A call of `memoize(fn)` as written. `key` stands for `JSON.stringify(args)`;
      if `fn` throws, the exception propagates before anything is stored. */
  function MemoCall(m: Memo, fn: Args -> Completion, key: Args -> string, args: Args): (r: MemoStep)
    // a truthy cached value is returned without invoking fn, and the cache is unchanged
    ensures Hit(m, key(args)) ==>
              !r.invoked && r.next == m && r.out == Normal(m.cache[key(args)])
    // otherwise fn is invoked and its outcome returned
    ensures !Hit(m, key(args)) ==> r.invoked && r.out == fn(args)
    // a normal result is stored under the key
    ensures r.invoked && r.out.Normal? ==> key(args) in r.next.cache && r.next.cache[key(args)] == r.out.value
    // a throwing fn leaves the cache as it was
    ensures r.out.Throw? ==> r.next == m
    // entries are never removed, and no entry but the key's changes
    ensures m.cache.Keys <= r.next.cache.Keys <= m.cache.Keys + {key(args)}
    ensures forall k :: k in m.cache && k != key(args) ==> r.next.cache[k] == m.cache[k]
  {
    var k := key(args);
    if Hit(m, k) then MemoStep(Normal(m.cache[k]), m, false)
    else
      match fn(args)
      case Normal(result) => MemoStep(Normal(result), Memo(m.cache[k := result]), true)
      case Throw(e) => MemoStep(Throw(e), m, true)
  }

  /** The lookup the snippet's comments describe: any stored result, truthy or
      not, is returned without invoking `fn`. */
  function MemoCallFixed(m: Memo, fn: Args -> Completion, key: Args -> string, args: Args): (r: MemoStep)
    ensures key(args) in m.cache ==>
              !r.invoked && r.next == m && r.out == Normal(m.cache[key(args)])
    ensures key(args) !in m.cache ==> r.invoked && r.out == fn(args)
    ensures r.invoked && r.out.Normal? ==> key(args) in r.next.cache && r.next.cache[key(args)] == r.out.value
    ensures r.out.Throw? ==> r.next == m
    ensures m.cache.Keys <= r.next.cache.Keys <= m.cache.Keys + {key(args)}
    ensures forall k :: k in m.cache && k != key(args) ==> r.next.cache[k] == m.cache[k]
  {
    var k := key(args);
    if k in m.cache then MemoStep(Normal(m.cache[k]), m, false)
    else
      match fn(args)
      case Normal(result) => MemoStep(Normal(result), Memo(m.cache[k := result]), true)
      case Throw(e) => MemoStep(Throw(e), m, true)
  }

  /** Every stored entry is what `fn` returns for any argument list with that key. */
  ghost predicate Consistent(m: Memo, fn: Args -> Completion, key: Args -> string)
  {
    forall a :: key(a) in m.cache ==> fn(a) == Normal(m.cache[key(a)])
  }

  /** Argument lists with the same key get the same outcome from `fn`. The key
      `JSON.stringify` produces is not injective, so this is a real assumption. */
  ghost predicate RespectsKey(fn: Args -> Completion, key: Args -> string)
  {
    forall a, b :: key(a) == key(b) ==> fn(a) == fn(b)
  }

  /** Results of a sequence of calls on one memoized function. */
  datatype MemoRun = MemoRun(outs: seq<Completion>, final: Memo, invocations: nat)

  /** The keys of the argument lists in a call sequence. */
  function CallKeys(key: Args -> string, calls: seq<Args>): set<string>
  {
    set i | 0 <= i < |calls| :: key(calls[i])
  }

  /** The keys of all calls after the first are keys of the whole sequence. */
  lemma LemmaCallKeysTail(key: Args -> string, calls: seq<Args>)
    requires calls != []
    ensures CallKeys(key, calls) == {key(calls[0])} + CallKeys(key, calls[1..])
  {
    var rest := calls[1..];
    forall k | k in CallKeys(key, rest)
      ensures k in CallKeys(key, calls)
    {
      var i :| 0 <= i < |rest| && key(rest[i]) == k;
      assert key(calls[i + 1]) == k;
    }
    forall k | k in CallKeys(key, calls) && k != key(calls[0])
      ensures k in CallKeys(key, rest)
    {
      var i :| 0 <= i < |calls| && key(calls[i]) == k;
      assert key(rest[i - 1]) == k;
    }
  }

  /** A sequence of calls on one memoized function (as written): each call's
      outcome, the cache afterwards, and how often `fn` ran. */
  function RunMemo(m: Memo, fn: Args -> Completion, key: Args -> string, calls: seq<Args>): (r: MemoRun)
    ensures |r.outs| == |calls|
    ensures r.invocations <= |calls|
    // the cache only grows, and only by keys of the calls made
    ensures m.cache.Keys <= r.final.cache.Keys <= m.cache.Keys + CallKeys(key, calls)
    decreases calls
  {
    if calls == [] then MemoRun([], m, 0)
    else
      var step := MemoCall(m, fn, key, calls[0]);
      var rest := RunMemo(step.next, fn, key, calls[1..]);
      LemmaCallKeysTail(key, calls);
      MemoRun([step.out] + rest.outs, rest.final, rest.invocations + (if step.invoked then 1 else 0))
  }

  /** The same sequence of calls with the lookup by presence. */
  function RunMemoFixed(m: Memo, fn: Args -> Completion, key: Args -> string, calls: seq<Args>): (r: MemoRun)
    ensures |r.outs| == |calls|
    ensures r.invocations <= |calls|
    ensures m.cache.Keys <= r.final.cache.Keys <= m.cache.Keys + CallKeys(key, calls)
    decreases calls
  {
    if calls == [] then MemoRun([], m, 0)
    else
      var step := MemoCallFixed(m, fn, key, calls[0]);
      var rest := RunMemoFixed(step.next, fn, key, calls[1..]);
      LemmaCallKeysTail(key, calls);
      MemoRun([step.out] + rest.outs, rest.final, rest.invocations + (if step.invoked then 1 else 0))
  }

  /** Every stored value is truthy, so a stored key is also a hit. */
  predicate AllTruthy(m: Memo)
  {
    forall k :: k in m.cache ==> Truthy(m.cache[k])
  }

  /** As written, the cache does its job when `fn` never throws and never returns
      a falsy value: over any run, `fn` runs at most once per key not yet
      cached; from an empty cache, at most once per distinct argument key. */
  lemma {:induction false} LemmaMemoTruthyBound(m: Memo, fn: Args -> Completion, key: Args -> string, calls: seq<Args>)
    requires AllTruthy(m)
    requires forall i :: 0 <= i < |calls| ==> fn(calls[i]).Normal? && Truthy(fn(calls[i]).value)
    ensures RunMemo(m, fn, key, calls).invocations <= |CallKeys(key, calls) - m.cache.Keys|
    decreases calls
  {
    if calls != [] {
      var step := MemoCall(m, fn, key, calls[0]);
      var k0, rest := key(calls[0]), calls[1..];
      assert forall i :: 0 <= i < |rest| ==> rest[i] == calls[i + 1];
      LemmaMemoTruthyBound(step.next, fn, key, rest);
      LemmaCallKeysTail(key, calls);
      if Hit(m, k0) {
        LemmaKeysLeft(CallKeys(key, calls), CallKeys(key, rest), m.cache.Keys, k0);
      } else {
        assert step.next.cache.Keys == m.cache.Keys + {k0};
        LemmaKeysLeft(CallKeys(key, calls), CallKeys(key, rest), m.cache.Keys, k0);
      }
    }
  }

  /** With the lookup by presence, only a throwing `fn` can make the cache miss
      twice: when `fn` never throws, it runs at most once per key not yet cached. */
  lemma {:induction false} LemmaMemoFixedBound(m: Memo, fn: Args -> Completion, key: Args -> string, calls: seq<Args>)
    requires forall i :: 0 <= i < |calls| ==> fn(calls[i]).Normal?
    ensures RunMemoFixed(m, fn, key, calls).invocations <= |CallKeys(key, calls) - m.cache.Keys|
    decreases calls
  {
    if calls != [] {
      var step := MemoCallFixed(m, fn, key, calls[0]);
      var k0, rest := key(calls[0]), calls[1..];
      assert forall i :: 0 <= i < |rest| ==> rest[i] == calls[i + 1];
      LemmaMemoFixedBound(step.next, fn, key, rest);
      LemmaCallKeysTail(key, calls);
      if k0 !in m.cache {
        assert step.next.cache.Keys == m.cache.Keys + {k0};
      }
      LemmaKeysLeft(CallKeys(key, calls), CallKeys(key, rest), m.cache.Keys, k0);
    }
  }

  /** The uncached keys of the calls after the first: no more than before, and
      one fewer when the first call's key was not cached and now is. */
  lemma LemmaKeysLeft<T>(all: set<T>, later: set<T>, cached: set<T>, k0: T)
    requires all == {k0} + later
    ensures |later - cached| <= |all - cached|
    ensures k0 !in cached ==> |later - (cached + {k0})| + 1 <= |all - cached|
  {
    assert all - cached == (later - cached) + ((all - cached) - (later - cached));
    if k0 !in cached {
      var rest := later - (cached + {k0});
      assert all - cached == rest + {k0} + ((all - cached) - (rest + {k0}));
    }
  }

  /** One call keeps the cache consistent and returns what `fn` would. */
  lemma LemmaMemoCallTransparent(m: Memo, fn: Args -> Completion, key: Args -> string, args: Args)
    requires Consistent(m, fn, key) && RespectsKey(fn, key)
    ensures MemoCall(m, fn, key, args).out == fn(args)
    ensures Consistent(MemoCall(m, fn, key, args).next, fn, key)
  {
    var r := MemoCall(m, fn, key, args);
    forall a | key(a) in r.next.cache
      ensures fn(a) == Normal(r.next.cache[key(a)])
    {
      if key(a) == key(args) && !(key(args) in m.cache) {
        assert fn(a) == fn(args);
      }
    }
  }

  /** For an `fn` whose outcome depends only on the key, the memoized function
      is indistinguishable from `fn`: every call returns `fn(args)`. */
  lemma {:induction false} LemmaMemoTransparent(m: Memo, fn: Args -> Completion, key: Args -> string, calls: seq<Args>)
    requires Consistent(m, fn, key) && RespectsKey(fn, key)
    ensures forall i :: 0 <= i < |calls| ==> RunMemo(m, fn, key, calls).outs[i] == fn(calls[i])
    ensures Consistent(RunMemo(m, fn, key, calls).final, fn, key)
    decreases calls
  {
    if calls != [] {
      var step := MemoCall(m, fn, key, calls[0]);
      LemmaMemoCallTransparent(m, fn, key, calls[0]);
      LemmaMemoTransparent(step.next, fn, key, calls[1..]);
      var outs := RunMemo(m, fn, key, calls).outs;
      forall i | 1 <= i < |calls|
        ensures outs[i] == fn(calls[i])
      {
        assert calls[1..][i - 1] == calls[i];
      }
    }
  }

  /** As written, a call that returned a truthy value is answered from the
      cache the next time, without invoking `fn`. */
  lemma LemmaMemoTruthyCached(m: Memo, fn: Args -> Completion, key: Args -> string, args: Args)
    requires MemoCall(m, fn, key, args).out.Normal? && Truthy(MemoCall(m, fn, key, args).out.value)
    ensures var first := MemoCall(m, fn, key, args);
            var second := MemoCall(first.next, fn, key, args);
            !second.invoked && second.out == first.out
  {
  }

  /** As written, a falsy result is stored but never served: a function that
      returns 0 is invoked again on every call with the same arguments. */
  lemma LemmaMemoFalsyRecomputed()
    ensures var fn := (a: Args) => Normal(Num(0));
            var key := (a: Args) => "[]";
            var first := MemoCall(NewMemo, fn, key, []);
            var second := MemoCall(first.next, fn, key, []);
            first.invoked && second.invoked && "[]" in second.next.cache
  {
  }

  /** With the lookup by presence, a second call with the same arguments never
      invokes `fn` once the first returned normally, whatever it returned. */
  lemma LemmaMemoFixedCached(m: Memo, fn: Args -> Completion, key: Args -> string, args: Args)
    requires MemoCallFixed(m, fn, key, args).out.Normal?
    ensures var first := MemoCallFixed(m, fn, key, args);
            var second := MemoCallFixed(first.next, fn, key, args);
            !second.invoked && second.out == first.out
  {
  }

  // ---------------------------------------------------------------------------
  // fibonacci(n)

  /** `fibonacci(n)`: n itself up to 1 (negative n included), otherwise the sum
      of the two previous numbers. */
  function Fibonacci(n: int): (r: int)
    ensures n <= 1 ==> r == n
    ensures n >= 0 ==> r >= 0
    ensures n >= 2 ==> r >= n - 1
    decreases if n <= 1 then 0 else n
  {
    if n <= 1 then n else Fibonacci(n - 1) + Fibonacci(n - 2)
  }

  /** An independent bottom-up computation that agrees with the recursive one. */
  method FibonacciLoop(n: int) returns (r: int)
    ensures r == Fibonacci(n)
  {
    if n <= 1 {
      return n;
    }
    var prev, cur := 0, 1;
    var i := 1;
    while i < n
      invariant 1 <= i <= n
      invariant prev == Fibonacci(i - 1) && cur == Fibonacci(i)
    {
      prev, cur := cur, prev + cur;
      i := i + 1;
    }
    return cur;
  }

  // ---------------------------------------------------------------------------
  // solveCreateCounter()

  /** The closure's `counter` variable. */
  datatype Counter = Counter(count: int)

  /** `let counter = 0` */
  const NewCounter := Counter(0)

  datatype CounterOp = Increment | Decrement

  /** What a call of `increment` or `decrement` returned, and the counter after it. */
  datatype CounterStep = CounterStep(ret: int, next: Counter)

  /** `increment()` / `decrement()`: compute the new count, store it, return it. */
  function CounterCall(c: Counter, op: CounterOp): (r: CounterStep)
    ensures r.ret == r.next.count
    ensures op == Increment ==> r.ret == c.count + 1
    ensures op == Decrement ==> r.ret == c.count - 1
  {
    var newcounter := if op == Increment then c.count + 1 else c.count - 1;
    CounterStep(newcounter, Counter(newcounter))
  }

  /** Increments minus decrements. */
  function Net(ops: seq<CounterOp>): int
  {
    if ops == [] then 0 else Net(ops[..|ops| - 1]) + (if ops[|ops| - 1] == Increment then 1 else -1)
  }

  datatype CounterRun = CounterRun(rets: seq<int>, final: Counter)

  /** A sequence of calls on one counter: what each returned, and the counter after them. */
  function RunCounter(c: Counter, ops: seq<CounterOp>): (r: CounterRun)
    ensures |r.rets| == |ops|
    // the last call returns the final count; no calls leave the counter alone
    ensures ops != [] ==> r.rets[|ops| - 1] == r.final.count
    ensures ops == [] ==> r.final == c
    // each call moves the count by one
    ensures c.count - |ops| <= r.final.count <= c.count + |ops|
    decreases ops
  {
    if ops == [] then CounterRun([], c)
    else
      var step := CounterCall(c, ops[0]);
      var rest := RunCounter(step.next, ops[1..]);
      CounterRun([step.ret] + rest.rets, rest.final)
  }

  lemma {:induction false} LemmaNetCons(op: CounterOp, ops: seq<CounterOp>)
    ensures Net([op] + ops) == (if op == Increment then 1 else -1) + Net(ops)
    decreases |ops|
  {
    if ops != [] {
      assert ([op] + ops)[..|[op] + ops| - 1] == [op] + ops[..|ops| - 1];
      LemmaNetCons(op, ops[..|ops| - 1]);
    } else {
      assert ([op] + ops)[..0] == [];
    }
  }

  /** Every call returns the count so far: the starting count plus the
      increments and minus the decrements made up to and including it. */
  lemma {:induction false} LemmaCounterRun(c: Counter, ops: seq<CounterOp>)
    ensures RunCounter(c, ops).final.count == c.count + Net(ops)
    ensures forall i :: 0 <= i < |ops| ==> RunCounter(c, ops).rets[i] == c.count + Net(ops[..i + 1])
    decreases ops
  {
    if ops != [] {
      var step := CounterCall(c, ops[0]);
      LemmaCounterRun(step.next, ops[1..]);
      LemmaNetCons(ops[0], ops[1..]);
      assert [ops[0]] + ops[1..] == ops;
      var rets := RunCounter(c, ops).rets;
      forall i | 0 <= i < |ops|
        ensures rets[i] == c.count + Net(ops[..i + 1])
      {
        LemmaNetCons(ops[0], ops[1..][..i]);
        assert [ops[0]] + ops[1..][..i] == ops[..i + 1];
        if i == 0 {
          assert ops[1..][..0] == [];
        } else {
          assert ops[1..][..i - 1 + 1] == ops[1..][..i];
        }
      }
    }
  }

  /** Several counters, one per `solveCreateCounter()` call. */
  function CallOn(counters: seq<Counter>, i: nat, op: CounterOp): (r: (int, seq<Counter>))
    requires i < |counters|
    // only the addressed counter moves, by exactly one
    ensures |r.1| == |counters|
    ensures r.1[i].count == counters[i].count + (if op == Increment then 1 else -1) == r.0
    ensures forall j :: 0 <= j < |counters| && j != i ==> r.1[j] == counters[j]
  {
    var step := CounterCall(counters[i], op);
    (step.ret, counters[i := step.next])
  }

  /** The demonstration. `counter1` increments twice and prints 1 then 2. Then
      `counter2` (index 0) decrements, `counter3` (index 1) increments twice and
      `counter2` decrements again: 1 and 2 for `counter3`, -1 and -2 for `counter2`.
      `createCounter` behaves as `solveCreateCounter` here. */
  lemma LemmaCounterDemo()
    ensures RunCounter(NewCounter, [Increment, Increment]).rets == [1, 2]
    ensures RunCounter(NewCounter, [Decrement, Decrement]).rets == [-1, -2]
    ensures var c1 := CallOn([NewCounter, NewCounter], 0, Decrement);
            var c2 := CallOn(c1.1, 1, Increment);
            var c3 := CallOn(c2.1, 1, Increment);
            var c4 := CallOn(c3.1, 0, Decrement);
            [c1.0, c2.0, c3.0, c4.0] == [-1, 1, 2, -2] && c4.1 == [Counter(-2), Counter(2)]
  {
  }

  // ---------------------------------------------------------------------------
  // once(fn)

  /** The closure's `isCalled` flag and stored `result`. */
  datatype OnceState = OnceState(isCalled: bool, result: Value)

  /** `let isCalled = false; let result;` */
  const NewOnce := OnceState(false, Undefined)

  /** A function that is called with a receiver (`this`) and arguments. */
  type Method = (Value, Args) -> Completion

  datatype OnceStep = OnceStep(out: Completion, next: OnceState, invoked: bool)

  /** One call of `once(fn)`. `fn.call(this, ...args)` forwards the receiver; if
      it throws, `isCalled` is not set, so the next call tries again. */
  function OnceCall(s: OnceState, fn: Method, thisArg: Value, args: Args): (r: OnceStep)
    // after a normal first call, the stored result is returned and fn is not invoked
    ensures s.isCalled ==> !r.invoked && r.next == s && r.out == Normal(s.result)
    // before it, fn is invoked with the same receiver and arguments
    ensures !s.isCalled ==> r.invoked && r.out == fn(thisArg, args)
    // the flag is set exactly when the invocation returned normally, and never cleared
    ensures r.next.isCalled <==> s.isCalled || r.out.Normal?
    ensures r.next.isCalled ==> r.out == Normal(r.next.result)
  {
    if !s.isCalled then
      match fn(thisArg, args)
      case Normal(v) => OnceStep(Normal(v), OnceState(true, v), true)
      case Throw(e) => OnceStep(Throw(e), s, true)
    else OnceStep(Normal(s.result), s, false)
  }

  /** A call: its receiver and its arguments. */
  datatype Call = Call(thisArg: Value, args: Args)

  datatype OnceRun = OnceRun(outs: seq<Completion>, final: OnceState, invocations: nat)

  /** A sequence of calls of `once(fn)`'s result: each outcome, the closure's
      state afterwards, and how often `fn` ran. */
  function RunOnce(s: OnceState, fn: Method, calls: seq<Call>): (r: OnceRun)
    ensures |r.outs| == |calls|
    ensures r.invocations <= |calls|
    // isCalled ends up set exactly when it was set already or some call returned normally
    ensures r.final.isCalled <==> s.isCalled || exists i :: 0 <= i < |calls| && r.outs[i].Normal?
    decreases calls
  {
    if calls == [] then OnceRun([], s, 0)
    else
      var step := OnceCall(s, fn, calls[0].thisArg, calls[0].args);
      var rest := RunOnce(step.next, fn, calls[1..]);
      var outs := [step.out] + rest.outs;
      assert forall i :: 0 <= i < |rest.outs| ==> outs[i + 1] == rest.outs[i];
      assert (exists i :: 0 <= i < |outs| && outs[i].Normal?) <==>
             outs[0].Normal? || exists i :: 0 <= i < |rest.outs| && rest.outs[i].Normal?;
      OnceRun(outs, rest.final, rest.invocations + (if step.invoked then 1 else 0))
  }

  /** Once `isCalled` is set it stays set: fn is never invoked again and every
      call returns the stored result. */
  lemma {:induction false} LemmaOnceCalledStays(s: OnceState, fn: Method, calls: seq<Call>)
    requires s.isCalled
    ensures RunOnce(s, fn, calls).final == s
    ensures RunOnce(s, fn, calls).invocations == 0
    ensures forall i :: 0 <= i < |calls| ==> RunOnce(s, fn, calls).outs[i] == Normal(s.result)
  {
    if calls != [] {
      LemmaOnceCalledStays(s, fn, calls[1..]);
      var outs := RunOnce(s, fn, calls).outs;
      assert forall i :: 1 <= i < |calls| ==> outs[i] == RunOnce(s, fn, calls[1..]).outs[i - 1];
    }
  }

  /** When the first call returns normally, fn runs exactly once over any call
      sequence, and every call returns the first call's result, whatever its
      receiver and arguments. */
  lemma {:induction false} LemmaOnceExactlyOnce(fn: Method, calls: seq<Call>)
    requires |calls| > 0 && fn(calls[0].thisArg, calls[0].args).Normal?
    ensures RunOnce(NewOnce, fn, calls).invocations == 1
    ensures forall i :: 0 <= i < |calls| ==>
              RunOnce(NewOnce, fn, calls).outs[i] == fn(calls[0].thisArg, calls[0].args)
    ensures RunOnce(NewOnce, fn, calls).final.isCalled
  {
    var first := fn(calls[0].thisArg, calls[0].args);
    var next := OnceState(true, first.value);
    assert OnceCall(NewOnce, fn, calls[0].thisArg, calls[0].args) == OnceStep(first, next, true);
    LemmaOnceCalledStays(next, fn, calls[1..]);
    var rest := RunOnce(next, fn, calls[1..]);
    assert RunOnce(NewOnce, fn, calls) == OnceRun([first] + rest.outs, rest.final, rest.invocations + 1);
  }

  /** fn is invoked at most once over any call sequence, unless it throws: each
      invocation after the first follows one that threw. */
  lemma {:induction false} LemmaOnceAtMostOnce(s: OnceState, fn: Method, calls: seq<Call>)
    requires forall i :: 0 <= i < |calls| ==> fn(calls[i].thisArg, calls[i].args).Normal?
    ensures RunOnce(s, fn, calls).invocations <= 1
    ensures s.isCalled ==> RunOnce(s, fn, calls).invocations == 0
  {
    if calls != [] {
      var step := OnceCall(s, fn, calls[0].thisArg, calls[0].args);
      LemmaOnceCalledStays(step.next, fn, calls[1..]);
    }
  }

  /** The demonstration: `executeOnce()` twice returns "Result" both times and
      runs `expensiveOperation` once. */
  lemma LemmaOnceDemo()
    ensures var expensiveOperation := (t: Value, a: Args) => Normal(Str("Result"));
            var run := RunOnce(NewOnce, expensiveOperation, [Call(Undefined, []), Call(Undefined, [])]);
            run.outs == [Normal(Str("Result")), Normal(Str("Result"))] && run.invocations == 1
  {
  }
}
