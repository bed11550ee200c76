/** The `range` object's iterator. `next` is an arrow function, so its `this` is
    `range` itself: the cursor is `range.start`, shared by every iterator the
    object hands out. */
module RangeIterator {

  /** The `range` object's `start` and `end` properties. */
  datatype Range = Range(start: int, end: int)

  /** What `next()` returns: `{value, done: false}` or `{done: true}`. */
  datatype IterResult = Yield(value: int) | Done

  datatype NextStep = NextStep(result: IterResult, next: Range)

  /** `next()`: while `start <= end`, yield `start` and increment it. */
  function Next(r: Range): (s: NextStep)
    // end never moves; start moves up by one exactly when a value is yielded
    ensures s.next.end == r.end
    ensures s.result.Yield? ==> s.result.value == r.start <= r.end && s.next.start == r.start + 1
    ensures s.result.Done? ==> r.start > r.end && s.next == r
  {
    if r.start <= r.end then NextStep(Yield(r.start), Range(r.start + 1, r.end))
    else NextStep(Done, r)
  }

  /** The number of values still to come. */
  function Remaining(r: Range): nat
  {
    if r.start <= r.end then r.end - r.start + 1 else 0
  }

  /** `n` calls of `next()`: the results in order and the object afterwards. */
  datatype Calls = Calls(results: seq<IterResult>, final: Range)

  function CallNext(r: Range, n: nat): (c: Calls)
    ensures |c.results| == n
    decreases n
  {
    if n == 0 then Calls([], r)
    else
      var step := Next(r);
      var rest := CallNext(step.next, n - 1);
      Calls([step.result] + rest.results, rest.final)
  }

  /** A `for...of` loop: `next()` until `done`, collecting the values. */
  datatype Loop = Loop(values: seq<int>, final: Range)

  function ForOf(r: Range): (l: Loop)
    // one value per remaining step, each within the range, and the range is spent
    ensures |l.values| == Remaining(r)
    ensures forall k :: 0 <= k < |l.values| ==> r.start <= l.values[k] <= r.end
    ensures l.final.end == r.end && Remaining(l.final) == 0
    decreases Remaining(r)
  {
    var step := Next(r);
    match step.result
    case Done => Loop([], step.next)
    case Yield(v) =>
      var rest := ForOf(step.next);
      Loop([v] + rest.values, rest.final)
  }

  /** The values start, start + 1, ..., end. */
  function Interval(start: int, end: int): (s: seq<int>)
    ensures |s| == (if start <= end then end - start + 1 else 0)
    ensures forall k :: 0 <= k < |s| ==> s[k] == start + k
  {
    seq(if start <= end then end - start + 1 else 0, k => start + k)
  }

  /** The first `n` calls yield start, start + 1, ... in increasing order, as
      long as values remain; all later calls are done, and the cursor rests at
      end + 1 once the range is spent. */
  lemma {:induction false} LemmaCallNext(r: Range, n: nat)
    ensures forall k :: 0 <= k < n && k < Remaining(r) ==> CallNext(r, n).results[k] == Yield(r.start + k)
    ensures forall k :: Remaining(r) <= k < n ==> CallNext(r, n).results[k] == Done
    ensures CallNext(r, n).final.end == r.end
    ensures CallNext(r, n).final.start == r.start + (if n < Remaining(r) then n else Remaining(r))
    decreases n
  {
    if n > 0 {
      var step := Next(r);
      LemmaCallNext(step.next, n - 1);
      var results := CallNext(r, n).results;
      assert forall k :: 1 <= k < n ==> results[k] == CallNext(step.next, n - 1).results[k - 1];
    }
  }

  /** Once `next()` says done, so does every later call. */
  lemma {:induction false} LemmaDoneStays(r: Range, n: nat)
    requires Next(r).result.Done?
    ensures forall k :: 0 <= k < n ==> CallNext(r, n).results[k] == Done
    ensures CallNext(r, n).final == r
  {
    if n > 0 {
      LemmaDoneStays(r, n - 1);
      var results := CallNext(r, n).results;
      assert forall k :: 1 <= k < n ==> results[k] == CallNext(r, n - 1).results[k - 1];
    }
  }

  /** A `for...of` loop sees exactly start..end, that is max(0, end - start + 1)
      values, and leaves the cursor past the end. */
  lemma {:induction false} LemmaForOf(r: Range)
    ensures ForOf(r).values == Interval(r.start, r.end)
    ensures ForOf(r).final == Range(if r.start <= r.end then r.end + 1 else r.start, r.end)
    decreases Remaining(r)
  {
    if r.start <= r.end {
      var step := Next(r);
      LemmaForOf(step.next);
      assert ForOf(r).values == [r.start] + Interval(r.start + 1, r.end);
    }
  }

  /** Because the cursor lives on `range`, a second loop over the same object
      yields nothing. */
  lemma LemmaSecondLoopEmpty(r: Range)
    ensures ForOf(ForOf(r).final).values == []
  {
    LemmaForOf(r);
    LemmaForOf(ForOf(r).final);
  }

  /** The demonstration: `range = {start: 1, end: 5}` yields 1, 2, 3, 4, 5. */
  lemma LemmaDemo()
    ensures ForOf(Range(1, 5)).values == [1, 2, 3, 4, 5]
  {
    LemmaForOf(Range(1, 5));
    assert Interval(1, 5) == [1, 2, 3, 4, 5];
  }
}
