/** `retryAsyncOperation(asyncfun, retryCount, deley)`, with the promise and timer
    plumbing abstracted away: `attempt(i)` is how the promise returned by the
    i-th call of `asyncfun()` (counting from 0) settles. */
module Retry {
  import opened Js

  /** How a promise settles. */
  datatype Settled = Resolved(value: Value) | Rejected(error: Value)

  /** How the returned promise settles, and how many times `asyncfun` was called. */
  datatype RetryRun = RetryRun(settled: Settled, attempts: nat)

  /** `attemptsOperation(attemptsLeft)` as the `attempt`-th call: a success
      resolves; a failure retries while `attemptsLeft > 0`, else rejects with
      that failure's error. */
  function AttemptsOperation(attempt: nat -> Settled, i: nat, attemptsLeft: int): (r: RetryRun)
    // this call counts, and later ones only while attempts are left
    ensures i + 1 <= r.attempts <= i + 1 + (if attemptsLeft > 0 then attemptsLeft else 0)
    // the outcome is that of the last attempt made
    ensures r.settled == attempt(r.attempts - 1)
    // every attempt before the last failed
    ensures forall j :: i <= j < r.attempts - 1 ==> attempt(j).Rejected?
    decreases if attemptsLeft > 0 then attemptsLeft else 0
  {
    match attempt(i)
    case Resolved(v) => RetryRun(Resolved(v), i + 1)
    case Rejected(error) =>
      if attemptsLeft > 0 then AttemptsOperation(attempt, i + 1, attemptsLeft - 1)
      else RetryRun(Rejected(error), i + 1)
  }

  /** The number of attempts allowed: the initial one plus `retryCount` retries
      (a negative count allows no retry). */
  function Budget(retryCount: int): nat
  {
    if retryCount > 0 then retryCount + 1 else 1
  }

  /** `retryAsyncOperation(asyncfun, retryCount, deley)`; the delay only spaces
      the attempts out in time and does not change the outcome. */
  function RetryAsyncOperation(attempt: nat -> Settled, retryCount: int): (r: RetryRun)
    // at least one and at most retryCount + 1 attempts
    ensures 1 <= r.attempts <= Budget(retryCount)
    // the promise settles as the last attempt made did
    ensures r.settled == attempt(r.attempts - 1)
    // a success ends the attempts; a failure ends them only when none are left
    ensures forall j :: 0 <= j < r.attempts - 1 ==> attempt(j).Rejected?
    ensures r.settled.Rejected? ==> r.attempts == Budget(retryCount)
  {
    LemmaRejectedExhausts(attempt, 0, retryCount);
    AttemptsOperation(attempt, 0, retryCount)
  }

  /** A rejection happens only after every allowed attempt was used. */
  lemma {:induction false} LemmaRejectedExhausts(attempt: nat -> Settled, i: nat, attemptsLeft: int)
    ensures AttemptsOperation(attempt, i, attemptsLeft).settled.Rejected? ==>
              AttemptsOperation(attempt, i, attemptsLeft).attempts == i + Budget(attemptsLeft)
    decreases if attemptsLeft > 0 then attemptsLeft else 0
  {
    if attempt(i).Rejected? && attemptsLeft > 0 {
      LemmaRejectedExhausts(attempt, i + 1, attemptsLeft - 1);
    }
  }

  // ---------------------------------------------------------------------------
  // Reference: the first success within the budget

  /** Some attempt below `n` succeeds. */
  predicate SucceedsBefore(attempt: nat -> Settled, n: nat)
  {
    exists j :: 0 <= j < n && attempt(j).Resolved?
  }

  /** The index of the first successful attempt from `i` on and below `n`. */
  function FirstSuccess(attempt: nat -> Settled, i: nat, n: nat): (k: nat)
    requires exists j :: i <= j < n && attempt(j).Resolved?
    ensures i <= k < n && attempt(k).Resolved?
    ensures forall j :: i <= j < k ==> attempt(j).Rejected?
    decreases n - i
  {
    if attempt(i).Resolved? then i else FirstSuccess(attempt, i + 1, n)
  }

  /** The operation resolves with the value of the first successful attempt
      within the budget, after exactly that many attempts; if none of the
      budgeted attempts succeeds, it rejects with the last one's error after
      using them all. */
  lemma LemmaRetryFirstSuccess(attempt: nat -> Settled, retryCount: int)
    ensures var r := RetryAsyncOperation(attempt, retryCount);
            var n := Budget(retryCount);
            if SucceedsBefore(attempt, n) then
              r.attempts == FirstSuccess(attempt, 0, n) + 1 && r.settled == attempt(FirstSuccess(attempt, 0, n))
            else
              r.attempts == n && r.settled == attempt(n - 1) && r.settled.Rejected?
  {
    var r := RetryAsyncOperation(attempt, retryCount);
    var n := Budget(retryCount);
    assert r.settled.Resolved? ==> attempt(r.attempts - 1).Resolved?;
    assert r.settled.Rejected? ==> forall j :: 0 <= j < n ==> attempt(j).Rejected?;
  }

  /** With `retryCount` 0, exactly one attempt is made and its outcome is final. */
  lemma LemmaNoRetries(attempt: nat -> Settled)
    ensures RetryAsyncOperation(attempt, 0) == RetryRun(attempt(0), 1)
  {
  }

  /** The demonstration `retryAsyncOperation(op, 3, ...)`: when every attempt
      fails, four are made and the fourth one's error is reported. */
  lemma LemmaFourAttempts(attempt: nat -> Settled)
    requires forall j :: 0 <= j < 4 ==> attempt(j).Rejected?
    ensures RetryAsyncOperation(attempt, 3) == RetryRun(attempt(3), 4)
  {
    LemmaRetryFirstSuccess(attempt, 3);
  }
}
