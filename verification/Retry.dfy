/**
 Retrying a destination operation with exponential backoff: attempts are counted
 and delays doubled in saturating arithmetic.
 */
module Retry {
  import opened Integers
  import opened Text

  /** The longest duration, in nanoseconds: u64::MAX seconds and 999_999_999 nanoseconds. */
  const DURATION_MAX: nat := 0xFFFF_FFFF_FFFF_FFFF * 1_000_000_000 + 999_999_999

  type Duration = n: int | 0 <= n <= DURATION_MAX

  datatype Policy = Policy(maxRetries: u32, initialDelay: Duration, maxDelay: Duration)

  datatype RetryAttempt<+E> = RetryAttempt(retryIndex: u32, baseDelay: Duration, sleepDelay: Duration, error: E)

  datatype RetryFailure<+E> = RetryFailure(totalAttempts: u32, lastError: E)

  function Min(a: int, b: int): int {
    if a < b then a else b
  }

  /** A count held in 32 bits that stays at its largest value. */
  function Saturated(n: nat): u32 {
    if n < U32_MAX then n else U32_MAX
  }

  /** `checked_mul(2)`, or the longest duration if that does not fit. */
  function Doubled(d: Duration): Duration {
    if 2 * d > DURATION_MAX then DURATION_MAX else 2 * d
  }

  /** The base delay before retry `k`, counted from one, in exact arithmetic. */
  function BaseDelay(policy: Policy, k: nat): (d: Duration)
    requires k > 0
  {
    Min(policy.initialDelay * Power(2, k - 1), policy.maxDelay)
  }

  /** Doubling in saturating arithmetic and capping keeps to the exact delays. */
  lemma NextDelay(policy: Policy, k: nat)
    requires k > 0
    ensures Min(Doubled(BaseDelay(policy, k)), policy.maxDelay) == BaseDelay(policy, k + 1)
  {
    var exact := policy.initialDelay * Power(2, k - 1);
    assert Power(2, k) == 2 * Power(2, k - 1);
    assert policy.initialDelay * Power(2, k) == 2 * exact by {
      DoubleProduct(policy.initialDelay, Power(2, k - 1));
    }
    assert exact >= 0 by {
      ProductNat(policy.initialDelay, Power(2, k - 1));
    }
  }

  lemma DoubleProduct(a: nat, b: nat)
    ensures a * (2 * b) == 2 * (a * b)
  {
  }

  lemma ProductNat(a: nat, b: nat)
    ensures a * b >= 0
  {
  }

  /** The first delay and every doubled one stop at the limit, which is at most the longest duration. */
  lemma DelayByCases(policy: Policy, k: nat)
    requires k > 0
    ensures BaseDelay(policy, 1) ==
            if policy.initialDelay <= policy.maxDelay then policy.initialDelay else policy.maxDelay
    ensures BaseDelay(policy, k + 1) ==
            if 2 * BaseDelay(policy, k) <= policy.maxDelay then 2 * BaseDelay(policy, k) else policy.maxDelay
    ensures DURATION_MAX == 18_446_744_073_709_551_615_999_999_999
  {
    assert Power(2, 0) == 1;
    NextDelay(policy, k);
  }

  /** Delays never shrink and never pass the limit. */
  lemma DelaysGrow(policy: Policy, k: nat)
    requires k > 0
    ensures BaseDelay(policy, k) <= BaseDelay(policy, k + 1) <= policy.maxDelay
  {
    NextDelay(policy, k);
  }

  // ---------- the loop ----------

  /** Attempt `i`, counted from zero, is the last one. */
  predicate Stops<T, E>(policy: Policy, attempt: nat -> Result<T, E>, shouldRetry: (nat, E) -> bool, i: nat) {
    match attempt(i)
    case Success(_) => true
    case Failure(error) => Saturated(i + 1) > policy.maxRetries || !shouldRetry(i, error)
  }

  /** An attempt is the last for its success, for an error not to be retried, or once the limit is used up. */
  lemma StopsExactly<T, E>(policy: Policy, attempt: nat -> Result<T, E>, shouldRetry: (nat, E) -> bool, i: nat)
    ensures Stops(policy, attempt, shouldRetry, i) <==>
            || attempt(i).Success?
            || !shouldRetry(i, attempt(i).error)
            || (i >= policy.maxRetries && policy.maxRetries < 0xFFFF_FFFF)
  {
  }

  /** Below the largest limit some attempt is always the last; at that limit the count alone never stops the loop. */
  lemma LimitStops<T, E>(policy: Policy, attempt: nat -> Result<T, E>, shouldRetry: (nat, E) -> bool)
    ensures policy.maxRetries < U32_MAX ==> Stops(policy, attempt, shouldRetry, policy.maxRetries)
    ensures policy.maxRetries == U32_MAX ==>
            forall i: nat :: Stops(policy, attempt, shouldRetry, i) <==>
                             attempt(i).Success? || !shouldRetry(i, attempt(i).error)
  {
  }

  /** What was reported before retry `i + 1`. */
  ghost predicate Reports<T, E>(
    policy: Policy, attempt: nat -> Result<T, E>, transform: (nat, Duration) -> Duration, i: nat, entry: RetryAttempt<E>
  ) {
    && attempt(i).Failure? && entry.error == attempt(i).error
    && entry.retryIndex == (if i < 0xFFFF_FFFF then i + 1 else 0xFFFF_FFFF)
    && entry.baseDelay == BaseDelay(policy, i + 1)
    && entry.sleepDelay == transform(i, entry.baseDelay)
  }

  /** The loop ends when some attempt `end` is a last one, and then at the first such attempt. */
  method RetryWithBackoff<T, E>(
    policy: Policy, attempt: nat -> Result<T, E>, shouldRetry: (nat, E) -> bool,
    transform: (nat, Duration) -> Duration, ghost end: nat
  ) returns (r: Result<T, RetryFailure<E>>, retries: seq<RetryAttempt<E>>)
    requires Stops(policy, attempt, shouldRetry, end)
    ensures |retries| <= end && (policy.maxRetries < U32_MAX ==> |retries| <= policy.maxRetries)
    ensures Stops(policy, attempt, shouldRetry, |retries|)
    ensures forall i | 0 <= i < |retries| :: !Stops(policy, attempt, shouldRetry, i)
    ensures forall i | 0 <= i < |retries| :: Reports(policy, attempt, transform, i, retries[i])
    ensures r == match attempt(|retries|)
                 case Success(value) => Success(value)
                 case Failure(error) =>
                   Failure(RetryFailure(if |retries| < 0xFFFF_FFFF then |retries| + 1 else 0xFFFF_FFFF, error))
  {
    var totalAttempts: u32 := 0;
    var baseDelay: Duration := Min(policy.initialDelay, policy.maxDelay);
    assert Power(2, 0) == 1;
    retries := [];
    LimitStops(policy, attempt, shouldRetry);
    while true
      invariant totalAttempts == Saturated(|retries|) && |retries| <= end
      invariant policy.maxRetries < U32_MAX ==> |retries| <= policy.maxRetries
      invariant baseDelay == BaseDelay(policy, |retries| + 1)
      invariant forall i | 0 <= i < |retries| :: !Stops(policy, attempt, shouldRetry, i)
      invariant forall i | 0 <= i < |retries| :: Reports(policy, attempt, transform, i, retries[i])
      decreases end - |retries|
    {
      var index := |retries|;
      totalAttempts := if totalAttempts == U32_MAX then totalAttempts else totalAttempts + 1;
      match attempt(index) {
        case Success(value) => return Success(value), retries;
        case Failure(error) =>
          if totalAttempts > policy.maxRetries || !shouldRetry(index, error) {
            return Failure(RetryFailure(totalAttempts, error)), retries;
          }
          var sleepDelay := transform(index, baseDelay);
          retries := retries + [RetryAttempt(totalAttempts, baseDelay, sleepDelay, error)];
          NextDelay(policy, |retries|);
          baseDelay := Min(Doubled(baseDelay), policy.maxDelay);
      }
    }
  }
}
