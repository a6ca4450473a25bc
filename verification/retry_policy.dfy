/** The retry decision of a failed delivery: bounded exponential backoff with deterministic jitter. */
module RetryPolicy {
  import opened Wrappers

  datatype FailureClass =
    | AmbiguousAfterAck | ContractViolation | Permanent | PolicyBlocked | RateLimited | TransientBeforeAck

  datatype Policy = Policy(coefficient: nat, baseDelayMs: nat, maxAttempts: int, maxDelayMs: nat)

  datatype Decision = Block | DeadLetter | Reconcile | Retry(delayMs: nat, retryAt: int)

  datatype RetryError = InvalidAttempt

  function Min(a: int, b: int): int { if a <= b then a else b }

  function Max(a: int, b: int): int { if a <= b then b else a }

  function Power(base: nat, exponent: nat): nat {
    if exponent == 0 then 1 else base * Power(base, exponent - 1)
  }

  /** Exponential backoff before jitter, capped by the policy. */
  function Backoff(policy: Policy, attempt: nat): nat
    requires attempt >= 1
  {
    Min(policy.maxDelayMs, policy.baseDelayMs * Power(policy.coefficient, attempt - 1))
  }

  /** Math.round(delay * (0.5 + digestByte / 510)), where the factor is (255 + digestByte) / 510. */
  function Jittered(delay: nat, digestByte: bv8): nat {
    (delay * (255 + digestByte as nat) + 255) / 510
  }

  function ServerDelay(failure: FailureClass, retryAfterMs: Option<int>): nat {
    if failure == RateLimited && retryAfterMs.Some? then Max(0, retryAfterMs.value) else 0
  }

  predicate Unsafe(failure: FailureClass) {
    failure == ContractViolation || failure == Permanent || failure == PolicyBlocked
  }

  predicate RetryableBeforeAck(failure: FailureClass) {
    failure == TransientBeforeAck || failure == RateLimited
  }

  /** `digestByte` is the first byte of the SHA-256 digest of the idempotency key and the attempt. */
  function DecideRetry(
    attempt: int, failure: FailureClass, killSwitchActive: bool, now: int,
    policy: Policy, retryAfterMs: Option<int>, digestByte: bv8): (r: Result<Decision, RetryError>)
  {
    if attempt < 1 then Err(InvalidAttempt)
    else if killSwitchActive then Ok(Block)
    else if failure == AmbiguousAfterAck then Ok(Reconcile)
    else if Unsafe(failure) then Ok(DeadLetter)
    else if attempt >= policy.maxAttempts then Ok(DeadLetter)
    else
      var delay := Min(policy.maxDelayMs,
                       Max(ServerDelay(failure, retryAfterMs), Jittered(Backoff(policy, attempt), digestByte)));
      Ok(Retry(delay, now + delay))
  }

  lemma JitterBounds(delay: nat, digestByte: bv8)
    ensures delay <= 2 * Jittered(delay, digestByte) && Jittered(delay, digestByte) <= delay
  {
    var factor := 255 + digestByte as nat;
    assert delay * 255 <= delay * factor <= delay * 510;
  }

  /** A retry waits at least half the backoff, at least what the provider asked for, and never above the cap;
      it is granted exactly when the failure preceded any acknowledgement and the budget is not spent. */
  lemma RetryDelayBounds(
    attempt: int, failure: FailureClass, now: int, policy: Policy, retryAfterMs: Option<int>, digestByte: bv8)
    requires attempt >= 1
    ensures var r := DecideRetry(attempt, failure, false, now, policy, retryAfterMs, digestByte);
            && r.Ok?
            && (r.value.Retry? <==> RetryableBeforeAck(failure) && attempt < policy.maxAttempts)
            && (r.value == Reconcile <==> failure == AmbiguousAfterAck)
            && (r.value.Retry? ==>
                  var delay := r.value.delayMs;
                  && Backoff(policy, attempt) <= 2 * delay
                  && Min(policy.maxDelayMs, ServerDelay(failure, retryAfterMs)) <= delay
                  && delay <= policy.maxDelayMs
                  && delay <= Max(Backoff(policy, attempt), ServerDelay(failure, retryAfterMs))
                  && r.value.retryAt == now + delay)
  {
    JitterBounds(Backoff(policy, attempt), digestByte);
  }

  lemma {:induction false} PowerGrows(base: nat, low: nat, high: nat)
    requires base >= 1 && low <= high
    ensures 1 <= Power(base, low) <= Power(base, high)
    decreases high
  {
    if high > 0 {
      if low < high {
        PowerGrows(base, low, high - 1);
        assert Power(base, high - 1) <= base * Power(base, high - 1);
      } else {
        PowerGrows(base, high - 1, high - 1);
        assert 1 <= base * Power(base, high - 1);
      }
    }
  }

  /** The backoff never falls as attempts grow, for every attempt, exactly when the coefficient is at least
      one or the policy never delays at all. */
  lemma BackoffNeverFalls(policy: Policy)
    ensures (forall low: nat, high: nat {:trigger Backoff(policy, low), Backoff(policy, high)} ::
               1 <= low <= high ==> Backoff(policy, low) <= Backoff(policy, high))
            <==> policy.coefficient >= 1 || policy.baseDelayMs == 0 || policy.maxDelayMs == 0
  {
    if policy.coefficient >= 1 {
      forall low: nat, high: nat | 1 <= low <= high
        ensures Backoff(policy, low) <= Backoff(policy, high)
      {
        PowerGrows(policy.coefficient, low - 1, high - 1);
        assert policy.baseDelayMs * Power(policy.coefficient, low - 1)
            <= policy.baseDelayMs * Power(policy.coefficient, high - 1);
      }
    } else if policy.baseDelayMs != 0 && policy.maxDelayMs != 0 {
      assert Power(policy.coefficient, 0) == 1 && Power(policy.coefficient, 1) == 0;
      assert Backoff(policy, 2) == 0 < Backoff(policy, 1);
    }
  }
}
