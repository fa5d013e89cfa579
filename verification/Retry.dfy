/**
 Starting one service with retries: exponential backoff computed in 64-bit signed
 nanoseconds, with cancellation of the waits.
 */
module Retry {
  import opened Results

  const TWO_63: int := 0x8000_0000_0000_0000
  const TWO_64: int := 0x1_0000_0000_0000_0000

  /** The value of x in 64-bit two's complement. */
  function Wrap64(x: int): (r: int)
    ensures -TWO_63 <= r < TWO_63
    ensures -TWO_63 <= x < TWO_63 ==> r == x
    ensures (x - r) % TWO_64 == 0
  {
    (x + TWO_63) % TWO_64 - TWO_63
  }

  function Pow2(k: nat): (r: nat)
    ensures r >= 1
  {
    if k == 0 then 1 else 2 * Pow2(k - 1)
  }

  /** The duration the timer is given before attempt a + 1: backoff * (1 << a), in wrapping arithmetic. */
  function Delay(backoff: int, a: nat): int {
    Wrap64(backoff * Wrap64(Pow2(a)))
  }

  /** A timer with a non-positive duration fires at once. */
  function Wait(backoff: int, a: nat): nat {
    if Delay(backoff, a) > 0 then Delay(backoff, a) else 0
  }

  /** The time slept before attempts 1 to n. */
  function TotalWait(backoff: int, n: nat): nat {
    if n == 0 then 0 else TotalWait(backoff, n - 1) + Wait(backoff, n - 1)
  }

  datatype Outcome = Started | Cancelled | GaveUp(attempts: int, lastError: Option<string>)

  /** Attempt a is reached: every earlier attempt failed and no wait up to it was cancelled. */
  ghost predicate Reached(exec: nat -> Option<string>, cancelled: nat -> bool, a: nat) {
    && (forall b: nat :: b < a ==> exec(b).Some?)
    && (forall b: nat :: 1 <= b <= a ==> !cancelled(b))
  }

  /** Some attempt below n is reached and succeeds. */
  ghost predicate Succeeds(exec: nat -> Option<string>, cancelled: nat -> bool, n: int) {
    exists a: nat :: a < n && Reached(exec, cancelled, a) && exec(a).None?
  }

  /**
   exec(a) is the error of attempt a, if it fails; cancelled(a) says that the wait before attempt a
   ends by cancellation. attempts counts the commands executed and slept the completed waits.
   */
  method StartServiceWithRetry(maxRetries: int, backoff: int, exec: nat -> Option<string>, cancelled: nat -> bool)
    returns (r: Outcome, attempts: nat, slept: nat)
    ensures attempts <= if maxRetries > 0 then maxRetries else 0
    ensures r.Started? <==> Succeeds(exec, cancelled, maxRetries)
    ensures r.Started? ==> attempts > 0 && Reached(exec, cancelled, attempts - 1) && exec(attempts - 1).None?
    ensures r.Cancelled? <==> exists a: nat ::
      1 <= a < maxRetries && Reached(exec, cancelled, a - 1) && exec(a - 1).Some? && cancelled(a)
    ensures r.Cancelled? ==> 1 <= attempts < maxRetries && cancelled(attempts) && exec(attempts - 1).Some?
    ensures r.GaveUp? ==> r.attempts == maxRetries
    ensures r.GaveUp? && maxRetries <= 0 ==> attempts == 0 && r.lastError.None?
    ensures r.GaveUp? && maxRetries > 0 ==> attempts == maxRetries && r.lastError == exec(maxRetries - 1)
    ensures slept == TotalWait(backoff, if attempts > 0 then attempts - 1 else 0)
    ensures r.GaveUp? && maxRetries >= 1 ==>
      (slept == backoff * (Pow2(maxRetries - 1) - 1) <==> DelaysFit(backoff, maxRetries - 1))
  {
    var lastErr: Option<string> := None;
    attempts, slept := 0, 0;
    var attempt := 0;
    while attempt < maxRetries
      invariant 0 <= attempt == attempts && (attempt <= maxRetries || attempt == 0)
      invariant forall b: nat :: b < attempt ==> exec(b).Some?
      invariant forall b: nat :: 1 <= b < attempt ==> !cancelled(b)
      invariant attempt > 0 ==> lastErr == exec(attempt - 1)
      invariant attempt == 0 ==> lastErr.None?
      invariant slept == TotalWait(backoff, if attempt > 0 then attempt - 1 else 0)
    {
      if attempt > 0 {
        if cancelled(attempt) {
          assert Reached(exec, cancelled, attempt - 1);
          return Cancelled, attempts, slept;
        }
        slept := slept + Wait(backoff, attempt - 1);
      }
      var err := exec(attempt);
      attempts := attempts + 1;
      assert Reached(exec, cancelled, attempt);
      if err.None? {
        return Started, attempts, slept;
      }
      lastErr := err;
      attempt := attempt + 1;
    }
    r := GaveUp(maxRetries, lastErr);
    if maxRetries >= 1 {
      TotalBackoff(backoff, maxRetries);
    }
  }

  // ----- Closed form of the total backoff -----

  /** No delay up to the last of n waits leaves the 64-bit range. */
  predicate DelaysFit(backoff: int, n: nat) {
    n == 0 || (0 <= backoff && backoff * Pow2(n - 1) < TWO_63)
  }

  /** A single wait is at most its exact value, and equal to it exactly when it fits. */
  lemma WaitExact(backoff: int, a: nat)
    requires backoff >= 0
    ensures Wait(backoff, a) <= backoff * Pow2(a)
    ensures Wait(backoff, a) == backoff * Pow2(a) <==> backoff * Pow2(a) < TWO_63
  {
    var exact := backoff * Pow2(a);
    if backoff == 0 {
      assert Delay(backoff, a) == 0;
    } else if exact < TWO_63 {
      assert Pow2(a) <= exact by { assert backoff >= 1; MulGrows(backoff, Pow2(a)); }
    } else {
      assert Wait(backoff, a) < TWO_63 <= exact;
    }
  }

  lemma MulGrows(b: int, p: nat)
    requires b >= 1
    ensures p <= b * p
  {}

  lemma ExactSum(backoff: int, p: int)
    ensures backoff * (p - 1) == backoff * p - backoff
    ensures backoff * (2 * p) == 2 * (backoff * p)
  {}

  lemma {:induction false} TotalAtMostExact(backoff: int, n: nat)
    requires backoff >= 0
    ensures TotalWait(backoff, n) <= backoff * Pow2(n) - backoff
    ensures TotalWait(backoff, n) == backoff * Pow2(n) - backoff <==> DelaysFit(backoff, n)
  {
    if n > 0 {
      var last := backoff * Pow2(n - 1);
      TotalAtMostExact(backoff, n - 1);
      WaitExact(backoff, n - 1);
      ExactSum(backoff, Pow2(n - 1));
      assert backoff * Pow2(n) == 2 * last;
      if n > 1 {
        ExactSum(backoff, Pow2(n - 2));
        assert last == 2 * (backoff * Pow2(n - 2));
      }
    }
  }

  lemma {:induction false} NegativeBackoffNeverWaits(backoff: int, n: nat)
    requires backoff < 0
    ensures n >= 1 ==> backoff * (Pow2(n) - 1) < 0
  {}

  /**
   When all of maxRetries >= 1 attempts fail, the total backoff is backoff * (2^(maxRetries-1) - 1)
   exactly when the backoff is not negative and the last delay fits in 64 bits, or there is no delay.
   */
  lemma TotalBackoff(backoff: int, maxRetries: nat)
    requires maxRetries >= 1
    ensures TotalWait(backoff, maxRetries - 1) == backoff * (Pow2(maxRetries - 1) - 1)
            <==> DelaysFit(backoff, maxRetries - 1)
  {
    if backoff >= 0 {
      TotalAtMostExact(backoff, maxRetries - 1);
      ExactSum(backoff, Pow2(maxRetries - 1));
    } else {
      NegativeBackoffNeverWaits(backoff, maxRetries - 1);
    }
  }

  /** With a backoff of one second, three attempts are preceded by waits of one and two seconds. */
  lemma WaitsOfOneSecond(attempts: nat)
    requires attempts <= 3
    ensures TotalWait(1_000_000_000, if attempts > 0 then attempts - 1 else 0)
            == if attempts <= 1 then 0 else if attempts == 2 then 1_000_000_000 else 3_000_000_000
  {
    assert Pow2(0) == 1 && Pow2(1) == 2;
    WaitExact(1_000_000_000, 0);
    WaitExact(1_000_000_000, 1);
    assert TotalWait(1_000_000_000, 1) == Wait(1_000_000_000, 0);
    assert TotalWait(1_000_000_000, 2) == TotalWait(1_000_000_000, 1) + Wait(1_000_000_000, 1);
  }
}
