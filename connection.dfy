/** database/database.py: opening the database connection with retries and
    a capped exponential backoff. `engine.connect()` is an oracle telling
    whether attempt k (counting from 0) succeeds; `time.sleep` is recorded as
    the list of waits. */
module Connection {

  const RETRIES: nat := 5
  const FACTOR: nat := 2
  const MIN_TIMEOUT: nat := 1
  const MAX_TIMEOUT: nat := 5
  const GIVE_UP := "Unable to connect to the database after multiple attempts."

  function Min(a: nat, b: nat): nat {
    if a < b then a else b
  }

  function Pow2(k: nat): nat {
    if k == 0 then 1 else 2 * Pow2(k - 1)
  }

  /** The wait, in seconds, after the failure of attempt k: min(2^k, 5). */
  function Backoff(k: nat): nat {
    Min(MIN_TIMEOUT * Pow2(k), MAX_TIMEOUT)
  }

  datatype Outcome = Connected(attempt: nat) | GaveUp(message: string)

  /** Try to connect up to RETRIES times; after each failure sleep for the
      current timeout, then double it up to MAX_TIMEOUT. */
  method ConnectWithRetry(connects: nat -> bool) returns (r: Outcome, sleeps: seq<nat>)
    ensures r.Connected? ==> r.attempt < RETRIES && connects(r.attempt)
    ensures r.Connected? ==> forall j :: 0 <= j < r.attempt ==> !connects(j)
    ensures r.GaveUp? ==> r.message == GIVE_UP && forall j :: 0 <= j < RETRIES ==> !connects(j)
    ensures r.GaveUp? ==> sleeps == [1, 2, 4, 5, 5]
    ensures |sleeps| == if r.Connected? then r.attempt else RETRIES
    ensures forall i :: 0 <= i < |sleeps| ==> sleeps[i] == Backoff(i)
  {
    var minTimeout := MIN_TIMEOUT;
    sleeps := [];
    for i := 0 to RETRIES
      invariant |sleeps| == i
      invariant forall j :: 0 <= j < i ==> !connects(j) && sleeps[j] == Backoff(j)
      invariant minTimeout == Backoff(i)
    {
      if connects(i) {
        return Connected(i), sleeps;
      }
      sleeps := sleeps + [minTimeout];
      BackoffStep(i);
      minTimeout := Min(minTimeout * FACTOR, MAX_TIMEOUT);
    }
    BackoffSchedule();
    r := GaveUp(GIVE_UP);
  }

  /** The timeout update of the loop computes the next wait. */
  lemma BackoffStep(k: nat)
    ensures Backoff(k + 1) == Min(Backoff(k) * FACTOR, MAX_TIMEOUT)
  {
    assert Pow2(k + 1) == 2 * Pow2(k);
  }

  lemma {:induction false} Pow2Positive(k: nat)
    ensures Pow2(k) >= 1
  {
    if k > 0 {
      Pow2Positive(k - 1);
    }
  }

  /** Every wait lies between MIN_TIMEOUT and MAX_TIMEOUT. */
  lemma BackoffBounds(k: nat)
    ensures MIN_TIMEOUT <= Backoff(k) <= MAX_TIMEOUT
  {
    Pow2Positive(k);
  }

  /** The waits never shrink. */
  lemma {:induction false} BackoffMonotone(j: nat, k: nat)
    requires j <= k
    ensures Backoff(j) <= Backoff(k)
    decreases k - j
  {
    if j < k {
      BackoffMonotone(j, k - 1);
      BackoffStep(k - 1);
      BackoffBounds(k - 1);
    }
  }

  /** From the fourth failure on, the wait stays at the cap. */
  lemma {:induction false} BackoffCapped(k: nat)
    requires k >= 3
    ensures Backoff(k) == MAX_TIMEOUT
  {
    if k > 3 {
      BackoffCapped(k - 1);
      BackoffStep(k - 1);
    }
  }

  /** The waits of five failed attempts: 1, 2, 4, 5 and 5 seconds. */
  lemma BackoffSchedule()
    ensures [Backoff(0), Backoff(1), Backoff(2), Backoff(3), Backoff(4)] == [1, 2, 4, 5, 5]
  {
  }
}
