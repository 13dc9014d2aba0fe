/**
 * `execute`: run one remote query, retrying after every failure with an
 * exponentially growing delay (1, 2, 4, ... time units) and no upper bound.
 *
 * The remote call is replaced by a finite script of attempts: attempt `k` either
 * raises (any exception at all is swallowed) or returns a response.  The sleeps
 * are recorded in a log returned beside the result.
 */
module Backoff {

  /** What one call of the transport did. */
  datatype Attempt<T> = Raised | Returned(response: T)

  /**
   * The outcome of `execute` on a finite script.  `Pending` means the script ran
   * out while every attempt had failed: the source would still be sleeping and
   * retrying, it never reports an error to its caller.
   */
  datatype Execution<T> = Succeeded(response: T) | Pending

  /** 2 to the power k. */
  function Pow2(k: nat): (r: nat)
    ensures r >= 1
  {
    if k == 0 then 1 else 2 * Pow2(k - 1)
  }

  /** The delays slept after the first n failures: starting at 1, each one doubled. */
  function Delays(n: nat): (d: seq<nat>)
    ensures |d| == n
  {
    if n == 0 then [] else Delays(n - 1) + [Pow2(n - 1)]
  }

  function Sum(s: seq<nat>): nat
  {
    if s == [] then 0 else Sum(s[..|s| - 1]) + s[|s| - 1]
  }

  /** True when the script holds a successful attempt. */
  predicate EverSucceeds<T>(attempts: seq<Attempt<T>>)
  {
    exists i :: 0 <= i < |attempts| && attempts[i].Returned?
  }

  /**
   * Retry until an attempt returns; sleep `sleepTime` after each failure and
   * double it.  The result is the first successful response, unchanged, and the
   * attempts before it all failed.
   */
  method Execute<T>(attempts: seq<Attempt<T>>) returns (r: Execution<T>, sleeps: seq<nat>)
    ensures r.Succeeded? <==> EverSucceeds(attempts)
    ensures r.Succeeded? ==> |sleeps| < |attempts| && attempts[|sleeps|] == Returned(r.response)
    ensures r.Pending? ==> |sleeps| == |attempts|
    ensures forall k :: 0 <= k < |sleeps| ==> attempts[k].Raised?
    ensures sleeps == Delays(|sleeps|)
  {
    var sleepTime: nat := 1;
    var i := 0;
    sleeps := [];
    while i < |attempts|
      invariant 0 <= i <= |attempts|
      invariant |sleeps| == i
      invariant sleeps == Delays(i)
      invariant sleepTime == Pow2(i)
      invariant forall k :: 0 <= k < i ==> attempts[k].Raised?
    {
      match attempts[i]
      case Returned(response) =>
        return Succeeded(response), sleeps;
      case Raised =>
        sleeps := sleeps + [sleepTime];
        sleepTime := sleepTime * 2;
        i := i + 1;
    }
    r := Pending;
  }

  /** After a failure the next delay is twice the previous one, and the first delay is 1. */
  lemma {:induction false} DelaysDouble(n: nat, k: nat)
    requires k + 1 < n
    ensures Delays(n)[0] == 1
    ensures Delays(n)[k + 1] == 2 * Delays(n)[k]
  {
    if k + 2 < n {
      DelaysDouble(n - 1, k);
    } else {
      DelaysAt(n, k);
      DelaysAt(n, k + 1);
      DelaysAt(n, 0);
    }
  }

  /** The k-th delay is 2^k. */
  lemma {:induction false} DelaysAt(n: nat, k: nat)
    requires k < n
    ensures Delays(n)[k] == Pow2(k)
  {
    if k < n - 1 {
      DelaysAt(n - 1, k);
    }
  }

  /** After n failures the caller has waited 2^n - 1 time units in total. */
  lemma {:induction false} TotalDelay(n: nat)
    ensures Sum(Delays(n)) == Pow2(n) - 1
  {
    if n > 0 {
      TotalDelay(n - 1);
      assert Delays(n)[..n - 1] == Delays(n - 1);
    }
  }
}
