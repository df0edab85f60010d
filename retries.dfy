/**
 * `retry` (`praxis/core/retries.py`): call `fn` up to `retries + 1` times, sleeping
 * `backoff * (attempt + 1)` after each eligible failure except the last.
 *
 * `fn` is modelled by what its k-th call returns or raises, and `time.sleep` by the log of
 * the delays it is called with.
 */
module Retries {
  import opened Wrappers

  /** How a call to `retry` ends. */
  datatype Outcome<T, E> =
    | Returned(value: T)
    | Raised(error: E)
    | RaisedNone       // `raise last_exc` with `last_exc` still None: no attempt was made
    | SleepRejected    // the `ValueError` `time.sleep` raises for a negative delay

  /** What `retry` passes on when the attempt it stops at returned or raised this. */
  function Passed<T, E>(out: Result<T, E>): Outcome<T, E> {
    match out
    case Success(v) => Returned(v)
    case Failure(e) => Raised(e)
  }

  method Retry<T, E>(fn: nat -> Result<T, E>, retries: int, backoff: real, retryOn: E -> bool)
    returns (r: Outcome<T, E>, calls: nat, delays: seq<real>)
    // a negative budget makes no call and raises None
    ensures retries < 0 ==> r == RaisedNone && calls == 0
    // at most retries + 1 calls, every one but the last an eligible failure
    ensures retries >= 0 ==> 1 <= calls <= retries + 1
    ensures forall k :: 0 <= k < calls - 1 ==> fn(k).Failure? && retryOn(fn(k).error)
    // a negative backoff makes the first sleep raise, right after the first eligible failure
    ensures r == SleepRejected <==>
              backoff < 0.0 && retries >= 1 && fn(0).Failure? && retryOn(fn(0).error)
    ensures r == SleepRejected ==> calls == 1
    // otherwise the last call decides: a result is returned, an ineligible exception propagates
    // at once, and an eligible one is re-raised only when the budget is spent
    ensures retries >= 0 && r != SleepRejected ==> r == Passed(fn(calls - 1))
    ensures retries >= 0 && r != SleepRejected && fn(calls - 1).Failure? && retryOn(fn(calls - 1).error) ==>
              calls == retries + 1
    // one sleep of backoff * (k + 1) after each failed call k that is followed by another call
    ensures |delays| == (if calls == 0 then 0 else calls - 1)
    ensures forall k :: 0 <= k < |delays| ==> delays[k] == backoff * (k + 1) as real
  {
    var lastExc: Option<E> := None;
    calls, delays := 0, [];
    var attempt := 0;
    while attempt < retries + 1
      invariant 0 <= attempt <= if retries < 0 then 0 else retries
      invariant calls == attempt && |delays| == attempt
      invariant forall k :: 0 <= k < attempt ==> fn(k).Failure? && retryOn(fn(k).error)
      invariant forall k :: 0 <= k < attempt ==> delays[k] == backoff * (k + 1) as real
      invariant attempt > 0 ==> backoff >= 0.0
      invariant lastExc == if attempt == 0 then None else Some(fn(attempt - 1).error)
    {
      var out := fn(attempt);
      calls := calls + 1;
      if out.Success? {
        return Returned(out.value), calls, delays;
      }
      if !retryOn(out.error) {
        return Raised(out.error), calls, delays;
      }
      lastExc := Some(out.error);
      if attempt == retries {
        break;
      }
      var delay := backoff * (attempt + 1) as real;
      if delay < 0.0 {
        return SleepRejected, calls, delays;
      }
      delays := delays + [delay];
      attempt := attempt + 1;
    }
    r := if lastExc.Some? then Raised(lastExc.value) else RaisedNone;
  }
}
