/** The resilient HTTP requester: `doRequest` classifies what one attempt
    observed, and `doRequestWithRetry` runs the bounded retry loop over
    those classifications. The network and the timer are oracles: a
    `Script` lists what each attempt would observe and how each backoff
    wait would end. */
module Requests {
  import opened Failures

  type Bytes = seq<bv8>

  /** What one attempt observed: a timeout (any error whose text mentions
      an exceeded deadline), any other error, or a response status with
      the body read in full. */
  datatype Outcome = Timeout | OtherErr | Status(code: int, body: Bytes)

  /** How one backoff wait ended: the context fired first, or the timer did. */
  datatype Wait = Cancelled | Elapsed

  const MaxAttempts: nat := 3

  /** The oracle for one `doRequestWithRetry` call: `outcomes[j]` is what
      attempt `j` would observe and `waits[j]` how the wait before attempt
      `j + 1` would end. */
  datatype Script = Script(outcomes: seq<Outcome>, waits: seq<Wait>)

  predicate WellFormed(s: Script) {
    |s.outcomes| == MaxAttempts && |s.waits| == MaxAttempts - 1
  }

  /** What the retry loop returned, how many attempts it made, and the
      delays (in seconds) it asked the timer for. */
  datatype Attempts = Attempts(result: Result<Bytes>, attempts: nat, delays: seq<nat>)

  /** The retry condition: the error text mentions an exceeded deadline.
      Of the errors a single attempt can produce, only a timeout does. */
  predicate IsRetryable(e: Error) {
    e.DeadlineExceeded?
  }

  /** `doRequest`: a status of 500 or more is "unavailable", 400 to 499 is
      a client error, anything lower returns the body. */
  function Classify(o: Outcome): (r: Result<Bytes>)
    ensures r.Success? <==> o.Status? && o.code < 400
    ensures r.Success? ==> r.value == o.body
    ensures o.Status? && o.code >= 500 ==> r == Failure(Unavailable(o.code))
    ensures o.Status? && 400 <= o.code < 500 ==> r == Failure(ClientError(o.code))
    ensures r.Failure? && IsRetryable(r.error) <==> o.Timeout?
  {
    match o
    case Timeout => Failure(DeadlineExceeded)
    case OtherErr => Failure(Transport)
    case Status(code, body) =>
      if code >= 500 then Failure(Unavailable(code))
      else if code >= 400 then Failure(ClientError(code))
      else Success(body)
  }

  function Pow2(n: nat): nat {
    if n == 0 then 1 else 2 * Pow2(n - 1)
  }

  /** The wait before attempt `attempt`, in seconds: one shifted left by
      the attempt index. */
  function BackoffDelay(attempt: nat): nat {
    Pow2(attempt)
  }

  /** The loop of `doRequestWithRetry` from attempt `a` on: the wait
      before attempt `a` (when `a > 0`), then attempts until one does not
      time out, a wait is cancelled, or the third attempt is made. */
  function RetryFrom(a: nat, s: Script): (r: Attempts)
    requires WellFormed(s) && a < MaxAttempts
    ensures a <= r.attempts <= MaxAttempts
    // no attempt is made from `a` on exactly when the wait before attempt `a` is cancelled
    ensures r.attempts == a <==> a > 0 && s.waits[a - 1] == Cancelled
    // every attempt from `a` on before the last one made timed out, and the wait after it elapsed
    ensures forall j :: a <= j < r.attempts - 1 ==> s.outcomes[j] == Timeout && s.waits[j] == Elapsed
    // the context error comes exactly from a cancelled wait
    ensures r.result == Failure(ContextErr) <==>
              r.attempts == a ||
              (a < r.attempts < MaxAttempts && s.outcomes[r.attempts - 1] == Timeout && s.waits[r.attempts - 1] == Cancelled)
    // an attempt that did not time out ends the loop with its own classification
    ensures a < r.attempts && s.outcomes[r.attempts - 1] != Timeout ==> r.result == Classify(s.outcomes[r.attempts - 1])
    // three timeouts end with the last one wrapped
    ensures r.attempts == MaxAttempts && s.outcomes[MaxAttempts - 1] == Timeout ==>
              r.result == Failure(Exhausted(DeadlineExceeded))
    // one delay per wait begun, each one second shifted left by the index of the attempt it precedes
    ensures |r.delays| == r.attempts - a + (if a > 0 then 1 else 0) - (if r.result == Failure(ContextErr) then 0 else 1)
    ensures forall k :: 0 <= k < |r.delays| ==> r.delays[k] == BackoffDelay(k + (if a == 0 then 1 else a))
    decreases MaxAttempts - a
  {
    var wait := if a == 0 then [] else [BackoffDelay(a)];
    if a > 0 && s.waits[a - 1] == Cancelled then
      Attempts(Failure(ContextErr), a, wait)
    else
      match Classify(s.outcomes[a])
      case Success(body) => Attempts(Success(body), a + 1, wait)
      case Failure(e) =>
        if !IsRetryable(e) then Attempts(Failure(e), a + 1, wait)
        else if a + 1 == MaxAttempts then Attempts(Failure(Exhausted(e)), MaxAttempts, wait)
        else
          var rest := RetryFrom(a + 1, s);
          rest.(delays := wait + rest.delays)
  }

  /** `doRequestWithRetry`. The contract determines the result: the loop
      stops at the first attempt that does not time out, at a cancelled
      wait, or after three timeouts, and it waits 2 s and then 4 s. */
  function Retry(s: Script): (r: Attempts)
    requires WellFormed(s)
    ensures 1 <= r.attempts <= MaxAttempts
    // every attempt before the last one made timed out, and the wait after it elapsed
    ensures forall j :: 0 <= j < r.attempts - 1 ==> s.outcomes[j] == Timeout && s.waits[j] == Elapsed
    // a last attempt that timed out is followed by a cancelled wait, unless it was the third
    ensures r.attempts < MaxAttempts && s.outcomes[r.attempts - 1] == Timeout ==> s.waits[r.attempts - 1] == Cancelled
    // the context error is returned exactly when a wait is cancelled
    ensures r.result == Failure(ContextErr) <==>
              r.attempts < MaxAttempts && s.outcomes[r.attempts - 1] == Timeout && s.waits[r.attempts - 1] == Cancelled
    // an attempt that did not time out ends the loop with its own classification
    ensures s.outcomes[r.attempts - 1] != Timeout ==> r.result == Classify(s.outcomes[r.attempts - 1])
    // three timeouts end with the last one wrapped
    ensures r.attempts == MaxAttempts && s.outcomes[MaxAttempts - 1] == Timeout ==>
              r.result == Failure(Exhausted(DeadlineExceeded))
    // one delay per wait begun: none before the first attempt, then 2 s and 4 s
    ensures |r.delays| == if r.result == Failure(ContextErr) then r.attempts else r.attempts - 1
    ensures r.delays == [2, 4][..|r.delays|]
  {
    RetryFrom(0, s)
  }

  /** Three timeouts with both waits elapsing: three attempts, waits of
      2 s and 4 s, and the last timeout wrapped. */
  lemma RetryAlwaysTimesOut()
    ensures Retry(Script([Timeout, Timeout, Timeout], [Elapsed, Elapsed]))
            == Attempts(Failure(Exhausted(DeadlineExceeded)), 3, [2, 4])
  {
  }

  /** A status error ends the loop after the attempt that saw it, whatever
      follows: a 404 and a 503 alike are not retried. */
  lemma StatusErrorsNotRetried(code: int, body: Bytes, rest: seq<Outcome>, waits: seq<Wait>)
    requires code >= 400 && |rest| == MaxAttempts - 1 && |waits| == MaxAttempts - 1
    ensures var r := Retry(Script([Status(code, body)] + rest, waits));
            && r.attempts == 1
            && r.delays == []
            && r.result == Failure(if code >= 500 then Unavailable(code) else ClientError(code))
  {
  }

  /** The outcome of requesting one URL and decoding the body into `T`. */
  datatype Reply<T> = Decoded(value: T) | RequestFailed(error: Error) | Undecodable

  /** One `doRequestWithRetry` followed by `safeUnmarshal`: the decoder
      runs only on a body the retry loop returned; `decode` answers None
      when the JSON does not fit the expected shape. */
  function Respond<T>(s: Script, decode: Bytes -> Option<T>): (r: Reply<T>)
    requires WellFormed(s)
    ensures r.RequestFailed? <==> Retry(s).result.Failure?
    ensures r.RequestFailed? ==> r.error == Retry(s).result.error
    ensures r.Decoded? ==> decode(Retry(s).result.value) == Some(r.value)
    ensures r.Undecodable? ==> decode(Retry(s).result.value) == None
  {
    match Retry(s).result
    case Failure(e) => RequestFailed(e)
    case Success(body) =>
      match decode(body)
      case None => Undecodable
      case Some(v) => Decoded(v)
  }
}
