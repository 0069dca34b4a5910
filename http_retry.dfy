/**
 * `make_request_with_retry` (retriever.py): up to `max_retries` GET
 * attempts, waiting 2^attempt seconds before every attempt but the first,
 * retrying on HTTP 429 and on request errors whose message mentions 429.
 * The network is a function from the attempt number to what that attempt
 * produced; the sleeps are returned as the list of wait durations.
 */
module HttpRetry {
  import opened Wrappers

  /** What one attempt produced. */
  datatype Outcome =
      /** A 2xx response; `validJson` says whether its body decodes as JSON. */
      Ok(body: string, validJson: bool)
      /** A response with status 429. */
    | RateLimited
      /** A transport error or an error status other than 429; `mentions429` says whether its message contains "429". */
    | RequestError(mentions429: bool)

  /** Outcomes after which another attempt is made, unless it was the last. */
  predicate Retryable(o: Outcome) {
    o.RateLimited? || (o.RequestError? && o.mentions429)
  }

  /** The result of a run and how many attempts it took. */
  datatype RetryRun = RetryRun(result: Option<string>, attempts: nat)

  /** The run from attempt `attempt` on, given that every earlier attempt was retried. */
  function RetryFrom(server: nat -> Outcome, maxRetries: nat, returnJson: bool, attempt: nat): RetryRun
    requires attempt < maxRetries
    decreases maxRetries - attempt
  {
    var o := server(attempt);
    if Retryable(o) then
      if attempt < maxRetries - 1 then RetryFrom(server, maxRetries, returnJson, attempt + 1)
      else RetryRun(None, attempt + 1)
    else if o.Ok? then
      if returnJson && !o.validJson then RetryRun(None, attempt + 1)
      else RetryRun(Some(o.body), attempt + 1)
    else RetryRun(None, attempt + 1)
  }

  function Retry(server: nat -> Outcome, maxRetries: nat, returnJson: bool): RetryRun {
    if maxRetries == 0 then RetryRun(None, 0) else RetryFrom(server, maxRetries, returnJson, 0)
  }

  function Pow2(n: nat): (p: nat)
    ensures p >= 1
  {
    if n == 0 then 1 else 2 * Pow2(n - 1)
  }

  /** The waits before attempts 1 .. attempts - 1: 2, 4, 8, ... seconds. */
  function Backoffs(attempts: nat): seq<nat> {
    if attempts <= 1 then [] else Backoffs(attempts - 1) + [Pow2(attempts - 1)]
  }

  method MakeRequestWithRetry(server: nat -> Outcome, maxRetries: nat, returnJson: bool)
    returns (result: Option<string>, waits: seq<nat>)
    ensures result == Retry(server, maxRetries, returnJson).result
    ensures waits == Backoffs(Retry(server, maxRetries, returnJson).attempts)
  {
    waits := [];
    for attempt := 0 to maxRetries
      invariant waits == Backoffs(attempt)
      invariant maxRetries > 0 ==> attempt < maxRetries
      invariant attempt < maxRetries ==>
        Retry(server, maxRetries, returnJson) == RetryFrom(server, maxRetries, returnJson, attempt)
    {
      if attempt > 0 {
        waits := waits + [Pow2(attempt)];
      }
      var response := server(attempt);
      if response.RateLimited? {
        if attempt < maxRetries - 1 {
          continue;
        } else {
          return None, waits;
        }
      }
      if response.RequestError? {
        if response.mentions429 {
          if attempt < maxRetries - 1 {
            continue;
          } else {
            return None, waits;
          }
        } else {
          return None, waits;
        }
      }
      if returnJson && !response.validJson {
        return None, waits;
      }
      return Some(response.body), waits;
    }
    return None, waits;
  }

  // ---------------------------------------------------------------------
  // Properties of the retry policy

  /**
   * A run from `attempt` ends after at least one more attempt and no later
   * than the last allowed one; every attempt it retried was retryable, and
   * it stopped either at the last allowed attempt or at a decisive one.
   */
  lemma {:induction false} RetryFromShape(server: nat -> Outcome, maxRetries: nat, returnJson: bool, attempt: nat)
    requires attempt < maxRetries
    ensures var run := RetryFrom(server, maxRetries, returnJson, attempt);
      && attempt < run.attempts <= maxRetries
      && (forall j :: attempt <= j < run.attempts - 1 ==> Retryable(server(j)))
      && (run.attempts == maxRetries || !Retryable(server(run.attempts - 1)))
    decreases maxRetries - attempt
  {
    if Retryable(server(attempt)) && attempt < maxRetries - 1 {
      RetryFromShape(server, maxRetries, returnJson, attempt + 1);
    }
  }

  /**
   * At most `maxRetries` attempts; each retried attempt was a 429 or an
   * error mentioning 429; the run ends at the first decisive attempt or after
   * the last allowed one.
   */
  lemma RetryShape(server: nat -> Outcome, maxRetries: nat, returnJson: bool)
    ensures var run := Retry(server, maxRetries, returnJson);
      && run.attempts <= maxRetries
      && (run.attempts == 0 <==> maxRetries == 0)
      && (forall j :: 0 <= j < run.attempts - 1 ==> Retryable(server(j)))
      && (run.attempts == maxRetries || !Retryable(server(run.attempts - 1)))
  {
    if maxRetries > 0 {
      RetryFromShape(server, maxRetries, returnJson, 0);
    }
  }

  /** The run's result is decided by its last attempt alone. */
  lemma {:induction false} RetryFromResult(server: nat -> Outcome, maxRetries: nat, returnJson: bool, attempt: nat)
    requires attempt < maxRetries
    ensures attempt < RetryFrom(server, maxRetries, returnJson, attempt).attempts
    ensures var run := RetryFrom(server, maxRetries, returnJson, attempt);
      var last := server(run.attempts - 1);
      run.result == (if last.Ok? && (!returnJson || last.validJson) then Some(last.body) else None)
    decreases maxRetries - attempt
  {
    if Retryable(server(attempt)) && attempt < maxRetries - 1 {
      RetryFromResult(server, maxRetries, returnJson, attempt + 1);
    }
  }

  /**
   * A body is returned only from a successful last attempt (whose body decodes
   * when JSON is asked for); a 429 on the last attempt, a non-429 error or an
   * undecodable body gives None.
   */
  lemma RetryResult(server: nat -> Outcome, maxRetries: nat, returnJson: bool)
    requires maxRetries > 0
    ensures Retry(server, maxRetries, returnJson).attempts >= 1
    ensures var run := Retry(server, maxRetries, returnJson);
      var last := server(run.attempts - 1);
      run.result == (if last.Ok? && (!returnJson || last.validJson) then Some(last.body) else None)
  {
    RetryFromResult(server, maxRetries, returnJson, 0);
  }

  /** When every attempt is rate-limited, all attempts are used up and the result is None. */
  lemma {:induction false} ExhaustedRetries(server: nat -> Outcome, maxRetries: nat, returnJson: bool)
    requires forall j :: 0 <= j < maxRetries ==> Retryable(server(j))
    ensures Retry(server, maxRetries, returnJson) == RetryRun(None, maxRetries)
  {
    if maxRetries > 0 {
      RetryShape(server, maxRetries, returnJson);
      RetryResult(server, maxRetries, returnJson);
    }
  }

  /** A non-retryable first outcome ends the run after one attempt, with no wait. */
  lemma DecisiveFirstAttempt(server: nat -> Outcome, maxRetries: nat, returnJson: bool)
    requires maxRetries > 0 && !Retryable(server(0))
    ensures Retry(server, maxRetries, returnJson).attempts == 1
    ensures Backoffs(Retry(server, maxRetries, returnJson).attempts) == []
  {
  }

  /** There is one wait per attempt after the first, and the k-th wait is 2^k seconds. */
  lemma {:induction false} BackoffsSchedule(attempts: nat)
    ensures |Backoffs(attempts)| == if attempts == 0 then 0 else attempts - 1
    ensures forall k :: 0 <= k < |Backoffs(attempts)| ==> Backoffs(attempts)[k] == Pow2(k + 1)
  {
    if attempts > 1 {
      BackoffsSchedule(attempts - 1);
    }
  }

  /** With the default three attempts, the waits are 2 and 4 seconds. */
  lemma DefaultBackoffs()
    ensures Backoffs(3) == [2, 4]
  {
    assert Pow2(1) == 2;
    assert Pow2(2) == 4;
  }
}
