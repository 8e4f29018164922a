/** The generative-AI boundary of the country generator: each attempt either
    returns text (with whatever the JSON parse of that text yields), fails with
    HTTP 429 (rate limited), or fails otherwise. The caller retries at most
    three times, waiting 2^attempt seconds only after a rate-limit error. */
module Oracle {
  import opened Common

  /** The outcome of one call. A reply carries the result of parsing its text. */
  datatype CallOutcome<T> = Reply(text: string, parsed: T) | RateLimited | Failed

  const MaxAttempts: nat := 3

  /** The outcome of the attempt with 0-based index `k`. A script shorter than
      the attempts made behaves like a non-transient error from then on. */
  function OutcomeAt<T>(calls: seq<CallOutcome<T>>, k: nat): CallOutcome<T> {
    if k < |calls| then calls[k] else Failed
  }

  /** Non-empty text ends the loop with a result. */
  predicate Usable<T>(o: CallOutcome<T>) {
    o.Reply? && o.text != ""
  }

  /** Outcomes after which the loop tries again: a 429, or a reply with empty text. */
  predicate Retryable<T>(o: CallOutcome<T>) {
    o.RateLimited? || (o.Reply? && o.text == "")
  }

  function Pow2(n: nat): (r: nat)
    ensures r >= 1
  {
    if n == 0 then 1 else 2 * Pow2(n - 1)
  }

  /** `Math.pow(2, attempt) * 1000` milliseconds. */
  function Backoff(attempt: nat): nat {
    Pow2(attempt) * 1000
  }

  /** The sleeps the loop takes over attempts `from + 1` to `to` (1-based):
      one of `Backoff(j)` after each attempt `j` that was rate limited, in order. */
  function RateDelays<T>(calls: seq<CallOutcome<T>>, from: nat, to: nat): seq<nat>
    decreases to - from
  {
    if from >= to then []
    else (if OutcomeAt(calls, from).RateLimited? then [Backoff(from + 1)] else []) + RateDelays(calls, from + 1, to)
  }

  /** What the loop produced: the parse of the first usable reply (if any), the
      number of the last attempt made, and the sleeps taken, in order. */
  datatype RetryResult<T> = RetryResult(reply: Option<T>, attempts: nat, delays: seq<nat>)

  /** The loop from attempt number `attempt` (1-based) on. */
  function RetryFrom<T>(calls: seq<CallOutcome<T>>, attempt: nat): (r: RetryResult<T>)
    requires 1 <= attempt <= MaxAttempts + 1
    ensures Min(attempt, MaxAttempts) <= r.attempts <= MaxAttempts
    ensures forall j :: attempt - 1 <= j < r.attempts - 1 ==> Retryable(OutcomeAt(calls, j))
    ensures r.reply.Some? ==> Usable(OutcomeAt(calls, r.attempts - 1))
                              && r.reply.value == OutcomeAt(calls, r.attempts - 1).parsed
    ensures r.reply.None? && r.attempts < MaxAttempts ==> OutcomeAt(calls, r.attempts - 1).Failed?
    ensures r.reply.None? && attempt <= MaxAttempts ==> !Usable(OutcomeAt(calls, r.attempts - 1))
    ensures |r.delays| <= r.attempts - attempt + 1
    ensures forall i :: 0 <= i < |r.delays| ==> r.delays[i] in {Backoff(1), Backoff(2), Backoff(3)}
    ensures r.delays == RateDelays(calls, attempt - 1, r.attempts)
    decreases MaxAttempts + 1 - attempt
  {
    if attempt > MaxAttempts then RetryResult(None, MaxAttempts, [])
    else
      var o := OutcomeAt(calls, attempt - 1);
      if Usable(o) then RetryResult(Some(o.parsed), attempt, [])
      else if o.Reply? then RetryFrom(calls, attempt + 1)
      else if o.RateLimited? then
        var rest := RetryFrom(calls, attempt + 1);
        rest.(delays := [Backoff(attempt)] + rest.delays)
      else RetryResult(None, attempt, [])
  }

  /** The retry loop of the country generator, as a whole. */
  function Retry<T>(calls: seq<CallOutcome<T>>): RetryResult<T> {
    RetryFrom(calls, 1)
  }

  /** The loop finds a reply exactly when, within three attempts, a non-empty
      reply comes before any non-429 error; that reply is the first such one. */
  lemma {:induction false} RetrySucceedsIff<T>(calls: seq<CallOutcome<T>>)
    ensures Retry(calls).reply.Some? <==>
      exists k :: 0 <= k < MaxAttempts && Usable(OutcomeAt(calls, k))
                  && forall j :: 0 <= j < k ==> Retryable(OutcomeAt(calls, j))
  {
    var r := Retry(calls);
    if r.reply.Some? {
      assert Usable(OutcomeAt(calls, r.attempts - 1));
    } else {
      forall k | 0 <= k < MaxAttempts && Usable(OutcomeAt(calls, k))
        ensures exists j :: 0 <= j < k && !Retryable(OutcomeAt(calls, j))
      {
        assert k > r.attempts - 1;
        assert OutcomeAt(calls, r.attempts - 1).Failed?;
      }
    }
  }

  /** One turn of the loop, as `RetryFrom` takes it. */
  lemma RetryStep<T>(calls: seq<CallOutcome<T>>, attempt: nat)
    requires 1 <= attempt <= MaxAttempts
    ensures var o := OutcomeAt(calls, attempt - 1);
            var next := RetryFrom(calls, attempt + 1);
            RetryFrom(calls, attempt)
            == if Usable(o) then RetryResult(Some(o.parsed), attempt, [])
               else if o.Reply? then next
               else if o.RateLimited? then next.(delays := [Backoff(attempt)] + next.delays)
               else RetryResult(None, attempt, [])
  {
  }

  /** The source's loop, statement by statement: `for (attempt = 1; attempt <= 3; attempt++)`,
      `break` on non-empty text or on a non-429 error, sleep after a 429. */
  method CallWithRetry<T>(calls: seq<CallOutcome<T>>) returns (reply: Option<T>, attempts: nat, delays: seq<nat>)
    ensures RetryResult(reply, attempts, delays) == Retry(calls)
    ensures 1 <= attempts <= MaxAttempts
  {
    reply := None;
    attempts := MaxAttempts;
    delays := [];
    for attempt := 1 to MaxAttempts + 1
      invariant Retry(calls).reply == RetryFrom(calls, attempt).reply
      invariant Retry(calls).attempts == RetryFrom(calls, attempt).attempts
      invariant Retry(calls).delays == delays + RetryFrom(calls, attempt).delays
    {
      var o := OutcomeAt(calls, attempt - 1);
      RetryStep(calls, attempt);
      if o.Reply? && o.text != "" {
        reply, attempts := Some(o.parsed), attempt;
        return;
      } else if o.RateLimited? {
        Regroup(delays, Backoff(attempt), RetryFrom(calls, attempt + 1).delays);
        delays := delays + [Backoff(attempt)];
      } else if o.Failed? {
        attempts := attempt;
        return;
      }
    }
  }

  lemma Regroup(done: seq<nat>, d: nat, later: seq<nat>)
    ensures done + ([d] + later) == (done + [d]) + later
  {
  }
}
