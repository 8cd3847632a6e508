/**
 The outbound request path: the daily budget and the token bucket applied before every request, and
 the retry loop that goes through them once per attempt.
 */
module Client {
  import opened Wrappers
  import TB = TokenBucket
  import DB = DailyBudget

  /** What an empty bucket means to the caller. */
  datatype Mode = Block | Reject

  datatype CallKind = Algod | IndexerRead

  /**
   The monotonic clock, in seconds. Reading it, sleeping, and everything a thread does in between take
   some time: `lag(i)` more than asked for, at step `i`.
   */
  datatype Clock = Clock(now: real, tick: nat, lag: nat -> real)
  {
    ghost predicate Valid() { forall i: nat :: lag(i) >= 0.0 }

    /** The clock once it has been read; the reading is its `now`. */
    function Read(): Clock { Clock(now + lag(tick), tick + 1, lag) }

    function Sleep(seconds: real): Clock { Clock(now + seconds + lag(tick), tick + 1, lag) }
  }

  datatype Limits = Limits(bucket: Option<TB.Bucket>, daily: Option<DB.Budget>, made: nat)

  datatype Refusal = RateLimited(wait: real) | DailyBudgetExceeded(untilDayStart: nat, offset: nat)

  datatype Acquired = Acquired(bucket: TB.Bucket, clock: Clock, verdict: Result<(), Refusal>)

  /** Take a token: at once, or after one sleep when the mode is to block. */
  function Acquire(b: TB.Bucket, mode: Mode, clock: Clock): (a: Acquired)
    requires TB.Valid(b)
    ensures TB.Valid(a.bucket)
  {
    var c := clock.Read();
    var p := TB.PollAt(b, c.now);
    TB.PollTakesOneOrNone(b, c.now);
    if p.wait == 0.0 then Acquired(p.bucket, c, Ok(()))
    else if mode.Reject? then Acquired(p.bucket, c, Err(RateLimited(p.wait)))
    else
      var c' := c.Sleep(p.wait).Read();
      TB.PollTakesOneOrNone(p.bucket, c'.now);
      Acquired(TB.PollAt(p.bucket, c'.now).bucket, c', Ok(()))
  }

  predicate Valid(l: Limits) {
    && (l.bucket.Some? ==> TB.Valid(l.bucket.value))
    && (l.daily.Some? ==> l.daily.value.max <= DB.U32_MAX)
  }

  datatype Applied = Applied(limits: Limits, clock: Clock, verdict: Result<(), Refusal>)

  /** Check the daily budget, take a token, then charge: in that order, with one unix reading. */
  function Apply(l: Limits, mode: Mode, clock: Clock, unixNow: nat): (a: Applied)
    requires Valid(l)
    ensures Valid(a.limits)
  {
    var checked := if l.daily.Some? then Some(DB.CheckAt(l.daily.value, unixNow)) else None;
    if checked.Some? && checked.value.verdict.Err? then
      var d := checked.value.budget;
      Applied(l.(daily := Some(d)), clock, Err(DailyBudgetExceeded(checked.value.verdict.error, d.offset)))
    else
      var daily := if checked.Some? then Some(checked.value.budget) else None;
      var acquired := if l.bucket.Some? then Some(Acquire(l.bucket.value, mode, clock)) else None;
      var bucket := if acquired.Some? then Some(acquired.value.bucket) else None;
      var clock' := if acquired.Some? then acquired.value.clock else clock;
      if acquired.Some? && acquired.value.verdict.Err? then
        Applied(Limits(bucket, daily, l.made), clock', acquired.value.verdict)
      else
        var charged := if daily.Some? then Some(DB.RecordAt(daily.value, unixNow)) else None;
        Applied(Limits(bucket, charged, l.made + 1), clock', Ok(()))
  }

  /** What a request came back with; `LocalFailure` never reached the network. */
  datatype Response<+T> = Replied(value: T) | HttpStatus(status: nat) | NoHttpReply | LocalFailure

  const RETRYABLE_STATUS_CODES := {408, 425, 429, 502, 503, 504}
  const INDEXER_READ_RETRYABLE_STATUS_CODES := {500}
  const MAX_RETRIES := 3

  predicate IsRetryable<T>(kind: CallKind, response: Response<T>) {
    response.HttpStatus? &&
    (response.status in RETRYABLE_STATUS_CODES
     || (kind.IndexerRead? && response.status in INDEXER_READ_RETRYABLE_STATUS_CODES))
  }

  datatype CallError = Refused(refusal: Refusal) | RuntimeError | Transient | Http(status: nat) | Other

  /** What the outside world answers to each attempt: a unix reading, and a response. */
  datatype Attempt<+T> = Attempt(unixNow: nat, response: Response<T>)

  /** The result a response gives on the attempt it ends the call with. */
  function Final<T>(kind: CallKind, response: Response<T>): Result<T, CallError> {
    match response
    case Replied(v) => Ok(v)
    case LocalFailure => Err(RuntimeError)
    case NoHttpReply => Err(Other)
    case HttpStatus(status) => Err(if IsRetryable(kind, response) then Transient else Http(status))
  }

  /** One, two, then four seconds. */
  function Backoff(attempt: nat): real {
    if attempt == 0 then 1.0 else 2.0 * Backoff(attempt - 1)
  }

  datatype Called<+T> = Called(limits: Limits, clock: Clock, result: Result<T, CallError>)

  /** The call from attempt `attempt` on. */
  function Retry<T>(l: Limits, mode: Mode, kind: CallKind, clock: Clock, world: nat -> Attempt<T>, attempt: nat)
    : (c: Called<T>)
    requires Valid(l) && attempt <= MAX_RETRIES
    ensures Valid(c.limits)
    decreases MAX_RETRIES - attempt
  {
    var a := Apply(l, mode, clock, world(attempt).unixNow);
    if a.verdict.Err? then Called(a.limits, a.clock, Err(Refused(a.verdict.error)))
    else
      var response := world(attempt).response;
      if attempt < MAX_RETRIES && IsRetryable(kind, response)
      then Retry(a.limits, mode, kind, a.clock.Sleep(Backoff(attempt)), world, attempt + 1)
      else Called(a.limits, a.clock, Final(kind, response))
  }

  /** A sleep for the wait a poll returned is long enough for the next poll to be granted. */
  lemma OneSleepIsEnough(b: TB.Bucket, clock: Clock)
    requires TB.Valid(b) && clock.Valid() && TB.PollAt(b, clock.now).wait > 0.0
    ensures var p := TB.PollAt(b, clock.now);
            p.bucket.refillPerSec > 0.0 && TB.PollAt(p.bucket, clock.Sleep(p.wait).Read().now).wait == 0.0
  {
    var p := TB.PollAt(b, clock.now);
    var c := clock.Sleep(p.wait).Read();
    assert clock.lag(clock.tick) >= 0.0 && clock.lag(clock.tick + 1) >= 0.0;
    TB.PollTakesOneOrNone(b, clock.now);
    TB.RetryAfterIsExact(b, clock.now, [], c.now);
  }

  /** What a call does with one attempt. */
  lemma RetryOnce<T>(l: Limits, mode: Mode, kind: CallKind, clock: Clock, world: nat -> Attempt<T>, attempt: nat,
                     a: Applied)
    requires Valid(l) && attempt <= MAX_RETRIES && a == Apply(l, mode, clock, world(attempt).unixNow)
    ensures var response := world(attempt).response;
            Retry(l, mode, kind, clock, world, attempt)
            == if a.verdict.Err? then Called(a.limits, a.clock, Err(Refused(a.verdict.error)))
               else if attempt < MAX_RETRIES && IsRetryable(kind, response)
               then Retry(a.limits, mode, kind, a.clock.Sleep(Backoff(attempt)), world, attempt + 1)
               else Called(a.limits, a.clock, Final(kind, response))
  {
  }

  // ----- the client as it runs

  class AlgoOps {
    const mode: Mode
    const rateLimiter: TB.RateLimiter?
    const dailyBudget: DB.DailyLimiter?
    var requestsMade: nat

    constructor (mode: Mode, rateLimiter: TB.RateLimiter?, dailyBudget: DB.DailyLimiter?)
      ensures this.mode == mode && this.rateLimiter == rateLimiter && this.dailyBudget == dailyBudget
      ensures requestsMade == 0
    {
      this.mode, this.rateLimiter, this.dailyBudget, requestsMade := mode, rateLimiter, dailyBudget, 0;
    }

    function Value(): Limits
      reads this, rateLimiter, dailyBudget
    {
      Limits(if rateLimiter == null then None else Some(rateLimiter.Value()),
             if dailyBudget == null then None else Some(dailyBudget.Value()),
             requestsMade)
    }

    method ApplyRateLimit(clock: Clock, unixNow: nat) returns (r: Result<(), Refusal>, clock': Clock)
      requires Valid(Value()) && clock.Valid()
      modifies this, rateLimiter, dailyBudget
      ensures Applied(Value(), clock', r) == Apply(old(Value()), mode, clock, unixNow)
    {
      clock' := clock;
      if dailyBudget != null {
        var verdict := dailyBudget.Check(unixNow);
        if verdict.Err? {
          return Err(DailyBudgetExceeded(verdict.error, dailyBudget.dayStartOffsetSecs)), clock';
        }
      }
      if rateLimiter != null {
        r, clock' := AcquireToken(clock);
        if r.Err? {
          return;
        }
      }
      if dailyBudget != null {
        dailyBudget.Record(unixNow);
      }
      requestsMade := requestsMade + 1;
      r := Ok(());
    }

    /** Poll, and on an empty bucket either sleep for the wait and poll again or refuse. */
    method AcquireToken(clock: Clock) returns (r: Result<(), Refusal>, clock': Clock)
      requires rateLimiter != null && TB.Valid(rateLimiter.Value()) && clock.Valid()
      modifies rateLimiter
      ensures Acquired(rateLimiter.Value(), clock', r) == Acquire(old(rateLimiter.Value()), mode, clock)
    {
      clock' := clock;
      ghost var b := rateLimiter.Value();
      ghost var first := TB.PollAt(b, clock.Read().now);
      ghost var slept := false;
      while true
        invariant rateLimiter.refillPerSec > 0.0
        invariant !slept ==> clock' == clock && rateLimiter.Value() == b
        invariant slept ==> mode.Block? && first.wait > 0.0
                            && clock' == clock.Read().Sleep(first.wait) && rateLimiter.Value() == first.bucket
        decreases if slept then 0 else 1
      {
        TB.PollTakesOneOrNone(b, clock.Read().now);
        if slept {
          OneSleepIsEnough(b, clock.Read());
        }
        clock' := clock'.Read();
        var wait := rateLimiter.Poll(clock'.now);
        if wait == 0.0 {
          break;
        }
        if mode.Reject? {
          return Err(RateLimited(wait)), clock';
        }
        clock' := clock'.Sleep(wait);
        slept := true;
      }
      r := Ok(());
    }

    method CallWithRetry<T>(kind: CallKind, clock: Clock, world: nat -> Attempt<T>)
      returns (r: Result<T, CallError>, clock': Clock)
      requires Valid(Value()) && clock.Valid()
      modifies this, rateLimiter, dailyBudget
      ensures Called(Value(), clock', r) == Retry(old(Value()), mode, kind, clock, world, 0)
    {
      var attempt := 0;
      clock' := clock;
      ghost var outcome := Retry(Value(), mode, kind, clock, world, 0);
      while true
        invariant attempt <= MAX_RETRIES && clock'.Valid() && Valid(Value())
        invariant outcome == Retry(Value(), mode, kind, clock', world, attempt)
        decreases MAX_RETRIES - attempt
      {
        var sent;
        sent, clock' := SendOnce(kind, clock', world, attempt, outcome);
        if sent.Err? {
          return Err(Refused(sent.error)), clock';
        }
        var response := world(attempt).response;
        if attempt < MAX_RETRIES && IsRetryable(kind, response) {
          clock' := clock'.Sleep(Backoff(attempt));
          attempt := attempt + 1;
        } else {
          r := Conclude(kind, attempt, response);
          return;
        }
      }
    }

    /** Throttle one attempt. What is left of the call is what its outcome still has to come from. */
    method SendOnce<T>(kind: CallKind, clock: Clock, world: nat -> Attempt<T>, attempt: nat, ghost outcome: Called<T>)
      returns (r: Result<(), Refusal>, clock': Clock)
      requires attempt <= MAX_RETRIES && Valid(Value()) && clock.Valid()
      requires outcome == Retry(Value(), mode, kind, clock, world, attempt)
      modifies this, rateLimiter, dailyBudget
      ensures Valid(Value()) && clock'.Valid()
      ensures Applied(Value(), clock', r) == Apply(old(Value()), mode, clock, world(attempt).unixNow)
      ensures outcome
           == if r.Err? then Called(Value(), clock', Err(Refused(r.error)))
              else if attempt < MAX_RETRIES && IsRetryable(kind, world(attempt).response)
              then Retry(Value(), mode, kind, clock'.Sleep(Backoff(attempt)), world, attempt + 1)
              else Called(Value(), clock', Final(kind, world(attempt).response))
    {
      ghost var l := Value();
      r, clock' := ApplyRateLimit(clock, world(attempt).unixNow);
      RetryOnce(l, mode, kind, clock, world, attempt, Applied(Value(), clock', r));
    }

    /** The result of a call that will not be retried. */
    static method Conclude<T>(kind: CallKind, attempt: nat, response: Response<T>) returns (r: Result<T, CallError>)
      requires attempt >= MAX_RETRIES || !IsRetryable(kind, response)
      ensures r == Final(kind, response)
    {
      match response {
        case Replied(value) => r := Ok(value);
        case LocalFailure => r := Err(RuntimeError);
        case NoHttpReply => r := Err(Other);
        case HttpStatus(status) =>
          if attempt >= MAX_RETRIES && IsRetryable(kind, response) {
            r := Err(Transient);
          } else {
            r := Err(Http(status));
          }
      }
    }
  }
}
