/**
 What the request path charges, over one request, one retried call, and any sequence of calls.
 */
module ClientTheorems {
  import opened Wrappers
  import TB = TokenBucket
  import DB = DailyBudget
  import opened Client

  /** The bucket was not last polled in the future. */
  predicate Timely(l: Limits, clock: Clock) {
    l.bucket.Some? ==> l.bucket.value.lastRefill <= clock.now
  }

  /** A poll that takes nothing does not change what a later refill amounts to. */
  lemma RefillTwice(b: TB.Bucket, u: real, v: real)
    requires TB.Valid(b) && b.lastRefill <= u <= v && TB.Refilled(b, u).tokens < 1.0
    ensures TB.Refilled(TB.Refilled(b, u), v) == TB.Refilled(b, v)
  {
    TB.PollTakesOneOrNone(b, u);
    TB.PollTakesOneOrNone(b, v);
    TB.PollTakesOneOrNone(TB.Refilled(b, u), v);
    TB.AccruedAdds(b.refillPerSec, b.lastRefill, u, v);
  }

  lemma AcquireTakesOneOrNone(b: TB.Bucket, mode: Mode, clock: Clock)
    requires TB.Valid(b) && clock.Valid() && b.lastRefill <= clock.now
    ensures var a := Acquire(b, mode, clock);
            && TB.Valid(a.bucket) && a.clock.Valid()
            && b.lastRefill <= a.bucket.lastRefill <= a.clock.now && clock.now <= a.clock.now
            && a.bucket == TB.Refilled(b, a.bucket.lastRefill).(tokens :=
                 TB.Refilled(b, a.bucket.lastRefill).tokens - if a.verdict.Ok? then 1.0 else 0.0)
            && (mode.Block? ==> a.verdict.Ok?)
  {
    assert clock.lag(clock.tick) >= 0.0 && clock.lag(clock.tick + 1) >= 0.0 && clock.lag(clock.tick + 2) >= 0.0;
    var c := clock.Read();
    var p := TB.PollAt(b, c.now);
    TB.PollTakesOneOrNone(b, c.now);
    if p.wait > 0.0 && mode.Block? {
      OneSleepIsEnough(b, c);
      var c' := c.Sleep(p.wait).Read();
      TB.PollTakesOneOrNone(p.bucket, c'.now);
      RefillTwice(b, c.now, c'.now);
    }
  }

  /**
   A request that is let out takes one token, one unit of the day's budget and one count; a refused
   one takes none of them. What else changes is the refill of the bucket and the roll of the window.
   */
  lemma AllOrNothing(l: Limits, mode: Mode, clock: Clock, unixNow: nat)
    requires Valid(l) && clock.Valid() && Timely(l, clock)
    ensures var a := Apply(l, mode, clock, unixNow);
            var taken := if a.verdict.Ok? then 1 else 0;
            && a.limits.made == l.made + taken
            && a.limits.daily.Some? == l.daily.Some? && a.limits.bucket.Some? == l.bucket.Some?
            && (l.daily.Some? ==>
                  var rolled := DB.Rolled(l.daily.value, unixNow);
                  a.limits.daily.value == rolled.(spent := rolled.spent + taken))
            && (l.bucket.Some? ==>
                  var refilled := TB.Refilled(l.bucket.value, a.limits.bucket.value.lastRefill);
                  && l.bucket.value.lastRefill <= a.limits.bucket.value.lastRefill
                  && a.limits.bucket.value == refilled.(tokens := refilled.tokens - taken as real))
            && Valid(a.limits) && a.clock.Valid() && Timely(a.limits, a.clock) && clock.now <= a.clock.now
  {
    if l.bucket.Some? {
      AcquireTakesOneOrNone(l.bucket.value, mode, clock);
      TB.AccruedAdds(l.bucket.value.refillPerSec, l.bucket.value.lastRefill, l.bucket.value.lastRefill,
                     l.bucket.value.lastRefill);
      TB.PollTakesOneOrNone(l.bucket.value, l.bucket.value.lastRefill);
    }
  }

  // ----- when a request is refused, and what it waits for

  /** The tokens in a bucket at a time: what it held and what accrued since, up to its capacity. */
  function TokensAt(b: TB.Bucket, t: real): real {
    var accrued := if t > b.lastRefill then (t - b.lastRefill) * b.refillPerSec else 0.0;
    if b.tokens + accrued > b.capacity then b.capacity else b.tokens + accrued
  }

  /** The requests of the window a reading falls in. */
  function SpentAt(d: DB.Budget, unixNow: nat): nat {
    if d.windowStart <= unixNow < d.windowStart + 86_400 then d.spent else 0
  }

  lemma TokensAreRefilled(b: TB.Bucket, t: real)
    ensures TB.Refilled(b, t).tokens == TokensAt(b, t)
  {
  }

  lemma PollWaits(b: TB.Bucket, t: real)
    requires TB.Valid(b)
    ensures var tokens := TokensAt(b, t);
            var p := TB.PollAt(b, t);
            if tokens >= 1.0 then p.wait == 0.0 else p.wait == (1.0 - tokens) / b.refillPerSec && p.wait > 0.0
  {
    TokensAreRefilled(b, t);
    TB.PollTakesOneOrNone(b, t);
  }

  /**
   A bucket that holds a token when the clock is read gives it at once. Otherwise `Reject` refuses, with
   the time the missing part of a token takes, and `Block` sleeps for that long and is given one.
   */
  lemma WhenAcquired(b: TB.Bucket, mode: Mode, clock: Clock)
    requires TB.Valid(b)
    ensures var a := Acquire(b, mode, clock);
            var tokens := TokensAt(b, clock.now + clock.lag(clock.tick));
            var wait := (1.0 - tokens) / b.refillPerSec;
            if tokens >= 1.0 then a.verdict == Ok(()) && a.clock == clock.Read()
            else if mode.Reject? then a.verdict == Err(RateLimited(wait)) && wait > 0.0 && a.clock == clock.Read()
            else a.verdict == Ok(()) && a.clock == clock.Read().Sleep(wait).Read()
  {
    PollWaits(b, clock.Read().now);
  }

  /** The clock is read at its time, and a sleep takes as long as asked; each may lag. */
  lemma ClockMoves(clock: Clock, seconds: real)
    ensures clock.Read().now == clock.now + clock.lag(clock.tick)
    ensures clock.Sleep(seconds).now == clock.now + seconds + clock.lag(clock.tick)
  {
  }

  /**
   A request is refused by the daily budget if and only if the window of its reading has seen `max`: with
   the time to the end of the window, before the clock is read and without touching the bucket. Otherwise
   it is refused if and only if the mode is to reject and the bucket holds less than a token.
   */
  lemma WhenRefused(l: Limits, mode: Mode, clock: Clock, unixNow: nat)
    requires Valid(l) && (l.daily.Some? ==> l.daily.value.offset < 86_400)
    ensures var a := Apply(l, mode, clock, unixNow);
            if l.daily.Some? && SpentAt(l.daily.value, unixNow) >= l.daily.value.max then
              var rolled := DB.Rolled(l.daily.value, unixNow);
              && a.verdict == Err(DailyBudgetExceeded(rolled.windowStart + 86_400 - unixNow, rolled.offset))
              && a.clock == clock && a.limits == l.(daily := Some(rolled))
            else if l.bucket.None? then a.verdict == Ok(()) && a.clock == clock
            else
              var tokens := TokensAt(l.bucket.value, clock.now + clock.lag(clock.tick));
              var wait := (1.0 - tokens) / l.bucket.value.refillPerSec;
              if tokens >= 1.0 then a.verdict == Ok(()) && a.clock == clock.Read()
              else if mode.Reject? then a.verdict == Err(RateLimited(wait)) && a.clock == clock.Read()
              else a.verdict == Ok(()) && a.clock == clock.Read().Sleep(wait).Read()
  {
    if l.daily.Some? {
      DB.CheckOnlyPeeks(l.daily.value, unixNow);
      DB.RollsEitherWay(l.daily.value, unixNow);
    }
    if l.bucket.Some? {
      WhenAcquired(l.bucket.value, mode, clock);
    }
  }

  /** Requests made are paid for by the tokens there were and those that accrued. */
  ghost predicate PaidFor(l: Limits, after: Limits) {
    && after.made >= l.made
    && (l.bucket.Some? ==>
          && after.bucket.Some? && TB.Valid(l.bucket.value) && TB.Valid(after.bucket.value)
          && after.bucket.value.capacity == l.bucket.value.capacity
          && after.bucket.value.refillPerSec == l.bucket.value.refillPerSec
          && l.bucket.value.lastRefill <= after.bucket.value.lastRefill
          && (after.made - l.made) as real + after.bucket.value.tokens
             <= l.bucket.value.tokens
                + TB.Accrued(l.bucket.value.refillPerSec, l.bucket.value.lastRefill, after.bucket.value.lastRefill))
  }

  lemma PaidForAdds(l: Limits, mid: Limits, after: Limits)
    requires PaidFor(l, mid) && PaidFor(mid, after)
    ensures PaidFor(l, after)
  {
    if l.bucket.Some? {
      TB.AccruedAdds(l.bucket.value.refillPerSec, l.bucket.value.lastRefill, mid.bucket.value.lastRefill,
                     after.bucket.value.lastRefill);
    }
  }

  lemma PaidForNothing(l: Limits)
    requires Valid(l)
    ensures PaidFor(l, l)
  {
    if l.bucket.Some? {
      TB.AccruedAdds(l.bucket.value.refillPerSec, l.bucket.value.lastRefill, l.bucket.value.lastRefill,
                     l.bucket.value.lastRefill);
    }
  }

  /** The day's budget and the counter move together while the clock stays in one window. */
  ghost predicate InStep(l: Limits, after: Limits) {
    after.daily.Some? == l.daily.Some? &&
    (l.daily.Some? ==>
      && after.daily.value == l.daily.value.(spent := after.daily.value.spent)
      && after.daily.value.spent - l.daily.value.spent == after.made - l.made
      && (after.made == l.made || after.daily.value.spent <= l.daily.value.max))
  }

  predicate Today(l: Limits, unixNow: nat) {
    l.daily.Some? ==> l.daily.value.windowStart <= unixNow < l.daily.value.windowStart + DB.DAY
  }

  lemma ApplyIsPaidFor(l: Limits, mode: Mode, clock: Clock, unixNow: nat)
    requires Valid(l) && clock.Valid() && Timely(l, clock)
    ensures var a := Apply(l, mode, clock, unixNow);
            PaidFor(l, a.limits) && (Today(l, unixNow) ==> InStep(l, a.limits))
  {
    AllOrNothing(l, mode, clock, unixNow);
    if l.bucket.Some? {
      TB.PollTakesOneOrNone(l.bucket.value, Apply(l, mode, clock, unixNow).limits.bucket.value.lastRefill);
    }
  }

  lemma BackoffIsPositive(attempt: nat)
    ensures Backoff(attempt) > 0.0
  {
  }

  /** Both, for a client whose clock and bucket agree at either end. */
  ghost predicate Charged(l: Limits, clock: Clock, today: bool, after: Limits, clock': Clock) {
    && PaidFor(l, after) && (today ==> InStep(l, after))
    && Ready(after, clock') && clock.now <= clock'.now
  }

  ghost predicate Ready(l: Limits, clock: Clock) {
    Valid(l) && clock.Valid() && Timely(l, clock)
  }

  lemma ChargedAdds(l: Limits, clock: Clock, today: bool, mid: Limits, clock': Clock, after: Limits, clock'': Clock)
    requires Charged(l, clock, today, mid, clock') && Charged(mid, clock', today, after, clock'')
    ensures Charged(l, clock, today, after, clock'')
  {
    PaidForAdds(l, mid, after);
  }

  lemma ApplyIsCharged(l: Limits, mode: Mode, clock: Clock, unixNow: nat, today: bool)
    requires Ready(l, clock) && (today ==> Today(l, unixNow))
    ensures var a := Apply(l, mode, clock, unixNow); Charged(l, clock, today, a.limits, a.clock)
  {
    AllOrNothing(l, mode, clock, unixNow);
    ApplyIsPaidFor(l, mode, clock, unixNow);
  }

  lemma SleepIsCharged(l: Limits, clock: Clock, today: bool, after: Limits, clock': Clock, attempt: nat)
    requires Charged(l, clock, today, after, clock')
    ensures Charged(l, clock, today, after, clock'.Sleep(Backoff(attempt)))
  {
    BackoffIsPositive(attempt);
    assert clock'.lag(clock'.tick) >= 0.0;
  }

  /** Whether every reading of a call falls in the window the client is in. */
  ghost predicate CallToday<T>(l: Limits, world: nat -> Attempt<T>) {
    forall i: nat :: Today(l, world(i).unixNow)
  }

  lemma CallTodayStays<T>(l: Limits, clock: Clock, after: Limits, clock': Clock, world: nat -> Attempt<T>)
    requires Charged(l, clock, true, after, clock') && CallToday(l, world)
    ensures CallToday(after, world)
  {
    forall i: nat ensures Today(after, world(i).unixNow) {
      assert Today(l, world(i).unixNow);
    }
  }

  lemma {:induction false} RetryIsCharged<T>(l: Limits, mode: Mode, kind: CallKind, clock: Clock,
                                             world: nat -> Attempt<T>, attempt: nat, today: bool)
    requires Ready(l, clock) && attempt <= MAX_RETRIES && (today ==> CallToday(l, world))
    ensures var c := Retry(l, mode, kind, clock, world, attempt); Charged(l, clock, today, c.limits, c.clock)
    decreases MAX_RETRIES - attempt
  {
    var unixNow := world(attempt).unixNow;
    assert today ==> Today(l, world(attempt).unixNow);
    ApplyIsCharged(l, mode, clock, unixNow, today);
    var a := Apply(l, mode, clock, unixNow);
    if a.verdict.Ok? && attempt < MAX_RETRIES && IsRetryable(kind, world(attempt).response) {
      RetryAfter(l, mode, kind, clock, world, attempt, today, a);
    }
  }

  lemma {:induction false} RetryAfter<T>(l: Limits, mode: Mode, kind: CallKind, clock: Clock,
                                         world: nat -> Attempt<T>, attempt: nat, today: bool, a: Applied)
    requires attempt < MAX_RETRIES && (today ==> CallToday(l, world))
    requires Ready(l, clock) && Charged(l, clock, today, a.limits, a.clock)
    ensures var c := Retry(a.limits, mode, kind, a.clock.Sleep(Backoff(attempt)), world, attempt + 1);
            Charged(l, clock, today, c.limits, c.clock)
    decreases MAX_RETRIES - attempt, 0
  {
    SleepIsCharged(l, clock, today, a.limits, a.clock, attempt);
    var slept := a.clock.Sleep(Backoff(attempt));
    if today {
      CallTodayStays(l, clock, a.limits, a.clock, world);
    }
    RetryIsCharged(a.limits, mode, kind, slept, world, attempt + 1, today);
    var c := Retry(a.limits, mode, kind, slept, world, attempt + 1);
    ChargedAdds(l, clock, today, a.limits, slept, c.limits, c.clock);
  }

  // ----- sequences of calls

  datatype Request<!T> = Request(kind: CallKind, world: nat -> Attempt<T>)

  datatype Reached = Reached(limits: Limits, clock: Clock)

  /** The client after a sequence of calls, whatever each one returned. */
  function Run<T>(l: Limits, mode: Mode, clock: Clock, calls: seq<Request<T>>): Reached
    requires Valid(l)
    decreases |calls|
  {
    if calls == [] then Reached(l, clock) else
      var c := Retry(l, mode, calls[0].kind, clock, calls[0].world, 0);
      Run(c.limits, mode, c.clock, calls[1..])
  }

  ghost predicate AllToday<T>(l: Limits, calls: seq<Request<T>>) {
    forall c :: 0 <= c < |calls| ==> CallToday(l, calls[c].world)
  }

  lemma {:induction false} RunIsCharged<T>(l: Limits, mode: Mode, clock: Clock, calls: seq<Request<T>>, today: bool)
    requires Ready(l, clock) && (today ==> AllToday(l, calls))
    ensures var r := Run(l, mode, clock, calls); Charged(l, clock, today, r.limits, r.clock)
    decreases |calls|
  {
    if calls == [] {
      PaidForNothing(l);
    } else {
      assert today ==> CallToday(l, calls[0].world);
      RetryIsCharged(l, mode, calls[0].kind, clock, calls[0].world, 0, today);
      var c := Retry(l, mode, calls[0].kind, clock, calls[0].world, 0);
      RunAfter(l, mode, clock, c.limits, c.clock, calls[1..], today, calls);
    }
  }

  lemma {:induction false} RunAfter<T>(l: Limits, mode: Mode, clock: Clock, mid: Limits, clock': Clock,
                                       rest: seq<Request<T>>, today: bool, calls: seq<Request<T>>)
    requires Ready(l, clock) && calls != [] && rest == calls[1..]
    requires Charged(l, clock, today, mid, clock') && (today ==> AllToday(l, calls))
    ensures var r := Run(mid, mode, clock', rest); Charged(l, clock, today, r.limits, r.clock)
    decreases |calls|, 0
  {
    if today {
      forall c | 0 <= c < |rest| ensures CallToday(mid, rest[c].world) {
        assert CallToday(l, calls[c + 1].world);
        CallTodayStays(l, clock, mid, clock', rest[c].world);
      }
    }
    RunIsCharged(mid, mode, clock', rest, today);
    var r := Run(mid, mode, clock', rest);
    ChargedAdds(l, clock, today, mid, clock', r.limits, r.clock);
  }

  /**
   Over any sequence of calls, retries included, with any results: the requests made are at most a
   full bucket and what the rate yields from the bucket's last poll to the end; and while the day
   lasts, the budget is spent by exactly the requests made, and never past `max`.
   */
  lemma RequestsAreBounded<T>(l: Limits, mode: Mode, clock: Clock, calls: seq<Request<T>>)
    requires Valid(l) && clock.Valid() && Timely(l, clock)
    ensures var r := Run(l, mode, clock, calls);
            && (l.bucket.Some? ==>
                  (r.limits.made - l.made) as real
                    <= l.bucket.value.capacity
                       + TB.Accrued(l.bucket.value.refillPerSec, l.bucket.value.lastRefill, r.clock.now))
            && (l.daily.Some? && AllToday(l, calls) ==>
                  && r.limits.daily.Some?
                  && r.limits.made - l.made == r.limits.daily.value.spent - l.daily.value.spent
                  && (r.limits.made > l.made ==> r.limits.daily.value.spent <= l.daily.value.max))
  {
    RunIsCharged(l, mode, clock, calls, l.daily.Some? && AllToday(l, calls));
    if l.bucket.Some? {
      var b := l.bucket.value;
      var end := Run(l, mode, clock, calls);
      var last := end.limits.bucket.value.lastRefill;
      TB.AccruedAdds(b.refillPerSec, b.lastRefill, last, end.clock.now);
      TB.AccruedGrows(b.refillPerSec, b.lastRefill, last, end.clock.now);
    }
  }

  // ----- the daily budget over many days

  /** The attempts a call makes at its daily budget, each let out or not. */
  function TraceOfCall<T>(l: Limits, mode: Mode, kind: CallKind, clock: Clock, world: nat -> Attempt<T>, attempt: nat)
    : seq<DB.Attempt>
    requires Valid(l) && attempt <= MAX_RETRIES
    decreases MAX_RETRIES - attempt
  {
    var a := Apply(l, mode, clock, world(attempt).unixNow);
    [DB.Attempt(world(attempt).unixNow, a.verdict.Ok?)]
    + if a.verdict.Ok? && attempt < MAX_RETRIES && IsRetryable(kind, world(attempt).response)
      then TraceOfCall(a.limits, mode, kind, a.clock.Sleep(Backoff(attempt)), world, attempt + 1) else []
  }

  function TraceOfRun<T>(l: Limits, mode: Mode, clock: Clock, calls: seq<Request<T>>): seq<DB.Attempt>
    requires Valid(l)
    decreases |calls|
  {
    if calls == [] then [] else
      var c := Retry(l, mode, calls[0].kind, clock, calls[0].world, 0);
      TraceOfCall(l, mode, calls[0].kind, clock, calls[0].world, 0) + TraceOfRun(c.limits, mode, c.clock, calls[1..])
  }

  /** How far the request counter rises over the attempts of a call whose reading is in window `k`. */
  function MadeInCall<T>(l: Limits, mode: Mode, kind: CallKind, clock: Clock, world: nat -> Attempt<T>, attempt: nat,
                         offset: nat, k: int): int
    requires Valid(l) && attempt <= MAX_RETRIES
    decreases MAX_RETRIES - attempt
  {
    var a := Apply(l, mode, clock, world(attempt).unixNow);
    (if DB.Window(world(attempt).unixNow, offset) == k then a.limits.made - l.made else 0)
    + if a.verdict.Ok? && attempt < MAX_RETRIES && IsRetryable(kind, world(attempt).response)
      then MadeInCall(a.limits, mode, kind, a.clock.Sleep(Backoff(attempt)), world, attempt + 1, offset, k) else 0
  }

  function MadeInRun<T>(l: Limits, mode: Mode, clock: Clock, calls: seq<Request<T>>, offset: nat, k: int): int
    requires Valid(l)
    decreases |calls|
  {
    if calls == [] then 0 else
      var c := Retry(l, mode, calls[0].kind, clock, calls[0].world, 0);
      MadeInCall(l, mode, calls[0].kind, clock, calls[0].world, 0, offset, k)
      + MadeInRun(c.limits, mode, c.clock, calls[1..], offset, k)
  }

  /** One request is one step of the daily budget, and is counted if and only if it is sent. */
  lemma ApplyIsStep(l: Limits, mode: Mode, clock: Clock, unixNow: nat)
    requires Valid(l) && l.daily.Some?
    ensures var a := Apply(l, mode, clock, unixNow);
            var attempt := DB.Attempt(unixNow, a.verdict.Ok?);
            && a.limits.daily == Some(DB.Step(l.daily.value, attempt))
            && a.limits.daily.value.offset == l.daily.value.offset
            && a.limits.made - l.made == if DB.Sent(l.daily.value, attempt) then 1 else 0
  {
  }

  /** The daily budget has gone through `trace`, which sent `sent` requests in window `k`. */
  ghost predicate Went(l: Limits, trace: seq<DB.Attempt>, k: int, after: Limits, sent: int) {
    && l.daily.Some? && after.daily == Some(DB.After(l.daily.value, trace))
    && after.daily.value.offset == l.daily.value.offset
    && sent == DB.SentIn(l.daily.value, trace, k)
  }

  lemma WentThenWent(l: Limits, x: seq<DB.Attempt>, k: int, mid: Limits, sent: int,
                     y: seq<DB.Attempt>, after: Limits, sent': int)
    requires Went(l, x, k, mid, sent) && Went(mid, y, k, after, sent')
    ensures Went(l, x + y, k, after, sent + sent')
  {
    DB.RunThenRun(l.daily.value, x, y, k);
  }

  lemma ApplyWent(l: Limits, mode: Mode, clock: Clock, unixNow: nat, k: int)
    requires Valid(l) && l.daily.Some?
    ensures var a := Apply(l, mode, clock, unixNow);
            Went(l, [DB.Attempt(unixNow, a.verdict.Ok?)], k, a.limits,
                 if DB.Window(unixNow, l.daily.value.offset) == k then a.limits.made - l.made else 0)
  {
    ApplyIsStep(l, mode, clock, unixNow);
    var attempt := DB.Attempt(unixNow, Apply(l, mode, clock, unixNow).verdict.Ok?);
    assert [attempt][1..] == [];
    assert DB.After(l.daily.value, [attempt]) == DB.After(DB.Step(l.daily.value, attempt), []);
  }

  lemma {:induction false} CallWent<T>(l: Limits, mode: Mode, kind: CallKind, clock: Clock,
                                       world: nat -> Attempt<T>, attempt: nat, k: int)
    requires Valid(l) && l.daily.Some? && attempt <= MAX_RETRIES
    ensures Went(l, TraceOfCall(l, mode, kind, clock, world, attempt), k,
                 Retry(l, mode, kind, clock, world, attempt).limits,
                 MadeInCall(l, mode, kind, clock, world, attempt, l.daily.value.offset, k))
    decreases MAX_RETRIES - attempt
  {
    var unixNow := world(attempt).unixNow;
    var a := Apply(l, mode, clock, unixNow);
    var once := [DB.Attempt(unixNow, a.verdict.Ok?)];
    var made := if DB.Window(unixNow, l.daily.value.offset) == k then a.limits.made - l.made else 0;
    ApplyWent(l, mode, clock, unixNow, k);
    RetryOnce(l, mode, kind, clock, world, attempt, a);
    if a.verdict.Ok? && attempt < MAX_RETRIES && IsRetryable(kind, world(attempt).response) {
      RestWent(l, mode, kind, world, attempt, once, a, made, k);
    } else {
      assert once + [] == once;
    }
  }

  /** The attempts after one that is retried. */
  lemma {:induction false} RestWent<T>(l: Limits, mode: Mode, kind: CallKind, world: nat -> Attempt<T>, attempt: nat,
                                       once: seq<DB.Attempt>, a: Applied, made: int, k: int)
    requires Valid(a.limits) && attempt < MAX_RETRIES && Went(l, once, k, a.limits, made)
    ensures var slept := a.clock.Sleep(Backoff(attempt));
            Went(l, once + TraceOfCall(a.limits, mode, kind, slept, world, attempt + 1), k,
                 Retry(a.limits, mode, kind, slept, world, attempt + 1).limits,
                 made + MadeInCall(a.limits, mode, kind, slept, world, attempt + 1, l.daily.value.offset, k))
    decreases MAX_RETRIES - attempt, 0
  {
    var slept := a.clock.Sleep(Backoff(attempt));
    CallWent(a.limits, mode, kind, slept, world, attempt + 1, k);
    WentThenWent(l, once, k, a.limits, made, TraceOfCall(a.limits, mode, kind, slept, world, attempt + 1),
                 Retry(a.limits, mode, kind, slept, world, attempt + 1).limits,
                 MadeInCall(a.limits, mode, kind, slept, world, attempt + 1, l.daily.value.offset, k));
  }

  lemma {:induction false} RunWent<T>(l: Limits, mode: Mode, clock: Clock, calls: seq<Request<T>>, k: int)
    requires Valid(l) && l.daily.Some?
    ensures Went(l, TraceOfRun(l, mode, clock, calls), k, Run(l, mode, clock, calls).limits,
                 MadeInRun(l, mode, clock, calls, l.daily.value.offset, k))
    decreases |calls|
  {
    if calls != [] {
      var kind, world, rest := calls[0].kind, calls[0].world, calls[1..];
      var c := Retry(l, mode, kind, clock, world, 0);
      CallWent(l, mode, kind, clock, world, 0, k);
      RunWent(c.limits, mode, c.clock, rest, k);
      WentThenWent(l, TraceOfCall(l, mode, kind, clock, world, 0), k, c.limits,
                   MadeInCall(l, mode, kind, clock, world, 0, l.daily.value.offset, k),
                   TraceOfRun(c.limits, mode, c.clock, rest), Run(c.limits, mode, c.clock, rest).limits,
                   MadeInRun(c.limits, mode, c.clock, rest, l.daily.value.offset, k));
    }
  }

  /**
   Over any sequence of calls on any number of days, retries included, whose unix readings never go back:
   in each window the requests made, and those primed in the first, are at most `max`, unless more were
   primed; then none is made in that window.
   */
  lemma DailyCapOverDays<T>(l: Limits, mode: Mode, clock: Clock, calls: seq<Request<T>>,
                            max: nat, offset: nat, start: nat, primed: nat, k: int)
    requires Valid(l) && l.daily == Some(DB.New(max, offset, start, primed)) && offset % DB.DAY <= start
    requires DB.Ordered(start, TraceOfRun(l, mode, clock, calls))
    ensures var first := k == DB.Window(start, offset % DB.DAY);
            (if first then primed else 0) + MadeInRun(l, mode, clock, calls, offset % DB.DAY, k)
            <= if first && primed > max then primed else max
  {
    RunWent(l, mode, clock, calls, k);
    DB.WindowStartIsBoundary(start, offset % DB.DAY);
    DB.DailyCap(max, offset, start, primed, TraceOfRun(l, mode, clock, calls), k);
  }

  // ----- what was charged, limiter by limiter

  /** Tokens that left the bucket, and requests recorded in the daily budget, whatever refilled or rolled. */
  datatype Tally = Tally(tokens: real, records: int)

  function Sum(x: Tally, y: Tally): Tally { Tally(x.tokens + y.tokens, x.records + y.records) }

  function TallyOfApply(l: Limits, mode: Mode, clock: Clock, unixNow: nat): Tally
    requires Valid(l) && l.bucket.Some? && l.daily.Some?
  {
    var after := Apply(l, mode, clock, unixNow).limits;
    Tally(TB.Refilled(l.bucket.value, after.bucket.value.lastRefill).tokens - after.bucket.value.tokens,
          after.daily.value.spent - DB.Rolled(l.daily.value, unixNow).spent)
  }

  function TallyOfCall<T>(l: Limits, mode: Mode, kind: CallKind, clock: Clock, world: nat -> Attempt<T>, attempt: nat)
    : Tally
    requires Valid(l) && l.bucket.Some? && l.daily.Some? && attempt <= MAX_RETRIES
    decreases MAX_RETRIES - attempt
  {
    var a := Apply(l, mode, clock, world(attempt).unixNow);
    var once := TallyOfApply(l, mode, clock, world(attempt).unixNow);
    if a.verdict.Ok? && attempt < MAX_RETRIES && IsRetryable(kind, world(attempt).response)
    then Sum(once, TallyOfCall(a.limits, mode, kind, a.clock.Sleep(Backoff(attempt)), world, attempt + 1))
    else once
  }

  function TallyOfRun<T>(l: Limits, mode: Mode, clock: Clock, calls: seq<Request<T>>): Tally
    requires Ready(l, clock) && l.bucket.Some? && l.daily.Some?
    decreases |calls|
  {
    if calls == [] then Tally(0.0, 0) else
      var c := Retry(l, mode, calls[0].kind, clock, calls[0].world, 0);
      RetryIsCharged(l, mode, calls[0].kind, clock, calls[0].world, 0, false);
      RetryKeepsLimiters(l, mode, calls[0].kind, clock, calls[0].world, 0);
      Sum(TallyOfCall(l, mode, calls[0].kind, clock, calls[0].world, 0),
          TallyOfRun(c.limits, mode, c.clock, calls[1..]))
  }

  lemma {:induction false} RetryKeepsLimiters<T>(l: Limits, mode: Mode, kind: CallKind, clock: Clock,
                                                 world: nat -> Attempt<T>, attempt: nat)
    requires Valid(l) && l.bucket.Some? && l.daily.Some? && attempt <= MAX_RETRIES
    ensures var c := Retry(l, mode, kind, clock, world, attempt); c.limits.bucket.Some? && c.limits.daily.Some?
    decreases MAX_RETRIES - attempt
  {
    var a := Apply(l, mode, clock, world(attempt).unixNow);
    RetryOnce(l, mode, kind, clock, world, attempt, a);
    if a.verdict.Ok? && attempt < MAX_RETRIES && IsRetryable(kind, world(attempt).response) {
      RetryKeepsLimiters(a.limits, mode, kind, a.clock.Sleep(Backoff(attempt)), world, attempt + 1);
    }
  }

  /** The rise of a counter, as a tally of what it should have cost. */
  predicate Tallies(t: Tally, before: nat, after: nat) {
    t.tokens == (after - before) as real && t.records == after - before
  }

  lemma ApplyTallies(l: Limits, mode: Mode, clock: Clock, unixNow: nat)
    requires Ready(l, clock) && l.bucket.Some? && l.daily.Some?
    ensures var after := Apply(l, mode, clock, unixNow).limits;
            && after.bucket.Some? && after.daily.Some?
            && Tallies(TallyOfApply(l, mode, clock, unixNow), l.made, after.made)
  {
    AllOrNothing(l, mode, clock, unixNow);
  }

  /** Two tallies in a row. */
  lemma TalliesAdd(x: Tally, y: Tally, before: nat, mid: nat, after: nat)
    requires Tallies(x, before, mid) && Tallies(y, mid, after)
    ensures Tallies(Sum(x, y), before, after)
  {
  }

  lemma {:induction false} CallTallies<T>(l: Limits, mode: Mode, kind: CallKind, clock: Clock,
                                          world: nat -> Attempt<T>, attempt: nat)
    requires Ready(l, clock) && l.bucket.Some? && l.daily.Some? && attempt <= MAX_RETRIES
    ensures Tallies(TallyOfCall(l, mode, kind, clock, world, attempt),
                    l.made, Retry(l, mode, kind, clock, world, attempt).limits.made)
    decreases MAX_RETRIES - attempt
  {
    ApplyTallies(l, mode, clock, world(attempt).unixNow);
    ApplyIsCharged(l, mode, clock, world(attempt).unixNow, false);
    var a := Apply(l, mode, clock, world(attempt).unixNow);
    if a.verdict.Ok? && attempt < MAX_RETRIES && IsRetryable(kind, world(attempt).response) {
      RestTallies(mode, kind, world, attempt, l.made, TallyOfApply(l, mode, clock, world(attempt).unixNow), a);
    }
  }

  /** The attempts after one that is retried. */
  lemma {:induction false} RestTallies<T>(mode: Mode, kind: CallKind, world: nat -> Attempt<T>, attempt: nat,
                                          made: nat, once: Tally, a: Applied)
    requires Ready(a.limits, a.clock) && a.limits.bucket.Some? && a.limits.daily.Some? && attempt < MAX_RETRIES
    requires Tallies(once, made, a.limits.made)
    ensures var slept := a.clock.Sleep(Backoff(attempt));
            Tallies(Sum(once, TallyOfCall(a.limits, mode, kind, slept, world, attempt + 1)),
                    made, Retry(a.limits, mode, kind, slept, world, attempt + 1).limits.made)
    decreases MAX_RETRIES - attempt, 0
  {
    var slept := a.clock.Sleep(Backoff(attempt));
    BackoffIsPositive(attempt);
    assert a.clock.lag(a.clock.tick) >= 0.0;
    CallTallies(a.limits, mode, kind, slept, world, attempt + 1);
    TalliesAdd(once, TallyOfCall(a.limits, mode, kind, slept, world, attempt + 1),
               made, a.limits.made, Retry(a.limits, mode, kind, slept, world, attempt + 1).limits.made);
  }

  /**
   Over any sequence of calls with both limiters set, across any number of days: the rise of the
   request counter is the number of tokens taken and the number of requests recorded.
   */
  lemma {:induction false} ChargesAgree<T>(l: Limits, mode: Mode, clock: Clock, calls: seq<Request<T>>)
    requires Ready(l, clock) && l.bucket.Some? && l.daily.Some?
    ensures Tallies(TallyOfRun(l, mode, clock, calls), l.made, Run(l, mode, clock, calls).limits.made)
    decreases |calls|
  {
    if calls != [] {
      var c := Retry(l, mode, calls[0].kind, clock, calls[0].world, 0);
      RetryIsCharged(l, mode, calls[0].kind, clock, calls[0].world, 0, false);
      RetryKeepsLimiters(l, mode, calls[0].kind, clock, calls[0].world, 0);
      CallTallies(l, mode, calls[0].kind, clock, calls[0].world, 0);
      ChargesAgree(c.limits, mode, c.clock, calls[1..]);
    }
  }

  // ----- the outcome of one call

  /** The client on entering attempt `j`, when every attempt before it went out and was retried. */
  function Entering<T>(l: Limits, mode: Mode, clock: Clock, world: nat -> Attempt<T>, j: nat): (r: Reached)
    requires Valid(l)
    ensures Valid(r.limits)
  {
    if j == 0 then Reached(l, clock) else
      var e := Entering(l, mode, clock, world, j - 1);
      var a := Apply(e.limits, mode, e.clock, world(j - 1).unixNow);
      Reached(a.limits, a.clock.Sleep(Backoff(j - 1)))
  }

  /** How attempt `j` fares: refused by a limiter, or let out. */
  function Verdict<T>(l: Limits, mode: Mode, clock: Clock, world: nat -> Attempt<T>, j: nat): Result<(), Refusal>
    requires Valid(l)
  {
    var e := Entering(l, mode, clock, world, j);
    Apply(e.limits, mode, e.clock, world(j).unixNow).verdict
  }

  /** Attempt `j` goes out and its response is one the call retries. */
  predicate Retried<T>(l: Limits, mode: Mode, kind: CallKind, clock: Clock, world: nat -> Attempt<T>, j: nat)
    requires Valid(l)
  {
    Verdict(l, mode, clock, world, j).Ok? && IsRetryable(kind, world(j).response)
  }

  /** Which statuses are retried: overload and gateway errors on any call, and 500 on an indexer read. */
  lemma WhenRetried<T>(l: Limits, mode: Mode, kind: CallKind, clock: Clock, world: nat -> Attempt<T>, j: nat)
    requires Valid(l)
    ensures Retried(l, mode, kind, clock, world, j)
       <==> Verdict(l, mode, clock, world, j).Ok? && RetriedStatus(kind, world(j).response)
  {
  }

  predicate RetriedStatus<T>(kind: CallKind, response: Response<T>) {
    response.HttpStatus? &&
    var status := response.status;
    || status == 408 || status == 425 || status == 429 || status == 502 || status == 503 || status == 504
    || (status == 500 && kind == IndexerRead)
  }

  /** The attempts from `from` up to `j` all are. */
  predicate AllRetried<T>(l: Limits, mode: Mode, kind: CallKind, clock: Clock, world: nat -> Attempt<T>, from: nat,
                          j: nat)
    requires Valid(l)
    decreases j - from
  {
    from >= j || (Retried(l, mode, kind, clock, world, from) && AllRetried(l, mode, kind, clock, world, from + 1, j))
  }

  /** Whether attempt `j` ends a call from attempt `from` on, and what the call then leaves. */
  ghost predicate EndsAt<T>(l: Limits, mode: Mode, kind: CallKind, clock: Clock, world: nat -> Attempt<T>,
                            from: nat, j: nat, c: Called<T>)
    requires Valid(l)
  {
    var e := Entering(l, mode, clock, world, j);
    var a := Apply(e.limits, mode, e.clock, world(j).unixNow);
    && from <= j <= MAX_RETRIES
    && AllRetried(l, mode, kind, clock, world, from, j)
    && (j < MAX_RETRIES ==> !Retried(l, mode, kind, clock, world, j))
    && c.result == (if a.verdict.Err? then Err(Refused(a.verdict.error)) else Final(kind, world(j).response))
    && c.limits == a.limits && c.clock == a.clock
    && c.limits.made == Entering(l, mode, clock, world, from).limits.made
                        + (j - from) + (if a.verdict.Ok? then 1 else 0)
  }

  /** A retried attempt counts once and leads on to the next. */
  lemma RetriedLeadsOn<T>(l: Limits, mode: Mode, kind: CallKind, clock: Clock, world: nat -> Attempt<T>, from: nat)
    requires Valid(l) && from < MAX_RETRIES && Retried(l, mode, kind, clock, world, from)
    ensures var e := Entering(l, mode, clock, world, from);
            var e' := Entering(l, mode, clock, world, from + 1);
            && e'.limits.made == e.limits.made + 1
            && Retry(e.limits, mode, kind, e.clock, world, from)
               == Retry(e'.limits, mode, kind, e'.clock, world, from + 1)
  {
  }

  lemma LastAttempt<T>(l: Limits, mode: Mode, kind: CallKind, clock: Clock, world: nat -> Attempt<T>, from: nat)
    requires Valid(l) && from <= MAX_RETRIES
    requires from == MAX_RETRIES || !Retried(l, mode, kind, clock, world, from)
    ensures var e := Entering(l, mode, clock, world, from);
            EndsAt(l, mode, kind, clock, world, from, from, Retry(e.limits, mode, kind, e.clock, world, from))
  {
  }

  lemma {:induction false} OutcomeFrom<T>(l: Limits, mode: Mode, kind: CallKind, clock: Clock,
                                          world: nat -> Attempt<T>, from: nat, e: Reached, c: Called<T>)
    returns (j: nat)
    requires Valid(l) && from <= MAX_RETRIES && e == Entering(l, mode, clock, world, from)
    requires c == Retry(e.limits, mode, kind, e.clock, world, from)
    ensures EndsAt(l, mode, kind, clock, world, from, j, c)
    decreases MAX_RETRIES - from
  {
    if from < MAX_RETRIES && Retried(l, mode, kind, clock, world, from) {
      RetriedLeadsOn(l, mode, kind, clock, world, from);
      j := OutcomeFrom(l, mode, kind, clock, world, from + 1, Entering(l, mode, clock, world, from + 1), c);
    } else {
      LastAttempt(l, mode, kind, clock, world, from);
      j := from;
    }
  }

  /** The attempts before `j` went out and were answered with a status that is retried. */
  ghost predicate RetriedUntil<T>(l: Limits, mode: Mode, kind: CallKind, clock: Clock, world: nat -> Attempt<T>, j: nat)
    requires Valid(l)
  {
    forall i: nat :: i < j ==> Verdict(l, mode, clock, world, i).Ok? && RetriedStatus(kind, world(i).response)
  }

  lemma {:induction false} AllRetriedAre<T>(l: Limits, mode: Mode, kind: CallKind, clock: Clock,
                                            world: nat -> Attempt<T>, from: nat, j: nat)
    requires Valid(l) && AllRetried(l, mode, kind, clock, world, from, j)
    ensures forall i: nat :: from <= i < j ==>
              Verdict(l, mode, clock, world, i).Ok? && RetriedStatus(kind, world(i).response)
    decreases j - from
  {
    if from < j {
      WhenRetried(l, mode, kind, clock, world, from);
      AllRetriedAre(l, mode, kind, clock, world, from + 1, j);
    }
  }

  /**
   A call makes at most four attempts. It ends with the first attempt that is refused, or whose response
   is not one this kind of call retries, or with the fourth. It has counted every attempt that went out,
   and leaves the limiters and the clock as that attempt left them.
   */
  lemma CallOutcome<T>(l: Limits, mode: Mode, kind: CallKind, clock: Clock, world: nat -> Attempt<T>)
    returns (j: nat)
    requires Valid(l)
    ensures j <= 3
    ensures RetriedUntil(l, mode, kind, clock, world, j)
    ensures j < 3 ==> Verdict(l, mode, clock, world, j).Err? || !RetriedStatus(kind, world(j).response)
    ensures var c := Retry(l, mode, kind, clock, world, 0);
            var e := Entering(l, mode, clock, world, j);
            var a := Apply(e.limits, mode, e.clock, world(j).unixNow);
            && ResultIs(kind, a.verdict, world(j).response, c.result)
            && c.limits == a.limits && c.clock == a.clock
            && c.limits.made - l.made == if a.verdict.Ok? then j + 1 else j
  {
    j := OutcomeFrom(l, mode, kind, clock, world, 0, Reached(l, clock), Retry(l, mode, kind, clock, world, 0));
    AllRetriedAre(l, mode, kind, clock, world, 0, j);
    WhenRetried(l, mode, kind, clock, world, j);
    FinalIs(kind, world(j).response);
  }

  /** What the attempt that ends a call makes of it. */
  ghost predicate ResultIs<T>(kind: CallKind, verdict: Result<(), Refusal>, response: Response<T>,
                              result: Result<T, CallError>)
  {
    match verdict
    case Err(refusal) => result == Err(Refused(refusal))
    case Ok(_) =>
      match response
      case Replied(value) => result == Ok(value)
      case LocalFailure => result == Err(RuntimeError)
      case NoHttpReply => result == Err(Other)
      case HttpStatus(status) => result == Err(if RetriedStatus(kind, response) then Transient else Http(status))
  }

  lemma FinalIs<T>(kind: CallKind, response: Response<T>)
    ensures ResultIs(kind, Ok(()), response, Final(kind, response))
  {
  }

  /** Between attempts a call sleeps for one second, then two, then four. */
  lemma SleepsBetweenAttempts<T>(l: Limits, mode: Mode, clock: Clock, world: nat -> Attempt<T>, j: nat)
    requires Valid(l) && j < 3
    ensures var e := Entering(l, mode, clock, world, j);
            var a := Apply(e.limits, mode, e.clock, world(j).unixNow);
            Entering(l, mode, clock, world, j + 1)
            == Reached(a.limits, a.clock.Sleep(if j == 0 then 1.0 else if j == 1 then 2.0 else 4.0))
  {
    assert Backoff(1) == 2.0 * Backoff(0);
    assert Backoff(2) == 2.0 * Backoff(1);
  }
}
