/**
 The token bucket that clips bursts of outbound requests. Times are in seconds; tokens, times and
 waits are exact reals.
 */
module TokenBucket {

  datatype Bucket = Bucket(capacity: real, tokens: real, refillPerSec: real, lastRefill: real)

  function Min(x: real, y: real): real { if x < y then x else y }

  /** A zero in the configuration is clamped to one. */
  function New(maxRequests: nat, perMillis: nat, now: real): (b: Bucket)
    ensures Valid(b) && b.lastRefill == now
  {
    var capacity := (if maxRequests == 0 then 1 else maxRequests) as real;
    var perSecs := (if perMillis == 0 then 1 else perMillis) as real / 1000.0;
    Bucket(capacity, capacity, capacity / perSecs, now)
  }

  predicate Valid(b: Bucket) {
    1.0 <= b.capacity && 0.0 < b.refillPerSec && 0.0 <= b.tokens <= b.capacity
  }

  /** Tokens for the time since the last poll, never more than the capacity. */
  function Refilled(b: Bucket, now: real): Bucket {
    var elapsed := if now < b.lastRefill then 0.0 else now - b.lastRefill;
    b.(tokens := Min(b.tokens + elapsed * b.refillPerSec, b.capacity), lastRefill := now)
  }

  datatype Polled = Polled(bucket: Bucket, wait: real)

  /** Take a token and wait for nothing, or take none and learn how long until there is one. */
  function PollAt(b: Bucket, now: real): Polled
    requires b.refillPerSec > 0.0
  {
    var r := Refilled(b, now);
    if r.tokens >= 1.0 then Polled(r.(tokens := r.tokens - 1.0), 0.0)
    else Polled(r, (1.0 - r.tokens) / r.refillPerSec)
  }

  class RateLimiter {
    var capacity: real
    var tokens: real
    var refillPerSec: real
    var lastRefill: real

    function Value(): Bucket
      reads this
    {
      Bucket(capacity, tokens, refillPerSec, lastRefill)
    }

    constructor (maxRequests: nat, perMillis: nat, now: real)
      ensures Value() == New(maxRequests, perMillis, now)
    {
      var cap := (if maxRequests == 0 then 1 else maxRequests) as real;
      var perSecs := (if perMillis == 0 then 1 else perMillis) as real / 1000.0;
      capacity, tokens, refillPerSec, lastRefill := cap, cap, cap / perSecs, now;
    }

    method Poll(now: real) returns (wait: real)
      requires refillPerSec > 0.0
      modifies this
      ensures Polled(Value(), wait) == PollAt(old(Value()), now)
    {
      var elapsed := if now < lastRefill then 0.0 else now - lastRefill;
      tokens := Min(tokens + elapsed * refillPerSec, capacity);
      lastRefill := now;
      if tokens >= 1.0 {
        tokens := tokens - 1.0;
        wait := 0.0;
      } else {
        wait := (1.0 - tokens) / refillPerSec;
      }
    }
  }

  // ----- what the refill is worth

  /** The tokens a rate yields from one time to another, before any are clipped. */
  function Accrued(rate: real, from: real, to: real): real { rate * (to - from) }

  /** A time is worth the rate for each of its seconds. */
  lemma AccruedIs(rate: real, from: real, to: real)
    ensures Accrued(rate, from, to) == to * rate - from * rate
  {
  }

  lemma AccruedAdds(rate: real, from: real, mid: real, to: real)
    ensures Accrued(rate, from, mid) + Accrued(rate, mid, to) == Accrued(rate, from, to)
  {
  }

  lemma AccruedGrows(rate: real, from: real, mid: real, to: real)
    requires rate >= 0.0 && from <= mid <= to
    ensures 0.0 <= Accrued(rate, mid, to) <= Accrued(rate, from, to)
  {
    assert rate * (to - mid) >= 0.0;
    assert rate * (mid - from) >= 0.0;
    AccruedAdds(rate, from, mid, to);
  }

  /** When the wait for `missing` tokens is over, and that it takes time at all. */
  lemma WaitAccrues(rate: real, from: real, to: real, missing: real)
    requires rate > 0.0
    ensures to >= from + missing / rate <==> Accrued(rate, from, to) >= missing
    ensures missing > 0.0 <==> missing / rate > 0.0
  {
    var w := missing / rate;
    assert Accrued(rate, from, from + w) == missing by { assert rate * w == missing; }
    if to >= from + w {
      assert rate * (to - (from + w)) >= 0.0;
      AccruedAdds(rate, from, from + w, to);
    } else {
      assert rate * (from + w - to) > 0.0;
      AccruedAdds(rate, from, to, from + w);
    }
    if w > 0.0 { assert rate * w > 0.0; } else { assert rate * (0.0 - w) >= 0.0; }
  }

  // ----- a new bucket, and a clock that goes back

  /** A new bucket is full, and fills up once in the configured time; a zero in either number counts as one. */
  lemma NewIsFull(maxRequests: nat, perMillis: nat, now: real)
    ensures var b := New(maxRequests, perMillis, now);
            && b.lastRefill == now
            && b.tokens == b.capacity == (if maxRequests > 0 then maxRequests else 1) as real
            && b.refillPerSec * (if perMillis > 0 then perMillis else 1) as real == 1000.0 * b.capacity
  {
    var millis := (if perMillis > 0 then perMillis else 1) as real;
    var b := New(maxRequests, perMillis, now);
    assert b.refillPerSec == b.capacity / (millis / 1000.0);
    assert b.refillPerSec * (millis / 1000.0) == b.capacity;
  }

  /** A poll at an earlier time refills nothing, but the next refill counts from it. */
  lemma BackwardPoll(b: Bucket, now: real)
    requires Valid(b) && now < b.lastRefill
    ensures PollAt(b, now).bucket
         == b.(tokens := if b.tokens >= 1.0 then b.tokens - 1.0 else b.tokens, lastRefill := now)
  {
  }

  // ----- one poll

  /** A poll takes a whole token exactly when its wait is zero, and stays within the capacity. */
  lemma PollTakesOneOrNone(b: Bucket, now: real)
    requires Valid(b)
    ensures var p := PollAt(b, now);
            && Valid(p.bucket) && p.wait >= 0.0
            && p.bucket.lastRefill == now
            && p.bucket.capacity == b.capacity && p.bucket.refillPerSec == b.refillPerSec
            && p.bucket.tokens == Refilled(b, now).tokens - (if p.wait == 0.0 then 1.0 else 0.0)
            && (p.wait == 0.0 <==> Refilled(b, now).tokens >= 1.0)
            && (p.wait > 0.0 ==> p.wait == (1.0 - p.bucket.tokens) / b.refillPerSec)
            && (now >= b.lastRefill ==>
                  Refilled(b, now).tokens == Min(b.tokens + Accrued(b.refillPerSec, b.lastRefill, now), b.capacity))
  {
    AccruedGrows(b.refillPerSec, b.lastRefill, b.lastRefill, if now < b.lastRefill then b.lastRefill else now);
    WaitAccrues(b.refillPerSec, now, now, 1.0 - Refilled(b, now).tokens);
  }

  // ----- runs of polls

  /** Polls at times that never go back, from `from` on. */
  predicate Ordered(from: real, times: seq<real>)
    decreases |times|
  {
    times == [] || (from <= times[0] && Ordered(times[0], times[1..]))
  }

  function After(b: Bucket, times: seq<real>): (c: Bucket)
    requires b.refillPerSec > 0.0
    ensures c.capacity == b.capacity && c.refillPerSec == b.refillPerSec
    decreases |times|
  {
    if times == [] then b else After(PollAt(b, times[0]).bucket, times[1..])
  }

  /** How many of the polls at times in [s, t] are granted. */
  function Grants(b: Bucket, times: seq<real>, s: real, t: real): nat
    requires b.refillPerSec > 0.0
    decreases |times|
  {
    if times == [] then 0 else
      var p := PollAt(b, times[0]);
      (if s <= times[0] <= t && p.wait == 0.0 then 1 else 0) + Grants(p.bucket, times[1..], s, t)
  }

  lemma {:induction false} TokensStayInRange(b: Bucket, times: seq<real>)
    requires Valid(b)
    ensures Valid(After(b, times))
    decreases |times|
  {
    if times != [] {
      PollTakesOneOrNone(b, times[0]);
      TokensStayInRange(PollAt(b, times[0]).bucket, times[1..]);
    }
  }

  lemma {:induction false} NoGrantsLater(b: Bucket, times: seq<real>, s: real, t: real)
    requires Valid(b) && Ordered(b.lastRefill, times) && b.lastRefill > t
    ensures Grants(b, times, s, t) == 0
    decreases |times|
  {
    if times != [] {
      PollTakesOneOrNone(b, times[0]);
      NoGrantsLater(PollAt(b, times[0]).bucket, times[1..], s, t);
    }
  }

  /** From a poll on, grants are paid for by the tokens left and the refill since. */
  lemma {:induction false} GrantsArePaidFor(b: Bucket, times: seq<real>, s: real, t: real)
    requires Valid(b) && Ordered(b.lastRefill, times) && s <= b.lastRefill <= t
    ensures Grants(b, times, s, t) as real <= b.tokens + Accrued(b.refillPerSec, b.lastRefill, t)
    decreases |times|
  {
    AccruedGrows(b.refillPerSec, b.lastRefill, b.lastRefill, t);
    if times != [] {
      var p := PollAt(b, times[0]);
      PollTakesOneOrNone(b, times[0]);
      if times[0] <= t {
        AccruedAdds(b.refillPerSec, b.lastRefill, times[0], t);
        GrantsArePaidFor(p.bucket, times[1..], s, t);
      } else {
        NoGrantsLater(p.bucket, times[1..], s, t);
      }
    }
  }

  /** Between any two times, no more grants than a full bucket and the refill in between. */
  lemma {:induction false} SlidingWindow(b: Bucket, times: seq<real>, s: real, t: real)
    requires Valid(b) && Ordered(b.lastRefill, times) && s <= t
    ensures Grants(b, times, s, t) as real <= b.capacity + Accrued(b.refillPerSec, s, t)
    decreases |times|
  {
    AccruedGrows(b.refillPerSec, s, s, t);
    if times != [] {
      var p := PollAt(b, times[0]);
      PollTakesOneOrNone(b, times[0]);
      if times[0] < s {
        SlidingWindow(p.bucket, times[1..], s, t);
      } else if times[0] <= t {
        GrantsArePaidFor(p.bucket, times[1..], s, t);
        AccruedGrows(b.refillPerSec, s, times[0], t);
      } else {
        NoGrantsLater(p.bucket, times[1..], s, t);
      }
    }
  }

  predicate AllRejected(b: Bucket, times: seq<real>)
    requires b.refillPerSec > 0.0
    decreases |times|
  {
    times == [] ||
    var p := PollAt(b, times[0]);
    p.wait > 0.0 && AllRejected(p.bucket, times[1..])
  }

  /** Rejected polls leave the refill as if there had been none. */
  lemma {:induction false} RejectionsCostNothing(b: Bucket, times: seq<real>)
    requires Valid(b) && b.tokens < 1.0 && Ordered(b.lastRefill, times) && AllRejected(b, times)
    ensures var c := After(b, times);
            && Valid(c) && c.tokens < 1.0 && c.lastRefill >= b.lastRefill
            && c.tokens == b.tokens + Accrued(b.refillPerSec, b.lastRefill, c.lastRefill)
    decreases |times|
  {
    if times == [] {
      AccruedAdds(b.refillPerSec, b.lastRefill, b.lastRefill, b.lastRefill);
    } else {
      var p := PollAt(b, times[0]);
      PollTakesOneOrNone(b, times[0]);
      RejectionsCostNothing(p.bucket, times[1..]);
      AccruedAdds(b.refillPerSec, b.lastRefill, times[0], After(b, times).lastRefill);
    }
  }

  /**
   A positive wait `w` at time `u` is exact: after any rejected polls, a poll is granted if and only
   if it comes at or after `u + w`.
   */
  lemma RetryAfterIsExact(b: Bucket, u: real, rejected: seq<real>, v: real)
    requires Valid(b) && PollAt(b, u).wait > 0.0
    requires Ordered(u, rejected) && AllRejected(PollAt(b, u).bucket, rejected)
    requires After(PollAt(b, u).bucket, rejected).lastRefill <= v
    ensures var c := After(PollAt(b, u).bucket, rejected);
            c.refillPerSec > 0.0 && (PollAt(c, v).wait == 0.0 <==> v >= u + PollAt(b, u).wait)
  {
    PollTakesOneOrNone(b, u);
    var start := PollAt(b, u).bucket;
    RejectionsCostNothing(start, rejected);
    var c := After(start, rejected);
    PollTakesOneOrNone(c, v);
    AccruedAdds(start.refillPerSec, u, c.lastRefill, v);
    WaitAccrues(start.refillPerSec, u, v, 1.0 - start.tokens);
  }
}
