/**
 The wall-clock daily budget: at most `max` requests in each day-long window, checked before a
 request and recorded when it goes out. Times are whole unix seconds.
 */
module DailyBudget {
  import opened Wrappers

  const DAY := 86_400
  const U32_MAX := 0xFFFF_FFFF

  datatype Budget = Budget(max: nat, offset: nat, windowStart: nat, spent: nat)

  /** The start of the window that contains `now`, clamped at the epoch. */
  function WindowStartFor(now: nat, offset: nat): nat {
    var k := (now - offset) / DAY;  // floors, also for a reading before the first boundary
    if k * DAY + offset < 0 then 0 else k * DAY + offset
  }

  function New(max: nat, offset: nat, now: nat, primed: nat): Budget {
    Budget(max, offset % DAY, WindowStartFor(now, offset % DAY), primed)
  }

  function Rolled(b: Budget, now: nat): Budget {
    if now < b.windowStart || now >= b.windowStart + DAY
    then b.(windowStart := WindowStartFor(now, b.offset), spent := 0)
    else b
  }

  datatype Checked = Checked(budget: Budget, verdict: Result<(), nat>)

  /** Peek: may a request proceed, and if not, how long until the next day-start. */
  function CheckAt(b: Budget, now: nat): Checked {
    var r := Rolled(b, now);
    Checked(r, if r.spent >= r.max then Err(if r.windowStart + DAY < now then 0 else r.windowStart + DAY - now)
               else Ok(()))
  }

  /** Commit one request; the counter saturates at its 32-bit width. */
  function RecordAt(b: Budget, now: nat): Budget {
    var r := Rolled(b, now);
    r.(spent := if r.spent >= U32_MAX then U32_MAX else r.spent + 1)
  }

  class DailyLimiter {
    const max: nat
    const dayStartOffsetSecs: nat
    var windowStartUnix: nat
    var spent: nat

    function Value(): Budget
      reads this
    {
      Budget(max, dayStartOffsetSecs, windowStartUnix, spent)
    }

    constructor (max: nat, offset: nat, now: nat, primed: nat)
      ensures Value() == New(max, offset, now, primed)
    {
      this.max := max;
      dayStartOffsetSecs := offset % DAY;
      windowStartUnix := WindowStartFor(now, offset % DAY);
      spent := primed;
    }

    method Roll(now: nat)
      modifies this
      ensures Value() == Rolled(old(Value()), now)
    {
      var end := windowStartUnix + DAY;
      if now < windowStartUnix || now >= end {
        windowStartUnix := WindowStartFor(now, dayStartOffsetSecs);
        spent := 0;
      }
    }

    method Check(now: nat) returns (verdict: Result<(), nat>)
      modifies this
      ensures Checked(Value(), verdict) == CheckAt(old(Value()), now)
    {
      Roll(now);
      if spent >= max {
        var end := windowStartUnix + DAY;
        verdict := Err(if end < now then 0 else end - now);
      } else {
        verdict := Ok(());
      }
    }

    method Record(now: nat)
      modifies this
      ensures Value() == RecordAt(old(Value()), now)
    {
      Roll(now);
      spent := if spent >= U32_MAX then U32_MAX else spent + 1;
    }
  }

  // ----- windows

  /** The number of the window [k*DAY + offset, (k+1)*DAY + offset) that holds `now`. */
  function Window(now: nat, offset: nat): int { (now - offset) / DAY }

  /**
   The computed start is the boundary at or before `now` if and only if the reading is at or past the
   day-start offset; before it the window is clamped to the epoch.
   */
  lemma WindowStartIsBoundary(now: nat, offset: nat)
    requires offset < DAY
    ensures WindowStartFor(now, offset) <= now < WindowStartFor(now, offset) + DAY
    ensures WindowStartFor(now, offset) == Window(now, offset) * DAY + offset <==> now >= offset
    ensures now < offset ==> WindowStartFor(now, offset) == 0
  {
  }

  /** For example: an hour before the first boundary the window starts at the epoch, not a day before the boundary. */
  lemma ClampedWindowStart()
    ensures WindowStartFor(3600, 7200) == 0 && Window(3600, 7200) * DAY + 7200 == -79_200
  {
  }

  predicate Aligned(b: Budget) {
    && b.offset < DAY && b.offset <= b.windowStart && b.max <= U32_MAX
    && b.windowStart == Window(b.windowStart, b.offset) * DAY + b.offset
  }

  lemma RolledIsAligned(b: Budget, now: nat)
    requires Aligned(b) && b.windowStart <= now
    ensures var r := Rolled(b, now);
            && Aligned(r) && r.windowStart <= now < r.windowStart + DAY
            && r.max == b.max && r.offset == b.offset
            && Window(r.windowStart, r.offset) == Window(now, b.offset) >= Window(b.windowStart, b.offset)
            && r.spent == if Window(now, b.offset) == Window(b.windowStart, b.offset) then b.spent else 0
  {
  }

  /** What a new budget starts with; an offset of a day or more is reduced to one within a day. */
  lemma NewStartsWith(max: nat, offset: nat, now: nat, primed: nat)
    ensures var b := New(max, offset, now, primed);
            && b.max == max && b.spent == primed && b.offset == offset % 86_400
            && b.windowStart <= now < b.windowStart + 86_400
            && (now >= offset % 86_400 ==> (b.windowStart - offset) % 86_400 == 0)
  {
    WindowStartIsBoundary(now, offset % DAY);
    assert offset == offset / DAY * DAY + offset % DAY;
  }

  /**
   For any budget and any reading, also one before the window: within the window a roll changes nothing,
   and otherwise it starts the window of the reading with nothing spent.
   */
  lemma RollsEitherWay(b: Budget, now: nat)
    requires b.offset < DAY
    ensures var r := Rolled(b, now);
            if b.windowStart <= now < b.windowStart + 86_400 then r == b
            else && r.max == b.max && r.offset == b.offset && r.spent == 0
                 && r.windowStart <= now < r.windowStart + 86_400
                 && r.windowStart == if now >= b.offset then Window(now, b.offset) * 86_400 + b.offset else 0
  {
    WindowStartIsBoundary(now, b.offset);
  }

  /** A check only rolls; it refuses if and only if `max` is spent, for as long as the window lasts. */
  lemma CheckOnlyPeeks(b: Budget, now: nat)
    requires b.offset < DAY
    ensures var c := CheckAt(b, now);
            && c.budget == Rolled(b, now)
            && c.verdict == if c.budget.spent < b.max then Ok(()) else Err(c.budget.windowStart + 86_400 - now)
  {
    RollsEitherWay(b, now);
  }

  // ----- sequential runs

  /** One attempt: a reading of the clock, and whether the other limiter lets the request out. */
  datatype Attempt = Attempt(now: nat, goes: bool)

  predicate Ordered(from: nat, attempts: seq<Attempt>)
    decreases |attempts|
  {
    attempts == [] || (from <= attempts[0].now && Ordered(attempts[0].now, attempts[1..]))
  }

  predicate Sent(b: Budget, a: Attempt) {
    CheckAt(b, a.now).verdict.Ok? && a.goes
  }

  function Step(b: Budget, a: Attempt): Budget {
    var c := CheckAt(b, a.now).budget;
    if Sent(b, a) then RecordAt(c, a.now) else c
  }

  function After(b: Budget, attempts: seq<Attempt>): Budget
    decreases |attempts|
  {
    if attempts == [] then b else After(Step(b, attempts[0]), attempts[1..])
  }

  /** How many requests went out in window `k`. */
  function SentIn(b: Budget, attempts: seq<Attempt>, k: int): nat
    decreases |attempts|
  {
    if attempts == [] then 0 else
      (if Sent(b, attempts[0]) && Window(attempts[0].now, b.offset) == k then 1 else 0)
      + SentIn(Step(b, attempts[0]), attempts[1..], k)
  }

  lemma StepIsAligned(b: Budget, a: Attempt)
    requires Aligned(b) && b.windowStart <= a.now
    ensures var c := Step(b, a);
            && Aligned(c) && c.windowStart <= a.now < c.windowStart + DAY
            && c.max == b.max && c.offset == b.offset
            && Window(c.windowStart, c.offset) == Window(a.now, b.offset) >= Window(b.windowStart, b.offset)
            && c.spent == (if Window(a.now, b.offset) == Window(b.windowStart, b.offset) then b.spent else 0)
                          + (if Sent(b, a) then 1 else 0)
            && (Sent(b, a) ==> c.spent <= c.max)
  {
    RolledIsAligned(b, a.now);
  }

  /** One run after another. */
  lemma {:induction false} RunThenRun(b: Budget, x: seq<Attempt>, y: seq<Attempt>, k: int)
    ensures After(b, x + y) == After(After(b, x), y)
    ensures SentIn(b, x + y, k) == SentIn(b, x, k) + SentIn(After(b, x), y, k)
    decreases |x|
  {
    if x == [] {
      assert x + y == y;
    } else {
      assert (x + y)[0] == x[0] && (x + y)[1..] == x[1..] + y;
      RunThenRun(Step(b, x[0]), x[1..], y, k);
    }
  }

  /** What a window can still see: nothing in the past, the rest of today, a full day later on. */
  function Allowance(b: Budget, k: int): nat {
    var today := Window(b.windowStart, b.offset);
    if k < today then 0
    else if k == today then (if b.spent < b.max then b.max - b.spent else 0)
    else b.max
  }

  lemma {:induction false} SentWithinAllowance(b: Budget, attempts: seq<Attempt>, k: int)
    requires Aligned(b) && Ordered(b.windowStart, attempts)
    ensures SentIn(b, attempts, k) <= Allowance(b, k)
    decreases |attempts|
  {
    if attempts != [] {
      StepIsAligned(b, attempts[0]);
      OrderedFromEarlier(Step(b, attempts[0]).windowStart, attempts[0].now, attempts[1..]);
      SentWithinAllowance(Step(b, attempts[0]), attempts[1..], k);
    }
  }

  lemma OrderedFromEarlier(earlier: nat, from: nat, attempts: seq<Attempt>)
    requires earlier <= from && Ordered(from, attempts)
    ensures Ordered(earlier, attempts)
  {
  }

  /** The counter is exactly what went out in its window, on top of what it was primed with. */
  lemma {:induction false} SpentIsCount(b: Budget, attempts: seq<Attempt>)
    requires Aligned(b) && Ordered(b.windowStart, attempts)
    ensures var c := After(b, attempts);
            var today := Window(c.windowStart, c.offset);
            && Aligned(c) && c.max == b.max && c.offset == b.offset
            && today >= Window(b.windowStart, b.offset)
            && c.spent == (if today == Window(b.windowStart, b.offset) then b.spent else 0) + SentIn(b, attempts, today)
            && (forall k :: k > today ==> SentIn(b, attempts, k) == 0)
            && (forall a :: Ordered(b.windowStart, attempts + [a]) ==> c.windowStart <= a.now)
    decreases |attempts|
  {
    if attempts == [] {
      forall a | Ordered(b.windowStart, attempts + [a]) ensures b.windowStart <= a.now {
        assert (attempts + [a])[0] == a;
      }
    } else {
      var c := Step(b, attempts[0]);
      StepIsAligned(b, attempts[0]);
      OrderedFromEarlier(c.windowStart, attempts[0].now, attempts[1..]);
      SpentIsCount(c, attempts[1..]);
      var today := Window(After(b, attempts).windowStart, b.offset);
      if today > Window(c.windowStart, b.offset) {
        assert SentIn(b, attempts, today) == SentIn(c, attempts[1..], today);
      }
      forall a | Ordered(b.windowStart, attempts + [a]) ensures After(b, attempts).windowStart <= a.now {
        assert (attempts + [a])[1..] == attempts[1..] + [a];
        OrderedFromEarlier(c.windowStart, attempts[0].now, attempts[1..] + [a]);
      }
    }
  }

  /** What window `k` has seen, counting what the budget was primed with in the first one. */
  function Seen(first: Budget, attempts: seq<Attempt>, k: int): nat {
    (if k == Window(first.windowStart, first.offset) then first.spent else 0) + SentIn(first, attempts, k)
  }

  /**
   With a clock that never goes back and starts at or past the offset, no window sees more than `max`
   requests, primed ones included, unless it was primed with more, and then none goes out in it.
   */
  lemma DailyCap(max: nat, offset: nat, start: nat, primed: nat, attempts: seq<Attempt>, k: int)
    requires max <= U32_MAX && offset % DAY <= start && Ordered(start, attempts)
    ensures var b := New(max, offset, start, primed);
            Seen(b, attempts, k) <= if k == Window(start, b.offset) && primed > max then primed else max
  {
    var b := New(max, offset, start, primed);
    WindowStartIsBoundary(start, b.offset);
    OrderedFromEarlier(b.windowStart, start, attempts);
    SentWithinAllowance(b, attempts, k);
  }

  /** No window sees more than `max` requests, primed ones included, if and only if no more were primed. */
  lemma CapHoldsUnlessPrimedPast(max: nat, offset: nat, start: nat, primed: nat, attempts: seq<Attempt>)
    requires max <= U32_MAX && offset % DAY <= start && Ordered(start, attempts)
    ensures (forall k :: Seen(New(max, offset, start, primed), attempts, k) <= max) <==> primed <= max
  {
    var b := New(max, offset, start, primed);
    forall k ensures Seen(b, attempts, k) <= if k == Window(start, b.offset) && primed > max then primed else max {
      DailyCap(max, offset, start, primed, attempts, k);
    }
    if primed > max {
      WindowStartIsBoundary(start, b.offset);
      assert Seen(b, attempts, Window(b.windowStart, b.offset)) >= primed;
    }
  }

  /** For example: primed with 5 of 3, the first window has seen 5, although the request tried in it is refused. */
  lemma PrimedPastMax()
    ensures var b := New(3, 0, 100, 5);
            Seen(b, [Attempt(100, true)], 0) == 5 && SentIn(b, [Attempt(100, true)], 0) == 0
  {
  }

  /**
   A check refuses if and only if its window has seen `max` requests, and the wait it returns ends on
   the next boundary, where a check succeeds if and only if `max` is not zero.
   */
  lemma RefusalIsTight(max: nat, offset: nat, start: nat, primed: nat, attempts: seq<Attempt>, now: nat)
    requires max <= U32_MAX && offset % DAY <= start && Ordered(start, attempts + [Attempt(now, true)])
    ensures var b := New(max, offset, start, primed);
            var c := CheckAt(After(b, attempts), now);
            && (c.verdict.Err? <==> Seen(b, attempts, Window(now, b.offset)) >= max)
            && (c.verdict.Err? ==>
                  && now + c.verdict.error == (Window(now, b.offset) + 1) * DAY + b.offset
                  && (CheckAt(c.budget, now + c.verdict.error).verdict.Ok? <==> max > 0))
  {
    var b := New(max, offset, start, primed);
    WindowStartIsBoundary(start, b.offset);
    var all := attempts + [Attempt(now, true)];
    OrderedFromEarlier(b.windowStart, start, all);
    OrderedPrefix(b.windowStart, attempts, Attempt(now, true));
    SpentIsCount(b, attempts);
    var d := After(b, attempts);
    assert d.windowStart <= Attempt(now, true).now;
    RolledIsAligned(d, now);
    var c := CheckAt(d, now);
    if c.verdict.Err? {
      RolledIsAligned(c.budget, now + c.verdict.error);
    }
  }

  lemma {:induction false} OrderedPrefix(from: nat, attempts: seq<Attempt>, a: Attempt)
    requires Ordered(from, attempts + [a])
    ensures Ordered(from, attempts)
    decreases |attempts|
  {
    if attempts != [] {
      assert (attempts + [a])[1..] == attempts[1..] + [a];
      OrderedPrefix(attempts[0].now, attempts[1..], a);
    }
  }
}
