/**
 Threads that share one daily budget. The lock is released between the check and the record, so
 several requests can be admitted against the same count; this bounds how far that can go.
 */
module ConcurrentBudget {
  import opened Wrappers
  import opened DailyBudget

  /** A thread is idle, or was admitted at a reading of the clock and has yet to record. */
  datatype Thread = Idle | Admitted(now: nat)

  datatype State = State(budget: Budget, threads: seq<Thread>, recorded: nat)

  /** A thread checks the budget, is turned away by the token bucket, or records its request. */
  datatype Step = Checks(thread: nat, now: nat) | TurnedAway(thread: nat) | Records(thread: nat)

  predicate Enabled(s: State, step: Step) {
    && step.thread < |s.threads|
    && (step.Checks? <==> s.threads[step.thread].Idle?)
  }

  function Next(s: State, step: Step): State
    requires Enabled(s, step)
  {
    match step
    case Checks(i, now) =>
      var c := CheckAt(s.budget, now);
      State(c.budget, if c.verdict.Ok? then s.threads[i := Admitted(now)] else s.threads, s.recorded)
    case TurnedAway(i) => s.(threads := s.threads[i := Idle])
    case Records(i) =>
      State(RecordAt(s.budget, s.threads[i].now), s.threads[i := Idle], s.recorded + 1)
  }

  predicate Possible(s: State, steps: seq<Step>)
    decreases |steps|
  {
    steps == [] || (Enabled(s, steps[0]) && Possible(Next(s, steps[0]), steps[1..]))
  }

  function Run(s: State, steps: seq<Step>): State
    requires Possible(s, steps)
    decreases |steps|
  {
    if steps == [] then s else Run(Next(s, steps[0]), steps[1..])
  }

  predicate Today(b: Budget, now: nat) {
    b.windowStart <= now < b.windowStart + DAY
  }

  /** Every reading of the clock falls in the window the run starts in. */
  predicate WithinOneDay(b: Budget, steps: seq<Step>) {
    forall i :: 0 <= i < |steps| && steps[i].Checks? ==> Today(b, steps[i].now)
  }

  function InFlight(threads: seq<Thread>): nat {
    if threads == [] then 0 else
      InFlight(threads[..|threads| - 1]) + if threads[|threads| - 1].Admitted? then 1 else 0
  }

  lemma {:induction false} InFlightAfter(threads: seq<Thread>, i: nat, thread: Thread)
    requires i < |threads|
    ensures InFlight(threads) <= |threads|
    ensures InFlight(threads[i := thread])
         == InFlight(threads) - (if threads[i].Admitted? then 1 else 0) + (if thread.Admitted? then 1 else 0)
  {
    var last := |threads| - 1;
    assert threads[i := thread][..last] == if i < last then threads[..last][i := thread] else threads[..last];
    if i < last {
      InFlightAfter(threads[..last], i, thread);
    } else if last > 0 {
      InFlightAfter(threads[..last], 0, threads[0]);
      assert threads[..last][0 := threads[0]] == threads[..last];
    }
  }

  /** What is recorded and what is in flight never pass `max - 1 + N`. */
  ghost predicate Inv(first: Budget, s: State) {
    && s.budget.windowStart == first.windowStart && s.budget.max == first.max <= U32_MAX
    && s.budget.spent == (if s.recorded < U32_MAX then s.recorded else U32_MAX)
    && (forall i :: 0 <= i < |s.threads| && s.threads[i].Admitted? ==> Today(first, s.threads[i].now))
    && (if first.max == 0 then s.recorded == InFlight(s.threads) == 0
        else s.recorded + InFlight(s.threads) <= first.max - 1 + |s.threads|)
  }

  lemma StepKeepsInv(first: Budget, s: State, step: Step)
    requires Inv(first, s) && Enabled(s, step)
    requires step.Checks? ==> Today(first, step.now)
    ensures Inv(first, Next(s, step)) && |Next(s, step).threads| == |s.threads|
  {
    var i := step.thread;
    InFlightAfter(s.threads, i, Next(s, step).threads[i]);
    InFlightAfter(Next(s, step).threads, i, s.threads[i]);
    if step.Checks? && CheckAt(s.budget, step.now).verdict.Err? {
      assert s.threads[i := s.threads[i]] == s.threads;
    }
  }

  lemma {:induction false} RunKeepsInv(first: Budget, s: State, steps: seq<Step>)
    requires Inv(first, s) && Possible(s, steps) && WithinOneDay(first, steps)
    ensures Inv(first, Run(s, steps)) && |Run(s, steps).threads| == |s.threads|
    decreases |steps|
  {
    if steps != [] {
      assert steps[0].Checks? ==> Today(first, steps[0].now);
      StepKeepsInv(first, s, steps[0]);
      assert forall i :: 0 <= i < |steps| - 1 ==> steps[1..][i] == steps[i + 1];
      RunKeepsInv(first, Next(s, steps[0]), steps[1..]);
    }
  }

  function Idles(n: nat): seq<Thread> {
    seq(n, i => Idle)
  }

  lemma {:induction false} IdlesInFlight(n: nat)
    ensures InFlight(Idles(n)) == 0
  {
    if n > 0 {
      assert Idles(n)[..n - 1] == Idles(n - 1);
      IdlesInFlight(n - 1);
    }
  }

  /**
   In any interleaving of `n` threads within one window, starting with nothing spent, at most
   `max + n - 1` requests are recorded, and none when `max` is zero.
   */
  lemma SoftCap(b: Budget, n: nat, steps: seq<Step>)
    requires b.spent == 0 && b.max <= U32_MAX
    requires Possible(State(b, Idles(n), 0), steps) && WithinOneDay(b, steps)
    ensures var s := Run(State(b, Idles(n), 0), steps);
            if b.max == 0 || n == 0 then s.recorded == 0 else s.recorded <= b.max + n - 1
  {
    IdlesInFlight(n);
    if n > 0 {
      RunKeepsInv(b, State(b, Idles(n), 0), steps);
    }
  }

  // ----- the bound is reached

  lemma {:induction false} RunAppend(s: State, x: seq<Step>, y: seq<Step>)
    requires Possible(s, x) && Possible(Run(s, x), y)
    ensures Possible(s, x + y) && Run(s, x + y) == Run(Run(s, x), y)
    decreases |x|
  {
    if x == [] {
      assert x + y == y;
    } else {
      assert (x + y)[1..] == x[1..] + y;
      RunAppend(Next(s, x[0]), x[1..], y);
    }
  }

  /** The first `i` of `n` threads admitted, or all but the first `i`. */
  function FirstAdmitted(n: nat, i: nat, now: nat): seq<Thread> { seq(n, j => if j < i then Admitted(now) else Idle) }
  function FirstDone(n: nat, i: nat, now: nat): seq<Thread> { seq(n, j => if j < i then Idle else Admitted(now)) }

  predicate Fresh(b: Budget, now: nat) {
    b.max <= U32_MAX && Today(b, now)
  }

  /** One thread alone sends `c` requests, one after the other. */
  lemma {:induction false} Alone(b: Budget, n: nat, now: nat, c: nat) returns (steps: seq<Step>)
    requires Fresh(b, now) && b.spent == 0 && n > 0 && c <= b.max
    ensures Possible(State(b, Idles(n), 0), steps) && WithinOneDay(b, steps)
    ensures Run(State(b, Idles(n), 0), steps) == State(b.(spent := c), Idles(n), c)
  {
    if c == 0 {
      steps := [];
    } else {
      var before := Alone(b, n, now, c - 1);
      var s := State(b.(spent := c - 1), Idles(n), c - 1);
      var t := Next(s, Checks(0, now));
      assert t == State(s.budget, Idles(n)[0 := Admitted(now)], c - 1);
      assert t.threads[0 := Idle] == Idles(n);
      var pair := [Checks(0, now), Records(0)];
      assert pair[1..] == [Records(0)] && pair[1..][1..] == [];
      assert Run(t, [Records(0)]) == Next(t, Records(0));
      RunAppend(State(b, Idles(n), 0), before, pair);
      steps := before + pair;
    }
  }

  /** The other way round: the threads from `i` on check against a count one short of `max`. */
  lemma {:induction false} AllCheck(b: Budget, n: nat, now: nat, i: nat, c: nat) returns (steps: seq<Step>)
    requires Fresh(b, now) && b.spent < b.max && i <= n
    ensures var s := State(b, FirstAdmitted(n, i, now), c);
            Possible(s, steps) && WithinOneDay(b, steps) && Run(s, steps) == State(b, FirstAdmitted(n, n, now), c)
    decreases n - i
  {
    if i == n {
      steps := [];
    } else {
      var s := State(b, FirstAdmitted(n, i, now), c);
      assert FirstAdmitted(n, i, now)[i := Admitted(now)] == FirstAdmitted(n, i + 1, now);
      var rest := AllCheck(b, n, now, i + 1, c);
      steps := [Checks(i, now)] + rest;
      assert steps[1..] == rest;
    }
  }

  lemma {:induction false} AllRecord(b: Budget, n: nat, now: nat, i: nat, c: nat) returns (steps: seq<Step>)
    requires Fresh(b, now) && i <= n
    ensures var s := State(b, FirstDone(n, i, now), c);
            Possible(s, steps) && WithinOneDay(b, steps) && Run(s, steps).recorded == c + n - i
    decreases n - i
  {
    if i == n {
      steps := [];
    } else {
      var s := State(b, FirstDone(n, i, now), c);
      assert FirstDone(n, i, now)[i := Idle] == FirstDone(n, i + 1, now);
      var rest := AllRecord(Next(s, Records(i)).budget, n, now, i + 1, c + 1);
      steps := [Records(i)] + rest;
      assert steps[1..] == rest;
    }
  }

  /** For any number of threads and any positive `max`, some interleaving records `max + n - 1`. */
  lemma SoftCapIsReached(b: Budget, n: nat, now: nat) returns (steps: seq<Step>)
    requires Fresh(b, now) && b.spent == 0 && b.max > 0 && n > 0
    ensures Possible(State(b, Idles(n), 0), steps) && WithinOneDay(b, steps)
    ensures Run(State(b, Idles(n), 0), steps).recorded == b.max + n - 1
  {
    var c := b.max - 1;
    var full := b.(spent := c);
    var alone := Alone(b, n, now, c);
    var check := AllCheck(full, n, now, 0, c);
    var record := AllRecord(full, n, now, 0, c);
    assert FirstAdmitted(n, 0, now) == Idles(n);
    assert FirstAdmitted(n, n, now) == FirstDone(n, 0, now);
    RunAppend(State(full, Idles(n), c), check, record);
    RunAppend(State(b, Idles(n), 0), alone, check + record);
    steps := alone + (check + record);
  }
}
