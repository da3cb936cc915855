/**
 The blocking loop of `acquire_until` on values: a sequence of attempts, each preceded by whatever
 other threads did, with the sleeps it asked for. Deadlines and total sleep are settled here.
 */
module Acquisition {
  import opened Basics
  import opened TokenBucket
  import opened BucketRuns

  /**
   One turn of the loop: other threads' critical sections since the previous turn released the lock,
   then the clock readings of the refill, of the wait computation and of the deadline check.
   */
  datatype Round = Round(others: seq<Event>, now: int, waitNow: int, checkNow: int)

  datatype Outcome = Acquired | TimedOut | StillWaiting

  datatype AcquireResult = AcquireResult(bucket: Bucket, outcome: Outcome, slept: seq<int>)

  /** The clock never runs backward through the rounds. */
  ghost predicate Timed(rounds: seq<Round>, from: int)
    decreases |rounds|
  {
    rounds != [] ==>
      && Ordered(rounds[0].others, from, rounds[0].now)
      && rounds[0].now <= rounds[0].waitNow <= rounds[0].checkNow <= CLOCK_MAX
      && (|rounds| > 1 ==> rounds[0].checkNow <= rounds[1].now)
      && Timed(rounds[1..], rounds[0].waitNow)
  }

  function AcquireRun(c: Config, b: Bucket, deadline: Option<int>, rounds: seq<Round>): AcquireResult
    requires c.refillInterval > 0
    decreases |rounds|
  {
    if rounds == [] then AcquireResult(b, StillWaiting, [])
    else
      var r := rounds[0];
      var (after, granted) := Take(c, Run(c, b, r.others), r.now);
      var wait := WaitTime(c, after, r.waitNow);
      if granted then AcquireResult(after, Acquired, [])
      else if deadline.Some? && wait > deadline.value - r.checkNow then AcquireResult(after, TimedOut, [])
      else
        var rest := AcquireRun(c, after, deadline, rounds[1..]);
        rest.(slept := [wait] + rest.slept)
  }

  /** The last moment at which the rounds touched the bucket. */
  ghost function End(rounds: seq<Round>, from: int): int {
    if rounds == [] then from else rounds[|rounds| - 1].waitNow
  }

  lemma NoTurn(c: Config, b: Bucket, deadline: Option<int>)
    requires c.refillInterval > 0
    ensures AcquireRun(c, b, deadline, []) == AcquireResult(b, StillWaiting, [])
  {
  }

  /** The effect of the first turn, and the clock readings the others start from. */
  lemma FirstTurn(c: Config, b: Bucket, deadline: Option<int>, rounds: seq<Round>, from: int)
    requires c.refillInterval > 0 && Timed(rounds, from) && rounds != []
    ensures var r := rounds[0];
            && Ordered(r.others, from, r.now) && from <= r.now <= r.waitNow <= r.checkNow <= CLOCK_MAX
            && Timed(rounds[1..], r.waitNow) && End(rounds[1..], r.waitNow) == End(rounds, from)
            && var (after, granted) := Take(c, Run(c, b, r.others), r.now);
               var wait, rest := WaitTime(c, after, r.waitNow), AcquireRun(c, after, deadline, rounds[1..]);
               AcquireRun(c, b, deadline, rounds)
               == if granted then AcquireResult(after, Acquired, [])
                  else if deadline.Some? && wait > deadline.value - r.checkNow then AcquireResult(after, TimedOut, [])
                  else rest.(slept := [wait] + rest.slept)
  {
  }

  /** Every sleep lasts at least as long as it was asked to. */
  ghost predicate SleepsLast(rounds: seq<Round>, slept: seq<int>) {
    forall i :: 0 <= i < |slept| && i + 1 < |rounds| ==> rounds[i].checkNow + slept[i] <= rounds[i + 1].now
  }

  function DeadlineFor(now: int, maxWait: int): int {
    if maxWait <= 0 then now
    else if maxWait >= TruncDiv(CLOCK_MAX - now, NS_PER_MS) then CLOCK_MAX
    else now + maxWait * NS_PER_MS
  }

  function Sum(xs: seq<int>): int {
    if xs == [] then 0 else xs[0] + Sum(xs[1..])
  }

  lemma {:induction false} EndIsLater(rounds: seq<Round>, from: int)
    requires Timed(rounds, from) && from <= CLOCK_MAX
    ensures from <= End(rounds, from) <= CLOCK_MAX
    decreases |rounds|
  {
    if rounds == [] {
    } else {
      EndIsLater(rounds[1..], rounds[0].waitNow);
    }
  }

  // ----- How long one call can sleep

  lemma SleepsLastTail(rounds: seq<Round>, slept: seq<int>)
    requires SleepsLast(rounds, slept) && rounds != [] && slept != []
    ensures SleepsLast(rounds[1..], slept[1..])
    ensures |rounds| > 1 ==> rounds[0].checkNow + slept[0] <= rounds[1].now
  {
  }

  /** With a deadline, all sleeps asked for fit between the first attempt and the deadline. */
  lemma {:induction false} TotalSleep(c: Config, b: Bucket, deadline: int, rounds: seq<Round>, from: int)
    requires c.refillInterval > 0 && Timed(rounds, from)
    requires SleepsLast(rounds, AcquireRun(c, b, Some(deadline), rounds).slept)
    ensures var slept := AcquireRun(c, b, Some(deadline), rounds).slept;
            slept != [] ==> rounds != [] && Sum(slept) <= deadline - rounds[0].now
    decreases |rounds|
  {
    hide Take;
    hide WaitTime;
    var slept := AcquireRun(c, b, Some(deadline), rounds).slept;
    if slept == [] {
    } else {
      var after := Take(c, Run(c, b, rounds[0].others), rounds[0].now).0;
      assert slept[1..] == AcquireRun(c, after, Some(deadline), rounds[1..]).slept;
      SleepsLastTail(rounds, slept);
      TotalSleep(c, after, deadline, rounds[1..], rounds[0].waitNow);
    }
  }

  /** The one corner in which `acquire_for` may sleep longer than it was told to. */
  predicate ClockEdge(now: int, maxWait: int) {
    maxWait > 0 && maxWait == (CLOCK_MAX - now) / NS_PER_MS && (CLOCK_MAX - now) % NS_PER_MS != 0
  }

  /** The deadline never lies in the past, fits the clock, and grants the caller's wait except at the clock's end. */
  lemma DeadlineIsWait(now: int, maxWait: int)
    requires 0 <= now <= CLOCK_MAX
    ensures now <= DeadlineFor(now, maxWait) <= CLOCK_MAX
    ensures DeadlineFor(now, maxWait) - now <= Max(maxWait, 0) * NS_PER_MS <==> !ClockEdge(now, maxWait)
    ensures now + Max(maxWait, 0) * NS_PER_MS <= CLOCK_MAX
            ==> DeadlineFor(now, maxWait) == now + Max(maxWait, 0) * NS_PER_MS || ClockEdge(now, maxWait)
    ensures maxWait > 0 && CLOCK_MAX < now + (maxWait + 1) * NS_PER_MS ==> DeadlineFor(now, maxWait) == CLOCK_MAX
  {
  }

  /** A call `acquire_for(maxWait)` at `now`, on a limiter in any state, that sleeps longer than it may. */
  ghost predicate Oversleeps(now: int, maxWait: int, c: Config, b: Bucket, rounds: seq<Round>) {
    && Valid(c, b, now) && Timed(rounds, now)
    && var slept := AcquireRun(c, b, Some(DeadlineFor(now, maxWait)), rounds).slept;
       SleepsLast(rounds, slept) && Sum(slept) > Max(maxWait, 0) * NS_PER_MS
  }

  lemma NoOversleepAwayFromEdge(now: int, maxWait: int, c: Config, b: Bucket, rounds: seq<Round>)
    requires 0 <= now <= CLOCK_MAX && !ClockEdge(now, maxWait)
    ensures !Oversleeps(now, maxWait, c, b, rounds)
  {
    if Oversleeps(now, maxWait, c, b, rounds) {
      DeadlineIsWait(now, maxWait);
      TotalSleep(c, b, DeadlineFor(now, maxWait), rounds, now);
    }
  }

  /** At the clock's edge an empty limiter of the right age, even a new one, makes the call sleep to the clock's end. */
  lemma OversleepAtEdge(now: int, maxWait: int) returns (config: Config, b: Bucket, rounds: seq<Round>)
    requires 0 <= now <= CLOCK_MAX && ClockEdge(now, maxWait)
    ensures Oversleeps(now, maxWait, config, b, rounds)
    ensures Sanitized(config) == config && exists created :: 0 <= created <= now && b == Reset(config, created)
  {
    config := Config(1, maxWait + 1, 0, None);
    var created := CLOCK_MAX - ClippedInterval(config);
    rounds := [Round([], now, now, now)];
    b := Reset(config, created);
    assert Sanitized(config) == config;
    assert 0 <= created <= now;
    assert now - created < Interval(config);
    TakeCostsOneInterval(config, b, now);
    assert Credit(config, b, now) == now - created;
    RefillMovesForward(config, b, now);
    EarnedIsFloor(config, b, now);
    assert Earned(config, b, now) == 0;
    assert Take(config, b, now) == (b, false);
    assert WaitTime(config, b, now) == CLOCK_MAX - now;
    assert rounds[1..] == [];
    assert AcquireRun(config, b, Some(CLOCK_MAX), rounds).slept == [CLOCK_MAX - now];
    assert Sum([CLOCK_MAX - now]) == CLOCK_MAX - now;
  }

  /**
   `acquire_for(maxWait)` can sleep longer than `maxWait`, whatever the limiter went through before, iff
   the call hits the edge of the clock: exactly as many whole milliseconds as asked for remain, plus a
   fraction of one.
   */
  lemma OversleepsIffEdge(now: int, maxWait: int)
    requires 0 <= now <= CLOCK_MAX
    ensures (exists c, b, rounds :: Oversleeps(now, maxWait, c, b, rounds)) <==> ClockEdge(now, maxWait)
  {
    if ClockEdge(now, maxWait) {
      var c, b, rounds := OversleepAtEdge(now, maxWait);
    } else {
      forall c, b, rounds ensures !Oversleeps(now, maxWait, c, b, rounds) {
        NoOversleepAwayFromEdge(now, maxWait, c, b, rounds);
      }
    }
  }

  // ----- Progress without interference

  /** The interval is no longer than the longest duration the clock can represent. */
  ghost predicate FitsClock(c: Config) {
    Interval(c) <= CLOCK_MAX
  }

  /** After a refused attempt and a sleep of the returned wait, a token has been earned. */
  lemma WaitIsEnough(c: Config, b: Bucket, now: int, waitNow: int, wake: int)
    requires Valid(c, b, now) && FitsClock(c) && now <= waitNow
    requires !Take(c, b, now).1
    requires waitNow + WaitTime(c, Take(c, b, now).0, waitNow) <= wake <= CLOCK_MAX
    ensures Valid(c, Take(c, b, now).0, wake)
    ensures Take(c, Take(c, b, now).0, wake).1
  {
  }

  lemma EmptyForOneInterval(c: Config, b: Bucket, wake: int)
    requires Valid(c, b, wake) && b.tokens == 0 && wake - b.last >= Interval(c)
    ensures Take(c, b, wake).1
  {
  }

  /** A refused attempt, a sleep of the returned wait, and an attempt that is refused again. */
  ghost predicate WaitsInVain(c: Config, b: Bucket, now: int, waitNow: int, wake: int) {
    && Valid(c, b, now) && now <= waitNow && !Take(c, b, now).1
    && waitNow + WaitTime(c, Take(c, b, now).0, waitNow) <= wake <= CLOCK_MAX
    && !Take(c, Take(c, b, now).0, wake).1
  }

  lemma NothingEarned(c: Config, b: Bucket, now: int)
    requires Valid(c, b, now) && b.tokens == 0 && now - b.last < Interval(c)
    ensures Take(c, b, now) == (b, false)
  {
    EarnedIsFloor(c, b, now);
    FactorCancels(Earned(c, b, now), 0, Interval(c));
    FactorCancels(1, Earned(c, b, now), Interval(c));
  }

  /** Without interference a wait can be in vain iff the interval does not fit the clock. */
  lemma VainIffIntervalTooLong(c: Config)
    requires Sane(c)
    ensures (exists b, now, waitNow, wake :: WaitsInVain(c, b, now, waitNow, wake)) <==> !FitsClock(c)
  {
    if FitsClock(c) {
      forall b, now, waitNow, wake ensures !WaitsInVain(c, b, now, waitNow, wake) {
        if WaitsInVain(c, b, now, waitNow, wake) {
          WaitIsEnough(c, b, now, waitNow, wake);
        }
      }
    } else {
      var b := Bucket(0, 0);
      NothingEarned(c, b, 0);
      NothingEarned(c, b, CLOCK_MAX);
      assert WaitsInVain(c, b, 0, 0, CLOCK_MAX);
    }
  }

  /** With no deadline and no interference, `acquire` succeeds by its second attempt. */
  lemma SecondAttemptSucceeds(c: Config, b: Bucket, rounds: seq<Round>, from: int)
    requires Valid(c, b, from) && FitsClock(c) && Timed(rounds, from) && |rounds| >= 2
    requires rounds[0].others == [] && rounds[1].others == []
    requires SleepsLast(rounds, AcquireRun(c, b, None, rounds).slept)
    ensures AcquireRun(c, b, None, rounds).outcome == Acquired
    ensures |AcquireRun(c, b, None, rounds).slept| <= 1
  {
    hide Refill;
    hide WaitTime;
    var r, s := rounds[0], rounds[1];
    var (after, granted) := Take(c, b, r.now);
    if !granted {
      var slept := AcquireRun(c, b, None, rounds).slept;
      assert slept[0] == WaitTime(c, after, r.waitNow);
      assert rounds[1..][0] == s;
      assert r.checkNow + slept[0] <= s.now;
      WaitIsEnough(c, b, r.now, r.waitNow, s.now);
    }
  }

  // ----- The wait is no longer than it has to be

  /** When a refused thread may wake, in the limiter's own fields: an interval after the last refill, or the span. */
  lemma WaitEndsAt(c: Config, b: Bucket, waitNow: int)
    requires c.refillInterval > 0 && b.last <= waitNow
    ensures WaitTime(c, b, waitNow) >= 0
    ensures c.refillInterval < CLOCK_MAX_MS ==>
              waitNow + WaitTime(c, b, waitNow) == Max(waitNow, b.last + c.refillInterval * 1_000_000)
    ensures c.refillInterval >= CLOCK_MAX_MS ==>
              waitNow + WaitTime(c, b, waitNow) == Max(waitNow, b.last + 0x7FFF_FFFF_FFFF_FFFF)
  {
  }

  /** A refused attempt, and a second one at `wake` with nothing in between. */
  ghost predicate Retries(c: Config, b: Bucket, now: int, waitNow: int, wake: int) {
    Valid(c, b, now) && !Take(c, b, now).1 && now <= waitNow <= wake <= CLOCK_MAX
  }

  /** The second attempt gets a token iff the thread slept for the wait it was given: not longer, and not less. */
  ghost predicate WaitIsTight(c: Config, b: Bucket, now: int, waitNow: int, wake: int)
    requires c.refillInterval > 0
  {
    var after := Take(c, b, now).0;
    Take(c, after, wake).1 <==> wake >= waitNow + WaitTime(c, after, waitNow)
  }

  lemma WaitIsExact(c: Config, b: Bucket, now: int, waitNow: int, wake: int)
    requires Retries(c, b, now, waitNow, wake) && c.refillInterval < CLOCK_MAX_MS
    ensures WaitIsTight(c, b, now, waitNow, wake)
  {
    hide Take;
    hide WaitTime;
    var after := Take(c, b, now).0;
    TakeCostsOneInterval(c, b, now);
    WaitEndsAt(c, after, waitNow);
    if wake - after.last >= Interval(c) {
      EmptyForOneInterval(c, after, wake);
    } else {
      NothingEarned(c, after, wake);
    }
  }

  /** Waits are exact in every state iff the interval is shorter than the clock's span in whole milliseconds. */
  lemma WaitIsExactIff(c: Config)
    requires Sane(c)
    ensures (forall b, now, waitNow, wake ::
               Retries(c, b, now, waitNow, wake) ==> WaitIsTight(c, b, now, waitNow, wake))
            <==> c.refillInterval < CLOCK_MAX_MS
  {
    if c.refillInterval < CLOCK_MAX_MS {
      forall b, now, waitNow, wake | Retries(c, b, now, waitNow, wake)
        ensures WaitIsTight(c, b, now, waitNow, wake)
      {
        WaitIsExact(c, b, now, waitNow, wake);
      }
    } else {
      var wake := if FitsClock(c) then Interval(c) else CLOCK_MAX;
      var b := Bucket(0, 0);
      NothingEarned(c, b, 0);
      if FitsClock(c) {
        EmptyForOneInterval(c, b, wake);
      } else {
        NothingEarned(c, b, wake);
      }
      assert Retries(c, b, 0, 0, wake) && !WaitIsTight(c, b, 0, 0, wake);
    }
  }

  /** A refused attempt changes nothing for a later one. */
  lemma RefusalIsInvisible(c: Config, b: Bucket, now: int, later: int)
    requires Valid(c, b, now) && !Take(c, b, now).1 && now <= later <= CLOCK_MAX
    ensures Take(c, Take(c, b, now).0, later).1 <==> Take(c, b, later).1
  {
    hide Refill;
    TakeCostsOneInterval(c, b, later);
    RefillCommutesWithTime(c, b, now, later);
    TakeCostsOneInterval(c, Refill(c, b, now), later);
  }

  /** A token that is there stays there while nobody takes it. */
  lemma GrantLasts(c: Config, b: Bucket, now: int, later: int)
    requires Valid(c, b, now) && Take(c, b, now).1 && now <= later <= CLOCK_MAX
    ensures Take(c, b, later).1
  {
    TakeCostsOneInterval(c, b, now);
    TakeCostsOneInterval(c, b, later);
  }

  /**
   An undisturbed call with a deadline, whose readings of one attempt coincide, times out iff no token is
   there by the deadline, or by its first attempt when the deadline has passed before that.
   */
  lemma TimesOutIffNoToken(c: Config, b: Bucket, deadline: int, rounds: seq<Round>, from: int)
    requires Valid(c, b, from) && c.refillInterval < CLOCK_MAX_MS && deadline <= CLOCK_MAX
    requires Timed(rounds, from) && |rounds| >= 2
    requires rounds[0].others == [] && rounds[1].others == []
    requires rounds[0].now == rounds[0].waitNow == rounds[0].checkNow
    requires SleepsLast(rounds, AcquireRun(c, b, Some(deadline), rounds).slept)
    ensures AcquireRun(c, b, Some(deadline), rounds).outcome
            == if Take(c, b, Max(rounds[0].now, deadline)).1 then Acquired else TimedOut
  {
    hide Take;
    hide WaitTime;
    var r, next := rounds[0], rounds[1];
    var (after, granted) := Take(c, b, r.now);
    if granted {
      GrantLasts(c, b, r.now, Max(r.now, deadline));
    } else {
      var wait := WaitTime(c, after, r.now);
      TakeCostsOneInterval(c, b, r.now);
      WaitEndsAt(c, after, r.now);
      if r.now <= deadline {
        WaitIsExact(c, b, r.now, r.now, deadline);
        RefusalIsInvisible(c, b, r.now, deadline);
      }
      if wait <= deadline - r.now {
        var slept := AcquireRun(c, b, Some(deadline), rounds).slept;
        assert slept[0] == wait && rounds[1..][0] == next;
        assert r.checkNow + slept[0] <= next.now;
        WaitIsExact(c, b, r.now, r.now, next.now);
      }
    }
  }

  // ----- A call as the attempts it consists of

  /** The critical sections of these turns: those of other threads, then one take, turn by turn. */
  function Served(rounds: seq<Round>): seq<Event> {
    if rounds == [] then [] else rounds[0].others + [Event(0, rounds[0].now, TakeOp)] + Served(rounds[1..])
  }

  /** The bucket at the attempt of turn i, after everything that was served before it. */
  ghost function BucketAt(c: Config, b: Bucket, rounds: seq<Round>, i: nat): Bucket
    requires c.refillInterval > 0 && i < |rounds|
  {
    Run(c, b, Served(rounds[..i]) + rounds[i].others)
  }

  /** The attempt of turn i is refused with this wait. */
  ghost predicate RefusedAt(c: Config, b: Bucket, rounds: seq<Round>, i: nat, wait: int)
    requires c.refillInterval > 0 && i < |rounds|
  {
    var (after, granted) := Take(c, BucketAt(c, b, rounds, i), rounds[i].now);
    !granted && wait == WaitTime(c, after, rounds[i].waitNow)
  }

  lemma ServedConcat(c: Config, b: Bucket, rounds: seq<Round>, more: seq<Event>, i: nat)
    requires c.refillInterval > 0 && rounds != [] && i <= |rounds[1..]|
    ensures Run(c, b, Served(rounds[..i + 1]) + more)
            == Run(c, Take(c, Run(c, b, rounds[0].others), rounds[0].now).0, Served(rounds[1..][..i]) + more)
  {
    hide Take;
    var r := rounds[0];
    var own, rest := [Event(0, r.now, TakeOp)], Served(rounds[1..][..i]) + more;
    assert rounds[..i + 1][1..] == rounds[1..][..i] && rounds[..i + 1][0] == r;
    assert Served(rounds[..i + 1]) + more == r.others + (own + rest);
    RunConcat(c, b, r.others, own + rest);
    assert own[1..] == [];
    RunConcat(c, Run(c, b, r.others), own, rest);
  }

  lemma TurnShifts(c: Config, b: Bucket, rounds: seq<Round>, i: nat)
    requires c.refillInterval > 0 && rounds != [] && i < |rounds[1..]|
    ensures BucketAt(c, b, rounds, i + 1)
            == BucketAt(c, Take(c, Run(c, b, rounds[0].others), rounds[0].now).0, rounds[1..], i)
  {
    ServedConcat(c, b, rounds, rounds[i + 1].others, i);
  }

  /** The first attempt, and the bucket it leaves. */
  lemma FirstAttempt(c: Config, b: Bucket, rounds: seq<Round>)
    requires c.refillInterval > 0 && rounds != []
    ensures BucketAt(c, b, rounds, 0) == Run(c, b, rounds[0].others)
    ensures Run(c, b, Served(rounds[..1])) == Take(c, Run(c, b, rounds[0].others), rounds[0].now).0
  {
    hide Take;
    assert rounds[..0] == [] && [] + rounds[0].others == rounds[0].others;
    ServedConcat(c, b, rounds, [], 0);
    assert rounds[1..][..0] == [] && Served(rounds[..1]) + [] == Served(rounds[..1]);
  }

  lemma ServedShifts(c: Config, b: Bucket, rounds: seq<Round>, i: nat)
    requires c.refillInterval > 0 && rounds != [] && i <= |rounds[1..]|
    ensures Run(c, b, Served(rounds[..i + 1]))
            == Run(c, Take(c, Run(c, b, rounds[0].others), rounds[0].now).0, Served(rounds[1..][..i]))
  {
    ServedConcat(c, b, rounds, [], i);
    assert Served(rounds[..i + 1]) + [] == Served(rounds[..i + 1]);
    assert Served(rounds[1..][..i]) + [] == Served(rounds[1..][..i]);
  }

  /** What a call's result says about its attempts, for every interference by other threads. */
  ghost predicate Explains(c: Config, b: Bucket, deadline: Option<int>, rounds: seq<Round>, result: AcquireResult)
    requires c.refillInterval > 0
  {
    var n := |result.slept|;
    && n <= |rounds|
    && (forall i :: 0 <= i < n ==> RefusedAt(c, b, rounds, i, result.slept[i]))
    && (forall i :: 0 <= i < n ==> deadline.Some? ==> result.slept[i] <= deadline.value - rounds[i].checkNow)
    && match result.outcome
       case Acquired =>
         && n < |rounds| && Take(c, BucketAt(c, b, rounds, n), rounds[n].now).1
         && result.bucket == Run(c, b, Served(rounds[..n + 1]))
       case TimedOut =>
         && n < |rounds| && deadline.Some?
         && (exists wait :: RefusedAt(c, b, rounds, n, wait) && wait > deadline.value - rounds[n].checkNow)
         && result.bucket == Run(c, b, Served(rounds[..n + 1]))
       case StillWaiting => n == |rounds| && result.bucket == Run(c, b, Served(rounds[..n]))
  }

  /** A refused first attempt in front of what is known of the rest. */
  lemma ExplainsInFront(c: Config, b: Bucket, deadline: Option<int>, rounds: seq<Round>, wait: int, rest: AcquireResult)
    requires c.refillInterval > 0 && rounds != [] && RefusedAt(c, b, rounds, 0, wait)
    requires deadline.Some? ==> wait <= deadline.value - rounds[0].checkNow
    requires Explains(c, Take(c, Run(c, b, rounds[0].others), rounds[0].now).0, deadline, rounds[1..], rest)
    ensures Explains(c, b, deadline, rounds, rest.(slept := [wait] + rest.slept))
  {
    hide Take;
    hide WaitTime;
    hide BucketAt;
    var after := Take(c, Run(c, b, rounds[0].others), rounds[0].now).0;
    forall i, w | 0 <= i < |rounds[1..]|
      ensures RefusedAt(c, b, rounds, i + 1, w) <==> RefusedAt(c, after, rounds[1..], i, w)
    {
      TurnShifts(c, b, rounds, i);
    }
    var n := |rest.slept|;
    ServedShifts(c, b, rounds, n);
    if n < |rounds[1..]| {
      TurnShifts(c, b, rounds, n);
      ServedShifts(c, b, rounds, n + 1);
    }
    var slept := [wait] + rest.slept;
    forall i | 0 <= i < |slept|
      ensures RefusedAt(c, b, rounds, i, slept[i])
      ensures deadline.Some? ==> slept[i] <= deadline.value - rounds[i].checkNow
    {
      if i > 0 {
        assert RefusedAt(c, after, rounds[1..], i - 1, rest.slept[i - 1]);
        assert RefusedAt(c, b, rounds, (i - 1) + 1, rest.slept[i - 1]);
        assert rounds[1..][i - 1] == rounds[i];
      }
    }
    if rest.outcome == TimedOut {
      var w :| RefusedAt(c, after, rounds[1..], n, w) && w > deadline.value - rounds[1..][n].checkNow;
      assert RefusedAt(c, b, rounds, n + 1, w);
    }
  }

  /**
   A blocking call is a series of takes among the critical sections of all threads. All but the last are
   refused, each followed by a sleep of the wait it was given, which fits the deadline; the call returns
   true iff the last one is granted, and false iff the last one is refused with a wait beyond the deadline,
   so never without a deadline.
   */
  lemma {:induction false} AcquireIsSerial(c: Config, b: Bucket, deadline: Option<int>, rounds: seq<Round>)
    requires c.refillInterval > 0
    ensures Explains(c, b, deadline, rounds, AcquireRun(c, b, deadline, rounds))
    decreases |rounds|
  {
    hide Take;
    hide WaitTime;
    hide BucketAt;
    if rounds == [] {
      assert rounds[..0] == [];
    } else {
      var r := rounds[0];
      var (after, granted) := Take(c, Run(c, b, r.others), r.now);
      var wait := WaitTime(c, after, r.waitNow);
      FirstAttempt(c, b, rounds);
      assert !granted ==> RefusedAt(c, b, rounds, 0, wait);
      if !granted && (deadline.None? || wait <= deadline.value - r.checkNow) {
        AcquireIsSerial(c, after, deadline, rounds[1..]);
        ExplainsInFront(c, b, deadline, rounds, wait, AcquireRun(c, after, deadline, rounds[1..]));
      }
    }
  }
}
