/**
 `RateLimiter` as the object it is: two fields updated under a lock. Every clock reading is a
 parameter. All arithmetic is on 64-bit and 16-bit machine integers, so verification of the bodies
 is also the proof that no clock computation overflows.
 */
module RateLimiter {
  import opened Basics
  import opened BucketRuns
  import TB = TokenBucket
  import opened Acquisition

  const NS: int64 := 1_000_000
  const TIME_MAX: int64 := 0x7FFF_FFFF_FFFF_FFFF

  function TruncDiv64(a: int64, b: int64): (q: int64)
    requires b > 0
    ensures q as int == TruncDiv(a as int, b as int)
  {
    TruncDiv(a as int, b as int) as int64
  }

  ghost function AsInt(t: Option<int64>): Option<int> {
    match t
    case Some(v) => Some(v as int)
    case None => None
  }

  lemma FloorIsMonotone(ms: int, ns: int)
    requires 0 <= ns <= TB.CLOCK_MAX && ms * TB.NS_PER_MS <= ns
    ensures ms <= TruncDiv(ns, TB.NS_PER_MS) <= TB.CLOCK_MAX_MS
  {
  }

  /** Every intermediate value of a refill fits the 64-bit clock arithmetic. */
  lemma RefillFits(c: TB.Config, b: TB.Bucket, now: int)
    requires TB.Valid(c, b, now)
    ensures 0 <= TruncDiv(now - b.last, TB.NS_PER_MS) <= TB.CLOCK_MAX_MS
    ensures var e := TB.Earned(c, b, now);
            && 0 <= e <= TB.CLOCK_MAX_MS
            && 0 <= e * c.refillInterval <= TB.CLOCK_MAX_MS
            && b.last + e * c.refillInterval * TB.NS_PER_MS <= now
    ensures TB.Valid(c, TB.Refill(c, b, now), now)
  {
    var e, i := TB.Earned(c, b, now), c.refillInterval;
    TB.EarnedIsFloor(c, b, now);
    assert e * i * TB.NS_PER_MS == e * TB.Interval(c);
    assert e >= 0 by {
      if e < 0 {
        ProductIsMonotone(e, -1, TB.Interval(c));
      }
    }
    ProductIsMonotone(0, e, i);
    FloorIsMonotone(e * i, now - b.last);
    ProductIsMonotone(1, i, e);
    TB.RefillFacts(c, b, now);
  }

  class Limiter {
    const config: TB.Config
    var tokens: uint16
    var lastRefill: int64

    ghost function State(): TB.Bucket
      reads this
    {
      TB.Bucket(tokens as int, lastRefill as int)
    }

    ghost predicate ValidAt(now: int)
      reads this
    {
      TB.Valid(config, State(), now)
    }

    constructor (config: TB.Config, now: int64)
      requires config.maxTokens <= 0xFFFF && config.initialTokens <= 0xFFFF && config.refillInterval <= I64_MAX
      requires 0 <= now
      ensures this.config == TB.Sanitized(config)
      ensures ValidAt(now as int) && State() == TB.Reset(this.config, now as int)
    {
      var sane := TB.Sanitized(config);
      this.config := sane;
      tokens := sane.initialTokens as uint16;
      lastRefill := now;
    }

    method Refill(now: int64)
      requires ValidAt(now as int)
      modifies this`tokens, this`lastRefill
      ensures ValidAt(now as int)
      ensures State() == TB.Refill(config, old(State()), now as int)
    {
      RefillFits(config, State(), now as int);
      if tokens as int >= config.maxTokens {
        lastRefill := now;
        return;
      }
      var interval := config.refillInterval as int64;
      var earned := TruncDiv64(TruncDiv64(now - lastRefill, NS), interval);
      if earned <= 0 {
        return;
      }
      var total := tokens as int64 + earned;
      if total as int >= config.maxTokens {
        tokens := config.maxTokens as uint16;
        lastRefill := now;
      } else {
        tokens := total as uint16;
        lastRefill := lastRefill + earned * interval * NS;
      }
    }

    /** None when a token was taken, otherwise how long to wait; `later` is the second clock reading. */
    method TakeOrWaitTime(now: int64, later: int64) returns (wait: Option<int64>)
      requires ValidAt(now as int) && now <= later
      modifies this`tokens, this`lastRefill
      ensures ValidAt(now as int)
      ensures State() == TB.Take(config, old(State()), now as int).0
      ensures wait.None? <==> TB.Take(config, old(State()), now as int).1
      ensures wait.Some? ==> wait.value as int == TB.WaitTime(config, State(), later as int)
      ensures wait.Some? ==> tokens == 0 && wait.value >= 0
      ensures wait.Some? && config.refillInterval < TB.CLOCK_MAX_MS ==>
                later as int + wait.value as int
                == Max(later as int, lastRefill as int + config.refillInterval * 1_000_000)
      ensures wait.Some? && config.refillInterval >= TB.CLOCK_MAX_MS ==>
                later as int + wait.value as int == Max(later as int, lastRefill as int + I64_MAX)
    {
      Refill(now);
      if tokens > 0 {
        tokens := tokens - 1;
        return None;
      }
      var interval := if config.refillInterval >= TB.CLOCK_MAX_MS then TIME_MAX
                      else config.refillInterval as int64 * NS;
      var left := interval - (later - lastRefill);
      wait := Some(if left > 0 then left else 0);
    }

    method TryAcquire(now: int64, later: int64) returns (granted: bool)
      requires ValidAt(now as int) && now <= later
      modifies this`tokens, this`lastRefill
      ensures ValidAt(now as int)
      ensures (State(), granted) == TB.Take(config, old(State()), now as int)
    {
      var wait := TakeOrWaitTime(now, later);
      granted := wait.None?;
    }

    method AvailableTokens(now: int64) returns (available: uint16)
      requires ValidAt(now as int)
      ensures available as int == TB.Available(config, State(), now as int)
      ensures available as int == TB.Refill(config, State(), now as int).tokens
    {
      TB.AvailableIsRefilled(config, State(), now as int);
      RefillFits(config, State(), now as int);
      var earned := TruncDiv64(TruncDiv64(now - lastRefill, NS), config.refillInterval as int64);
      var total := tokens as int64 + (if earned > 0 then earned else 0);
      available := Min(total as int, config.maxTokens) as uint16;
    }

    method Reset(now: int64)
      requires ValidAt(now as int)
      modifies this`tokens, this`lastRefill
      ensures ValidAt(now as int) && State() == TB.Reset(config, now as int)
    {
      tokens := config.initialTokens as uint16;
      lastRefill := now;
    }

    /** Critical sections that other threads run while this one holds no lock. */
    method Interference(others: seq<Event>, ghost from: int, ghost to: int)
      requires ValidAt(from) && Ordered(others, from, to) && to <= TB.CLOCK_MAX
      modifies this`tokens, this`lastRefill
      ensures ValidAt(to) && State() == Run(config, old(State()), others)
    {
      var i := 0;
      ghost var now := from;
      while i < |others|
        invariant 0 <= i <= |others| && from <= now <= to
        invariant i < |others| ==> now <= others[i].at
        invariant ValidAt(now) && Run(config, State(), others[i..]) == Run(config, old(State()), others)
      {
        var e := others[i];
        assert others[i..][0] == e && others[i..][1..] == others[i + 1..];
        match e.op {
          case TakeOp => var _ := TryAcquire(e.at as int64, e.at as int64);
          case PollOp => var _ := AvailableTokens(e.at as int64);
          case ResetOp => Reset(e.at as int64);
        }
        now := e.at;
        i := i + 1;
      }
    }

    /** The blocking loop; `rounds` supplies its clock readings and what other threads do in between. */
    method AcquireUntil(deadline: Option<int64>, rounds: seq<Round>, ghost from: int)
      returns (outcome: Outcome, slept: seq<int>)
      requires ValidAt(from) && Timed(rounds, from)
      requires deadline.Some? ==> deadline.value >= 0
      modifies this`tokens, this`lastRefill
      ensures var run := AcquireRun(config, old(State()), AsInt(deadline), rounds);
              State() == run.bucket && outcome == run.outcome && slept == run.slept
      ensures ValidAt(End(rounds, from))
    {
      hide TB.Take;
      hide TB.WaitTime;
      hide AcquireRun;
      hide Timed;
      hide Ordered;
      slept := [];
      var i := 0;
      ghost var now := from;
      while i < |rounds|
        invariant 0 <= i <= |rounds|
        invariant ValidAt(now) && Timed(rounds[i..], now) && End(rounds[i..], now) == End(rounds, from)
        invariant var rest := AcquireRun(config, State(), AsInt(deadline), rounds[i..]);
                  AcquireRun(config, old(State()), AsInt(deadline), rounds) == rest.(slept := slept + rest.slept)
      {
        var r := rounds[i];
        assert rounds[i..][0] == r && rounds[i..][1..] == rounds[i + 1..];
        ghost var asleep := slept;
        FirstTurn(config, State(), AsInt(deadline), rounds[i..], now);
        Interference(r.others, now, r.now);
        var wait := TakeOrWaitTime(r.now as int64, r.waitNow as int64);
        now := r.waitNow;
        EndIsLater(rounds[i + 1..], now);
        if wait.None? {
          assert slept + [] == slept;
          return Acquired, slept;
        }
        if deadline.Some? && wait.value > deadline.value - r.checkNow as int64 {
          assert slept + [] == slept;
          return TimedOut, slept;
        }
        slept := slept + [wait.value as int];
        i := i + 1;
        ghost var rest := AcquireRun(config, State(), AsInt(deadline), rounds[i..]).slept;
        assert asleep + ([wait.value as int] + rest) == slept + rest;
      }
      NoTurn(config, State(), AsInt(deadline));
      assert slept + [] == slept && rounds[i..] == [];
      outcome := StillWaiting;
    }

    method AcquireFor(maxWait: int64, now: int64, rounds: seq<Round>) returns (outcome: Outcome, slept: seq<int>)
      requires ValidAt(now as int) && Timed(rounds, now as int)
      modifies this`tokens, this`lastRefill
      ensures ValidAt(End(rounds, now as int))
      ensures var run := AcquireRun(config, old(State()), Some(DeadlineFor(now as int, maxWait as int)), rounds);
              State() == run.bucket && outcome == run.outcome && slept == run.slept
    {
      var deadline := now;
      if maxWait > 0 {
        var remaining := TruncDiv64(TIME_MAX - now, NS);
        deadline := if maxWait >= remaining then TIME_MAX else now + maxWait * NS;
      }
      outcome, slept := AcquireUntil(Some(deadline), rounds, now as int);
    }

    method Acquire(now: int64, rounds: seq<Round>) returns (outcome: Outcome, slept: seq<int>)
      requires ValidAt(now as int) && Timed(rounds, now as int)
      requires config.maxWait.Some? ==> -I64_MAX - 1 <= config.maxWait.value <= I64_MAX
      modifies this`tokens, this`lastRefill
      ensures ValidAt(End(rounds, now as int))
      ensures var deadline := match config.maxWait
                              case Some(w) => Some(DeadlineFor(now as int, w))
                              case None => None;
              var run := AcquireRun(config, old(State()), deadline, rounds);
              State() == run.bucket && outcome == run.outcome && slept == run.slept
    {
      match config.maxWait {
        case Some(w) => outcome, slept := AcquireFor(w as int64, now, rounds);
        case None => outcome, slept := AcquireUntil(None, rounds, now as int);
      }
    }
  }
}
