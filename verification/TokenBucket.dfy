/**
 The arithmetic of the rate limiter on values: lazily refilled integer tokens with a carried
 remainder. Times are nanoseconds of the steady clock; the refill interval is whole milliseconds.
 */
module TokenBucket {
  import opened Basics

  const NS_PER_MS: int := 1_000_000
  const CLOCK_MAX: int := I64_MAX
  // duration_cast<milliseconds>(Clock::duration::max())
  const CLOCK_MAX_MS: int := CLOCK_MAX / NS_PER_MS

  datatype Config = Config(maxTokens: nat, refillInterval: int, initialTokens: nat, maxWait: Option<int>)

  datatype Bucket = Bucket(tokens: nat, last: int)

  function Sanitized(config: Config): Config {
    var interval := if config.refillInterval <= 0 then 100 else config.refillInterval;
    var capacity := Max(config.maxTokens, 1);
    config.(refillInterval := interval, maxTokens := capacity,
            initialTokens := Min(config.initialTokens, capacity))
  }

  ghost predicate Sane(c: Config) {
    1 <= c.maxTokens <= 0xFFFF && c.initialTokens <= c.maxTokens && 1 <= c.refillInterval <= I64_MAX
  }

  lemma SanitizedIsSane(config: Config)
    requires config.maxTokens <= 0xFFFF && config.initialTokens <= 0xFFFF && config.refillInterval <= I64_MAX
    ensures Sane(Sanitized(config))
    ensures Sane(config) <==> Sanitized(config) == config && config.refillInterval > 0
    ensures var c := Sanitized(config);
            && c.refillInterval == (if config.refillInterval > 0 then config.refillInterval else 100)
            && c.maxTokens == (if config.maxTokens == 0 then 1 else config.maxTokens)
            && c.initialTokens <= config.initialTokens
            && (c.initialTokens == config.initialTokens || c.initialTokens == c.maxTokens)
            && c.maxWait == config.maxWait
  {
  }

  /** One refill interval in nanoseconds. */
  ghost function Interval(c: Config): (interval: int)
    ensures c.refillInterval > 0 ==> interval > 0
  {
    c.refillInterval * NS_PER_MS
  }

  /** A bucket a limiter can hold when the clock reads `now`. */
  ghost predicate Valid(c: Config, b: Bucket, now: int) {
    Sane(c) && b.tokens <= c.maxTokens && 0 <= b.last <= now <= CLOCK_MAX
  }

  function Earned(c: Config, b: Bucket, now: int): int
    requires c.refillInterval > 0
  {
    TruncDiv(TruncDiv(now - b.last, NS_PER_MS), c.refillInterval)
  }

  function Refill(c: Config, b: Bucket, now: int): Bucket
    requires c.refillInterval > 0
  {
    if b.tokens >= c.maxTokens then
      Bucket(b.tokens, now)
    else
      var earned := Earned(c, b, now);
      if earned <= 0 then b
      else if b.tokens + earned >= c.maxTokens then Bucket(c.maxTokens, now)
      else Bucket(b.tokens + earned, b.last + earned * c.refillInterval * NS_PER_MS)
  }

  /** The critical section of an acquisition attempt: the new bucket, and whether a token was taken. */
  function Take(c: Config, b: Bucket, now: int): (r: (Bucket, bool))
    requires c.refillInterval > 0
  {
    var full := Refill(c, b, now);
    if full.tokens > 0 then (full.(tokens := full.tokens - 1), true) else (full, false)
  }

  function Available(c: Config, b: Bucket, now: int): int
    requires c.refillInterval > 0
  {
    Min(b.tokens + Max(Earned(c, b, now), 0), c.maxTokens)
  }

  function Reset(c: Config, now: int): Bucket {
    Bucket(c.initialTokens, now)
  }

  /** The interval as a clock duration: clipped to the longest duration the clock can represent. */
  function ClippedInterval(c: Config): int {
    if c.refillInterval >= CLOCK_MAX_MS then CLOCK_MAX else c.refillInterval * NS_PER_MS
  }

  /** How long a refused attempt asks to wait, from a second clock reading. */
  function WaitTime(c: Config, b: Bucket, now: int): int {
    Max(ClippedInterval(c) - (now - b.last), 0)
  }

  // ----- The amount of credit, in nanoseconds of refill time, and its exact conservation

  /** All credit a bucket stands for at `now`, saturated at capacity. */
  ghost function Credit(c: Config, b: Bucket, now: int): int {
    Min(c.maxTokens * Interval(c), b.tokens * Interval(c) + (now - b.last))
  }

  ghost function Whole(credit: nat, interval: int, now: int): Bucket
    requires interval > 0
  {
    Bucket(credit / interval, now - credit % interval)
  }

  /** The one bucket that stands for `credit` at `now` with nothing left to convert into tokens. */
  ghost function OfCredit(c: Config, credit: int, now: int): Bucket
    requires Sane(c) && 0 <= credit
  {
    if credit >= c.maxTokens * Interval(c) then Bucket(c.maxTokens, now) else Whole(credit, Interval(c), now)
  }

  lemma EarnedIsFloor(c: Config, b: Bucket, now: int)
    requires Valid(c, b, now)
    ensures Interval(c) > 0
    ensures Earned(c, b, now) == (now - b.last) / Interval(c)
    ensures 0 <= Earned(c, b, now) * Interval(c) <= now - b.last < (Earned(c, b, now) + 1) * Interval(c)
  {
    NestedFloor(now - b.last, NS_PER_MS, c.refillInterval);
    var e := (now - b.last) / Interval(c);
    assert now - b.last == e * Interval(c) + (now - b.last) % Interval(c);
    ProductIsMonotone(0, e, Interval(c));
  }

  /**
   Refilling neither gains nor loses credit: the bucket it leaves is the canonical bucket of the
   credit the old one stood for, in every saturated and unsaturated case.
   */
  lemma RefillIsCanonical(c: Config, b: Bucket, now: int)
    requires Valid(c, b, now)
    ensures 0 <= Credit(c, b, now) <= c.maxTokens * Interval(c)
    ensures Refill(c, b, now) == OfCredit(c, Credit(c, b, now), now)
  {
    var I := Interval(c);
    var e := Earned(c, b, now);
    EarnedIsFloor(c, b, now);
    ProductIsMonotone(0, b.tokens, I);
    ProductIsMonotone(0, c.maxTokens, I);
    ProductIsMonotone(b.tokens, c.maxTokens, I);
    assert (b.tokens + e) * I == b.tokens * I + e * I;
    assert (b.tokens + e + 1) * I == b.tokens * I + (e + 1) * I;
    assert e * c.refillInterval * NS_PER_MS == e * I;
    if b.tokens + e >= c.maxTokens {
      ProductIsMonotone(c.maxTokens, b.tokens + e, I);
    } else {
      ProductIsMonotone(b.tokens + e + 1, c.maxTokens, I);
      QuotientIsUnique(b.tokens * I + (now - b.last), I, b.tokens + e);
    }
  }

  lemma CanonicalKeepsCredit(c: Config, credit: int, now: int)
    requires Sane(c) && 0 <= credit <= c.maxTokens * Interval(c)
    ensures OfCredit(c, credit, now).tokens <= c.maxTokens
    ensures now - Interval(c) < OfCredit(c, credit, now).last <= now
    ensures Credit(c, OfCredit(c, credit, now), now) == credit
    ensures OfCredit(c, credit, now).tokens * Interval(c) + (now - OfCredit(c, credit, now).last) == credit
    ensures OfCredit(c, credit, now).tokens >= 1 <==> credit >= Interval(c)
  {
    var I := Interval(c);
    var b := OfCredit(c, credit, now);
    if credit >= c.maxTokens * I {
      ProductIsMonotone(1, c.maxTokens, I);
    } else {
      assert credit == b.tokens * I + credit % I;
      FactorCancels(b.tokens, c.maxTokens, I);
      if b.tokens >= 1 {
        ProductIsMonotone(1, b.tokens, I);
      }
    }
  }

  lemma RefillMovesForward(c: Config, b: Bucket, now: int)
    requires Valid(c, b, now)
    ensures b.last <= Refill(c, b, now).last <= now
  {
    EarnedIsFloor(c, b, now);
    assert Earned(c, b, now) * c.refillInterval * NS_PER_MS == Earned(c, b, now) * Interval(c);
  }

  /** Bucket `r` stands for the same credit as `b`, all of its whole intervals turned into tokens. */
  ghost predicate Refilled(c: Config, b: Bucket, now: int, r: Bucket) {
    && Valid(c, r, now)
    && b.last <= r.last
    && now - r.last < Interval(c)
    && Credit(c, r, now) == Credit(c, b, now) == r.tokens * Interval(c) + (now - r.last)
    && (r.tokens >= 1 <==> Credit(c, b, now) >= Interval(c))
  }

  lemma CanonicalIsRefilled(c: Config, b: Bucket, now: int, r: Bucket)
    requires Valid(c, b, now) && 0 <= Credit(c, b, now) <= c.maxTokens * Interval(c)
    requires r == OfCredit(c, Credit(c, b, now), now) && b.last <= r.last <= now
    ensures Refilled(c, b, now, r)
  {
    CanonicalKeepsCredit(c, Credit(c, b, now), now);
  }

  /** Everything a refill guarantees, without its branches. */
  lemma RefillFacts(c: Config, b: Bucket, now: int)
    requires Valid(c, b, now)
    ensures Refilled(c, b, now, Refill(c, b, now))
  {
    RefillMovesForward(c, b, now);
    RefillIsCanonical(c, b, now);
    CanonicalIsRefilled(c, b, now, Refill(c, b, now));
  }

  /** A later reading only adds elapsed time, however often the bucket was refilled before. */
  lemma RefillCommutesWithTime(c: Config, b: Bucket, t1: int, t2: int)
    requires Valid(c, b, t1) && t1 <= t2 <= CLOCK_MAX
    ensures Valid(c, Refill(c, b, t1), t2)
    ensures Credit(c, Refill(c, b, t1), t2) == Credit(c, b, t2)
    ensures Credit(c, b, t2) == Min(c.maxTokens * Interval(c), Credit(c, b, t1) + (t2 - t1))
  {
    RefillFacts(c, b, t1);
  }

  lemma AvailableIsRefilled(c: Config, b: Bucket, now: int)
    requires Valid(c, b, now)
    ensures Available(c, b, now) == Refill(c, b, now).tokens
  {
    EarnedIsFloor(c, b, now);
    if Earned(c, b, now) < 0 {
      ProductIsMonotone(Earned(c, b, now), -1, Interval(c));
    }
  }

  /**
   Polling is invisible: refilling at t1 and again at t2 leaves exactly the state of refilling at
   t2 alone, and what `available_tokens` reports is what a refill at that instant would leave.
   */
  lemma PollingIsInvisible(c: Config, b: Bucket, t1: int, t2: int)
    requires Valid(c, b, t1) && t1 <= t2 <= CLOCK_MAX
    ensures Refill(c, Refill(c, b, t1), t2) == Refill(c, b, t2)
    ensures Available(c, b, t2) == Refill(c, b, t2).tokens
    ensures Available(c, Refill(c, b, t1), t2) == Available(c, b, t2)
  {
    RefillCommutesWithTime(c, b, t1, t2);
    RefillIsCanonical(c, b, t2);
    RefillIsCanonical(c, Refill(c, b, t1), t2);
    AvailableIsRefilled(c, b, t2);
    AvailableIsRefilled(c, Refill(c, b, t1), t2);
  }

  /** The effect of an attempt in credit: granted iff one interval is there, and it costs exactly that. */
  ghost predicate Pays(c: Config, b: Bucket, now: int, after: Bucket, granted: bool) {
    && Valid(c, after, now)
    && (granted <==> Credit(c, b, now) >= Interval(c))
    && Credit(c, after, now) == Credit(c, b, now) - (if granted then Interval(c) else 0)
    && (!granted ==> after.tokens == 0 && now - after.last < Interval(c))
  }

  lemma SpendOne(c: Config, full: Bucket, now: int)
    requires Sane(c) && full.last <= now
    ensures (full.tokens - 1) * Interval(c) == full.tokens * Interval(c) - Interval(c)
    ensures full.tokens == 0 ==> full.tokens * Interval(c) == 0
    ensures full.tokens * Interval(c) + (now - full.last) <= c.maxTokens * Interval(c) && full.tokens > 0
            ==> Credit(c, full.(tokens := full.tokens - 1), now)
                == full.tokens * Interval(c) + (now - full.last) - Interval(c)
  {
  }

  /** A take succeeds exactly on one interval of credit, and costs exactly one interval. */
  lemma TakeCostsOneInterval(c: Config, b: Bucket, now: int)
    requires Valid(c, b, now)
    ensures Pays(c, b, now, Take(c, b, now).0, Take(c, b, now).1)
  {
    RefillFacts(c, b, now);
    var full := Refill(c, b, now);
    SpendOne(c, full, now);
  }

  lemma ResetCredit(c: Config, now: int)
    requires Sane(c) && 0 <= now <= CLOCK_MAX
    ensures Valid(c, Reset(c, now), now)
    ensures Credit(c, Reset(c, now), now) == c.initialTokens * Interval(c) >= 0
  {
    ProductIsMonotone(c.initialTokens, c.maxTokens, Interval(c));
    ProductIsMonotone(0, c.initialTokens, Interval(c));
  }

  lemma CreditIsBounded(c: Config, b: Bucket, now: int)
    requires Valid(c, b, now)
    ensures 0 <= Credit(c, b, now) <= c.maxTokens * Interval(c)
  {
    RefillIsCanonical(c, b, now);
  }
}
