/**
 The textbook token bucket: a real-valued level that rises continuously by one token per interval,
 saturates at capacity and pays one whole token per grant. The integer limiter refines it exactly.
 */
module ContinuousBucket {
  import opened Basics
  import opened TokenBucket
  import opened BucketRuns

  datatype Ideal = Ideal(level: real, at: int)

  ghost function Advance(c: Config, s: Ideal, now: int): Ideal
    requires Sane(c)
  {
    Ideal(RealMin(c.maxTokens as real, s.level + (now - s.at) as real / Interval(c) as real), now)
  }

  ghost function IdealStep(c: Config, s: Ideal, e: Event): (Ideal, Reply)
    requires Sane(c)
  {
    var risen := Advance(c, s, e.at);
    match e.op
    case TakeOp => if risen.level >= 1.0 then (risen.(level := risen.level - 1.0), Granted) else (risen, Refused)
    case PollOp => (risen, Tokens(risen.level.Floor))
    case ResetOp => (Ideal(c.initialTokens as real, e.at), Done)
  }

  ghost function IdealRun(c: Config, s: Ideal, history: seq<Event>): Ideal
    requires Sane(c)
    decreases |history|
  {
    if history == [] then s else IdealRun(c, IdealStep(c, s, history[0]).0, history[1..])
  }

  ghost function IdealReplies(c: Config, s: Ideal, history: seq<Event>): seq<Reply>
    requires Sane(c)
    decreases |history|
  {
    if history == [] then []
    else
      var (after, reply) := IdealStep(c, s, history[0]);
      [reply] + IdealReplies(c, after, history[1..])
  }

  /** The level an integer bucket stands for: whole tokens plus the uncollected fraction, capped. */
  ghost function Level(c: Config, b: Bucket, now: int): real
    requires Sane(c)
  {
    RealMin(c.maxTokens as real, b.tokens as real + (now - b.last) as real / Interval(c) as real)
  }

  ghost predicate Represents(c: Config, b: Bucket, s: Ideal) {
    Valid(c, b, s.at) && s.level == Level(c, b, s.at)
  }

  lemma DivMul(a: real, d: real)
    requires d > 0.0
    ensures (a / d) * d == a
  {
  }

  lemma OrderScales(a: real, b: real, d: real)
    requires d > 0.0
    ensures a * d <= b * d <==> a <= b
  {
    if a <= b {
      assert (b - a) * d >= 0.0;
    } else {
      assert (a - b) * d > 0.0;
    }
  }

  /** Level counted in intervals is credit counted in nanoseconds. */
  lemma LevelIsCredit(c: Config, b: Bucket, now: int)
    requires Valid(c, b, now)
    ensures Level(c, b, now) * Interval(c) as real == Credit(c, b, now) as real
  {
    var I := Interval(c) as real;
    var fraction := (now - b.last) as real / I;
    DivMul((now - b.last) as real, I);
    assert (b.tokens as real + fraction) * I == b.tokens as real * I + fraction * I;
    assert b.tokens as real * I == (b.tokens * Interval(c)) as real;
    assert c.maxTokens as real * I == (c.maxTokens * Interval(c)) as real;
    OrderScales(c.maxTokens as real, b.tokens as real + fraction, I);
  }

  lemma QuotientsAdd(a: real, b: real, d: real)
    requires d > 0.0 && b >= 0.0
    ensures (a + b) / d == a / d + b / d
    ensures b / d >= 0.0
  {
  }

  lemma AdvanceMatches(c: Config, b: Bucket, s: Ideal, now: int)
    requires Represents(c, b, s) && s.at <= now <= CLOCK_MAX
    ensures Represents(c, b, Advance(c, s, now))
  {
    QuotientsAdd((s.at - b.last) as real, (now - s.at) as real, Interval(c) as real);
    assert (s.at - b.last) as real + (now - s.at) as real == (now - b.last) as real;
  }

  /** The arithmetic of paying one interval, or nothing, out of `before`. */
  lemma LevelAfter(before: real, after: real, paid: bool, creditBefore: real, creditAfter: real, d: real)
    requires d > 0.0 && before * d == creditBefore && after * d == creditAfter
    requires creditAfter == creditBefore - (if paid then d else 0.0)
    ensures after == before - (if paid then 1.0 else 0.0)
    ensures before >= 1.0 <==> creditBefore >= d
  {
    var expected := before - (if paid then 1.0 else 0.0);
    assert (before - 1.0) * d == before * d - d;
    OrderScales(1.0, before, d);
    OrderScales(after, expected, d);
    OrderScales(expected, after, d);
  }

  lemma PaidLevel(c: Config, b: Bucket, now: int, after: Bucket, granted: bool)
    requires Valid(c, b, now) && Pays(c, b, now, after, granted)
    ensures granted <==> Level(c, b, now) >= 1.0
    ensures Level(c, after, now) == Level(c, b, now) - (if granted then 1.0 else 0.0)
  {
    hide Level;
    hide Credit;
    LevelIsCredit(c, b, now);
    LevelIsCredit(c, after, now);
    LevelAfter(Level(c, b, now), Level(c, after, now), granted,
               Credit(c, b, now) as real, Credit(c, after, now) as real, Interval(c) as real);
  }

  /** A take succeeds iff the level is at least one, and lowers it by exactly one. */
  lemma TakeIffLevel(c: Config, b: Bucket, now: int)
    requires Valid(c, b, now)
    ensures var (after, granted) := Take(c, b, now);
            && Valid(c, after, now)
            && (granted <==> Level(c, b, now) >= 1.0)
            && Level(c, after, now) == Level(c, b, now) - (if granted then 1.0 else 0.0)
  {
    TakeCostsOneInterval(c, b, now);
    PaidLevel(c, b, now, Take(c, b, now).0, Take(c, b, now).1);
  }

  lemma FractionBounds(x: real, d: real, rest: real)
    requires d > 0.0 && x * d == rest && 0.0 <= rest < d
    ensures 0.0 <= x < 1.0
  {
    OrderScales(0.0, x, d);
    OrderScales(1.0, x, d);
  }

  lemma FloorOfLevel(level: real, tokens: nat, rest: int, interval: int)
    requires 0 <= rest < interval
    requires level * interval as real == (tokens * interval + rest) as real
    ensures level.Floor == tokens
  {
    var t, d := tokens as real, interval as real;
    assert (tokens * interval) as real == t * d;
    assert (level - t) * d == level * d - t * d;
    assert (tokens * interval + rest) as real == (tokens * interval) as real + rest as real;
    FractionBounds(level - t, d, rest as real);
  }

  lemma RefilledLevel(c: Config, b: Bucket, now: int, r: Bucket)
    requires Valid(c, b, now) && Refilled(c, b, now, r)
    ensures Level(c, b, now).Floor == r.tokens
  {
    LevelIsCredit(c, b, now);
    FloorOfLevel(Level(c, b, now), r.tokens, now - r.last, Interval(c));
  }

  /** `available_tokens` is the level rounded down. */
  lemma AvailableIsFloor(c: Config, b: Bucket, now: int)
    requires Valid(c, b, now)
    ensures Available(c, b, now) == Level(c, b, now).Floor
  {
    AvailableIsRefilled(c, b, now);
    RefillFacts(c, b, now);
    RefilledLevel(c, b, now, Refill(c, b, now));
  }

  lemma ResetLevel(c: Config, now: int)
    requires Sane(c) && 0 <= now <= CLOCK_MAX
    ensures Represents(c, Reset(c, now), Ideal(c.initialTokens as real, now))
  {
    assert 0.0 / (Interval(c) as real) == 0.0;
  }

  lemma StepRefines(c: Config, b: Bucket, s: Ideal, e: Event)
    requires Represents(c, b, s) && s.at <= e.at <= CLOCK_MAX
    ensures Step(c, b, e).1 == IdealStep(c, s, e).1
    ensures Represents(c, Step(c, b, e).0, IdealStep(c, s, e).0)
  {
    AdvanceMatches(c, b, s, e.at);
    match e.op
    case TakeOp => TakeIffLevel(c, b, e.at);
    case PollOp => AvailableIsFloor(c, b, e.at);
    case ResetOp => ResetLevel(c, e.at);
  }

  /**
   Over every run of takes, polls and resets, the integer limiter gives exactly the replies of the
   continuous bucket and keeps standing for its level: millisecond truncation and carried remainders
   never gain or lose credit.
   */
  lemma {:induction false} RunRefines(c: Config, b: Bucket, s: Ideal, history: seq<Event>, to: int)
    requires Represents(c, b, s) && Ordered(history, s.at, to) && to <= CLOCK_MAX
    ensures Replies(c, b, history) == IdealReplies(c, s, history)
    ensures Represents(c, Run(c, b, history), IdealRun(c, s, history))
    decreases |history|
  {
    if history == [] {
    } else {
      StepRefines(c, b, s, history[0]);
      RunRefines(c, Step(c, b, history[0]).0, IdealStep(c, s, history[0]).0, history[1..], to);
    }
  }

  /** A limiter starts as the continuous bucket at its initial level, whatever configuration it was given. */
  lemma LimiterRefines(config: Config, created: int, history: seq<Event>, to: int)
    requires config.maxTokens <= 0xFFFF && config.initialTokens <= 0xFFFF && config.refillInterval <= I64_MAX
    requires 0 <= created && Ordered(history, created, to) && to <= CLOCK_MAX
    ensures var c := Sanitized(config);
            && Sane(c)
            && Replies(c, Reset(c, created), history)
               == IdealReplies(c, Ideal(c.initialTokens as real, created), history)
  {
    var c := Sanitized(config);
    SanitizedIsSane(config);
    ResetLevel(c, created);
    RunRefines(c, Reset(c, created), Ideal(c.initialTokens as real, created), history, to);
  }

  lemma {:induction false} IdealRunEnds(c: Config, s: Ideal, history: seq<Event>, to: int)
    requires Sane(c) && Ordered(history, s.at, to)
    ensures s.at <= IdealRun(c, s, history).at <= to
    decreases |history|
  {
    if history == [] {
    } else {
      IdealRunEnds(c, IdealStep(c, s, history[0]).0, history[1..], to);
    }
  }
}
