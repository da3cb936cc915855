/**
 Runs of a token bucket: the serial history of critical sections, in lock order. Every critical
 section reads the clock while it holds the lock, so the readings never decrease along a history.
 */
module BucketRuns {
  import opened Basics
  import opened TokenBucket

  datatype Op = TakeOp | PollOp | ResetOp

  /** One critical section, run by `thread` with clock reading `at`. */
  datatype Event = Event(thread: nat, at: int, op: Op)

  datatype Reply = Granted | Refused | Tokens(n: int) | Done

  function Step(c: Config, b: Bucket, e: Event): (r: (Bucket, Reply))
    requires c.refillInterval > 0
  {
    match e.op
    case TakeOp => var (after, granted) := Take(c, b, e.at); (after, if granted then Granted else Refused)
    case PollOp => (b, Tokens(Available(c, b, e.at)))
    case ResetOp => (Reset(c, e.at), Done)
  }

  function Run(c: Config, b: Bucket, history: seq<Event>): Bucket
    requires c.refillInterval > 0
    decreases |history|
  {
    if history == [] then b else Run(c, Step(c, b, history[0]).0, history[1..])
  }

  function Replies(c: Config, b: Bucket, history: seq<Event>): (r: seq<Reply>)
    requires c.refillInterval > 0
    ensures |r| == |history|
    decreases |history|
  {
    if history == [] then []
    else
      var (after, reply) := Step(c, b, history[0]);
      [reply] + Replies(c, after, history[1..])
  }

  /** Clock readings start no earlier than `from`, never decrease and end no later than `to`. */
  ghost predicate Ordered(history: seq<Event>, from: int, to: int) {
    && from <= to
    && forall i :: 0 <= i < |history| ==>
         from <= history[i].at <= to && forall j :: i <= j < |history| ==> history[i].at <= history[j].at
  }

  function Grants(replies: seq<Reply>): nat {
    if replies == [] then 0 else (if replies[0] == Granted then 1 else 0) + Grants(replies[1..])
  }

  function Resets(history: seq<Event>): nat {
    if history == [] then 0 else (if history[0].op == ResetOp then 1 else 0) + Resets(history[1..])
  }

  lemma StepKeepsValid(c: Config, b: Bucket, e: Event)
    requires Valid(c, b, e.at)
    ensures Valid(c, Step(c, b, e).0, e.at)
  {
    match e.op
    case TakeOp => TakeCostsOneInterval(c, b, e.at);
    case PollOp =>
    case ResetOp => ResetCredit(c, e.at);
  }

  lemma {:induction false} RunKeepsValid(c: Config, b: Bucket, history: seq<Event>, from: int, to: int)
    requires Valid(c, b, from) && Ordered(history, from, to) && to <= CLOCK_MAX
    ensures Valid(c, Run(c, b, history), to)
    decreases |history|
  {
    if history == [] {
    } else {
      StepKeepsValid(c, b, history[0]);
      RunKeepsValid(c, Step(c, b, history[0]).0, history[1..], history[0].at, to);
    }
  }

  lemma {:induction false} RunConcat(c: Config, b: Bucket, h1: seq<Event>, h2: seq<Event>)
    requires c.refillInterval > 0
    ensures Run(c, b, h1 + h2) == Run(c, Run(c, b, h1), h2)
    ensures Replies(c, b, h1 + h2) == Replies(c, b, h1) + Replies(c, Run(c, b, h1), h2)
    decreases |h1|
  {
    if h1 == [] {
      assert h1 + h2 == h2;
    } else {
      assert (h1 + h2)[1..] == h1[1..] + h2;
      RunConcat(c, Step(c, b, h1[0]).0, h1[1..], h2);
    }
  }

  /** Credit after one critical section: elapsed time in, one interval out per grant, a reset's worth per reset. */
  lemma StepBalance(c: Config, b: Bucket, e: Event, from: int)
    requires Valid(c, b, from) && from <= e.at <= CLOCK_MAX
    ensures var (after, reply) := Step(c, b, e);
            Credit(c, after, e.at) + (if reply == Granted then Interval(c) else 0)
            <= Credit(c, b, from) + (e.at - from) + (if e.op == ResetOp then c.initialTokens * Interval(c) else 0)
  {
    CreditIsBounded(c, b, from);
    match e.op
    case TakeOp => TakeCostsOneInterval(c, b, e.at);
    case PollOp =>
    case ResetOp => ResetCredit(c, e.at);
  }

  /** The balance of a history, stated on the numbers alone. */
  ghost predicate Balanced(grants: nat, resets: nat, interval: int, worth: int, before: int, after: int, elapsed: int) {
    grants * interval + after <= before + elapsed + resets * worth
  }

  lemma BalanceAdds(grants: nat, resets: nat, interval: int, worth: int, before: int, mid: int, after: int,
                    dt1: int, dt2: int, granted: bool, reset: bool)
    requires Balanced(grants, resets, interval, worth, mid, after, dt2)
    requires mid + (if granted then interval else 0) <= before + dt1 + (if reset then worth else 0)
    ensures Balanced((if granted then 1 else 0) + grants, (if reset then 1 else 0) + resets, interval, worth,
                     before, after, dt1 + dt2)
  {
    assert (1 + grants) * interval == interval + grants * interval;
    assert (1 + resets) * worth == worth + resets * worth;
  }

  lemma BalanceStarts(interval: int, worth: int, before: int, after: int, elapsed: int)
    requires after <= before + elapsed
    ensures Balanced(0, 0, interval, worth, before, after, elapsed)
  {
  }

  lemma TimeAddsCredit(c: Config, b: Bucket, from: int, to: int)
    requires from <= to
    ensures Credit(c, b, to) <= Credit(c, b, from) + (to - from)
  {
  }

  lemma {:induction false} RunBalance(c: Config, b: Bucket, history: seq<Event>, from: int, to: int)
    requires Valid(c, b, from) && Ordered(history, from, to) && to <= CLOCK_MAX
    ensures Balanced(Grants(Replies(c, b, history)), Resets(history), Interval(c), c.initialTokens * Interval(c),
                     Credit(c, b, from), Credit(c, Run(c, b, history), to), to - from)
    decreases |history|
  {
    hide Step;
    hide Credit;
    hide Balanced;
    if history == [] {
      TimeAddsCredit(c, b, from, to);
      BalanceStarts(Interval(c), c.initialTokens * Interval(c), Credit(c, b, from), Credit(c, b, to), to - from);
    } else {
      var e := history[0];
      var (after, reply) := Step(c, b, e);
      StepKeepsValid(c, b, e);
      StepBalance(c, b, e, from);
      RunBalance(c, after, history[1..], e.at, to);
      assert Replies(c, b, history)[1..] == Replies(c, after, history[1..]);
      BalanceAdds(Grants(Replies(c, after, history[1..])), Resets(history[1..]), Interval(c),
                  c.initialTokens * Interval(c), Credit(c, b, from), Credit(c, after, e.at),
                  Credit(c, Run(c, after, history[1..]), to), e.at - from, to - e.at,
                  reply == Granted, e.op == ResetOp);
    }
  }

  lemma BalanceBounds(grants: nat, resets: nat, interval: int, initial: nat, capacity: nat, elapsed: int,
                      before: int, after: int)
    requires interval > 0 && elapsed >= 0 && before <= capacity * interval && after >= 0
    requires Balanced(grants, resets, interval, initial * interval, before, after, elapsed)
    ensures grants <= capacity + elapsed / interval + resets * initial
  {
    var q := elapsed / interval;
    assert resets * (initial * interval) == (resets * initial) * interval;
    assert elapsed < (q + 1) * interval;
    var limit := capacity + resets * initial + q + 1;
    assert limit * interval == capacity * interval + (resets * initial) * interval + (q + 1) * interval;
    FactorCancels(grants, limit, interval);
  }

  /**
   The rate bound on any stretch of a history: grants are limited by the burst capacity, the elapsed
   time and what resets inside the stretch hand out.
   */
  lemma RateBound(c: Config, b: Bucket, history: seq<Event>, from: int, to: int)
    requires Valid(c, b, from) && Ordered(history, from, to) && to <= CLOCK_MAX
    ensures Interval(c) > 0
    ensures Grants(Replies(c, b, history))
            <= c.maxTokens + (to - from) / Interval(c) + Resets(history) * c.initialTokens
  {
    RunBalance(c, b, history, from, to);
    RunKeepsValid(c, b, history, from, to);
    CreditIsBounded(c, Run(c, b, history), to);
    CreditIsBounded(c, b, from);
    BalanceBounds(Grants(Replies(c, b, history)), Resets(history), Interval(c), c.initialTokens, c.maxTokens,
                  to - from, Credit(c, b, from), Credit(c, Run(c, b, history), to));
  }
}
