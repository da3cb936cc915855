/**
 The rate limiter shared by any number of threads, as a transition system. A critical section is one
 step; the deadline check and the sleep of the blocking loop are steps of their own, so threads
 interleave freely between them. The clock moves whenever it likes, never backward.
 */
module RateSystem {
  import opened Basics
  import opened TokenBucket
  import opened BucketRuns
  import opened Acquisition
  import CB = ContinuousBucket

  /**
   Where a thread stands in `acquire_until`. `mark` is the length of the history when its latest
   refused attempt had just been recorded.
   */
  datatype Phase =
    | Idle
    | Trying(deadline: Option<int>)
    | Refused(deadline: Option<int>, wait: int, mark: nat)
    | Sleeping(deadline: Option<int>, wake: int, mark: nat)
    | Retrying(deadline: Option<int>, mark: nat)

  /** The shared state; `history` lists the critical sections so far in lock order, `told` what each one answered. */
  datatype System = System(
    clock: int, bucket: Bucket, phases: map<nat, Phase>, history: seq<Event>, told: seq<Reply>)

  datatype Move =
    | Tick(to: int)
    | Begin(thread: nat, deadline: Option<int>)
    | Attempt(thread: nat, later: int)
    | Decide(thread: nat)
    | Wake(thread: nat)
    | TryOnce(thread: nat)
    | Poll(thread: nat)
    | ResetAll(thread: nat)

  function PhaseOf(s: System, thread: nat): Phase {
    if thread in s.phases then s.phases[thread] else Idle
  }

  ghost predicate Enabled(s: System, m: Move) {
    match m
    case Tick(to) => s.clock <= to <= CLOCK_MAX
    case Begin(t, _) => PhaseOf(s, t).Idle?
    case Attempt(t, later) => (PhaseOf(s, t).Trying? || PhaseOf(s, t).Retrying?) && s.clock <= later <= CLOCK_MAX
    case Decide(t) => PhaseOf(s, t).Refused?
    case Wake(t) => PhaseOf(s, t).Sleeping? && PhaseOf(s, t).wake <= s.clock
    case TryOnce(t) => PhaseOf(s, t).Idle?
    case Poll(t) => PhaseOf(s, t).Idle?
    case ResetAll(t) => PhaseOf(s, t).Idle?
  }

  function Section(c: Config, s: System, e: Event): System
    requires c.refillInterval > 0
  {
    var (after, reply) := Step(c, s.bucket, e);
    s.(bucket := after, history := s.history + [e], told := s.told + [reply])
  }

  function Put(s: System, thread: nat, phase: Phase): System {
    s.(phases := s.phases[thread := phase])
  }

  ghost function Next(c: Config, s: System, m: Move): System
    requires c.refillInterval > 0 && Enabled(s, m)
  {
    match m
    case Tick(to) => s.(clock := to)
    case Begin(t, deadline) => Put(s, t, Trying(deadline))
    case Attempt(t, later) =>
      var granted := Take(c, s.bucket, s.clock).1;
      var after := Section(c, s, Event(t, s.clock, TakeOp)).(clock := later);
      if granted then Put(after, t, Idle)
      else Put(after, t, Phase.Refused(PhaseOf(s, t).deadline, WaitTime(c, after.bucket, later), |after.history|))
    case Decide(t) =>
      var p := PhaseOf(s, t);
      if p.deadline.Some? && p.wait > p.deadline.value - s.clock then Put(s, t, Idle)
      else Put(s, t, Sleeping(p.deadline, s.clock + p.wait, p.mark))
    case Wake(t) => Put(s, t, Retrying(PhaseOf(s, t).deadline, PhaseOf(s, t).mark))
    case TryOnce(t) => Section(c, s, Event(t, s.clock, TakeOp))
    case Poll(t) => Section(c, s, Event(t, s.clock, PollOp))
    case ResetAll(t) => Section(c, s, Event(t, s.clock, ResetOp))
  }

  ghost predicate Start(c: Config, s: System) {
    && Sane(c) && 0 <= s.clock <= CLOCK_MAX
    && s.bucket == Reset(c, s.clock) && s.phases == map[] && s.history == [] && s.told == []
  }

  /** `moves` can be made from `s`, one after the other, and lead to `s'`. */
  ghost predicate Leads(c: Config, s: System, moves: seq<Move>, s': System)
    requires c.refillInterval > 0
    decreases |moves|
  {
    if moves == [] then s == s'
    else Enabled(s, moves[0]) && Leads(c, Next(c, s, moves[0]), moves[1..], s')
  }

  // ----- The invariant

  /** A thread that saw no token still sees why: the bucket was empty at its mark, one interval short of `ready`. */
  ghost predicate EmptyAt(c: Config, b0: Bucket, history: seq<Event>, mark: nat, ready: int)
    requires c.refillInterval > 0
  {
    && mark <= |history|
    && var b := Run(c, b0, history[..mark]);
       b.tokens == 0 && (FitsClock(c) ==> ready >= b.last + Interval(c))
  }

  ghost predicate PhaseOk(c: Config, b0: Bucket, s: System, p: Phase)
    requires c.refillInterval > 0
  {
    match p
    case Idle => true
    case Trying(_) => true
    case Refused(_, wait, mark) => EmptyAt(c, b0, s.history, mark, s.clock + wait)
    case Sleeping(_, wake, mark) => EmptyAt(c, b0, s.history, mark, wake)
    case Retrying(_, mark) => EmptyAt(c, b0, s.history, mark, s.clock)
  }

  ghost predicate Inv(c: Config, b0: Bucket, created: int, s: System)
    requires c.refillInterval > 0
  {
    && Valid(c, b0, created)
    && Ordered(s.history, created, s.clock) && s.clock <= CLOCK_MAX
    && s.bucket == Run(c, b0, s.history) && s.told == Replies(c, b0, s.history)
    && forall t :: t in s.phases ==> PhaseOk(c, b0, s, s.phases[t])
  }

  lemma OrderedExtends(history: seq<Event>, from: int, to: int, e: Event)
    requires Ordered(history, from, to) && to == e.at
    ensures Ordered(history + [e], from, to)
  {
  }

  lemma EmptyAtLasts(c: Config, b0: Bucket, history: seq<Event>, e: Event, mark: nat, ready: int, later: int)
    requires c.refillInterval > 0 && EmptyAt(c, b0, history, mark, ready) && ready <= later
    ensures EmptyAt(c, b0, history + [e], mark, later)
    ensures EmptyAt(c, b0, history, mark, later)
  {
    assert (history + [e])[..mark] == history[..mark];
  }

  lemma SectionKeepsInv(c: Config, b0: Bucket, created: int, s: System, e: Event)
    requires c.refillInterval > 0 && Inv(c, b0, created, s) && e.at == s.clock
    ensures Inv(c, b0, created, Section(c, s, e))
  {
    var s' := Section(c, s, e);
    OrderedExtends(s.history, created, s.clock, e);
    RunConcat(c, b0, s.history, [e]);
    assert [e][1..] == [];
    assert Run(c, s.bucket, [e]) == Step(c, s.bucket, e).0 && Replies(c, s.bucket, [e]) == [Step(c, s.bucket, e).1];
    forall t | t in s'.phases ensures PhaseOk(c, b0, s', s'.phases[t]) {
      var p := s.phases[t];
      assert PhaseOk(c, b0, s, p);
      match p
      case Refused(_, wait, mark) => EmptyAtLasts(c, b0, s.history, e, mark, s.clock + wait, s.clock + wait);
      case Sleeping(_, wake, mark) => EmptyAtLasts(c, b0, s.history, e, mark, wake, wake);
      case Retrying(_, mark) => EmptyAtLasts(c, b0, s.history, e, mark, s.clock, s.clock);
      case _ =>
    }
  }

  lemma TickKeepsInv(c: Config, b0: Bucket, created: int, s: System, to: int)
    requires c.refillInterval > 0 && Inv(c, b0, created, s) && s.clock <= to <= CLOCK_MAX
    ensures Inv(c, b0, created, s.(clock := to))
  {
  }

  lemma PutKeepsInv(c: Config, b0: Bucket, created: int, s: System, t: nat, p: Phase)
    requires c.refillInterval > 0 && Inv(c, b0, created, s) && PhaseOk(c, b0, s, p)
    ensures Inv(c, b0, created, Put(s, t, p))
  {
  }

  lemma InvBucket(c: Config, b0: Bucket, created: int, s: System)
    requires c.refillInterval > 0 && Inv(c, b0, created, s)
    ensures Valid(c, s.bucket, s.clock)
  {
    RunKeepsValid(c, b0, s.history, created, s.clock);
  }

  lemma AttemptKeepsInv(c: Config, b0: Bucket, created: int, s: System, t: nat, later: int)
    requires c.refillInterval > 0 && Inv(c, b0, created, s) && Enabled(s, Attempt(t, later))
    ensures Inv(c, b0, created, Next(c, s, Attempt(t, later)))
  {
    var e := Event(t, s.clock, TakeOp);
    var after := Section(c, s, e).(clock := later);
    InvBucket(c, b0, created, s);
    TakeCostsOneInterval(c, s.bucket, s.clock);
    SectionKeepsInv(c, b0, created, s, e);
    TickKeepsInv(c, b0, created, Section(c, s, e), later);
    if Take(c, s.bucket, s.clock).1 {
      PutKeepsInv(c, b0, created, after, t, Idle);
    } else {
      var p := Phase.Refused(PhaseOf(s, t).deadline, WaitTime(c, after.bucket, later), |after.history|);
      assert after.history[..|after.history|] == after.history;
      PutKeepsInv(c, b0, created, after, t, p);
    }
  }

  lemma NextKeepsInv(c: Config, b0: Bucket, created: int, s: System, m: Move)
    requires c.refillInterval > 0 && Inv(c, b0, created, s) && Enabled(s, m)
    ensures Inv(c, b0, created, Next(c, s, m))
  {
    hide Take;
    match m
    case Tick(to) => TickKeepsInv(c, b0, created, s, to);
    case Begin(t, deadline) => PutKeepsInv(c, b0, created, s, t, Trying(deadline));
    case Attempt(t, later) => AttemptKeepsInv(c, b0, created, s, t, later);
    case Decide(t) =>
      var p := PhaseOf(s, t);
      PutKeepsInv(c, b0, created, s, t, Idle);
      PutKeepsInv(c, b0, created, s, t, Sleeping(p.deadline, s.clock + p.wait, p.mark));
    case Wake(t) =>
      var p := PhaseOf(s, t);
      EmptyAtLasts(c, b0, s.history, Event(t, s.clock, PollOp), p.mark, p.wake, s.clock);
      PutKeepsInv(c, b0, created, s, t, Retrying(p.deadline, p.mark));
    case TryOnce(t) => SectionKeepsInv(c, b0, created, s, Event(t, s.clock, TakeOp));
    case Poll(t) => SectionKeepsInv(c, b0, created, s, Event(t, s.clock, PollOp));
    case ResetAll(t) => SectionKeepsInv(c, b0, created, s, Event(t, s.clock, ResetOp));
  }

  lemma {:induction false} RunKeepsInv(c: Config, b0: Bucket, created: int, s: System, moves: seq<Move>, s': System)
    requires c.refillInterval > 0 && Inv(c, b0, created, s) && Leads(c, s, moves, s')
    ensures Inv(c, b0, created, s')
    decreases |moves|
  {
    if moves == [] {
    } else {
      NextKeepsInv(c, b0, created, s, moves[0]);
      RunKeepsInv(c, b0, created, Next(c, s, moves[0]), moves[1..], s');
    }
  }

  lemma Reachable(c: Config, start: System, moves: seq<Move>, s: System)
    requires Start(c, start) && Leads(c, start, moves, s)
    ensures Inv(c, start.bucket, start.clock, s)
  {
    ResetCredit(c, start.clock);
    RunKeepsInv(c, start.bucket, start.clock, start, moves, s);
  }

  // ----- What every run guarantees

  /**
   Every thread acts on what one bucket replies to the history in lock order. In the step after any run,
   an attempt of the blocking loop returns iff the reply to it is a grant and is refused otherwise;
   `try_acquire` is granted iff the bucket pays; `available_tokens` gets the count; a reset is done; and a
   step that is no critical section adds no reply.
   */
  lemma ThreadsActOnReplies(c: Config, start: System, moves: seq<Move>, s: System, m: Move)
    requires Start(c, start) && Leads(c, start, moves, s) && Enabled(s, m)
    ensures var s', n := Next(c, s, m), |s.history|;
            var replies := Replies(c, start.bucket, s'.history);
            && s.history <= s'.history && s.told <= s'.told == replies && |s.told| == n
            && match m
               case Attempt(t, _) =>
                 && s'.history[n..] == [Event(t, s.clock, TakeOp)]
                 && (PhaseOf(s', t).Idle? <==> replies[n] == Granted)
                 && (PhaseOf(s', t).Refused? <==> replies[n] == BucketRuns.Refused)
               case TryOnce(t) =>
                 && s'.history[n..] == [Event(t, s.clock, TakeOp)]
                 && (replies[n] == Granted <==> Credit(c, s.bucket, s.clock) >= Interval(c))
                 && replies[n] in {Granted, BucketRuns.Refused}
               case Poll(t) =>
                 && s'.history[n..] == [Event(t, s.clock, PollOp)]
                 && replies[n] == Tokens(Refill(c, s.bucket, s.clock).tokens)
               case ResetAll(t) => s'.history[n..] == [Event(t, s.clock, ResetOp)] && replies[n] == Done
               case _ => s'.history == s.history
  {
    hide Refill;
    Reachable(c, start, moves, s);
    NextKeepsInv(c, start.bucket, start.clock, s, m);
    InvBucket(c, start.bucket, start.clock, s);
    TakeCostsOneInterval(c, s.bucket, s.clock);
    AvailableIsRefilled(c, s.bucket, s.clock);
  }

  function DeadlineOf(p: Phase): Option<int> {
    if p.Idle? then None else p.deadline
  }

  /** A thread refused at `later` gets a token from what it left iff it sleeps for the wait it was given. */
  ghost predicate ExactWait(c: Config, left: Bucket, later: int, wait: int)
    requires c.refillInterval > 0
  {
    forall wake :: later <= wake <= CLOCK_MAX ==> (Take(c, left, wake).1 <==> wake >= later + wait)
  }

  lemma RefusedWaitIsExact(c: Config, b: Bucket, now: int, later: int)
    requires Valid(c, b, now) && now <= later <= CLOCK_MAX && !Take(c, b, now).1 && c.refillInterval < CLOCK_MAX_MS
    ensures ExactWait(c, Take(c, b, now).0, later, WaitTime(c, Take(c, b, now).0, later))
  {
    hide Take;
    hide WaitTime;
    var left := Take(c, b, now).0;
    forall wake | later <= wake <= CLOCK_MAX
      ensures Take(c, left, wake).1 <==> wake >= later + WaitTime(c, left, later)
    {
      WaitIsExact(c, b, now, later, wake);
    }
  }

  /**
   The life of a blocked thread, in the step after any run. It keeps the deadline it began with; a refused
   attempt has an exact wait; at its deadline check it gives up iff it has a deadline and the wait exceeds
   what is left of it at that reading, and otherwise sleeps for the wait; it tries again when that is over.
   No step changes where any other thread stands.
   */
  lemma BlockedThreadSteps(c: Config, start: System, moves: seq<Move>, s: System, m: Move)
    requires Start(c, start) && Leads(c, start, moves, s) && Enabled(s, m)
    ensures var s' := Next(c, s, m);
            && (forall u :: m.Tick? || u != m.thread ==> PhaseOf(s', u) == PhaseOf(s, u))
            && match m
               case Begin(t, deadline) => PhaseOf(s', t) == Trying(deadline)
               case Attempt(t, later) =>
                 var p := PhaseOf(s', t);
                 && (p.Idle? || (p.Refused? && p.deadline == DeadlineOf(PhaseOf(s, t)) && p.wait >= 0))
                 && (p.Refused? && c.refillInterval < CLOCK_MAX_MS ==> ExactWait(c, s'.bucket, later, p.wait))
               case Decide(t) =>
                 var p := PhaseOf(s, t);
                 && p.Refused?
                 && (PhaseOf(s', t).Idle? <==> p.deadline.Some? && s.clock + p.wait > p.deadline.value)
                 && (!PhaseOf(s', t).Idle? ==> PhaseOf(s', t) == Sleeping(p.deadline, s.clock + p.wait, p.mark))
               case Wake(t) =>
                 && PhaseOf(s, t).Sleeping? && PhaseOf(s, t).wake <= s.clock
                 && PhaseOf(s', t) == Retrying(DeadlineOf(PhaseOf(s, t)), PhaseOf(s, t).mark)
               case _ => s'.phases == s.phases
  {
    hide Take;
    hide WaitTime;
    Reachable(c, start, moves, s);
    InvBucket(c, start.bucket, start.clock, s);
    if m.Attempt? && !Take(c, s.bucket, s.clock).1 {
      TakeCostsOneInterval(c, s.bucket, s.clock);
      WaitEndsAt(c, Take(c, s.bucket, s.clock).0, m.later);
      if c.refillInterval < CLOCK_MAX_MS {
        RefusedWaitIsExact(c, s.bucket, s.clock, m.later);
      }
    }
  }

  lemma OrderedSlice(history: seq<Event>, from: int, to: int, i: nat, j: nat)
    requires Ordered(history, from, to) && i <= j < |history|
    ensures Ordered(history[i..j + 1], history[i].at, history[j].at)
    ensures Ordered(history[..i], from, history[i].at)
  {
  }

  lemma WindowReplies(c: Config, b: Bucket, h: seq<Event>, i: nat, j: nat)
    requires c.refillInterval > 0 && i <= j < |h|
    ensures Replies(c, b, h)[i..j + 1] == Replies(c, Run(c, b, h[..i]), h[i..j + 1])
  {
    hide Step;
    var before := Run(c, b, h[..i]);
    assert h[..i] + h[i..] == h && h[i..j + 1] + h[j + 1..] == h[i..];
    RunConcat(c, b, h[..i], h[i..]);
    RunConcat(c, before, h[i..j + 1], h[j + 1..]);
  }

  lemma WindowBound(c: Config, b: Bucket, h: seq<Event>, from: int, to: int, i: nat, j: nat)
    requires Valid(c, b, from) && Ordered(h, from, to) && to <= CLOCK_MAX && i <= j < |h|
    ensures Interval(c) > 0
    ensures Grants(Replies(c, b, h)[i..j + 1])
            <= c.maxTokens + (h[j].at - h[i].at) / Interval(c) + Resets(h[i..j + 1]) * c.initialTokens
  {
    hide Step;
    hide Replies;
    hide Run;
    OrderedSlice(h, from, to, i, j);
    RunKeepsValid(c, b, h[..i], from, h[i].at);
    RateBound(c, Run(c, b, h[..i]), h[i..j + 1], h[i].at, h[j].at);
    WindowReplies(c, b, h, i, j);
  }

  /**
   The rate bound over whole concurrent runs. In the window from critical section i to critical
   section j, both included, any number of threads together get at most the burst capacity, plus one
   grant per whole interval between the two readings, plus the initial tokens of each reset inside.
   */
  lemma RateBoundOverRuns(c: Config, start: System, moves: seq<Move>, s: System, i: nat, j: nat)
    requires Start(c, start) && Leads(c, start, moves, s) && i <= j < |s.history|
    ensures Interval(c) > 0
    ensures |s.told| == |s.history|
    ensures Grants(s.told[i..j + 1])
            <= c.maxTokens + (s.history[j].at - s.history[i].at) / Interval(c)
               + Resets(s.history[i..j + 1]) * c.initialTokens
  {
    Reachable(c, start, moves, s);
    WindowBound(c, start.bucket, s.history, start.clock, s.clock, i, j);
  }

  /** Threads together see exactly the replies of one continuous bucket serving them in lock order. */
  lemma ConcurrentRunsRefine(c: Config, start: System, moves: seq<Move>, s: System)
    requires Start(c, start) && Leads(c, start, moves, s)
    ensures s.told == CB.IdealReplies(c, CB.Ideal(c.initialTokens as real, start.clock), s.history)
    ensures var last := CB.IdealRun(c, CB.Ideal(c.initialTokens as real, start.clock), s.history);
            Available(c, s.bucket, s.clock) == CB.Advance(c, last, s.clock).level.Floor
  {
    var ideal := CB.Ideal(c.initialTokens as real, start.clock);
    Reachable(c, start, moves, s);
    CB.ResetLevel(c, start.clock);
    CB.RunRefines(c, start.bucket, ideal, s.history, s.clock);
    var last := CB.IdealRun(c, ideal, s.history);
    CB.IdealRunEnds(c, ideal, s.history, s.clock);
    CB.AdvanceMatches(c, s.bucket, last, s.clock);
    CB.AvailableIsFloor(c, s.bucket, s.clock);
  }

  lemma RefusedTakeIsQuiet(c: Config, b: Bucket, now: int)
    requires Valid(c, b, now) && b.tokens == 0 && !Take(c, b, now).1
    ensures Take(c, b, now).0 == b
  {
    EarnedIsFloor(c, b, now);
  }

  /** A history without grants or resets leaves an empty bucket that earned nothing untouched. */
  lemma {:induction false} QuietHistory(c: Config, b: Bucket, history: seq<Event>, from: int, to: int)
    requires Valid(c, b, from) && b.tokens == 0 && Ordered(history, from, to) && to <= CLOCK_MAX
    requires Grants(Replies(c, b, history)) == 0 && Resets(history) == 0
    ensures Run(c, b, history) == b
    decreases |history|
  {
    if history == [] {
    } else {
      var e := history[0];
      var reply := Step(c, b, e).1;
      assert Replies(c, b, history)[0] == reply;
      assert Replies(c, b, history)[1..] == Replies(c, Step(c, b, e).0, history[1..]);
      StepKeepsValid(c, b, e);
      if e.op == TakeOp {
        RefusedTakeIsQuiet(c, b, e.at);
      }
      QuietHistory(c, Step(c, b, e).0, history[1..], e.at, to);
    }
  }

  /**
   Blocking progress with interference: when the interval fits the clock, an attempt that is refused
   again after its sleep means that another grant or a reset was recorded since its previous attempt.
   */
  lemma RefusedAgainMeansInterference(c: Config, start: System, moves: seq<Move>, s: System, t: nat)
    requires Start(c, start) && FitsClock(c) && Leads(c, start, moves, s)
    requires PhaseOf(s, t).Retrying? && !Take(c, s.bucket, s.clock).1
    ensures PhaseOf(s, t).mark <= |s.history| == |s.told|
    ensures var mark := PhaseOf(s, t).mark; Grants(s.told[mark..]) > 0 || Resets(s.history[mark..]) > 0
  {
    hide Step;
    hide Take;
    hide Refill;
    Reachable(c, start, moves, s);
    var h, mark := s.history, PhaseOf(s, t).mark;
    assert PhaseOk(c, start.bucket, s, s.phases[t]);
    var b := Run(c, start.bucket, h[..mark]);
    var from := if mark < |h| then h[mark].at else s.clock;
    assert Ordered(h[..mark], start.clock, from) && Ordered(h[mark..], from, s.clock);
    RunKeepsValid(c, start.bucket, h[..mark], start.clock, from);
    RunConcat(c, start.bucket, h[..mark], h[mark..]);
    assert h[..mark] + h[mark..] == h;
    assert Replies(c, start.bucket, h)[mark..] == Replies(c, b, h[mark..]);
    if Grants(Replies(c, b, h[mark..])) == 0 && Resets(h[mark..]) == 0 {
      QuietHistory(c, b, h[mark..], from, s.clock);
      EmptyForOneInterval(c, b, s.clock);
      assert false;
    }
  }
}
