/**
 The first-decode guard: double-checked locking around the creation of decoder handles, as steps of any
 number of threads under sequential consistency. Each thread may make any number of handles.
 */
module DecodeGuard {
  /**
   Where a thread stands in `make_handle_serialized`. A creation is cold when it began with the ready
   flag false, warm when the flag had been seen true.
   */
  datatype Phase =
    | Outside
    | WantsLock
    | Rechecks
    | CreatingCold
    | Publishes(created: bool)
    | ReleasesDone
    | ReleasesWarm
    | EntersWarm
    | CreatingWarm

  /** `holders` are the threads inside the lock; `successes` counts the creations that returned a handle. */
  datatype Guard = Guard(ready: bool, holders: set<nat>, phases: map<nat, Phase>, successes: nat)

  datatype Move =
    | FirstCheck(thread: nat)
    | Lock(thread: nat)
    | Recheck(thread: nat)
    | FinishCold(thread: nat, created: bool)
    | Publish(thread: nat)
    | Unlock(thread: nat)
    | StartWarm(thread: nat)
    | FinishWarm(thread: nat, created: bool)

  function PhaseOf(g: Guard, t: nat): Phase {
    if t in g.phases then g.phases[t] else Outside
  }

  function Put(g: Guard, t: nat, p: Phase): Guard {
    g.(phases := g.phases[t := p])
  }

  ghost predicate Enabled(g: Guard, m: Move) {
    match m
    case FirstCheck(t) => PhaseOf(g, t).Outside?
    case Lock(t) => PhaseOf(g, t).WantsLock? && g.holders == {}
    case Recheck(t) => PhaseOf(g, t).Rechecks?
    case FinishCold(t, _) => PhaseOf(g, t).CreatingCold?
    case Publish(t) => PhaseOf(g, t).Publishes?
    case Unlock(t) => PhaseOf(g, t).ReleasesDone? || PhaseOf(g, t).ReleasesWarm?
    case StartWarm(t) => PhaseOf(g, t).EntersWarm?
    case FinishWarm(t, _) => PhaseOf(g, t).CreatingWarm?
  }

  ghost function Next(g: Guard, m: Move): Guard
    requires Enabled(g, m)
  {
    match m
    case FirstCheck(t) => Put(g, t, if g.ready then EntersWarm else WantsLock)
    case Lock(t) => Put(g, t, Rechecks).(holders := g.holders + {t})
    case Recheck(t) => Put(g, t, if g.ready then ReleasesWarm else CreatingCold)
    case FinishCold(t, created) =>
      Put(g, t, Publishes(created)).(successes := g.successes + if created then 1 else 0)
    case Publish(t) => Put(g, t, ReleasesDone).(ready := g.ready || PhaseOf(g, t).created)
    case Unlock(t) =>
      Put(g, t, if PhaseOf(g, t).ReleasesDone? then Outside else EntersWarm).(holders := g.holders - {t})
    case StartWarm(t) => Put(g, t, CreatingWarm)
    case FinishWarm(t, created) => Put(g, t, Outside).(successes := g.successes + if created then 1 else 0)
  }

  const FRESH: Guard := Guard(false, {}, map[], 0)

  ghost predicate Leads(g: Guard, moves: seq<Move>, g': Guard)
    decreases |moves|
  {
    if moves == [] then g == g'
    else Enabled(g, moves[0]) && Leads(Next(g, moves[0]), moves[1..], g')
  }

  predicate HoldsLock(p: Phase) {
    p.Rechecks? || p.CreatingCold? || p.Publishes? || p.ReleasesDone? || p.ReleasesWarm?
  }

  predicate Creating(p: Phase) {
    p.CreatingCold? || p.CreatingWarm?
  }

  /** What a thread at phase `p` knows about the shared state. */
  ghost predicate Knows(g: Guard, t: nat, p: Phase) {
    && (HoldsLock(p) <==> t in g.holders)
    && (p.CreatingCold? || p.Publishes? ==> !g.ready)
    && (p.Publishes? && p.created ==> g.successes > 0)
    && (p.ReleasesWarm? || p.EntersWarm? || p.CreatingWarm? ==> g.ready)
  }

  ghost predicate Inv(g: Guard) {
    && (forall t, u :: t in g.holders && u in g.holders ==> t == u)
    && (forall t :: t in g.phases ==> Knows(g, t, g.phases[t]))
    && (forall t :: t in g.holders ==> t in g.phases)
    && (g.ready ==> g.successes > 0)
  }

  lemma NextKeepsInv(g: Guard, m: Move)
    requires Inv(g) && Enabled(g, m)
    ensures Inv(Next(g, m))
  {
    var g' := Next(g, m);
    forall u | u in g'.phases ensures Knows(g', u, g'.phases[u]) {
      if u in g.phases {
        assert Knows(g, u, g.phases[u]);
      }
      assert m.thread in g.phases ==> Knows(g, m.thread, g.phases[m.thread]);
    }
  }

  lemma {:induction false} RunKeepsInv(g: Guard, moves: seq<Move>, g': Guard)
    requires Inv(g) && Leads(g, moves, g')
    ensures Inv(g')
    decreases |moves|
  {
    if moves == [] {
    } else {
      NextKeepsInv(g, moves[0]);
      RunKeepsInv(Next(g, moves[0]), moves[1..], g');
    }
  }

  // ----- What every run guarantees

  /** While a cold creation is running, no other creation is running, in any run of any number of threads. */
  lemma ColdCreationIsAlone(moves: seq<Move>, g: Guard, t: nat, u: nat)
    requires Leads(FRESH, moves, g) && PhaseOf(g, t).CreatingCold? && Creating(PhaseOf(g, u))
    ensures t == u && !g.ready
  {
    RunKeepsInv(FRESH, moves, g);
    assert Knows(g, t, g.phases[t]) && Knows(g, u, g.phases[u]);
  }

  /** As long as the flag is false, creations are serialized: at most one is running, under the lock. */
  lemma UnreadyIsSerialized(moves: seq<Move>, g: Guard, t: nat)
    requires Leads(FRESH, moves, g) && !g.ready && Creating(PhaseOf(g, t))
    ensures PhaseOf(g, t).CreatingCold? && g.holders == {t}
  {
    RunKeepsInv(FRESH, moves, g);
    assert Knows(g, t, g.phases[t]);
  }

  /** The flag is never true before some creation has succeeded. */
  lemma ReadyMeansCreated(moves: seq<Move>, g: Guard)
    requires Leads(FRESH, moves, g) && g.ready
    ensures g.successes > 0
  {
    RunKeepsInv(FRESH, moves, g);
  }

  /** The flag never falls, and rises only in the step that publishes a successful cold creation. */
  lemma {:induction false} FlagIsMonotone(g: Guard, moves: seq<Move>, g': Guard)
    requires Leads(g, moves, g')
    ensures g.ready ==> g'.ready
    ensures g'.ready && !g.ready ==>
              exists k, h :: 0 <= k < |moves| && Leads(g, moves[..k], h) && !h.ready && Enabled(h, moves[k])
                             && moves[k].Publish? && PhaseOf(h, moves[k].thread) == Publishes(true)
    decreases |moves|
  {
    if moves == [] {
    } else {
      var next := Next(g, moves[0]);
      FlagIsMonotone(next, moves[1..], g');
      if g'.ready && !g.ready {
        if next.ready {
          assert moves[..0] == [] && Leads(g, moves[..0], g);
        } else {
          var k, h :| 0 <= k < |moves[1..]| && Leads(next, moves[1..][..k], h) && !h.ready
                      && Enabled(h, moves[1..][k]) && moves[1..][k].Publish?
                      && PhaseOf(h, moves[1..][k].thread) == Publishes(true);
          assert moves[..k + 1][1..] == moves[1..][..k] && moves[..k + 1][0] == moves[0];
          assert Leads(g, moves[..k + 1], h) && moves[1..][k] == moves[k + 1];
        }
      }
    }
  }

  lemma {:induction false} LeadsSplit(g: Guard, moves: seq<Move>, g': Guard, k: nat, h: Guard)
    requires Leads(g, moves, g') && k <= |moves| && Leads(g, moves[..k], h)
    ensures Leads(h, moves[k..], g')
    decreases k
  {
    if k == 0 {
      assert moves[0..] == moves;
    } else {
      assert moves[..k][1..] == moves[1..][..k - 1] && moves[1..][k - 1..] == moves[k..];
      LeadsSplit(Next(g, moves[0]), moves[1..], g', k - 1, h);
    }
  }

  /** Move k of a run publishes a successful creation. */
  ghost predicate PublishesAt(moves: seq<Move>, k: nat) {
    && k < |moves| && moves[k].Publish?
    && exists h :: Leads(FRESH, moves[..k], h) && PhaseOf(h, moves[k].thread) == Publishes(true)
  }

  /** The flag is true iff some successful cold creation has been published, in every run: it rises then, and stays. */
  lemma ReadyIffPublished(moves: seq<Move>, g: Guard)
    requires Leads(FRESH, moves, g)
    ensures g.ready <==> exists k :: PublishesAt(moves, k)
  {
    if g.ready {
      FlagIsMonotone(FRESH, moves, g);
      var k, h :| 0 <= k < |moves| && Leads(FRESH, moves[..k], h) && !h.ready && Enabled(h, moves[k])
                  && moves[k].Publish? && PhaseOf(h, moves[k].thread) == Publishes(true);
      assert PublishesAt(moves, k);
    }
    if k: nat :| PublishesAt(moves, k) {
      var h :| Leads(FRESH, moves[..k], h) && PhaseOf(h, moves[k].thread) == Publishes(true);
      LeadsSplit(FRESH, moves, g, k, h);
      assert moves[k..][0] == moves[k];
      FlagIsMonotone(Next(h, moves[k]), moves[k..][1..], g);
    }
  }

  lemma LeadsOne(g: Guard, m: Move, moves: seq<Move>, g': Guard)
    requires Enabled(g, m) && Leads(Next(g, m), moves, g')
    ensures Leads(g, [m] + moves, g')
  {
    assert ([m] + moves)[1..] == moves;
  }

  /** With the flag true a thread creates its handle without the lock, whoever holds that. */
  lemma WarmCallSkipsLock(moves: seq<Move>, g: Guard, t: nat, created: bool) returns (g': Guard)
    requires Leads(FRESH, moves, g) && g.ready && PhaseOf(g, t).Outside?
    ensures Leads(g, [FirstCheck(t)] + ([StartWarm(t)] + ([FinishWarm(t, created)] + [])), g')
    ensures PhaseOf(g', t).Outside? && g'.holders == g.holders
    ensures g'.successes == g.successes + if created then 1 else 0
  {
    var g1 := Next(g, FirstCheck(t));
    var g2 := Next(g1, StartWarm(t));
    g' := Next(g2, FinishWarm(t, created));
    assert Creating(PhaseOf(g2, t)) && !HoldsLock(PhaseOf(g2, t));
    LeadsOne(g2, FinishWarm(t, created), [], g');
    LeadsOne(g1, StartWarm(t), [FinishWarm(t, created)] + [], g');
    LeadsOne(g, FirstCheck(t), [StartWarm(t)] + ([FinishWarm(t, created)] + []), g');
  }

  /** A thread that waited for the lock while another one published gives the lock back and creates outside it. */
  lemma LateWaiterGoesWarm(moves: seq<Move>, g: Guard, t: nat)
    requires Leads(FRESH, moves, g) && g.ready && PhaseOf(g, t).Rechecks?
    ensures var released := Next(Next(g, Recheck(t)), Unlock(t));
            && PhaseOf(Next(g, Recheck(t)), t).ReleasesWarm?
            && released.holders == {} && PhaseOf(released, t).EntersWarm?
            && PhaseOf(Next(released, StartWarm(t)), t).CreatingWarm?
  {
    RunKeepsInv(FRESH, moves, g);
    assert Knows(g, t, g.phases[t]);
  }

  /** With the flag false and the lock free, one call takes the lock, creates, publishes iff it created, and unlocks. */
  lemma ColdCallPublishes(moves: seq<Move>, g: Guard, t: nat, created: bool) returns (g': Guard)
    requires Leads(FRESH, moves, g) && !g.ready && g.holders == {} && PhaseOf(g, t).Outside?
    ensures Leads(g, [FirstCheck(t)] + ([Lock(t)] + ([Recheck(t)] + ([FinishCold(t, created)]
                     + ([Publish(t)] + ([Unlock(t)] + []))))), g')
    ensures PhaseOf(g', t).Outside? && g'.holders == {} && (g'.ready <==> created)
    ensures g'.successes == g.successes + if created then 1 else 0
  {
    var g1 := Next(g, FirstCheck(t));
    var g2 := Next(g1, Lock(t));
    var g3 := Next(g2, Recheck(t));
    var g4 := Next(g3, FinishCold(t, created));
    var g5 := Next(g4, Publish(t));
    g' := Next(g5, Unlock(t));
    var after5 := [Unlock(t)] + [];
    var after4 := [Publish(t)] + after5;
    var after3 := [FinishCold(t, created)] + after4;
    LeadsOne(g5, Unlock(t), [], g');
    LeadsOne(g4, Publish(t), after5, g');
    LeadsOne(g3, FinishCold(t, created), after4, g');
    LeadsOne(g2, Recheck(t), after3, g');
    LeadsOne(g1, Lock(t), [Recheck(t)] + after3, g');
    LeadsOne(g, FirstCheck(t), [Lock(t)] + ([Recheck(t)] + after3), g');
  }

  // ----- One creation per call

  /** The calls thread `t` has begun. */
  function Begun(moves: seq<Move>, t: nat): nat {
    if moves == [] then 0 else (if moves[0] == FirstCheck(t) then 1 else 0) + Begun(moves[1..], t)
  }

  predicate Finishes(m: Move) {
    m.FinishCold? || m.FinishWarm?
  }

  /** The creations thread `t` has finished. */
  function Finished(moves: seq<Move>, t: nat): nat {
    if moves == [] then 0
    else (if Finishes(moves[0]) && moves[0].thread == t then 1 else 0) + Finished(moves[1..], t)
  }

  /** The creations of all threads that returned a handle. */
  function Created(moves: seq<Move>): nat {
    if moves == [] then 0 else (if Finishes(moves[0]) && moves[0].created then 1 else 0) + Created(moves[1..])
  }

  /** A call of thread `t` is under way that has not finished its creation. */
  function Owing(g: Guard, t: nat): nat {
    var p := PhaseOf(g, t);
    if p.Outside? || p.Publishes? || p.ReleasesDone? then 0 else 1
  }

  lemma MoveIsCounted(g: Guard, m: Move, t: nat)
    requires Enabled(g, m)
    ensures Owing(g, t) + (if m == FirstCheck(t) then 1 else 0)
            == (if Finishes(m) && m.thread == t then 1 else 0) + Owing(Next(g, m), t)
    ensures Next(g, m).successes == g.successes + if Finishes(m) && m.created then 1 else 0
  {
  }

  lemma {:induction false} CallsAreCounted(g: Guard, moves: seq<Move>, g': Guard, t: nat)
    requires Leads(g, moves, g')
    ensures Owing(g, t) + Begun(moves, t) == Finished(moves, t) + Owing(g', t)
    ensures g'.successes == g.successes + Created(moves)
    decreases |moves|
  {
    hide Next;
    hide Owing;
    if moves == [] {
    } else {
      MoveIsCounted(g, moves[0], t);
      CallsAreCounted(Next(g, moves[0]), moves[1..], g', t);
    }
  }

  /**
   Every call makes exactly one creation, on whichever path: in any run, a thread that is outside has finished as
   many creations as it has begun calls, and one inside is at most one behind.
   */
  lemma OneCreationPerCall(moves: seq<Move>, g: Guard, t: nat)
    requires Leads(FRESH, moves, g)
    ensures Finished(moves, t) <= Begun(moves, t) <= Finished(moves, t) + 1
    ensures PhaseOf(g, t).Outside? ==> Begun(moves, t) == Finished(moves, t)
    ensures Creating(PhaseOf(g, t)) ==> Begun(moves, t) == Finished(moves, t) + 1
    ensures g.successes == Created(moves)
  {
    CallsAreCounted(FRESH, moves, g, t);
  }

  /** A failed cold creation leaves the flag false, so whoever comes next is serialized again. */
  lemma FailureLeavesGuardCold(moves: seq<Move>, g: Guard, t: nat, u: nat)
    requires Leads(FRESH, moves, g) && PhaseOf(g, t) == Publishes(false) && PhaseOf(g, u).Outside?
    ensures var published := Next(g, Publish(t));
            && !published.ready
            && Enabled(published, FirstCheck(u))
            && PhaseOf(Next(published, FirstCheck(u)), u).WantsLock?
  {
    RunKeepsInv(FRESH, moves, g);
    assert Knows(g, t, g.phases[t]);
  }

  lemma SomeMove(g: Guard, t: nat) returns (m: Move)
    requires PhaseOf(g, t).WantsLock? ==> g.holders == {}
    ensures Enabled(g, m) && m.thread == t
  {
    match PhaseOf(g, t)
    case Outside => m := FirstCheck(t);
    case WantsLock => m := Lock(t);
    case Rechecks => m := Recheck(t);
    case CreatingCold => m := FinishCold(t, false);
    case Publishes(_) => m := Publish(t);
    case ReleasesDone => m := Unlock(t);
    case ReleasesWarm => m := Unlock(t);
    case EntersWarm => m := StartWarm(t);
    case CreatingWarm => m := FinishWarm(t, false);
  }

  /** The guard never deadlocks: a thread inside it can move, or the lock's holder can. */
  lemma GuardNeverBlocksAll(moves: seq<Move>, g: Guard, t: nat)
    requires Leads(FRESH, moves, g) && !PhaseOf(g, t).Outside?
    ensures exists m :: Enabled(g, m) && (m.thread == t || m.thread in g.holders)
  {
    RunKeepsInv(FRESH, moves, g);
    if PhaseOf(g, t).WantsLock? && g.holders != {} {
      var u :| u in g.holders;
      assert Knows(g, u, g.phases[u]);
      var m := SomeMove(g, u);
    } else {
      var m := SomeMove(g, t);
    }
  }
}
