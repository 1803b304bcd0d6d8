/** Callers of `wait` whose condition holds although nobody has told them. */
module PoolCallers {
  import opened Tally
  import opened PoolMachine
  import opened PoolInvariants
  import opened PoolTheorems

  /** Caller c sleeps un-notified. */
  predicate Waiting(s: Pool, c: nat) { c in s.callers && !s.callers[c].notified }

  /** c sleeps un-notified although its loop test would let it go. */
  predicate Overdue(s: Pool, c: nat) { Waiting(s, c) && !MustBlock(s, s.callers[c].goal) }

  /** With e the condition of this goal comes true and nobody is notified of it: a `clear`, or a pop. */
  predicate FreesSilently(s: Pool, e: Event, goal: Goal) {
    goal.Drain? &&
    match e
    case Clear => s.active <= goal.threshold
    case Fetches(_, _) =>
      && s.count <= s.target && s.pending != []
      && 0 < goal.threshold == s.active + |s.pending| - 1
    case _ => false
  }

  lemma {:induction false} GrowOnlyAdds(s: Pool, resources: nat)
    requires s.active <= s.count <= s.target
    ensures Grow(s, resources).callers == s.callers && Grow(s, resources).pending == s.pending
    ensures Grow(s, resources).active >= s.active
    decreases resources
  {
    if s.count < s.target && resources > 0 {
      GrowOnlyAdds(Spawn(s), resources - 1);
    }
  }

  /** A death or an exit notifies every caller. */
  lemma LossNotifies(s: Pool, w: nat, resources: nat, c: nat)
    requires Flow(s) && w in s.workers && (s.workers[w].Exiting? || s.workers[w].Dying?)
    ensures !Waiting(Leave(s, w), c) && !Waiting(Die(s, w, resources), c)
  {
    LossKeepsFlow(s, w);
    var t := Leave(s, w);
    WaitSplits(t.workers);
    var n := Inc(t.count);
    if !t.terminating && t.count <= n {
      GrowOnlyAdds(t.(target := n), resources);
    }
  }

  lemma ResizeFreesNobody(s: Pool, n: Size, resources: nat, c: nat)
    requires Flow(s)
    ensures Overdue(ResizeTo(s, n, resources), c) ==> Overdue(s, c)
  {
    WaitSplits(s.workers);
    if !s.terminating && s.count <= n {
      GrowOnlyAdds(s.(target := n), resources);
    }
  }

  lemma PopShortensByOne(s: Pool, w: nat, k: nat)
    requires k < |s.pending|
    ensures |Take(s, w, k).pending| == |s.pending| - 1
  {
  }

  /** Fetching frees callers silently only by a pop: a sleeper notifies them, and an exit changes nothing they test. */
  lemma FetchFreesExactly(s: Pool, w: nat, k: nat, c: nat)
    requires Flow(s) && Enabled(s, Fetches(w, k)) && !Overdue(s, c)
    ensures Overdue(Fetch(s, w, k), c) <==> Waiting(s, c) && FreesSilently(s, Fetches(w, k), s.callers[c].goal)
  {
    CountPositive(s.workers, w, OutsideWait);
    if s.count <= s.target && s.pending != [] {
      PopShortensByOne(s, w, k);
    }
  }

  lemma WakeFreesNobody(s: Pool, w: nat, k: nat, c: nat)
    requires Flow(s) && Enabled(s, Wakes(w, k)) && !Overdue(s, c)
    ensures !Overdue(Wake(s, w, k), c)
  {
    WakeIsFetch(s, w, k);
    if s.pending != [] {
      PopShortensByOne(s.(active := Inc(s.active)), w, k);
    }
  }

  /** For each caller and each step: when it becomes overdue. */
  lemma StepFreesExactly(s: Pool, e: Event, c: nat)
    requires Flow(s) && Enabled(s, e) && !Overdue(s, c)
    ensures Overdue(Apply(s, e), c) <==> Waiting(s, c) && FreesSilently(s, e, s.callers[c].goal)
  {
    hide Flow, Grow, Take, Leave, Die;
    match e
    case Fetches(w, k) => FetchFreesExactly(s, w, k, c);
    case Wakes(w, k) => WakeFreesNobody(s, w, k, c);
    case Resize(n, r) => ResizeFreesNobody(s, n, r, c);
    case Destructs(w) => LossNotifies(s, w, 0, c);
    case Dies(w, r) => LossNotifies(s, w, r, c);
    case _ =>
  }

  /**
   From a reachable state in which every sleeping caller must block, a step leaves
   some caller asleep that need not if and only if it is a `clear` or a pop of a
   ready worker that makes that caller's condition true.
   */
  lemma SomebodyBecomesOverdueExactly(s: Pool, e: Event)
    requires Reachable(s) && Enabled(s, e) && forall c :: !Overdue(s, c)
    ensures (exists c :: Overdue(Apply(s, e), c)) <==>
            (exists c :: Waiting(s, c) && FreesSilently(s, e, s.callers[c].goal))
  {
    ReachableInvariant(s);
    hide Flow, Enabled, Apply, FreesSilently;
    forall c: nat
      ensures Overdue(Apply(s, e), c) <==> Waiting(s, c) && FreesSilently(s, e, s.callers[c].goal)
    {
      StepFreesExactly(s, e, c);
    }
  }

  /** Step i made the condition of c come true without a word. */
  ghost predicate FreedAt(run: seq<Pool>, events: seq<Event>, i: nat, c: nat)
    requires |run| == |events| + 1
  {
    i < |events| && Waiting(run[i], c) && FreesSilently(run[i], events[i], run[i].callers[c].goal)
  }

  /** In every run, whoever is overdue was freed by such a step. */
  lemma {:induction false} OverdueCallersWereFreed(run: seq<Pool>, events: seq<Event>, j: nat, c: nat)
    returns (i: nat)
    requires IsRun(run, events) && j < |run| && Overdue(run[j], c)
    ensures i < j && FreedAt(run, events, i, c)
    decreases j
  {
    RunKeepsInvariant(run, events, j - 1);
    assert Follows(run, events, j - 1);
    i := j - 1;
    if Overdue(run[j - 1], c) {
      i := OverdueCallersWereFreed(run, events, j - 1, c);
    } else {
      StepFreesExactly(run[j - 1], events[j - 1], c);
    }
  }

  /** Nobody is left to notify a sleeping caller exactly if the pool has no worker, and then it sleeps in `wait`. */
  lemma StrandedExactly(s: Pool, c: nat)
    requires Reachable(s) && Waiting(s, c)
    ensures s.active == 0 && Count(s.workers, IsNotified) == 0 <==> s.workers == map[]
    ensures s.workers == map[] ==> s.callers[c].goal.Drain?
  {
    ReachableInvariant(s);
    WaitSplits(s.workers);
  }

  /** A `clear` strands a caller exactly in a pool without workers. */
  lemma ClearStrandsExactly(s: Pool, c: nat)
    requires Reachable(s) && Waiting(s, c) && s.callers[c].goal.Drain?
    ensures var t := ClearTasks(s);
      Overdue(t, c) && t.active == 0 && Count(t.workers, IsNotified) == 0 <==> s.workers == map[]
  {
    StrandedExactly(s, c);
    ReachableInvariant(s);
  }

  /** `wait(0)` left asleep by a `clear`, in a pool that has no worker to notify it later. */
  lemma ClearStrandsWaiter() returns (run: seq<Pool>, events: seq<Event>)
    ensures IsRun(run, events)
    ensures var s := run[|events|];
      Overdue(s, 0) && s.callers[0].goal == Drain(0) && s.workers == map[]
  {
    events := [Schedule(0, 0), Block(0, 0), Clear];
    var s0 := Fresh(Fifo);
    assert Having(s0.workers, IsAsleep) == {};
    var s1 := Apply(s0, events[0]);
    var s2 := Apply(s1, events[1]);
    run := [s0, s1, s2, Apply(s2, events[2])];
    assert Follows(run, events, 0) && Follows(run, events, 1) && Follows(run, events, 2);
  }

  /** `wait(1)` left asleep by a pop, while the worker that popped runs the task. */
  lemma PopLeavesWaiterAsleep() returns (run: seq<Pool>, events: seq<Event>)
    ensures IsRun(run, events)
    ensures var s := run[|events|];
      Overdue(s, 0) && s.callers[0].goal == Drain(1) && 0 in s.workers && s.workers[0].Running?
  {
    events := [Resize(1, 1), Schedule(0, 0), Block(0, 1), Fetches(0, 0)];
    var s0 := Fresh(Fifo);
    var s1 := Spawn(s0.(target := 1));
    assert Apply(s0, events[0]) == s1 by { assert Grow(s1, 0) == s1; }
    assert s1.workers == map[0 := Ready] && s1.count == s1.target == s1.active == 1 && s1.pending == [];
    hide Grow, Spawn;
    assert Having(s1.workers, IsAsleep) == {};
    var s2 := ScheduleTask(s1, 0, 0);
    var s3 := TryToLeave(s2, 0, Drain(1));
    var s4 := Take(s3, 0, 0);
    run := [s0, s1, s2, s3, s4];
    assert Follows(run, events, 0) && Follows(run, events, 1) && Follows(run, events, 2) && Follows(run, events, 3);
  }
}
