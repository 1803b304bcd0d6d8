/**
 The life of a worker and what each call means for the pool: who dies, who
 exits, what a resize, a schedule, a wait and a termination amount to.
 */
module PoolWorkers {
  import opened Tally
  import opened PoolMachine
  import opened PoolInvariants
  import opened PoolLedger
  import opened PoolTheorems
  import opened PoolShutdown

  // ---------- new workers ----------

  lemma {:induction false} GrowAddsReady(s: Pool, resources: nat, w: nat)
    ensures s.target == Grow(s, resources).target && s.terminating == Grow(s, resources).terminating
    ensures w in s.workers && w < s.spawned ==> w in Grow(s, resources).workers && Grow(s, resources).workers[w] == s.workers[w]
    ensures w in Grow(s, resources).workers && !(w in s.workers && w < s.spawned) ==>
      Grow(s, resources).workers[w].Ready? || (w in s.workers && Grow(s, resources).workers[w] == s.workers[w])
    ensures s.spawned <= Grow(s, resources).spawned
    decreases resources
  {
    if s.count < s.target && resources > 0 {
      GrowAddsReady(Spawn(s), resources - 1, w);
    }
  }

  // ---------- one step in the life of worker w ----------

  /** w ends its task with an exception in this step. */
  predicate ThrowsNow(e: Event, w: nat) { e.Throws? && e.worker == w }

  /** w decides in this step whether to go on, above the target. */
  predicate SurplusDecides(s: Pool, e: Event, w: nat) {
    (e.Fetches? || e.Wakes?) && e.worker == w && s.count > s.target
  }

  /** Where a worker's phase can come from. */
  ghost predicate LivesOn(s: Pool, e: Event, t: Pool, w: nat) {
    && (w in t.workers && t.workers[w].Dying? ==> (w in s.workers && s.workers[w].Dying?) || ThrowsNow(e, w))
    && (w in t.workers && t.workers[w].Exiting? ==> (w in s.workers && s.workers[w].Exiting?) || SurplusDecides(s, e, w))
    && (w in s.workers && w !in t.workers ==> s.workers[w].Dying? || s.workers[w].Exiting?)
    && (w in s.workers && s.workers[w].Dying? ==> w !in t.workers || t.workers[w].Dying?)
    && (w < s.spawned && w !in s.workers ==> w !in t.workers)
    && s.spawned <= t.spawned && (w in t.workers && w >= s.spawned ==> t.workers[w].Ready?)
  }

  lemma ResizeLivesOn(s: Pool, n: Size, resources: nat, w: nat)
    requires forall v :: v in s.workers ==> v < s.spawned
    ensures LivesOn(s, Event.Resize(n, resources), ResizeTo(s, n, resources), w)
    ensures w < s.spawned ==> (w in ResizeTo(s, n, resources).workers <==> w in s.workers)
  {
    if !s.terminating && s.count <= n {
      GrowAddsReady(s.(target := n), resources, w);
      GrowAddsNoOld(s.(target := n), resources, w);
    }
  }

  lemma {:induction false} GrowAddsNoOld(s: Pool, resources: nat, w: nat)
    ensures w < s.spawned && w !in s.workers ==> w !in Grow(s, resources).workers
    decreases resources
  {
    if s.count < s.target && resources > 0 {
      GrowAddsNoOld(Spawn(s), resources - 1, w);
    }
  }

  lemma DeathLivesOn(s: Pool, v: nat, resources: nat, w: nat)
    requires Flow(s) && Enabled(s, Dies(v, resources))
    ensures LivesOn(s, Dies(v, resources), Die(s, v, resources), w)
  {
    var t := Leave(s, v);
    assert v < s.spawned && t.spawned == s.spawned;
    if !t.terminating {
      ResizeLivesOn(t, Inc(t.count), resources, w);
    }
  }

  lemma StepLivesOn(s: Pool, e: Event, w: nat)
    requires Flow(s) && Enabled(s, e)
    ensures LivesOn(s, e, Apply(s, e), w)
  {
    match e
    case Resize(n, r) => ResizeLivesOn(s, n, r, w);
    case Dies(v, r) => DeathLivesOn(s, v, r, w);
    case _ =>
  }

  lemma RunLivesOn(run: seq<Pool>, events: seq<Event>, i: nat, w: nat)
    requires IsRun(run, events) && i < |events|
    ensures LivesOn(run[i], events[i], run[i + 1], w)
  {
    RunKeepsInvariant(run, events, i);
    assert Follows(run, events, i);
    StepLivesOn(run[i], events[i], w);
  }

  // ---------- over whole runs ----------

  /** Only a throwing task kills: whoever is dying threw at some step, and has done nothing since. */
  lemma {:induction false} OnlyThrowsKill(run: seq<Pool>, events: seq<Event>, j: nat, w: nat) returns (i: nat)
    requires IsRun(run, events) && j < |run| && w in run[j].workers && run[j].workers[w].Dying?
    ensures i < j && events[i] == Throws(w)
    decreases j
  {
    RunLivesOn(run, events, j - 1, w);
    i := j - 1;
    if w in run[j - 1].workers && run[j - 1].workers[w].Dying? {
      i := OnlyThrowsKill(run, events, j - 1, w);
    }
  }

  /** Only a surplus sends workers away: whoever is exiting decided so above the target. */
  lemma {:induction false} OnlySurplusExits(run: seq<Pool>, events: seq<Event>, j: nat, w: nat) returns (i: nat)
    requires IsRun(run, events) && j < |run| && w in run[j].workers && run[j].workers[w].Exiting?
    ensures i < j && SurplusDecides(run[i], events[i], w)
    decreases j
  {
    RunLivesOn(run, events, j - 1, w);
    i := j - 1;
    if w in run[j - 1].workers && run[j - 1].workers[w].Exiting? {
      i := OnlySurplusExits(run, events, j - 1, w);
    }
  }

  /** As long as no task throws and the pool is never above its target, every worker ever created stays. */
  lemma {:induction false} WorkersStay(run: seq<Pool>, events: seq<Event>, j: nat, w: nat)
    requires IsRun(run, events) && j < |run| && w < run[j].spawned
    requires forall i :: 0 <= i < j ==> !events[i].Throws? && run[i].count <= run[i].target
    ensures w in run[j].workers && !run[j].workers[w].Dying? && !run[j].workers[w].Exiting?
    decreases j
  {
    if j > 0 {
      RunLivesOn(run, events, j - 1, w);
      if w < run[j - 1].spawned {
        WorkersStay(run, events, j - 1, w);
      } else {
        NewWorkersCome(run, events, j - 1, w);
      }
    }
  }

  lemma NewWorkersCome(run: seq<Pool>, events: seq<Event>, i: nat, w: nat)
    requires IsRun(run, events) && i < |events| && run[i].spawned <= w < run[i + 1].spawned
    ensures w in run[i + 1].workers && run[i + 1].workers[w].Ready?
  {
    assert Follows(run, events, i);
    RunKeepsInvariant(run, events, i);
    var s, e := run[i], events[i];
    RunLivesOn(run, events, i, w);
    match e
    case Resize(n, r) => GrowFills(s.(target := n), r, w);
    case Dies(v, r) =>
      var t := Leave(s, v);
      GrowFills(t.(target := Inc(t.count)), r, w);
    case _ =>
  }

  lemma {:induction false} GrowFills(s: Pool, resources: nat, w: nat)
    requires s.spawned <= w < Grow(s, resources).spawned
    ensures w in Grow(s, resources).workers
    decreases resources
  {
    if s.count < s.target && resources > 0 {
      if w == s.spawned {
        GrowAddsReady(Spawn(s), resources - 1, w);
      } else {
        GrowFills(Spawn(s), resources - 1, w);
      }
    }
  }

  /** A worker whose task returned can fetch again at once; one whose task threw can only report its death. */
  lemma ReturnsAndThrows(s: Pool, w: nat) returns (k: nat)
    requires Reachable(s) && w in s.workers && s.workers[w].Running?
    ensures Enabled(Apply(s, Returns(w)), Fetches(w, k))
    ensures forall e :: ByWorker(e) && e.worker == w && Enabled(Apply(s, Throws(w)), e) ==> e.Dies?
    ensures var t := s.workers[w].task.ticket;
      && t < |s.fates|
      && Apply(s, Returns(w)).fates == s.fates[t := Finished]
      && Apply(s, Throws(w)).fates == s.fates[t := Thrown]
  {
    ReachableInvariant(s);
    k := 0;
    if s.pending != [] {
      k := SomethingPops(s.policy, s.pending);
    }
  }

  /** After a throw the worker takes no further task, in any continuation. */
  lemma {:induction false} TheDyingStayDying(run: seq<Pool>, events: seq<Event>, i: nat, j: nat, w: nat)
    requires IsRun(run, events) && i < j < |run| && events[i] == Throws(w)
    ensures w in run[j].workers ==> run[j].workers[w].Dying?
    ensures w < run[j].spawned
    decreases j
  {
    RunKeepsInvariant(run, events, i);
    assert Follows(run, events, i);
    if j > i + 1 {
      TheDyingStayDying(run, events, i, j - 1, w);
      RunLivesOn(run, events, j - 1, w);
    }
  }

  /** A ready worker starts, sleeps or exits, and when it does which; a waking one prefers a task to an exit. */
  lemma DecisionsExactly(s: Pool, e: Event)
    requires Enabled(s, e) && (e.Fetches? || e.Wakes?)
    ensures var p := Apply(s, e).workers[e.worker];
      && (p.Running? <==> s.pending != [] && (e.Wakes? || s.count <= s.target))
      && (p.Exiting? <==> s.count > s.target && (e.Fetches? || s.pending == []))
      && (p.Asleep? <==> s.count <= s.target && s.pending == [])
      && (p.Running? ==> p.task == s.pending[e.k] && |Apply(s, e).pending| == |s.pending| - 1)
  {
  }

  // ---------- resizing ----------

  predicate SetsTarget(e: Event) { e.Resize? || e.Terminate? || e.Dies? }

  lemma StepKeepsTarget(s: Pool, e: Event)
    requires Enabled(s, e) && !SetsTarget(e)
    ensures Apply(s, e).target == s.target
  {
  }

  lemma ResizeSetsTarget(s: Pool, n: Size, resources: nat)
    ensures ResizeTo(s, n, resources).target == if s.terminating then s.target else n
  {
    GrowAddsReady(s.(target := n), resources, 0);
  }

  /** A resize holds, whether it grows or shrinks and whether it succeeds, until the target is set anew. */
  lemma {:induction false} ResizeHolds(run: seq<Pool>, events: seq<Event>, i: nat, j: nat)
    requires IsRun(run, events) && i < j < |run| && events[i].Resize? && !run[i].terminating
    requires forall m :: i < m < j ==> !SetsTarget(events[m])
    ensures run[j].target == events[i].n
    decreases j
  {
    assert Follows(run, events, j - 1);
    if j == i + 1 {
      ResizeSetsTarget(run[i], events[i].n, events[i].resources);
    } else {
      ResizeHolds(run, events, i, j - 1);
      StepKeepsTarget(run[j - 1], events[j - 1]);
    }
  }

  /** And it takes effect: once all live workers sleep, there are no more of them than were asked for. */
  lemma ResizeTakesEffect(run: seq<Pool>, events: seq<Event>, i: nat, j: nat)
    requires IsRun(run, events) && i < j < |run| && events[i].Resize? && !run[i].terminating
    requires forall m :: i < m < j ==> !SetsTarget(events[m])
    requires forall w :: w in run[j].workers ==> run[j].workers[w].Asleep?
    ensures |run[j].workers| <= events[i].n
  {
    ResizeHolds(run, events, i, j);
    RunKeepsInvariant(run, events, j);
    var s := run[j];
    if |s.workers| > 0 {
      var w :| w in s.workers;
      CountPositive(s.workers, w, IsAsleep);
    }
  }

  // ---------- scheduling, waiting, terminating ----------

  /** The new task is pending with the priority asked for, beside all that were, and exactly one sleeper is notified. */
  lemma ScheduleAddsOne(s: Pool, priority: int, w: nat)
    requires Enabled(s, Schedule(priority, w))
    ensures var t := ScheduleTask(s, priority, w);
      && multiset(t.pending) == multiset(s.pending) + multiset{Task(|s.fates|, priority)}
      && t.fates == s.fates + [Fate.Pending]
      && Count(t.workers, IsAsleep) == (if Count(s.workers, IsAsleep) > 0 then Count(s.workers, IsAsleep) - 1 else 0)
      && Count(t.workers, IsNotified) + Count(t.workers, IsAsleep) == Count(s.workers, IsNotified) + Count(s.workers, IsAsleep)
  {
    if w in s.workers && s.workers[w].Asleep? {
      Move(s.workers, w, Notified);
      CountPositive(s.workers, w, IsAsleep);
    }
  }

  /** A caller comes back exactly if active plus pending is within its threshold, or for termination nobody is active; else it waits for just that. */
  lemma CallersReturnExactly(s: Pool, c: nat, goal: Goal)
    ensures c !in TryToLeave(s, c, goal).callers <==>
      match goal case Drain(n) => s.active + |s.pending| <= n case Termination => s.active == 0
    ensures var t := TryToLeave(s, c, goal);
      && (c in t.callers ==> t.callers[c] == Caller(goal, false))
      && (forall d :: d != c ==> (d in t.callers <==> d in s.callers) && (d in t.callers ==> t.callers[d] == s.callers[d]))
  {
  }

  /** Termination, waited for or not, is for good: the target stays 0, every resize fails, and no thread is created. */
  lemma {:induction false} TerminationIsFinal(run: seq<Pool>, events: seq<Event>, i: nat, j: nat)
    requires IsRun(run, events) && i < j < |run| && events[i].Terminate?
    ensures run[j].terminating && run[j].target == 0 && run[j].spawned == run[i].spawned
    ensures j < |events| && events[j].Resize? ==> !ResizeSucceeds(run[j], events[j].n, events[j].resources)
    decreases j
  {
    assert Follows(run, events, j - 1);
    if j > i + 1 {
      TerminationIsFinal(run, events, i, j - 1);
    }
  }
}
