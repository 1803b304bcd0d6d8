/** What the pool's invariants mean for its users: statements about every reachable state. */
module PoolTheorems {
  import opened Tally
  import opened PoolMachine
  import opened PoolInvariants
  import opened PoolLedger

  ghost predicate Invariant(s: Pool) { Flow(s) && Ledger(s) }

  ghost predicate EndsIn(run: seq<Pool>, events: seq<Event>, s: Pool) {
    IsRun(run, events) && run[|events|] == s
  }

  /** Some interleaving of callers and workers leads from a new pool to s. */
  ghost predicate Reachable(s: Pool) {
    exists run, events :: EndsIn(run, events, s)
  }

  /** Every state of every run satisfies the invariant. */
  lemma {:induction false} RunKeepsInvariant(run: seq<Pool>, events: seq<Event>, i: nat)
    requires IsRun(run, events) && i < |run|
    ensures Invariant(run[i])
  {
    if i == 0 {
      FreshInvariant(run[0].policy);
    } else {
      RunKeepsInvariant(run, events, i - 1);
      assert Follows(run, events, i - 1);
      StepKeepsInvariant(run[i - 1], events[i - 1]);
    }
  }

  lemma FreshInvariant(policy: Policy)
    ensures Invariant(Fresh(policy))
  {
    var none: map<nat, Phase> := map[];
    assert Having(none, OutsideWait) == {} && Having(none, IsAsleep) == {};
  }

  lemma InvariantHasFlow(s: Pool)
    requires Invariant(s)
    ensures Flow(s)
  {
  }

  lemma StepKeepsInvariant(s: Pool, e: Event)
    requires Invariant(s) && Enabled(s, e)
    ensures Invariant(Apply(s, e))
  {
    StepKeepsFlow(s, e);
    StepKeepsLedger(s, e);
  }

  lemma ReachableInvariant(s: Pool)
    requires Reachable(s)
    ensures Invariant(s)
  {
    var run, events :| EndsIn(run, events, s);
    RunKeepsInvariant(run, events, |events|);
  }

  // ---------- workers ----------

  /** No lost wake-up: sleepers are covered, and with tasks pending some live worker is not asleep. */
  lemma NoWakeupIsLost(s: Pool)
    requires Reachable(s)
    ensures Count(s.workers, IsAsleep) > 0 ==>
      |s.pending| <= Count(s.workers, IsNotified) + Count(s.workers, IsReady) && s.count <= s.target
    ensures s.pending != [] && s.workers != map[] ==> exists w :: w in s.workers && !s.workers[w].Asleep?
  {
    ReachableInvariant(s);
    if s.pending != [] && s.workers != map[] {
      SomebodyIsAwake(s);
    }
  }

  lemma SomebodyIsAwake(s: Pool)
    requires Flow(s) && s.pending != [] && s.workers != map[]
    ensures exists w :: w in s.workers && !s.workers[w].Asleep?
  {
    if Count(s.workers, IsAsleep) == 0 {
      var w :| w in s.workers;
      assert w !in Having(s.workers, IsAsleep);
    } else if Count(s.workers, IsNotified) > 0 {
      var w := SomeKey(s.workers, IsNotified);
    } else {
      var w := SomeKey(s.workers, IsReady);
    }
  }

  /** No `size_t` counter ever wraps: active <= count, and every decrement has something to take. */
  lemma CountersNeverWrap(s: Pool, e: Event)
    requires Reachable(s) && Enabled(s, e)
    ensures s.count == |s.workers| && s.active == Count(s.workers, OutsideWait) <= s.count
    ensures e.Destructs? || e.Dies? ==> s.count > 0 && s.active > 0
    ensures e.Wakes? ==> s.active < s.count
    ensures e.Fetches? ==> s.active > 0
  {
    ReachableInvariant(s);
    WaitSplits(s.workers);
    match e
    case Destructs(w) => CountPositive(s.workers, w, OutsideWait);
    case Dies(w, _) => CountPositive(s.workers, w, OutsideWait);
    case Fetches(w, _) => CountPositive(s.workers, w, OutsideWait);
    case Wakes(w, k) => WakeIsFetch(s, w, k); CountPositive(s.workers, w, if s.workers[w].Asleep? then IsAsleep else IsNotified);
    case _ =>
  }

  /** A death outside shutdown makes the old worker count the target, and meets it if a thread can be had. */
  lemma DeathIsReplaced(s: Pool, w: nat, resources: nat)
    requires Reachable(s) && Enabled(s, Dies(w, resources)) && !s.terminating
    ensures var t := Die(s, w, resources);
      t.target == s.count && t.count == (if resources > 0 then s.count else s.count - 1)
      && t.active == (if resources > 0 then s.active else s.active - 1) && w !in t.workers
  {
    ReachableInvariant(s);
    DeathCounts(s, w, resources);
  }

  lemma DeathCounts(s: Pool, w: nat, resources: nat)
    requires Flow(s) && Enabled(s, Dies(w, resources)) && !s.terminating
    ensures var t := Die(s, w, resources);
      t.target == s.count && t.count == (if resources > 0 then s.count else s.count - 1)
      && t.active == (if resources > 0 then s.active else s.active - 1) && w !in t.workers
  {
    LossKeepsFlow(s, w);
    assert w < s.spawned && w !in Leave(s, w).workers;
    var l := Leave(s, w).(target := s.count);
    assert Accounting(l);
    hide Flow, Grow, Leave, Accounting, Enabled;
    assert Die(s, w, resources) == Grow(l, resources);
    ReplacementGrowsByOne(l, resources);
  }

  lemma ReplacementGrowsByOne(l: Pool, resources: nat)
    requires Accounting(l) && l.count + 1 == l.target
    ensures Grow(l, resources) == if resources > 0 then Spawn(l) else l
    ensures Spawn(l).count == l.count + 1 && Spawn(l).active == l.active + 1
  {
    WaitSplits(l.workers);
    assert l.active <= l.count < l.target;
    hide Accounting;
    if resources > 0 {
      GrowsNoMore(Spawn(l), resources - 1);
    }
  }

  lemma GrowsNoMore(s: Pool, resources: nat)
    requires s.count >= s.target
    ensures Grow(s, resources) == s
  {
  }

  /** The task that starts: the oldest for fifo, the newest for lifo, one of maximal priority otherwise. */
  lemma StartsInPolicyOrder(s: Pool, e: Event, j: nat)
    requires Reachable(s) && Enabled(s, e) && (e.Fetches? || e.Wakes?)
    requires Apply(s, e).started != s.started && j < |s.pending|
    ensures Apply(s, e).started == s.started + [s.pending[e.k]]
    ensures s.policy.Fifo? ==> s.pending[e.k].ticket <= s.pending[j].ticket
    ensures s.policy.Lifo? ==> s.pending[e.k].ticket >= s.pending[j].ticket
    ensures s.policy.Priority? ==> s.pending[e.k].priority >= s.pending[j].priority
  {
    ReachableInvariant(s);
  }

  /** For every history the fifo policy starts tasks in the order they were scheduled. */
  lemma FifoStartsInScheduleOrder(run: seq<Pool>, events: seq<Event>, i: nat, a: nat, b: nat)
    requires IsRun(run, events) && i < |run| && run[0].policy.Fifo?
    requires a < b < |run[i].started|
    ensures run[i].started[a].ticket < run[i].started[b].ticket
  {
    RunKeepsInvariant(run, events, i);
    PolicyIsFixed(run, events, i);
  }

  lemma {:induction false} PolicyIsFixed(run: seq<Pool>, events: seq<Event>, i: nat)
    requires IsRun(run, events) && i < |run|
    ensures run[i].policy == run[0].policy
  {
    if i > 0 {
      PolicyIsFixed(run, events, i - 1);
      assert Follows(run, events, i - 1);
      var s, e := run[i - 1], events[i - 1];
      RunKeepsInvariant(run, events, i - 1);
      if !TouchesTasks(s, e) {
        OtherStepsKeepTasks(s, e);
      }
    }
  }

  /** An accepted task is in exactly one place, and the place is what its fate says. */
  lemma EachTaskIsInOnePlace(s: Pool, t: nat)
    requires Reachable(s) && t < |s.fates|
    ensures s.fates[t].Pending? <==> HoldsTicket(s.pending, t)
    ensures s.fates[t].InFlight? <==> exists w :: w in s.workers && s.workers[w].Running? && s.workers[w].task.ticket == t
    ensures WasStarted(s.fates[t]) <==> HoldsTicket(s.started, t)
    ensures forall i, j :: 0 <= i < |s.started| && 0 <= j < |s.started| && s.started[i].ticket == t == s.started[j].ticket ==> i == j
  {
    ReachableInvariant(s);
  }

  // ---------- callers ----------

  /** Once every live worker sleeps un-notified, every blocked caller has been notified. */
  lemma IdlePoolHoldsNoCaller(s: Pool, c: nat)
    requires Reachable(s) && c in s.callers
    requires s.workers != map[] && forall w :: w in s.workers ==> s.workers[w].Asleep?
    ensures s.callers[c].notified
  {
    ReachableInvariant(s);
    assert Having(s.workers, IsNotified) == {} && Having(s.workers, OutsideWait) == {};
  }

  lemma RunningAreActive(m: map<nat, Phase>)
    ensures Count(m, IsRunning) <= Count(m, OutsideWait)
  {
    var rest := Having(m, OutsideWait) - Having(m, IsRunning);
    assert Having(m, OutsideWait) == Having(m, IsRunning) + rest;
  }

  /** When `wait(n)` returns, at most n tasks are pending or in flight; after `wait(0)` there are none left. */
  lemma DrainReturns(s: Pool, c: nat, n: Size)
    requires Reachable(s) && c !in TryToLeave(s, c, Drain(n)).callers
    ensures |s.pending| + Count(s.workers, IsRunning) <= n
    ensures n == 0 ==> forall t :: 0 <= t < |s.fates| ==> s.fates[t].Finished? || s.fates[t].Thrown? || s.fates[t].Cleared?
  {
    ReachableInvariant(s);
    RunningAreActive(s.workers);
    if n == 0 {
      forall t | 0 <= t < |s.fates| && s.fates[t].InFlight?
        ensures false
      {
        CountPositive(s.workers, s.fates[t].worker, IsRunning);
      }
    }
  }

  /** Joining under the monitor cannot deadlock: nobody on the join list still needs the monitor. */
  lemma JoinsCannotDeadlock(s: Pool, e: Event, i: nat)
    requires Reachable(s) && i < |s.terminated| && Enabled(s, e)
    requires e.Fetches? || e.Wakes? || e.Returns? || e.Throws? || e.Destructs? || e.Dies?
    ensures e.worker != s.terminated[i]
    ensures forall j :: 0 <= j < |s.terminated| && s.terminated[j] == s.terminated[i] ==> j == i
  {
    ReachableInvariant(s);
  }
}
