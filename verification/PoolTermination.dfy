/**
 What `terminate_all_workers(true)` leaves behind. The call is followed through
 every continuation of the run, up to the moment it returns.
 */
module PoolTermination {
  import opened Tally
  import opened PoolMachine
  import opened PoolInvariants
  import opened PoolTheorems
  import opened PoolShutdown

  // ---------- single steps of a terminating pool ----------

  /** Nobody enters the task wait any more, and only from there does a task still start. */
  lemma OnlyWaitersStart(s: Pool, e: Event, w: nat)
    requires Flow(s) && s.terminating && Enabled(s, e)
    ensures Apply(s, e).terminating && Apply(s, e).workers.Keys <= s.workers.Keys
    ensures w in Apply(s, e).workers && InWait(Apply(s, e).workers[w]) ==> w in s.workers && InWait(s.workers[w])
    ensures Apply(s, e).started != s.started ==>
      e.Wakes? && e.worker in s.workers && InWait(s.workers[e.worker])
      && e.worker in Apply(s, e).workers && !InWait(Apply(s, e).workers[e.worker])
  {
    NobodySleeps(s);
  }

  /** A worker that leaves goes onto the join list, and the list is only ever emptied as a whole, by joining. */
  lemma LeavingIsListed(s: Pool, e: Event, w: nat)
    requires s.terminating && Enabled(s, e)
    ensures w in s.workers ==> w in Apply(s, e).workers || w in Apply(s, e).terminated
    ensures w in s.terminated ==> w in Apply(s, e).terminated || Apply(s, e).terminated == []
  {
  }

  /** A blocked caller stays blocked for the same goal until its own loop test lets it go. */
  lemma OnlyItsTestFreesACaller(s: Pool, e: Event, c: nat)
    requires Enabled(s, e) && c in s.callers
    ensures c in Apply(s, e).callers ==> Apply(s, e).callers[c].goal == s.callers[c].goal
    ensures c !in Apply(s, e).callers ==> e == CallerWakes(c) && !MustBlock(s, s.callers[c].goal)
  {
    match e
    case Resize(n, r) => GrowKeepsCallers(s.(target := n), r);
    case Dies(w, r) =>
      var t := Leave(s, w);
      GrowKeepsCallers(t.(target := Inc(t.count)), r);
    case _ =>
  }

  lemma {:induction false} GrowKeepsCallers(s: Pool, resources: nat)
    ensures Grow(s, resources).callers == s.callers
    decreases resources
  {
    if s.count < s.target && resources > 0 {
      GrowKeepsCallers(Spawn(s), resources - 1);
    }
  }

  // ---------- runs of a terminating pool ----------

  lemma {:induction false} WaitersOnlyLeave(run: seq<Pool>, events: seq<Event>, i: nat, j: nat, w: nat)
    requires IsRun(run, events) && i <= j < |run| && run[i].terminating
    ensures run[j].terminating && run[j].workers.Keys <= run[i].workers.Keys
    ensures w in run[j].workers && InWait(run[j].workers[w]) ==> w in run[i].workers && InWait(run[i].workers[w])
    decreases j
  {
    if i < j {
      WaitersOnlyLeave(run, events, i, j - 1, w);
      RunKeepsInvariant(run, events, j - 1);
      assert Follows(run, events, j - 1);
      hide Flow, IsRun, Apply, Enabled;
      OnlyWaitersStart(run[j - 1], events[j - 1], w);
    }
  }

  /** Worker w starts a task with step k. */
  ghost predicate Starts(run: seq<Pool>, events: seq<Event>, k: nat, w: nat)
    requires k < |events| && |run| == |events| + 1
  {
    ByWorker(events[k]) && events[k].worker == w && run[k + 1].started != run[k].started
  }

  lemma StarterWasWaiting(run: seq<Pool>, events: seq<Event>, k: nat)
    requires IsRun(run, events) && k < |events| && run[k].terminating
    requires run[k + 1].started != run[k].started
    ensures events[k].Wakes? && Starts(run, events, k, events[k].worker)
    ensures var w := events[k].worker;
      && w in run[k].workers && InWait(run[k].workers[w])
      && w in run[k + 1].workers && !InWait(run[k + 1].workers[w])
  {
    RunKeepsInvariant(run, events, k);
    assert Follows(run, events, k);
    OnlyWaitersStart(run[k], events[k], 0);
  }

  /**
   Which workers still start a task after termination was requested: only those
   that were inside the task wait then, and each of them at most once.
   */
  lemma WaitersStartOnce(run: seq<Pool>, events: seq<Event>, i: nat, j: nat, k: nat)
    requires IsRun(run, events) && i <= k < |events| && run[i].terminating
    requires run[k + 1].started != run[k].started
    ensures events[k].Wakes? && events[k].worker in run[i].workers && InWait(run[i].workers[events[k].worker])
    ensures i <= j < |events| && j != k ==> !Starts(run, events, j, events[k].worker)
  {
    WaitersOnlyLeave(run, events, i, k, 0);
    StarterWasWaiting(run, events, k);
    var w := events[k].worker;
    WaitersOnlyLeave(run, events, i, k, w);
    if i <= j < |events| && j != k && Starts(run, events, j, w) {
      WaitersOnlyLeave(run, events, i, j, w);
      StarterWasWaiting(run, events, j);
      WaitersOnlyLeave(run, events, i, if j < k then j + 1 else k + 1, w);
      if j < k {
        WaitersOnlyLeave(run, events, j + 1, k, w);
      } else {
        WaitersOnlyLeave(run, events, k + 1, j, w);
      }
    }
  }

  lemma NobodySleepsInShutdown(run: seq<Pool>, events: seq<Event>, i: nat, j: nat, w: nat)
    requires IsRun(run, events) && i <= j < |run| && run[i].terminating && w in run[j].workers
    ensures !run[j].workers[w].Asleep?
  {
    WaitersOnlyLeave(run, events, i, j, w);
    RunKeepsInvariant(run, events, j);
    NobodySleeps(run[j]);
  }

  /** Some caller joined w between states a and b. */
  ghost predicate JoinedBetween(run: seq<Pool>, a: nat, b: nat, w: nat) {
    exists k :: a <= k < b && JoinedAt(run, k, w)
  }

  ghost predicate JoinedAt(run: seq<Pool>, k: int, w: nat) {
    0 <= k < |run| - 1 && w in run[k].terminated && run[k + 1].terminated == []
  }

  /** Whoever leaves during shutdown is on the join list until it has been joined. */
  lemma {:induction false} LeaversAreJoined(run: seq<Pool>, events: seq<Event>, i: nat, j: nat, w: nat)
    requires IsRun(run, events) && i <= j < |run| && run[i].terminating
    requires w in run[i].workers || w in run[i].terminated
    ensures w in run[j].workers || w in run[j].terminated || JoinedBetween(run, i, j, w)
    decreases j
  {
    if i < j {
      LeaversAreJoined(run, events, i, j - 1, w);
      WaitersOnlyLeave(run, events, i, j - 1, w);
      assert Follows(run, events, j - 1);
      hide IsRun, Apply, Enabled;
      LeavingIsListed(run[j - 1], events[j - 1], w);
      if JoinedBetween(run, i, j - 1, w) {
        var k :| i <= k < j - 1 && JoinedAt(run, k, w);
        assert JoinedAt(run, k, w);
      } else if w in run[j - 1].terminated && run[j].terminated == [] {
        assert JoinedAt(run, j - 1, w);
      }
    }
  }

  // ---------- the call and its return ----------

  /** The call of c at step i returns with state j: from i + 1 on c is blocked until then. */
  ghost predicate Returns(run: seq<Pool>, events: seq<Event>, i: nat, j: nat, c: nat) {
    && IsRun(run, events) && i < j < |run|
    && events[i] == Terminate(c, true)
    && (forall k :: i < k < j ==> c in run[k].callers)
    && c !in run[j].callers
  }

  lemma {:induction false} BlockedForTermination(run: seq<Pool>, events: seq<Event>, i: nat, k: nat, c: nat)
    requires IsRun(run, events) && i < k < |run| && events[i] == Terminate(c, true)
    requires forall m :: i < m <= k ==> c in run[m].callers
    ensures run[k].callers[c].goal.Termination?
    decreases k
  {
    assert Follows(run, events, k - 1);
    if k > i + 1 {
      BlockedForTermination(run, events, i, k - 1, c);
      OnlyItsTestFreesACaller(run[k - 1], events[k - 1], c);
    }
  }

  /** The loop test of the call has just failed: nobody is active, and the join list is empty. */
  lemma ReturnFindsNobodyActive(run: seq<Pool>, events: seq<Event>, i: nat, j: nat, c: nat)
    requires Returns(run, events, i, j, c)
    ensures run[j].terminating && run[j].active == 0 && run[j].terminated == []
  {
    assert Follows(run, events, i) && Follows(run, events, j - 1);
    WaitersOnlyLeave(run, events, i + 1, j, 0);
    if j > i + 1 {
      BlockedForTermination(run, events, i, j - 1, c);
      OnlyItsTestFreesACaller(run[j - 1], events[j - 1], c);
    }
  }

  /**
   When the call returns, the workers still alive were all in the task wait when
   it was made; they are notified, and no task is in flight. All others have left
   and have been joined.
   */
  lemma TerminationReturns(run: seq<Pool>, events: seq<Event>, i: nat, j: nat, c: nat, w: nat)
    requires Returns(run, events, i, j, c)
    ensures w in run[j].workers ==>
      w in run[i].workers && InWait(run[i].workers[w]) && run[j].workers[w].Notified?
    ensures w in run[i].workers && w !in run[j].workers ==> JoinedBetween(run, i, j, w)
    ensures w in run[i].terminated ==> JoinedBetween(run, i, j, w)
  {
    ReturnFindsNobodyActive(run, events, i, j, c);
    RunKeepsInvariant(run, events, i);
    RunKeepsInvariant(run, events, j);
    assert Follows(run, events, i);
    TerminateStep(run[i], c);
    WaitersOnlyLeave(run, events, i + 1, j, w);
    if w in run[j].workers {
      NobodySleeps(run[j]);
      NobodyActive(run[j], w);
    } else if w in run[i].workers {
      LeaversAreJoined(run, events, i + 1, j, w);
      var k :| i + 1 <= k < j && JoinedAt(run, k, w);
      assert JoinedAt(run, k, w);
    }
    if w in run[i].terminated {
      LeaversAreJoined(run, events, i, j, w);
    }
  }

  lemma TerminateStep(s: Pool, c: nat)
    ensures var t := TerminateAll(s, c, true);
      && t.terminating && t.workers == NotifyAll(s.workers)
      && t.active == s.active && t.count == s.count
      && (c in t.callers ==> t.callers[c].goal.Termination?) && (s.active > 0 ==> c in t.callers)
  {
  }

  lemma NobodyActive(s: Pool, w: nat)
    requires Accounting(s) && s.active == 0 && w in s.workers
    ensures InWait(s.workers[w])
  {
    if OutsideWait(s.workers[w]) {
      CountPositive(s.workers, w, OutsideWait);
    }
  }

  // ---------- exactly when nobody is left behind ----------

  /** Every return of such a call, in every continuation, leaves no worker. */
  ghost predicate LeavesNobody(s: Pool, c: nat) {
    forall run: seq<Pool>, events: seq<Event>, i: nat, j: nat :: Returns(run, events, i, j, c) && run[i] == s ==> run[j].workers == map[]
  }

  /** `terminate_all_workers(true)` leaves nobody behind exactly if no worker is in the task wait when it is called. */
  lemma TerminationLeavesNobodyExactly(s: Pool, c: nat)
    requires Reachable(s) && c !in s.callers
    ensures LeavesNobody(s, c) <==> s.active == s.count
  {
    ReachableInvariant(s);
    WaitSplits(s.workers);
    CountDisjoint(s.workers, OutsideWait, InWait);
    if s.active == s.count {
      forall run: seq<Pool>, events: seq<Event>, i: nat, j: nat | Returns(run, events, i, j, c) && run[i] == s
        ensures run[j].workers == map[]
      {
        NobodyWaitsNobodyStays(run, events, i, j, c);
      }
    } else {
      var run, events, i, j := SomebodyStays(s, c);
      assert Returns(run, events, i, j, c) && run[i] == s && run[j].workers != map[];
    }
  }

  lemma NobodyWaitsNobodyStays(run: seq<Pool>, events: seq<Event>, i: nat, j: nat, c: nat)
    requires Returns(run, events, i, j, c) && Count(run[i].workers, InWait) == 0
    ensures run[j].workers == map[]
  {
    forall w | w in run[j].workers
      ensures false
    {
      TerminationReturns(run, events, i, j, c, w);
      CountPositive(run[i].workers, w, InWait);
    }
  }

  /** A run continues by any enabled event. */
  lemma Append(run: seq<Pool>, events: seq<Event>, e: Event) returns (longer: seq<Pool>, more: seq<Event>)
    requires IsRun(run, events) && Enabled(run[|events|], e)
    ensures longer == run + [Apply(run[|events|], e)] && more == events + [e] && IsRun(longer, more)
  {
    longer, more := run + [Apply(run[|events|], e)], events + [e];
    forall k | 0 <= k < |more|
      ensures Follows(longer, more, k)
    {
      if k < |events| {
        assert Follows(run, events, k);
      }
    }
  }

  /** Caller c is blocked for termination and worker v is in the task wait, from state a on. */
  ghost predicate Holds(run: seq<Pool>, a: nat, c: nat, v: nat) {
    forall k :: a <= k < |run| ==> HoldsIn(run[k], c, v)
  }

  predicate HoldsIn(s: Pool, c: nat, v: nat) {
    && s.terminating
    && c in s.callers && s.callers[c].goal.Termination?
    && v in s.workers && InWait(s.workers[v])
  }

  /** A worker outside the wait can take a step that leaves the others where they are. */
  lemma ActiveWorkerGoesOn(s: Pool, c: nat, v: nat) returns (e: Event)
    requires Reachable(s) && HoldsIn(s, c, v) && s.active > 0
    ensures Enabled(s, e) && HoldsIn(Apply(s, e), c, v)
    ensures Measure(Apply(s, e).workers) < Measure(s.workers)
  {
    ReachableInvariant(s);
    var w := SomeKey(s.workers, OutsideWait);
    e := EveryWorkerCanGoOn(s, w);
    NobodySleeps(s);
    WindsDown(s, e);
    hide Measure, Flow;
  }

  /** The active workers finish one after the other while v stays where it is. */
  lemma {:induction false} OthersFinish(run: seq<Pool>, events: seq<Event>, a: nat, c: nat, v: nat)
    returns (longer: seq<Pool>, more: seq<Event>)
    requires IsRun(run, events) && a < |run| && Holds(run, a, c, v)
    ensures IsRun(longer, more) && run <= longer && events <= more
    ensures Holds(longer, a, c, v) && longer[|more|].active == 0
    decreases Measure(run[|events|].workers)
  {
    var s := run[|events|];
    assert HoldsIn(s, c, v);
    if s.active == 0 {
      longer, more := run, events;
    } else {
      assert EndsIn(run, events, s);
      var e := ActiveWorkerGoesOn(s, c, v);
      longer, more := Append(run, events, e);
      longer, more := OthersFinish(longer, more, a, c, v);
    }
  }

  lemma SomebodyStays(s: Pool, c: nat) returns (run: seq<Pool>, events: seq<Event>, i: nat, j: nat)
    requires Reachable(s) && c !in s.callers && Count(s.workers, InWait) > 0
    ensures Returns(run, events, i, j, c) && run[i] == s && run[j].workers != map[]
  {
    run, events :| EndsIn(run, events, s);
    i := |events|;
    var v := SomeKey(s.workers, InWait);
    TerminateStep(s, c);
    run, events := Append(run, events, Terminate(c, true));
    if s.active > 0 {
      var start := run;
      run, events := OthersFinish(run, events, i + 1, c, v);
      assert run[i] == start[i] && events[i] == Terminate(c, true);
      assert HoldsIn(run[|events|], c, v);
      run, events := Append(run, events, CallerWakes(c));
      assert forall k :: i < k < |events| ==> HoldsIn(run[k], c, v);
    }
    j := |events|;
    assert v in run[j].workers;
  }

  /** A call that returns while a worker is still alive and not joined. */
  lemma TerminationMayLeaveWorkers() returns (run: seq<Pool>, events: seq<Event>)
    ensures IsRun(run, events) && |events| == 3 && events[2] == Terminate(0, true)
    ensures var s := run[|events|]; 0 !in s.callers && 0 in s.workers
  {
    events := [Resize(1, 1), Fetches(0, 0), Terminate(0, true)];
    var s0 := Fresh(Fifo);
    var s1 := Apply(s0, events[0]);
    assert s1 == Spawn(s0.(target := 1)) && 0 in s1.workers && s1.workers[0] == Ready;
    var s2 := Apply(s1, events[1]);
    assert s2.active == 0;
    run := [s0, s1, s2, Apply(s2, events[2])];
    assert Follows(run, events, 0) && Follows(run, events, 1) && Follows(run, events, 2);
  }
}
