/**
 The pool's own class. A method is one critical section: it runs with the
 monitor held and ends where the source unlocks it or waits on a condition. The
 maps `threads` and `callers` stand for the program counters of the threads and
 for the wait sets of the two condition variables.
 */
module ThreadPool {
  import opened Tally
  import opened PoolMachine
  import opened PoolInvariants
  import opened PoolTheorems

  class PoolCore {
    var workerCount: Size
    var targetWorkerCount: Size
    var activeWorkerCount: Size
    const policy: Policy
    var scheduler: seq<Task>
    var terminateAllWorkers: bool
    var terminatedWorkers: seq<nat>

    var threads: map<nat, Phase>
    var created: nat
    var callers: map<nat, Caller>
    var accepted: nat
    ghost var fates: seq<Fate>
    ghost var started: seq<Task>

    ghost function State(): Pool
      reads this
    {
      Pool.Pool(policy, threads, created, scheduler, workerCount, targetWorkerCount, activeWorkerCount,
                terminateAllWorkers, terminatedWorkers, callers, fates, started)
    }

    ghost predicate Valid()
      reads this
    {
      Invariant(State()) && accepted == |fates|
    }

    constructor (policy: Policy)
      ensures Valid() && State() == Fresh(policy)
    {
      workerCount, targetWorkerCount, activeWorkerCount := 0, 0, 0;
      this.policy := policy;
      scheduler := [];
      terminateAllWorkers, terminatedWorkers := false, [];
      threads, created, callers, accepted := map[], 0, map[], 0;
      fates, started := [], [];
      new;
      FreshInvariant(policy);
    }

    /** notify_one: some sleeping worker, if there is one, leaves the wait set. */
    method NotifyOneWorker() returns (w: nat)
      modifies this`threads
      ensures threads == NotifyOne(old(threads), w)
      ensures Count(old(threads), IsAsleep) > 0 ==> w in old(threads) && old(threads)[w].Asleep?
    {
      w := 0;
      if v :| v in threads && threads[v].Asleep? {
        w := v;
        threads := threads[w := Notified];
      } else {
        assert Having(threads, IsAsleep) == {};
      }
    }

    method Schedule(priority: int) returns (ok: bool, w: nat)
      requires Valid()
      modifies this
      ensures ok && Enabled(old(State()), Event.Schedule(priority, w))
      ensures Valid() && State() == Apply(old(State()), Event.Schedule(priority, w))
    {
      hide Invariant, Flow;
      var task := Task(accepted, priority);
      scheduler := Enqueue(policy, scheduler, task);
      accepted := accepted + 1;
      fates := fates + [Fate.Pending];
      w := NotifyOneWorker();
      StepKeepsInvariant(old(State()), Event.Schedule(priority, w));
      ok := true;
    }

    method Clear()
      requires Valid()
      modifies this
      ensures Valid() && State() == Apply(old(State()), Event.Clear)
    {
      hide Invariant, Flow;
      scheduler := [];
      fates := ClearTasks(State()).fates;
      assert State() == ClearTasks(old(State()));
      StepKeepsInvariant(old(State()), Event.Clear);
    }

    /** A thread starts, and the pool counts it as active. */
    method CreateAndAttach()
      modifies this
      ensures State() == Spawn(old(State()))
      ensures accepted == old(accepted) && fates == old(fates)
    {
      threads, created := threads[created := Ready], created + 1;
      workerCount := Inc(workerCount);
      activeWorkerCount := Inc(activeWorkerCount);
    }

    /** `resources` says how many threads can be created before thread_resource_error. */
    method ResizeWorkers(n: Size, resources: nat) returns (ok: bool)
      modifies this
      ensures State() == ResizeTo(old(State()), n, resources)
      ensures ok == ResizeSucceeds(old(State()), n, resources)
      ensures accepted == old(accepted) && fates == old(fates)
    {
      if terminateAllWorkers {
        return false;
      }
      hide Grow, Spawn;
      targetWorkerCount := n;
      if workerCount <= targetWorkerCount {
        var left: nat := resources;
        ghost var start := State();
        while workerCount < targetWorkerCount
          invariant Grow(State(), left) == Grow(start, resources)
          invariant targetWorkerCount == n && !terminateAllWorkers && accepted == old(accepted) && fates == old(fates)
          invariant workerCount <= n && left <= resources && workerCount == old(workerCount) + (resources - left)
          decreases targetWorkerCount - workerCount
        {
          GrowUnrolls(State(), left);
          if left == 0 {
            return false;
          }
          CreateAndAttach();
          left := left - 1;
        }
        GrowUnrolls(State(), left);
      } else {
        threads := NotifyAll(threads);
      }
      ok := true;
    }

    method Resize(n: Size, resources: nat) returns (ok: bool)
      requires Valid()
      modifies this
      ensures Valid() && State() == Apply(old(State()), Event.Resize(n, resources))
      ensures ok <==> !terminateAllWorkers && n <= workerCount
    {
      hide Invariant, Flow;
      InvariantHasFlow(State());
      ok := ResizeWorkers(n, resources);
      StepKeepsInvariant(old(State()), Event.Resize(n, resources));
      ResizeReaches(old(State()), n, resources);
    }

    /** The loop test of `wait` and of `terminate_all_workers(true)`, then blocking or returning. */
    method TestAndBlock(c: nat, goal: Goal) returns (blocked: bool)
      requires Flow(State())
      modifies this
      ensures State() == TryToLeave(old(State()), c, goal) && blocked == MustBlock(old(State()), goal)
      ensures accepted == old(accepted)
    {
      blocked := match goal
        case Drain(n) =>
          if n == 0 then 0 != activeWorkerCount || scheduler != [] else n < activeWorkerCount + |scheduler|
        case Termination => activeWorkerCount > 0;
      if blocked {
        callers := callers[c := Caller(goal, false)];
      } else {
        callers := callers - {c};
        if goal.Termination? {
          var _ := JoinTerminated();
        }
      }
    }

    /** Joining blocks until the thread has ended, so it must not wait for one that is still live. */
    method Join(w: nat)
      requires w !in threads
    {
    }

    /** Joins the workers on the list, one after the other, and empties it. */
    method JoinTerminated() returns (joined: seq<nat>)
      requires Joinable(State())
      modifies this`terminatedWorkers
      ensures terminatedWorkers == [] && joined == old(terminatedWorkers)
    {
      var it := 0;
      joined := [];
      while it < |terminatedWorkers|
        invariant terminatedWorkers == old(terminatedWorkers)
        invariant it <= |terminatedWorkers| && joined == terminatedWorkers[..it]
      {
        Join(terminatedWorkers[it]);
        joined := joined + [terminatedWorkers[it]];
        it := it + 1;
      }
      terminatedWorkers := [];
    }

    method Wait(c: nat, threshold: Size) returns (blocked: bool)
      requires Valid() && c !in callers
      modifies this
      ensures Valid() && State() == Apply(old(State()), Block(c, threshold))
      ensures blocked <==> threshold < activeWorkerCount + |scheduler|
    {
      hide Invariant, Flow;
      InvariantHasFlow(State());
      blocked := TestAndBlock(c, Drain(threshold));
      StepKeepsInvariant(old(State()), Block(c, threshold));
    }

    method TerminateAllWorkers(c: nat, wait: bool) returns (blocked: bool)
      requires Valid() && (wait ==> c !in callers)
      modifies this
      ensures Valid() && State() == Apply(old(State()), Terminate(c, wait))
      ensures blocked <==> wait && activeWorkerCount > 0
    {
      hide Invariant, Flow;
      InvariantHasFlow(State());
      terminateAllWorkers := true;
      targetWorkerCount := 0;
      threads := NotifyAll(threads);
      blocked := false;
      TerminateKeepsFlow(old(State()), c, false);
      if wait {
        blocked := TestAndBlock(c, Termination);
      }
      StepKeepsInvariant(old(State()), Terminate(c, wait));
    }

    /** A blocked caller's wait returns, notified or not, and its loop goes round. */
    method WakeCaller(c: nat) returns (blocked: bool)
      requires Valid() && c in callers
      modifies this
      ensures Valid() && State() == Apply(old(State()), CallerWakes(c)) && (blocked <==> c in callers)
    {
      hide Invariant, Flow;
      InvariantHasFlow(State());
      blocked := TestAndBlock(c, callers[c].goal);
      StepKeepsInvariant(old(State()), CallerWakes(c));
    }

    /** The loop of `execute_task` from its test to its wait, to an early return, or past the pop. */
    method SeekTask(w: nat) returns (k: nat)
      requires w in threads
      modifies this
      ensures accepted == old(accepted)
      ensures old(scheduler) != [] ==> Pops(policy, old(scheduler), k) && State() == Take(old(State()), w, k)
      ensures old(scheduler) == [] && old(workerCount) > old(targetWorkerCount) ==> State() == Exit(old(State()), w)
      ensures old(scheduler) == [] && old(workerCount) <= old(targetWorkerCount) ==> State() == Sleep(old(State()), w)
    {
      k := 0;
      if scheduler == [] {
        if workerCount > targetWorkerCount {
          threads := threads[w := Exiting];
        } else {
          activeWorkerCount := Dec(activeWorkerCount);
          callers := NotifyCallers(callers);
          threads := threads[w := Asleep];
        }
      } else {
        ghost var i := SomethingPops(policy, scheduler);
        var j: nat :| Pops(policy, scheduler, j);
        assert Pops(policy, scheduler, j);
        k := j;
        var task := scheduler[k];
        scheduler := Without(scheduler, k);
        threads := threads[w := Running(task)];
        fates := if task.ticket < |fates| then fates[task.ticket := InFlight(w)] else fates;
        started := started + [task];
      }
    }

    method ExecuteTask(w: nat) returns (k: nat)
      requires Valid() && w in threads && threads[w].Ready?
      modifies this
      ensures Enabled(old(State()), Fetches(w, k))
      ensures Valid() && State() == Apply(old(State()), Fetches(w, k))
    {
      hide Invariant, Flow;
      if workerCount > targetWorkerCount {
        k := 0;
        threads := threads[w := Exiting];
      } else {
        k := SeekTask(w);
      }
      StepKeepsInvariant(old(State()), Fetches(w, k));
    }

    method ResumeTaskWait(w: nat) returns (k: nat)
      requires Valid() && w in threads && InWait(threads[w])
      modifies this
      ensures Enabled(old(State()), Wakes(w, k))
      ensures Valid() && State() == Apply(old(State()), Wakes(w, k))
    {
      hide Invariant, Flow;
      activeWorkerCount := Inc(activeWorkerCount);
      k := SeekTask(w);
      StepKeepsInvariant(old(State()), Wakes(w, k));
    }

    /** The task function returned; this happens outside the monitor. */
    method TaskReturns(w: nat)
      requires Valid() && w in threads && threads[w].Running?
      modifies this
      ensures Valid() && State() == Apply(old(State()), Returns(w))
    {
      hide Invariant, Flow;
      fates := Settle(State(), w, Ready, Finished).fates;
      threads := threads[w := Ready];
      StepKeepsInvariant(old(State()), Returns(w));
    }

    /** The task function threw: the scope guard will report the death. */
    method TaskThrows(w: nat)
      requires Valid() && w in threads && threads[w].Running?
      modifies this
      ensures Valid() && State() == Apply(old(State()), Throws(w))
    {
      hide Invariant, Flow;
      fates := Settle(State(), w, Dying, Thrown).fates;
      threads := threads[w := Dying];
      StepKeepsInvariant(old(State()), Throws(w));
    }

    method RemoveWorker(w: nat)
      modifies this
      ensures State() == Leave(old(State()), w) && accepted == old(accepted)
    {
      workerCount := Dec(workerCount);
      activeWorkerCount := Dec(activeWorkerCount);
      callers := NotifyCallers(callers);
      threads := threads - {w};
      if terminateAllWorkers {
        terminatedWorkers := terminatedWorkers + [w];
      }
    }

    method WorkerDestructed(w: nat)
      requires Valid() && w in threads && threads[w].Exiting?
      modifies this
      ensures Valid() && State() == Apply(old(State()), Destructs(w))
    {
      hide Invariant, Flow;
      RemoveWorker(w);
      StepKeepsInvariant(old(State()), Destructs(w));
    }

    /** The monitor is recursive: static_size resizes the pool from within this critical section. */
    method WorkerDiedUnexpectedly(w: nat, resources: nat)
      requires Valid() && w in threads && threads[w].Dying?
      modifies this
      ensures Valid() && State() == Apply(old(State()), Dies(w, resources))
      ensures !terminateAllWorkers && resources > 0 ==> workerCount == old(workerCount)
    {
      hide Invariant, Flow;
      InvariantHasFlow(State());
      RemoveWorker(w);
      if !terminateAllWorkers {
        DeathCounts(old(State()), w, resources);
        var _ := ResizeWorkers(Inc(workerCount), resources);
      }
      StepKeepsInvariant(old(State()), Dies(w, resources));
    }
  }

  lemma GrowUnrolls(s: Pool, resources: nat)
    ensures Grow(s, resources) ==
      if s.count < s.target && resources > 0 then Grow(Spawn(s), resources - 1) else s
    ensures s.count < s.target ==> Spawn(s).count == s.count + 1 && Spawn(s).target == s.target
    ensures Spawn(s).terminating == s.terminating && Spawn(s).fates == s.fates
  {
  }

  /** `resize` succeeds exactly when it reaches the requested count or leaves it to the workers to shrink. */
  lemma {:induction false} ResizeReaches(s: Pool, n: Size, resources: nat)
    requires Flow(s)
    ensures var t := ResizeTo(s, n, resources);
      ResizeSucceeds(s, n, resources) <==> !t.terminating && n <= t.count
  {
    if !s.terminating && s.count <= n {
      GrowReaches(s.(target := n), resources);
    }
  }

  lemma {:induction false} GrowReaches(s: Pool, resources: nat)
    requires s.count <= s.target
    ensures Grow(s, resources).count == if s.target - s.count <= resources then s.target else s.count + resources
    ensures Grow(s, resources).terminating == s.terminating
    decreases resources
  {
    if s.count < s.target && resources > 0 {
      GrowReaches(Spawn(s), resources - 1);
    }
  }
}
