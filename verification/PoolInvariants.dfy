/**
 What every reachable pool state satisfies, under every interleaving of callers,
 workers, failed thread creations, throwing tasks and spurious wake-ups.
 */
module PoolInvariants {
  import opened Tally
  import opened PoolMachine

  /** The counters count: live workers, and those of them that are not in the task wait. */
  ghost predicate Accounting(s: Pool) {
    && s.count == |s.workers|
    && s.active == Count(s.workers, OutsideWait)
  }

  /** No worker sleeps through a reduction of the pool. */
  ghost predicate Trimmed(s: Pool) {
    s.count > s.target ==> Count(s.workers, IsAsleep) == 0
  }

  /** No lost wake-up: a worker sleeps only if the others already suffice for the pending tasks. */
  ghost predicate NoLostWakeup(s: Pool) {
    Count(s.workers, IsAsleep) > 0 ==>
      |s.pending| <= Count(s.workers, IsNotified) + Count(s.workers, IsReady)
  }

  /** What an un-notified caller may still rely on to be notified later. */
  ghost predicate Served(s: Pool, goal: Goal) {
    match goal
    case Termination => s.active > 0
    case Drain(_) => s.active > 0 || Count(s.workers, IsNotified) > 0 || s.workers == map[]
  }

  ghost predicate CallersServed(s: Pool) {
    forall c :: c in s.callers && !s.callers[c].notified ==> Served(s, s.callers[c].goal)
  }

  /** Every worker on the join list has run its last critical section, and is there once. */
  ghost predicate Joinable(s: Pool) {
    && (forall w :: w in s.workers ==> w < s.spawned)
    && (forall i :: 0 <= i < |s.terminated| ==> s.terminated[i] < s.spawned && s.terminated[i] !in s.workers)
    && (forall i, j :: 0 <= i < j < |s.terminated| ==> s.terminated[i] != s.terminated[j])
    && (s.terminating ==> s.target == 0)
    && (!s.terminating ==> s.terminated == [])
  }

  ghost predicate Flow(s: Pool) {
    Accounting(s) && Trimmed(s) && NoLostWakeup(s) && CallersServed(s) && Joinable(s)
  }

  // ---------- moving one worker ----------

  /** The effect on all counts of putting w into phase p. */
  lemma Move(m: map<nat, Phase>, w: nat, p: Phase)
    requires w in m
    ensures |m[w := p]| == |m|
    ensures Count(m[w := p], OutsideWait) == Count(m, OutsideWait) - At(m, w, OutsideWait) + (if OutsideWait(p) then 1 else 0)
    ensures Count(m[w := p], IsAsleep) == Count(m, IsAsleep) - At(m, w, IsAsleep) + (if p.Asleep? then 1 else 0)
    ensures Count(m[w := p], IsNotified) == Count(m, IsNotified) - At(m, w, IsNotified) + (if p.Notified? then 1 else 0)
    ensures Count(m[w := p], IsReady) == Count(m, IsReady) - At(m, w, IsReady) + (if p.Ready? then 1 else 0)
  {
    assert m[w := p].Keys == m.Keys;
    CountUpdate(m, w, p, OutsideWait);
    CountUpdate(m, w, p, IsAsleep);
    CountUpdate(m, w, p, IsNotified);
    CountUpdate(m, w, p, IsReady);
  }

  lemma WaitSplits(m: map<nat, Phase>)
    ensures Count(m, OutsideWait) + Count(m, IsAsleep) + Count(m, IsNotified) == |m|
  {
    CountDisjoint(m, OutsideWait, InWait);
    assert Having(m, InWait) == Having(m, IsAsleep) + Having(m, IsNotified);
    assert Having(m, IsAsleep) !! Having(m, IsNotified);
  }

  lemma NotifyAllCounts(m: map<nat, Phase>)
    ensures NotifyAll(m).Keys == m.Keys && |NotifyAll(m)| == |m|
    ensures Count(NotifyAll(m), OutsideWait) == Count(m, OutsideWait)
    ensures Count(NotifyAll(m), IsAsleep) == 0
    ensures Count(NotifyAll(m), IsNotified) == Count(m, IsNotified) + Count(m, IsAsleep)
    ensures Count(NotifyAll(m), IsReady) == Count(m, IsReady)
  {
    var n := NotifyAll(m);
    assert n.Keys == m.Keys;
    CountSame(m, n, OutsideWait);
    CountSame(m, n, IsReady);
    assert Having(n, IsAsleep) == {};
    WaitSplits(m);
    WaitSplits(n);
  }

  // ---------- preservation, one event at a time ----------

  lemma ScheduleKeepsFlow(s: Pool, priority: int, w: nat)
    requires Flow(s) && Enabled(s, Schedule(priority, w))
    ensures Flow(ScheduleTask(s, priority, w))
  {
    if w in s.workers && s.workers[w].Asleep? {
      Move(s.workers, w, Notified);
      CountPositive(s.workers, w, IsAsleep);
    }
  }

  lemma {:induction false} GrowKeepsFlow(s: Pool, resources: nat)
    requires Flow(s) && s.count <= s.target && !s.terminating
    ensures Flow(Grow(s, resources))
    decreases resources
  {
    if s.count < s.target && resources > 0 {
      SpawnKeepsFlow(s);
      GrowKeepsFlow(Spawn(s), resources - 1);
    }
  }

  lemma SpawnKeepsFlow(s: Pool)
    requires Flow(s) && s.count < s.target && !s.terminating
    ensures Flow(Spawn(s)) && Spawn(s).count == s.count + 1 && Spawn(s).active == s.active + 1
  {
    WaitSplits(s.workers);
    assert s.spawned !in s.workers;
    CountUpdate(s.workers, s.spawned, Ready, OutsideWait);
    CountUpdate(s.workers, s.spawned, Ready, IsAsleep);
    CountUpdate(s.workers, s.spawned, Ready, IsNotified);
    CountUpdate(s.workers, s.spawned, Ready, IsReady);
  }

  lemma ResizeKeepsFlow(s: Pool, n: Size, resources: nat)
    requires Flow(s)
    ensures Flow(ResizeTo(s, n, resources))
  {
    if !s.terminating {
      if s.count <= n {
        GrowKeepsFlow(s.(target := n), resources);
      } else {
        NotifyAllCounts(s.workers);
      }
    }
  }

  /** A caller blocks only in a state that still has somebody to notify it. */
  lemma BlockingIsServed(s: Pool, goal: Goal)
    requires Flow(s) && MustBlock(s, goal)
    ensures Served(s, goal)
  {
    WaitSplits(s.workers);
    if s.active == 0 && s.workers != map[] {
      assert |s.workers.Keys| > 0;
      if Count(s.workers, IsReady) > 0 {
        var w := SomeKey(s.workers, IsReady);
        CountPositive(s.workers, w, OutsideWait);
      }
    }
  }

  lemma LeaveKeepsFlow(s: Pool, c: nat, goal: Goal)
    requires Flow(s)
    ensures Flow(TryToLeave(s, c, goal))
  {
    if MustBlock(s, goal) {
      BlockingIsServed(s, goal);
    }
  }

  lemma TerminateKeepsFlow(s: Pool, c: nat, wait: bool)
    requires Flow(s)
    ensures Flow(TerminateAll(s, c, wait))
  {
    NotifyAllCounts(s.workers);
    var t := s.(terminating := true, target := 0, workers := NotifyAll(s.workers));
    assert Flow(t);
    LeaveKeepsFlow(t, c, Termination);
  }

  lemma SleepKeepsFlow(s: Pool, w: nat)
    requires w in s.workers && OutsideWait(s.workers[w])
    requires Flow(s) && s.pending == [] && s.count <= s.target
    ensures Flow(Sleep(s, w))
  {
    Move(s.workers, w, Asleep);
    CountPositive(s.workers, w, OutsideWait);
  }

  lemma ExitKeepsFlow(s: Pool, w: nat)
    requires w in s.workers && s.workers[w].Ready?
    requires Flow(s) && s.count > s.target
    ensures Flow(Exit(s, w))
  {
    Move(s.workers, w, Exiting);
  }

  lemma TakeKeepsFlow(s: Pool, w: nat, k: nat)
    requires w in s.workers && s.workers[w].Ready? && k < |s.pending|
    requires Flow(s)
    ensures Flow(Take(s, w, k))
  {
    Move(s.workers, w, Running(s.pending[k]));
    CountPositive(s.workers, w, OutsideWait);
    assert |Without(s.pending, k)| == |s.pending| - 1;
  }

  lemma FetchKeepsFlow(s: Pool, w: nat, k: nat)
    requires Flow(s) && Enabled(s, Fetches(w, k))
    ensures Flow(Fetch(s, w, k))
  {
    if s.count > s.target {
      ExitKeepsFlow(s, w);
    } else if s.pending == [] {
      SleepKeepsFlow(s, w);
    } else {
      TakeKeepsFlow(s, w, k);
    }
  }

  /** Re-acquiring the monitor after the task wait puts the worker where Ready ones are. */
  lemma WakeIsFetch(s: Pool, w: nat, k: nat)
    requires Flow(s) && Enabled(s, Wakes(w, k))
    ensures Flow(AsReady(s, w))
    ensures Inc(s.active) == s.active + 1
  {
    Move(s.workers, w, Ready);
    WaitSplits(s.workers);
    CountPositive(s.workers, w, if s.workers[w].Asleep? then IsAsleep else IsNotified);
  }

  function AsReady(s: Pool, w: nat): Pool {
    s.(active := Inc(s.active), workers := s.workers[w := Ready])
  }

  /** What follows the task wait is what a Ready worker would do, but for the order of the two tests. */
  lemma WakeThroughReady(s: Pool, w: nat, k: nat)
    requires s.pending != [] ==> k < |s.pending|
    ensures Wake(s, w, k) ==
      if s.pending != [] then Take(AsReady(s, w), w, k)
      else if s.count > s.target then Exit(AsReady(s, w), w)
      else Sleep(AsReady(s, w), w)
    ensures s.pending == [] || s.count <= s.target ==> Wake(s, w, k) == Fetch(AsReady(s, w), w, k)
  {
  }

  lemma WakeKeepsFlow(s: Pool, w: nat, k: nat)
    requires Flow(s) && Enabled(s, Wakes(w, k))
    ensures Flow(Wake(s, w, k))
  {
    WakeIsFetch(s, w, k);
    WakeThroughReady(s, w, k);
    if s.pending != [] {
      TakeKeepsFlow(AsReady(s, w), w, k);
    } else if s.count > s.target {
      ExitKeepsFlow(AsReady(s, w), w);
    } else {
      SleepKeepsFlow(AsReady(s, w), w);
    }
  }

  lemma SettleKeepsFlow(s: Pool, w: nat, p: Phase, f: Fate)
    requires w in s.workers && s.workers[w].Running? && (p.Ready? || p.Dying?)
    requires Flow(s)
    ensures Flow(Settle(s, w, p, f))
  {
    Move(s.workers, w, p);
  }

  lemma LossKeepsFlow(s: Pool, w: nat)
    requires w in s.workers && (s.workers[w].Exiting? || s.workers[w].Dying?)
    requires Flow(s)
    ensures Flow(Leave(s, w))
    ensures Leave(s, w).count == s.count - 1 && Leave(s, w).active == s.active - 1
  {
    CountRemove(s.workers, w, OutsideWait);
    CountRemove(s.workers, w, IsAsleep);
    CountRemove(s.workers, w, IsNotified);
    CountRemove(s.workers, w, IsReady);
    CountPositive(s.workers, w, OutsideWait);
    assert (s.workers - {w}).Keys == s.workers.Keys - {w};
  }

  lemma StepKeepsFlow(s: Pool, e: Event)
    requires Flow(s) && Enabled(s, e)
    ensures Flow(Apply(s, e))
  {
    match e
    case Schedule(p, w) => ScheduleKeepsFlow(s, p, w);
    case Clear =>
    case Resize(n, r) => ResizeKeepsFlow(s, n, r);
    case Terminate(c, wait) => TerminateKeepsFlow(s, c, wait);
    case Block(c, n) => LeaveKeepsFlow(s, c, Drain(n));
    case CallerWakes(c) => LeaveKeepsFlow(s, c, s.callers[c].goal);
    case Fetches(w, k) => FetchKeepsFlow(s, w, k);
    case Wakes(w, k) => WakeKeepsFlow(s, w, k);
    case Returns(w) => SettleKeepsFlow(s, w, Ready, Finished);
    case Throws(w) => SettleKeepsFlow(s, w, Dying, Thrown);
    case Destructs(w) => LossKeepsFlow(s, w);
    case Dies(w, r) =>
      LossKeepsFlow(s, w);
      var t := Leave(s, w);
      ResizeKeepsFlow(t, Inc(t.count), r);
  }
}
