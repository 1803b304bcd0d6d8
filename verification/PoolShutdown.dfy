/** After `terminate_all_workers` the pool winds down: a measure that every worker step decreases. */
module PoolShutdown {
  import opened Tally
  import opened PoolMachine
  import opened PoolInvariants
  import opened PoolTheorems

  /** How many steps a worker can take at most before it is gone. */
  function Rank(p: Phase): nat {
    match p
    case Asleep | Notified => 4
    case Running(_) => 3
    case Ready => 2
    case Exiting | Dying => 1
  }

  predicate AtLeast2(p: Phase) { Rank(p) >= 2 }
  predicate AtLeast3(p: Phase) { Rank(p) >= 3 }
  predicate AtLeast4(p: Phase) { Rank(p) >= 4 }

  /** The sum of the ranks of all live workers. */
  function Measure(m: map<nat, Phase>): nat {
    |m| + Count(m, AtLeast2) + Count(m, AtLeast3) + Count(m, AtLeast4)
  }

  lemma MeasureMoves(m: map<nat, Phase>, w: nat, p: Phase)
    requires w in m
    ensures Measure(m[w := p]) == Measure(m) - Rank(m[w]) + Rank(p)
  {
    assert m[w := p].Keys == m.Keys;
    CountUpdate(m, w, p, AtLeast2);
    CountUpdate(m, w, p, AtLeast3);
    CountUpdate(m, w, p, AtLeast4);
  }

  lemma MeasureDrops(m: map<nat, Phase>, w: nat)
    requires w in m
    ensures Measure(m - {w}) == Measure(m) - Rank(m[w])
  {
    assert (m - {w}).Keys == m.Keys - {w};
    CountRemove(m, w, AtLeast2);
    CountRemove(m, w, AtLeast3);
    CountRemove(m, w, AtLeast4);
  }

  predicate ByWorker(e: Event) {
    e.Fetches? || e.Wakes? || e.Returns? || e.Throws? || e.Destructs? || e.Dies?
  }

  lemma NobodySleeps(s: Pool)
    requires Flow(s) && s.terminating
    ensures forall w :: w in s.workers ==> !s.workers[w].Asleep?
    ensures NotifyAll(s.workers) == s.workers
    ensures s.workers != map[] ==> s.count > s.target
  {
    forall w | w in s.workers
      ensures !s.workers[w].Asleep?
    {
      if s.workers[w].Asleep? {
        CountPositive(s.workers, w, IsAsleep);
        WaitSplits(s.workers);
      }
    }
    if s.workers != map[] {
      assert |s.workers.Keys| > 0;
    }
  }

  /** One step after termination was requested. */
  ghost predicate WoundDown(s: Pool, t: Pool, e: Event) {
    && t.terminating && t.target == 0 && t.count <= s.count
    && Measure(t.workers) + (if ByWorker(e) then 1 else 0) <= Measure(s.workers)
    && |t.started| + Count(t.workers, InWait) <= |s.started| + Count(s.workers, InWait)
  }

  lemma StepDown(s: Pool, w: nat, p: Phase)
    requires w in s.workers && Rank(p) < Rank(s.workers[w])
    ensures Measure(s.workers[w := p]) < Measure(s.workers)
    ensures Count(s.workers[w := p], InWait) + At(s.workers, w, InWait) == Count(s.workers, InWait)
  {
    MeasureMoves(s.workers, w, p);
    CountUpdate(s.workers, w, p, InWait);
  }

  lemma WindsDown(s: Pool, e: Event)
    requires Flow(s) && s.terminating && Enabled(s, e)
    ensures WoundDown(s, Apply(s, e), e)
  {
    NobodySleeps(s);
    if ByWorker(e) {
      WorkerWindsDown(s, e);
    }
  }

  lemma WorkerWindsDown(s: Pool, e: Event)
    requires Flow(s) && s.terminating && Enabled(s, e) && ByWorker(e)
    ensures WoundDown(s, Apply(s, e), e)
  {
    NobodySleeps(s);
    assert s.target == 0 && s.count > 0;
    match e
    case Fetches(w, _) => StepDown(s, w, Exiting);
    case Wakes(w, k) => WakeWindsDown(s, w, k);
    case Returns(w) => StepDown(s, w, Ready);
    case Throws(w) => StepDown(s, w, Dying);
    case Destructs(w) => Vanishes(s, w);
    case Dies(w, _) => Vanishes(s, w);
  }

  lemma WakeWindsDown(s: Pool, w: nat, k: nat)
    requires s.terminating && s.target == 0 && s.count > 0 && Enabled(s, Wakes(w, k))
    ensures WoundDown(s, Wake(s, w, k), Wakes(w, k))
  {
    hide Measure;
    StepDown(s, w, if s.pending != [] then Running(s.pending[k]) else Exiting);
  }

  lemma Vanishes(s: Pool, w: nat)
    requires Flow(s) && w in s.workers && (s.workers[w].Exiting? || s.workers[w].Dying?)
    ensures Measure(Leave(s, w).workers) < Measure(s.workers)
    ensures Count(Leave(s, w).workers, InWait) == Count(s.workers, InWait)
    ensures Leave(s, w).count < s.count
  {
    MeasureDrops(s.workers, w);
    CountRemove(s.workers, w, InWait);
    LossKeepsFlow(s, w);
  }

  lemma RunWindsDown(run: seq<Pool>, events: seq<Event>, j: nat)
    requires IsRun(run, events) && j < |events| && run[j].terminating
    ensures WoundDown(run[j], run[j + 1], events[j])
  {
    RunKeepsInvariant(run, events, j);
    assert Follows(run, events, j);
    WindsDown(run[j], events[j]);
  }

  lemma TerminatingTargetsNone(run: seq<Pool>, events: seq<Event>, i: nat)
    requires IsRun(run, events) && i < |run| && run[i].terminating
    ensures run[i].target == 0
  {
    RunKeepsInvariant(run, events, i);
  }

  function WorkerSteps(events: seq<Event>): nat {
    if events == [] then 0
    else WorkerSteps(events[..|events| - 1]) + if ByWorker(events[|events| - 1]) then 1 else 0
  }

  /**
   From a terminating state on, however the threads interleave: the worker count
   only falls, at most 4 * |workers| worker steps remain, and only workers caught
   inside the task wait can start another task, one each.
   */
  lemma {:induction false} ShutdownWindsDown(run: seq<Pool>, events: seq<Event>, i: nat, j: nat)
    requires IsRun(run, events) && i <= j < |run| && run[i].terminating
    ensures run[j].terminating && run[j].target == 0 && run[j].count <= run[i].count
    ensures WorkerSteps(events[i..j]) + Measure(run[j].workers) <= Measure(run[i].workers) <= 4 * |run[i].workers|
    ensures |run[j].started| + Count(run[j].workers, InWait) <= |run[i].started| + Count(run[i].workers, InWait)
    decreases j
  {
    hide Measure, Follows, ByWorker;
    assert |run| == |events| + 1;
    hide IsRun;
    if i == j {
      TerminatingTargetsNone(run, events, i);
      MeasureBound(run[i].workers);
    } else {
      ShutdownWindsDown(run, events, i, j - 1);
      RunWindsDown(run, events, j - 1);
      assert events[i..j][..j - i - 1] == events[i..j - 1];
    }
  }

  lemma MeasureBound(m: map<nat, Phase>)
    ensures Measure(m) <= 4 * |m|
  {
    CountDisjoint(m, AtLeast2, p => !AtLeast2(p));
    CountDisjoint(m, AtLeast3, p => !AtLeast3(p));
    CountDisjoint(m, AtLeast4, p => !AtLeast4(p));
  }

  /** No live worker is ever stuck after termination: each has a step it can take by itself. */
  lemma EveryWorkerCanGoOn(s: Pool, w: nat) returns (e: Event)
    requires Reachable(s) && s.terminating && w in s.workers
    ensures Enabled(s, e) && ByWorker(e) && e.worker == w
    ensures e.Wakes? ==> s.workers[w].Notified?
  {
    ReachableInvariant(s);
    NobodySleeps(s);
    var k := 0;
    if s.pending != [] {
      k := SomethingPops(s.policy, s.pending);
    }
    match s.workers[w]
    case Ready => e := Fetches(w, k);
    case Running(_) => e := Returns(w);
    case Notified => e := Wakes(w, k);
    case Asleep => assert false;
    case Exiting => e := Destructs(w);
    case Dying => e := Dies(w, 0);
  }
}
