/** What happens to a task over a whole run, and what the shutdown policies promise about it. */
module PoolHistory {
  import opened PoolMachine
  import opened PoolLedger
  import opened PoolTheorems

  predicate Settled(f: Fate) { f.Finished? || f.Thrown? || f.Cleared? }

  /** A task waits, then it is cleared or runs, then it is finished or thrown; nothing leads back. */
  predicate MayBecome(f: Fate, g: Fate) {
    f == g || f.Pending? || (f.InFlight? && (g.Finished? || g.Thrown?))
  }

  ghost predicate FatesMove(s: Pool, t: Pool) {
    |s.fates| <= |t.fates| && forall i :: 0 <= i < |s.fates| ==> MayBecome(s.fates[i], t.fates[i])
  }

  lemma StepMovesFates(s: Pool, e: Event)
    requires Ledger(s) && Enabled(s, e)
    ensures FatesMove(s, Apply(s, e))
  {
    if !TouchesTasks(s, e) {
      OtherStepsKeepTasks(s, e);
    } else if e.Fetches? || e.Wakes? {
      assert s.fates[s.pending[e.k].ticket].Pending?;
    } else if e.Returns? || e.Throws? {
      assert s.fates[s.workers[e.worker].task.ticket].InFlight?;
    }
  }

  lemma RunStepMovesFates(run: seq<Pool>, events: seq<Event>, i: nat)
    requires IsRun(run, events) && i < |events|
    ensures FatesMove(run[i], run[i + 1])
  {
    RunKeepsInvariant(run, events, i);
    assert Follows(run, events, i);
    StepMovesFates(run[i], events[i]);
  }

  lemma FatesMoveTwice(a: Pool, b: Pool, c: Pool)
    requires FatesMove(a, b) && FatesMove(b, c)
    ensures FatesMove(a, c)
  {
  }

  /** Over every run, from any state to any later one. */
  lemma {:induction false} FatesOnlyMoveForward(run: seq<Pool>, events: seq<Event>, i: nat, j: nat)
    requires IsRun(run, events) && i <= j < |run|
    ensures FatesMove(run[i], run[j])
    decreases j
  {
    if i < j {
      FatesOnlyMoveForward(run, events, i, j - 1);
      RunStepMovesFates(run, events, j - 1);
      hide IsRun;
      FatesMoveTwice(run[i], run[j - 1], run[j]);
    }
  }

  /** Shutdown without waiting: a task that was pending when the scheduler was cleared never starts. */
  lemma ClearedTasksNeverStart(run: seq<Pool>, events: seq<Event>, i: nat, j: nat, t: nat)
    requires IsRun(run, events) && i < j < |run| && events[i].Clear?
    requires t < |run[i].fates| && run[i].fates[t].Pending?
    ensures t < |run[j].fates| && run[j].fates[t].Cleared? && !HoldsTicket(run[j].started, t)
  {
    assert Follows(run, events, i);
    assert run[i + 1].fates[t].Cleared?;
    FatesOnlyMoveForward(run, events, i + 1, j);
    RunKeepsInvariant(run, events, j);
    hide IsRun, Follows, Enabled, Apply;
    assert MayBecome(run[i + 1].fates[t], run[j].fates[t]);
  }

  /** The event with which a caller of wait(0) comes back. */
  ghost predicate LeavesDrained(run: seq<Pool>, events: seq<Event>, i: nat, c: nat)
    requires IsRun(run, events) && i < |events|
  {
    && c !in run[i + 1].callers
    && (events[i] == Block(c, 0)
        || (events[i] == CallerWakes(c) && c in run[i].callers && run[i].callers[c].goal == Drain(0)))
  }

  /** Shutdown after waiting: what was accepted before `wait(0)` returned is settled then, and for good. */
  lemma DrainedTasksStaySettled(run: seq<Pool>, events: seq<Event>, i: nat, j: nat, c: nat, t: nat)
    requires IsRun(run, events) && i < j < |run| && LeavesDrained(run, events, i, c)
    requires t < |run[i].fates|
    ensures t < |run[j].fates| && run[j].fates[t] == run[i].fates[t] && Settled(run[j].fates[t])
  {
    assert Follows(run, events, i);
    FatesOnlyMoveForward(run, events, i, j);
    StateIsReachable(run, events, i);
    DrainReturns(run[i], c, 0);
    assert MayBecome(run[i].fates[t], run[j].fates[t]);
  }

  lemma StateIsReachable(run: seq<Pool>, events: seq<Event>, i: nat)
    requires IsRun(run, events) && i < |run|
    ensures Reachable(run[i])
  {
    var r, es := run[..i + 1], events[..i];
    forall k | 0 <= k < i
      ensures Follows(r, es, k)
    {
      assert Follows(run, events, k);
    }
    assert EndsIn(r, es, run[i]);
  }

  /** A run of a task begins once: the list of starts only grows, and no ticket comes twice. */
  lemma {:induction false} StartsOnlyGrow(run: seq<Pool>, events: seq<Event>, i: nat, j: nat)
    requires IsRun(run, events) && i <= j < |run|
    ensures run[i].started <= run[j].started
    decreases j
  {
    if i < j {
      StartsOnlyGrow(run, events, i, j - 1);
      RunKeepsInvariant(run, events, j - 1);
      assert Follows(run, events, j - 1);
      var s, e := run[j - 1], events[j - 1];
      if !TouchesTasks(s, e) {
        OtherStepsKeepTasks(s, e);
      }
    }
  }
}
