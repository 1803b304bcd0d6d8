/** Task conservation and start order: where accepted tasks are, and which starts next. */
module PoolLedger {
  import opened PoolMachine

  /** The scheduler holds exactly the tasks whose fate is Pending, each once. */
  ghost predicate PendingMatches(s: Pool) {
    && (forall i :: 0 <= i < |s.pending| ==>
          s.pending[i].ticket < |s.fates| && s.fates[s.pending[i].ticket].Pending?)
    && (forall i, j :: 0 <= i < j < |s.pending| ==> s.pending[i].ticket != s.pending[j].ticket)
    && (forall t :: 0 <= t < |s.fates| && s.fates[t].Pending? ==> HoldsTicket(s.pending, t))
  }

  ghost predicate HoldsTicket(tasks: seq<Task>, ticket: nat) {
    exists i :: 0 <= i < |tasks| && tasks[i].ticket == ticket
  }

  /** A task is in flight with worker w exactly when w is inside that task's function. */
  ghost predicate InFlightMatches(s: Pool) {
    && (forall w :: w in s.workers && s.workers[w].Running? ==>
          s.workers[w].task.ticket < |s.fates| && s.fates[s.workers[w].task.ticket] == InFlight(w))
    && (forall t :: 0 <= t < |s.fates| && s.fates[t].InFlight? ==>
          s.fates[t].worker in s.workers && s.workers[s.fates[t].worker].Running?
          && s.workers[s.fates[t].worker].task.ticket == t)
  }

  predicate WasStarted(f: Fate) { f.InFlight? || f.Finished? || f.Thrown? }

  /** A task was started at most once, and exactly when its fate says so. */
  ghost predicate StartedMatches(s: Pool) {
    && (forall i :: 0 <= i < |s.started| ==>
          s.started[i].ticket < |s.fates| && WasStarted(s.fates[s.started[i].ticket]))
    && (forall i, j :: 0 <= i < j < |s.started| ==> s.started[i].ticket != s.started[j].ticket)
    && (forall t :: 0 <= t < |s.fates| && WasStarted(s.fates[t]) ==> HoldsTicket(s.started, t))
  }

  /** Fifo keeps the oldest task in front, lifo the newest; fifo starts tasks in schedule order. */
  ghost predicate Ordered(s: Pool) {
    match s.policy
    case Fifo =>
      && (forall i, j :: 0 <= i < j < |s.pending| ==> s.pending[i].ticket < s.pending[j].ticket)
      && (forall i, j :: 0 <= i < j < |s.started| ==> s.started[i].ticket < s.started[j].ticket)
      && (forall i, j :: 0 <= i < |s.started| && 0 <= j < |s.pending| ==> s.started[i].ticket < s.pending[j].ticket)
    case Lifo => forall i, j :: 0 <= i < j < |s.pending| ==> s.pending[i].ticket > s.pending[j].ticket
    case Priority => true
  }

  ghost predicate Ledger(s: Pool) {
    && (forall w :: w in s.workers ==> w < s.spawned)
    && PendingMatches(s) && InFlightMatches(s) && StartedMatches(s) && Ordered(s)
  }

  /** Nothing the ledger speaks of differs between s and t, except perhaps workers outside tasks. */
  ghost predicate SameTasks(s: Pool, t: Pool) {
    && s.pending == t.pending && s.fates == t.fates && s.started == t.started && s.policy == t.policy
    && (forall w :: w in t.workers ==> w < t.spawned)
    && (forall w :: w in t.workers && t.workers[w].Running? ==> w in s.workers && s.workers[w] == t.workers[w])
    && (forall w :: w in s.workers && s.workers[w].Running? ==> w in t.workers && s.workers[w] == t.workers[w])
  }

  lemma SameTasksKeepsLedger(s: Pool, t: Pool)
    requires Ledger(s) && SameTasks(s, t)
    ensures Ledger(t)
  {
  }

  lemma PushKeepsPending(s: Pool, priority: int, w: nat)
    requires PendingMatches(s)
    ensures PendingMatches(ScheduleTask(s, priority, w))
  {
    var t := ScheduleTask(s, priority, w);
    var shift := if s.policy.Lifo? then 1 else 0;
    forall i | 0 <= i < |t.pending|
      ensures t.pending[i] == (if i == (if s.policy.Lifo? then 0 else |s.pending|) then Task(|s.fates|, priority)
                               else s.pending[i - shift])
    {
    }
    forall k | 0 <= k < |t.fates| && t.fates[k].Pending?
      ensures HoldsTicket(t.pending, k)
    {
      if k < |s.fates| {
        var i :| 0 <= i < |s.pending| && s.pending[i].ticket == k;
        assert t.pending[i + shift] == s.pending[i];
      } else {
        assert t.pending[if s.policy.Lifo? then 0 else |s.pending|].ticket == k;
      }
    }
  }

  lemma ScheduleKeepsLedger(s: Pool, priority: int, w: nat)
    requires Ledger(s)
    ensures Ledger(ScheduleTask(s, priority, w))
  {
    var t := ScheduleTask(s, priority, w);
    PushKeepsPending(s, priority, w);
    assert InFlightMatches(t);
    assert StartedMatches(t);
    PushKeepsOrder(s, priority, w);
  }

  lemma PushKeepsOrder(s: Pool, priority: int, w: nat)
    requires PendingMatches(s) && StartedMatches(s) && Ordered(s)
    ensures Ordered(ScheduleTask(s, priority, w))
  {
  }

  lemma ClearKeepsLedger(s: Pool)
    requires Ledger(s)
    ensures Ledger(ClearTasks(s))
  {
  }

  lemma {:induction false} GrowKeepsTasks(s: Pool, resources: nat)
    requires forall w :: w in s.workers ==> w < s.spawned
    ensures SameTasks(s, Grow(s, resources))
    decreases resources
  {
    if s.count < s.target && resources > 0 {
      GrowKeepsTasks(Spawn(s), resources - 1);
    }
  }

  lemma ResizeKeepsTasks(s: Pool, n: Size, resources: nat)
    requires forall w :: w in s.workers ==> w < s.spawned
    ensures SameTasks(s, ResizeTo(s, n, resources))
  {
    if !s.terminating && s.count <= n {
      GrowKeepsTasks(s.(target := n), resources);
    }
  }

  lemma WithoutAt(pending: seq<Task>, k: nat)
    requires k < |pending|
    ensures |Without(pending, k)| == |pending| - 1
    ensures forall i :: 0 <= i < |pending| - 1 ==> Without(pending, k)[i] == pending[if i < k then i else i + 1]
  {
  }

  lemma TakeKeepsPending(s: Pool, w: nat, k: nat)
    requires PendingMatches(s) && k < |s.pending|
    ensures PendingMatches(Take(s, w, k))
  {
    var t := Take(s, w, k);
    WithoutAt(s.pending, k);
    forall f | 0 <= f < |t.fates| && t.fates[f].Pending?
      ensures HoldsTicket(t.pending, f)
    {
      assert HoldsTicket(s.pending, f);
      var i :| 0 <= i < |s.pending| && s.pending[i].ticket == f;
      assert t.pending[if i < k then i else i - 1].ticket == f;
    }
  }

  lemma TakeKeepsStarted(s: Pool, w: nat, k: nat)
    requires PendingMatches(s) && StartedMatches(s) && k < |s.pending|
    ensures StartedMatches(Take(s, w, k))
  {
    var t := Take(s, w, k);
    var task := s.pending[k];
    forall f | 0 <= f < |t.fates| && WasStarted(t.fates[f])
      ensures HoldsTicket(t.started, f)
    {
      if f == task.ticket {
        assert t.started[|s.started|].ticket == f;
      } else {
        assert HoldsTicket(s.started, f);
        var i :| 0 <= i < |s.started| && s.started[i].ticket == f;
        assert t.started[i].ticket == f;
      }
    }
  }

  lemma TakeKeepsOrder(s: Pool, w: nat, k: nat)
    requires Ordered(s) && Pops(s.policy, s.pending, k)
    ensures Ordered(Take(s, w, k))
  {
    WithoutAt(s.pending, k);
  }

  lemma TakeKeepsInFlight(s: Pool, w: nat, k: nat)
    requires PendingMatches(s) && InFlightMatches(s) && k < |s.pending|
    requires w in s.workers && !s.workers[w].Running?
    ensures InFlightMatches(Take(s, w, k))
  {
  }

  lemma TakeKeepsLedger(s: Pool, w: nat, k: nat)
    requires Ledger(s) && Pops(s.policy, s.pending, k)
    requires w in s.workers && !s.workers[w].Running?
    ensures Ledger(Take(s, w, k))
  {
    TakeKeepsPending(s, w, k);
    TakeKeepsStarted(s, w, k);
    TakeKeepsInFlight(s, w, k);
    TakeKeepsOrder(s, w, k);
  }

  lemma SettleKeepsLedger(s: Pool, w: nat, p: Phase, f: Fate)
    requires Ledger(s) && w in s.workers && s.workers[w].Running?
    requires !p.Running? && (f.Finished? || f.Thrown?)
    ensures Ledger(Settle(s, w, p, f))
  {
    var t := Settle(s, w, p, f);
    forall k | 0 <= k < |t.fates| && t.fates[k].Pending?
      ensures HoldsTicket(t.pending, k)
    {
      assert HoldsTicket(s.pending, k);
    }
    forall k | 0 <= k < |t.fates| && WasStarted(t.fates[k])
      ensures HoldsTicket(t.started, k)
    {
      assert HoldsTicket(s.started, k);
    }
    assert InFlightMatches(t);
  }

  predicate TouchesTasks(s: Pool, e: Event) {
    match e
    case Schedule(_, _) | Clear | Returns(_) | Throws(_) => true
    case Fetches(_, _) => s.count <= s.target && s.pending != []
    case Wakes(_, _) => s.pending != []
    case _ => false
  }

  lemma OtherStepsKeepTasks(s: Pool, e: Event)
    requires Enabled(s, e) && !TouchesTasks(s, e)
    requires forall w :: w in s.workers ==> w < s.spawned
    ensures SameTasks(s, Apply(s, e))
  {
    match e
    case Resize(n, r) => ResizeKeepsTasks(s, n, r);
    case Dies(w, r) => DeathKeepsTasks(s, w, r);
    case _ =>
  }

  lemma DeathKeepsTasks(s: Pool, w: nat, resources: nat)
    requires Enabled(s, Dies(w, resources))
    requires forall v :: v in s.workers ==> v < s.spawned
    ensures SameTasks(s, Die(s, w, resources))
  {
    var t := Leave(s, w);
    if !t.terminating {
      ResizeKeepsTasks(t, Inc(t.count), resources);
    }
  }

  lemma TakingKeepsLedger(s: Pool, e: Event)
    requires Ledger(s) && Enabled(s, e) && TouchesTasks(s, e) && (e.Fetches? || e.Wakes?)
    ensures Ledger(Apply(s, e))
  {
    if e.Fetches? {
      TakeKeepsLedger(s, e.worker, e.k);
    } else {
      var t := s.(active := Inc(s.active));
      SameTasksKeepsLedger(s, t);
      TakeKeepsLedger(t, e.worker, e.k);
    }
  }

  lemma StepKeepsLedger(s: Pool, e: Event)
    requires Ledger(s) && Enabled(s, e)
    ensures Ledger(Apply(s, e))
  {
    if !TouchesTasks(s, e) {
      OtherStepsKeepTasks(s, e);
      SameTasksKeepsLedger(s, Apply(s, e));
    } else if e.Fetches? || e.Wakes? {
      TakingKeepsLedger(s, e);
    } else {
      match e
      case Schedule(p, w) => ScheduleKeepsLedger(s, p, w);
      case Clear => ClearKeepsLedger(s);
      case Returns(w) => SettleKeepsLedger(s, w, Ready, Finished);
      case Throws(w) => SettleKeepsLedger(s, w, Dying, Thrown);
    }
  }
}
