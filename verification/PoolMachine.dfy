/**
 The thread pool as a state machine. Each critical section under the pool's
 monitor is one event; `Apply` is what it does to the pool, and everything a
 thread does outside the monitor happens between two events.
 */
module PoolMachine {
  import opened Tally

  /** The width of `size_t`; the pool's counters wrap around at this bound. */
  const SIZE_LIMIT := 0x1_0000_0000_0000_0000
  type Size = x: int | 0 <= x < SIZE_LIMIT

  function Inc(x: Size): Size { (x + 1) % SIZE_LIMIT }

  function Dec(x: Size): Size { if x == 0 then SIZE_LIMIT - 1 else x - 1 }

  /** A task as the scheduler sees it; the ticket is its place in schedule order. */
  datatype Task = Task(ticket: nat, priority: int)

  datatype Policy = Fifo | Lifo | Priority

  /** Where a live worker thread stands between two critical sections. */
  datatype Phase =
    | Ready                 // about to call execute_task, or just created
    | Running(task: Task)   // inside the task function
    | Asleep                // waits for a task, not notified
    | Notified              // was notified, has not re-acquired the monitor
    | Exiting               // execute_task returned false
    | Dying                 // the task threw

  predicate InWait(p: Phase) { p.Asleep? || p.Notified? }
  predicate OutsideWait(p: Phase) { !InWait(p) }
  predicate IsAsleep(p: Phase) { p.Asleep? }
  predicate IsNotified(p: Phase) { p.Notified? }
  predicate IsReady(p: Phase) { p.Ready? }
  predicate IsRunning(p: Phase) { p.Running? }

  /** What a blocked caller waits for. */
  datatype Goal = Drain(threshold: Size) | Termination

  datatype Caller = Caller(goal: Goal, notified: bool)

  /** What became of an accepted task. */
  datatype Fate = Pending | InFlight(worker: nat) | Finished | Thrown | Cleared

  datatype Pool = Pool(
    policy: Policy,
    workers: map<nat, Phase>,      // the live workers
    spawned: nat,                  // how many workers were ever created
    pending: seq<Task>,            // the scheduler's container
    count: Size,                   // m_worker_count
    target: Size,                  // m_target_worker_count
    active: Size,                  // m_active_worker_count
    terminating: bool,             // m_terminate_all_workers
    terminated: seq<nat>,          // m_terminated_workers
    callers: map<nat, Caller>,     // blocked callers
    fates: seq<Fate>,              // history: fate by ticket
    started: seq<Task>             // history: tasks in start order
  )

  function Fresh(policy: Policy): Pool {
    Pool(policy, map[], 0, [], 0, 0, 0, false, [], map[], [], [])
  }

  // ---------- the scheduling policies ----------

  function Enqueue(policy: Policy, pending: seq<Task>, task: Task): seq<Task> {
    if policy.Lifo? then [task] + pending else pending + [task]
  }

  /** `top` and `pop` may take the task at index k. Equal priorities may go in any order. */
  predicate Pops(policy: Policy, pending: seq<Task>, k: nat) {
    k < |pending| &&
    if policy.Priority? then
      forall j :: 0 <= j < |pending| ==> pending[j].priority <= pending[k].priority
    else
      k == 0
  }

  function Without(pending: seq<Task>, k: nat): seq<Task>
    requires k < |pending|
  {
    pending[..k] + pending[k + 1..]
  }

  /** A task `top` may return exists whenever one is pending. */
  lemma {:induction false} SomethingPops(policy: Policy, pending: seq<Task>) returns (k: nat)
    requires pending != []
    ensures Pops(policy, pending, k)
  {
    k := 0;
    if policy.Priority? && |pending| > 1 {
      var rest := pending[1..];
      var r := SomethingPops(policy, rest);
      assert forall j :: 1 <= j < |pending| ==> pending[j] == rest[j - 1];
      k := if pending[0].priority >= rest[r].priority then 0 else r + 1;
    }
  }

  // ---------- the condition variables ----------

  /** notify_one on m_task_or_terminate_workers_event: wakes w if w sleeps. */
  function NotifyOne(workers: map<nat, Phase>, w: nat): map<nat, Phase> {
    if w in workers && workers[w].Asleep? then workers[w := Notified] else workers
  }

  /** notify_all on m_task_or_terminate_workers_event. */
  function NotifyAll(workers: map<nat, Phase>): map<nat, Phase> {
    map w | w in workers :: if workers[w].Asleep? then Notified else workers[w]
  }

  /** notify_all on m_worker_idle_or_terminated_event. */
  function NotifyCallers(callers: map<nat, Caller>): map<nat, Caller> {
    map c | c in callers :: callers[c].(notified := true)
  }

  // ---------- one function for each critical section ----------

  function ScheduleTask(s: Pool, priority: int, w: nat): Pool {
    s.(pending := Enqueue(s.policy, s.pending, Task(|s.fates|, priority)),
       workers := NotifyOne(s.workers, w),
       fates := s.fates + [Fate.Pending])
  }

  function ClearTasks(s: Pool): Pool {
    s.(pending := [],
       fates := seq(|s.fates|, i requires 0 <= i < |s.fates| =>
         if s.fates[i].Pending? then Cleared else s.fates[i]))
  }

  /** create_and_attach succeeded: one more worker, counted as active. */
  function Spawn(s: Pool): Pool {
    s.(workers := s.workers[s.spawned := Ready], spawned := s.spawned + 1,
       count := Inc(s.count), active := Inc(s.active))
  }

  /** The creation loop of `resize`, when only `resources` more threads can be created. */
  function Grow(s: Pool, resources: nat): Pool
    decreases s.target - s.count
  {
    if s.count < s.target && resources > 0 then Grow(Spawn(s), resources - 1) else s
  }

  function ResizeTo(s: Pool, n: Size, resources: nat): Pool {
    if s.terminating then s
    else if s.count <= n then Grow(s.(target := n), resources)
    else s.(target := n, workers := NotifyAll(s.workers))
  }

  /** The result `resize` reports: false when terminating or when a thread could not be created. */
  function ResizeSucceeds(s: Pool, n: Size, resources: nat): bool {
    !s.terminating && n - s.count <= resources
  }

  predicate MustBlock(s: Pool, goal: Goal) {
    match goal
    case Drain(n) => if n == 0 then s.active != 0 || s.pending != [] else n < s.active + |s.pending|
    case Termination => s.active > 0
  }

  /** A caller of `wait` or `terminate_all_workers(true)` evaluates its loop condition. */
  function TryToLeave(s: Pool, c: nat, goal: Goal): Pool {
    if MustBlock(s, goal) then s.(callers := s.callers[c := Caller(goal, false)])
    else if goal.Termination? then s.(callers := s.callers - {c}, terminated := [])
    else s.(callers := s.callers - {c})
  }

  function TerminateAll(s: Pool, c: nat, wait: bool): Pool {
    var t := s.(terminating := true, target := 0, workers := NotifyAll(s.workers));
    if wait then TryToLeave(t, c, Termination) else t
  }

  /** A worker pops the task at index k and leaves the monitor with it. */
  function Take(s: Pool, w: nat, k: nat): Pool
    requires k < |s.pending|
  {
    var task := s.pending[k];
    s.(pending := Without(s.pending, k),
       workers := s.workers[w := Running(task)],
       fates := if task.ticket < |s.fates| then s.fates[task.ticket := InFlight(w)] else s.fates,
       started := s.started + [task])
  }

  /** A worker waits for a task: it is no longer active, and says so. */
  function Sleep(s: Pool, w: nat): Pool {
    s.(active := Dec(s.active), callers := NotifyCallers(s.callers), workers := s.workers[w := Asleep])
  }

  function Exit(s: Pool, w: nat): Pool {
    s.(workers := s.workers[w := Exiting])
  }

  /** The critical section of `execute_task` up to its first wait or its end. */
  function Fetch(s: Pool, w: nat, k: nat): Pool
    requires s.count <= s.target && s.pending != [] ==> k < |s.pending|
  {
    if s.count > s.target then Exit(s, w)
    else if s.pending == [] then Sleep(s, w)
    else Take(s, w, k)
  }

  /** `execute_task` from the return of its wait up to the next wait or its end. */
  function Wake(s: Pool, w: nat, k: nat): Pool
    requires s.pending != [] ==> k < |s.pending|
  {
    var t := s.(active := Inc(s.active));
    if t.pending != [] then Take(t, w, k)
    else if t.count > t.target then Exit(t, w)
    else Sleep(t, w)
  }

  function Settle(s: Pool, w: nat, p: Phase, f: Fate): Pool
    requires w in s.workers && s.workers[w].Running?
  {
    var ticket := s.workers[w].task.ticket;
    s.(workers := s.workers[w := p],
       fates := if ticket < |s.fates| then s.fates[ticket := f] else s.fates)
  }

  /** What `worker_destructed` and `worker_died_unexpectedly` have in common. */
  function Leave(s: Pool, w: nat): Pool {
    s.(count := Dec(s.count), active := Dec(s.active), callers := NotifyCallers(s.callers),
       workers := s.workers - {w},
       terminated := if s.terminating then s.terminated + [w] else s.terminated)
  }

  /** A death, with the replacement that static_size asks for. */
  function Die(s: Pool, w: nat, resources: nat): Pool {
    var t := Leave(s, w);
    if t.terminating then t else ResizeTo(t, Inc(t.count), resources)
  }

  // ---------- the step relation ----------

  datatype Event =
    | Schedule(priority: int, sleeper: nat)
    | Clear
    | Resize(n: Size, resources: nat)
    | Terminate(caller: nat, wait: bool)
    | Block(caller: nat, threshold: Size)    // a call of wait(threshold)
    | CallerWakes(caller: nat)               // notified or spuriously
    | Fetches(worker: nat, k: nat)
    | Wakes(worker: nat, k: nat)             // notified or spuriously
    | Returns(worker: nat)
    | Throws(worker: nat)
    | Destructs(worker: nat)
    | Dies(worker: nat, resources: nat)

  ghost predicate Enabled(s: Pool, e: Event) {
    match e
    case Schedule(_, w) => Count(s.workers, IsAsleep) > 0 ==> w in s.workers && s.workers[w].Asleep?
    case Clear => true
    case Resize(_, _) => true
    case Terminate(c, wait) => wait ==> c !in s.callers
    case Block(c, _) => c !in s.callers
    case CallerWakes(c) => c in s.callers
    case Fetches(w, k) =>
      w in s.workers && s.workers[w].Ready?
      && (s.count <= s.target && s.pending != [] ==> Pops(s.policy, s.pending, k))
    case Wakes(w, k) => w in s.workers && InWait(s.workers[w]) && (s.pending != [] ==> Pops(s.policy, s.pending, k))
    case Returns(w) => w in s.workers && s.workers[w].Running?
    case Throws(w) => w in s.workers && s.workers[w].Running?
    case Destructs(w) => w in s.workers && s.workers[w].Exiting?
    case Dies(w, _) => w in s.workers && s.workers[w].Dying?
  }

  ghost function Apply(s: Pool, e: Event): Pool
    requires Enabled(s, e)
  {
    match e
    case Schedule(p, w) => ScheduleTask(s, p, w)
    case Clear => ClearTasks(s)
    case Resize(n, r) => ResizeTo(s, n, r)
    case Terminate(c, wait) => TerminateAll(s, c, wait)
    case Block(c, n) => TryToLeave(s, c, Drain(n))
    case CallerWakes(c) => TryToLeave(s, c, s.callers[c].goal)
    case Fetches(w, k) => Fetch(s, w, k)
    case Wakes(w, k) => Wake(s, w, k)
    case Returns(w) => Settle(s, w, Ready, Finished)
    case Throws(w) => Settle(s, w, Dying, Thrown)
    case Destructs(w) => Leave(s, w)
    case Dies(w, r) => Die(s, w, r)
  }

  /** A run: the states a pool goes through from its construction on. */
  ghost predicate IsRun(run: seq<Pool>, events: seq<Event>) {
    && |run| == |events| + 1
    && run[0] == Fresh(run[0].policy)
    && forall i :: 0 <= i < |events| ==> Follows(run, events, i)
  }

  ghost predicate Follows(run: seq<Pool>, events: seq<Event>, i: nat)
    requires i < |events| && |run| == |events| + 1
  {
    Enabled(run[i], events[i]) && run[i + 1] == Apply(run[i], events[i])
  }
}
