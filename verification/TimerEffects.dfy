/** What single steps of the timer do to a task, said of the state before and behind them. */
module TimerEffects {
  import opened Sequences
  import opened TimerProtocol

  // ---------- additions ----------

  /** The moment of the first trigger of a task that does not run at once. */
  function FirstTrigger(kind: Kind, now: nat): nat {
    match kind
    case Period(p) => now + p
    case Repeated(i) => now + i
    case Daily(first) => first
  }

  /** A task is added to run later: it waits in the queue for its first trigger, and nothing is
      dispatched. */
  ghost predicate WaitsFirst(s: Timer, u: Timer, kind: Kind, cycles: int, now: nat) {
    && |u.tasks| == |s.tasks| + 1 && u.jobs == s.jobs && u.priorityQueue == s.priorityQueue + [|s.tasks|]
    && var task := u.tasks[|s.tasks|];
    && task.dispatches == [] && task.cycleTimes == cycles && task.triggered == FirstTrigger(kind, now)
  }

  /** A task is added to run at once: it is dispatched, once, in one new job. A period task is
      queued again with the next trigger, or retired when it was to run once; any other comes back
      from its job. */
  ghost predicate RunsFirst(s: Timer, u: Timer, kind: Kind, cycles: int, now: nat) {
    && |u.tasks| == |s.tasks| + 1
    && var task := u.tasks[|s.tasks|];
    && |task.dispatches| == 1 && task.removed == (kind.Period? && cycles == 1)
    && u.jobs == s.jobs + [Job(|s.tasks|, if kind.Period? then Sent else Submitted)]
    && (if kind.Period? && cycles != 1 then
          u.priorityQueue == s.priorityQueue + [|s.tasks|] && task.triggered == now + kind.period
        else u.priorityQueue == s.priorityQueue)
    && task.cycleTimes == if kind.Period? && cycles > 0 then cycles - 1 else cycles
  }

  /** The new task is of the kind that was asked for and is found under its id, unless it is over;
      the tasks and ids that there were stay. */
  ghost predicate IsEntered(s: Timer, u: Timer, id: nat, kind: Kind, cycles: int) {
    && |u.tasks| == |s.tasks| + 1 && u.tasks[..|s.tasks|] == s.tasks
    && var task := u.tasks[|s.tasks|];
    && task.kind == kind && task.cycles == cycles && !task.cancelled
    && u.taskMap == (if task.removed then s.taskMap else s.taskMap[|s.tasks| := id])
    && u.taskIdMap == (if task.removed then s.taskIdMap else s.taskIdMap[id := |s.tasks|])
  }

  /** A write to the pipe wakes the event thread, unless there is no room for it. */
  ghost predicate Notifies(s: Timer, u: Timer) {
    |u.priorityQueue| > |s.priorityQueue| && s.pipe.skip + s.pipe.unread < s.pipe.room ==>
      u.notified && u.pipe.unread == s.pipe.unread + 1
  }

  ghost predicate Adds(s: Timer, u: Timer, id: nat, kind: Kind, cycles: int, runRightNow: bool, now: nat) {
    && IsEntered(s, u, id, kind, cycles) && Notifies(s, u)
    && if runRightNow then RunsFirst(s, u, kind, cycles, now) else WaitsFirst(s, u, kind, cycles, now)
  }

  lemma AdditionAdds(s: Timer, kind: Kind, cycles: int, runRightNow: bool, now: nat)
    requires s.buffer > 0 && |s.tasks| !in s.taskMap && AssignedId(s) !in s.taskIdMap
    ensures Adds(s, Added(s, kind, cycles, runRightNow, now), AssignedId(s), kind, cycles, runRightNow, now)
  {
    var u := Added(s, kind, cycles, runRightNow, now);
    assert u.tasks[..|s.tasks|] == s.tasks;
    if runRightNow && kind.Period? && cycles == 1 {
      assert s.taskMap[|s.tasks| := AssignedId(s)] - {|s.tasks|} == s.taskMap;
      assert s.taskIdMap[AssignedId(s) := |s.tasks|] - {AssignedId(s)} == s.taskIdMap;
    }
  }

  // ---------- the next trigger ----------

  /** One cycle less, if they are counted; the rest of the task is as it was but for the trigger. */
  ghost predicate CountsDown(task: Task, next: Task) {
    && next.cycleTimes == (if task.cycleTimes > 0 then task.cycleTimes - 1 else task.cycleTimes)
    && next == task.(cycleTimes := next.cycleTimes, triggered := next.triggered)
  }

  /** A period task keeps its beat, a daily one its time of day, and a repeated one waits for its
      interval from now. */
  ghost predicate GetsTrigger(task: Task, next: Task, now: nat) {
    next.triggered == match task.kind
                      case Period(p) => task.triggered + p
                      case Repeated(i) => now + i
                      case Daily(_) => task.triggered + 24 * 60 * 60 * 1000
  }

  /** The part of reschedule in front of the lock: the last cycle is over, or the task gets its next
      trigger. Nothing else changes. */
  ghost predicate IsDecided(s: Timer, u: Timer, j: nat, now: nat) {
    && j < |s.jobs| && s.jobs[j].task < |s.tasks| == |u.tasks|
    && var t := s.jobs[j].task;
    && CountsDown(s.tasks[t], u.tasks[t])
    && (s.tasks[t].cycleTimes != 1 ==> GetsTrigger(s.tasks[t], u.tasks[t], now))
    && u == s.(tasks := s.tasks[t := u.tasks[t]],
               jobs := s.jobs[j := Job(t, if s.tasks[t].cycleTimes == 1 then Expired else Adjusted)])
  }

  lemma DecisionDecides(s: Timer, j: nat, now: nat)
    requires Enabled(s, Decide(j, now))
    ensures IsDecided(s, DecidedJob(s, j, now), j, now)
  {
  }

  /** The task leaves both maps, if it is there, and its id is recycled. */
  ghost predicate IsRetired(s: Timer, u: Timer, t: nat) {
    if t !in s.taskMap then u.taskMap == s.taskMap && u.taskIdMap == s.taskIdMap && u.recycledIdPool == s.recycledIdPool
    else
      && t !in u.taskMap && (forall v :: v in u.taskMap <==> v in s.taskMap && v != t)
      && (forall v :: v in u.taskMap ==> u.taskMap[v] == s.taskMap[v])
      && s.taskMap[t] !in u.taskIdMap && (forall id :: id in u.taskIdMap <==> id in s.taskIdMap && id != s.taskMap[t])
      && (forall id :: id in u.taskIdMap ==> u.taskIdMap[id] == s.taskIdMap[id])
      && u.recycledIdPool == s.recycledIdPool + [s.taskMap[t]]
  }

  /** The part of reschedule under the lock: the task goes back into the queue, or leaves. */
  ghost predicate IsCommitted(s: Timer, u: Timer, j: nat) {
    && j < |s.jobs| && u.jobs == s.jobs[j := Job(s.jobs[j].task, Done)]
    && if s.jobs[j].stage == Expired then u.priorityQueue == s.priorityQueue && IsRetired(s, u, s.jobs[j].task)
       else u.priorityQueue == s.priorityQueue + [s.jobs[j].task] && u.tasks == s.tasks
            && u.taskMap == s.taskMap && u.taskIdMap == s.taskIdMap
  }

  lemma CommitCommits(s: Timer, j: nat)
    requires Enabled(s, Commit(j))
    ensures IsCommitted(s, CommittedJob(s, j), j)
  {
  }

  // ---------- dispatches ----------

  /** A task is dispatched: in one new job, which is to reschedule it unless that was done before. */
  ghost predicate IsSentOff(s: Timer, u: Timer, t: nat) {
    && t < |s.tasks| == |u.tasks|
    && u.jobs == s.jobs + [Job(t, if s.tasks[t].kind.Period? then Sent else Submitted)]
    && u.tasks[t].dispatches == s.tasks[t].dispatches + [s.tasks[t].triggered]
    && forall v :: 0 <= v < |s.tasks| && v != t ==> u.tasks[v] == s.tasks[v]
  }

  /** What executeTask leaves of the queue and the task: a period task has one cycle less and is
      queued again with its next trigger, or retired; any other is left to its job. */
  ghost predicate IsRequeued(s: Timer, u: Timer, t: nat, now: nat) {
    && t < |s.tasks| == |u.tasks|
    && if !s.tasks[t].kind.Period? then
         u.priorityQueue == s.priorityQueue
         && u.tasks[t].triggered == s.tasks[t].triggered && u.tasks[t].cycleTimes == s.tasks[t].cycleTimes
       else if s.tasks[t].cycleTimes == 1 then
         u.priorityQueue == s.priorityQueue && IsRetired(s, u, t)
       else
         && u.priorityQueue == s.priorityQueue + [t] && GetsTrigger(s.tasks[t], u.tasks[t], now)
         && u.tasks[t].cycleTimes == s.tasks[t].cycleTimes - if s.tasks[t].cycleTimes > 0 then 1 else 0
  }

  lemma ExecutionSends(s: Timer, t: nat, now: nat)
    requires t < |s.tasks|
    ensures var u := Executed(s, t, now); IsSentOff(s, u, t) && IsRequeued(s, u, t, now)
  {
  }

  /** Only the queue of a popped state matters here. */
  lemma PoppedIsAlike(s: Timer, p: Timer, u: Timer, t: nat, now: nat)
    requires p == s.(priorityQueue := p.priorityQueue, checking := p.checking, pipe := p.pipe)
    requires IsSentOff(p, u, t) && IsRequeued(p, u, t, now)
    ensures IsSentOff(s, u, t) && IsRequeued(s.(priorityQueue := p.priorityQueue), u, t, now)
  {
  }

  /** A round of checkTasks takes the task on top off the queue and dispatches it, once, if it is due
      and not removed; what is removed only goes, and what is not due stays, as does all else. */
  lemma RoundDecides(s: Timer, top: nat, now: nat)
    requires Inv(s) && IsTop(s, top)
    ensures var t, u := s.priorityQueue[top], Checked(s, top, now);
      var rest := s.priorityQueue[..top] + s.priorityQueue[top + 1..];
      if s.tasks[t].removed then u.priorityQueue == rest && u.jobs == s.jobs && u.tasks == s.tasks
      else if s.tasks[t].triggered > now then
        u.priorityQueue == s.priorityQueue && u.jobs == s.jobs && u.tasks == s.tasks && !u.checking
        && u.wakeAt == (if s.tasks[t].triggered - now < 600_000 then s.tasks[t].triggered else now + 600_000)
      else IsSentOff(s, u, t) && IsRequeued(s.(priorityQueue := rest), u, t, now)
  {
    var t := s.priorityQueue[top];
    TopTask(s, top);
    hide Inv;
    hide Executed;
    hide IsSentOff;
    hide IsRequeued;
    ExecutionSends(Popped(s, top), t, now);
    PoppedIsAlike(s, Popped(s, top), Executed(Popped(s, top), t, now), t, now);
  }

  lemma AdditionLeaves(s: Timer, kind: Kind, cycles: int, right: bool, now: nat, t: nat)
    requires Inv(s) && t < |s.tasks|
    ensures s.buffer > 0
    ensures var u := Added(s, kind, cycles, right, now); t < |u.tasks| && u.tasks[t] == s.tasks[t]
  {
    RegisterKeepsIds(s, NewTask(kind, cycles, right, now));
    AdditionAdds(s, kind, cycles, right, now);
    hide Inv;
    hide Added;
    var u := Added(s, kind, cycles, right, now);
    assert u.tasks[..|s.tasks|][t] == s.tasks[t];
  }

  /** Which tasks are dispatched: only the one on top of the queue, when it is due and not removed. */
  lemma OnlyDueTasksAreSent(s: Timer, a: Action, t: nat)
    requires Inv(s) && Enabled(s, a) && t < |s.tasks|
    ensures t < |Step(s, a).tasks|
    ensures Step(s, a).tasks[t].dispatches != s.tasks[t].dispatches ==>
      && a.Check? && s.priorityQueue[a.top] == t && !s.tasks[t].removed && s.tasks[t].triggered <= a.now
      && Step(s, a).tasks[t].dispatches == s.tasks[t].dispatches + [s.tasks[t].triggered]
  {
    hide Inv;
    hide Added;
    hide Checked;
    hide IsRequeued;
    hide IsRetired;
    match a {
      case Check(top, now) => RoundDecides(s, top, now);
      case Add(kind, cycles, right, now) => AdditionLeaves(s, kind, cycles, right, now, t);
      case _ =>
    }
  }
}
