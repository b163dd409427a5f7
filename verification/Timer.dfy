/** The class Timer: what each critical section does to the guarded fields. The methods are the
  steps of TimerProtocol, and the loop of checkTasks is a run of its rounds. */
module Timers {
  import opened Bounds
  import opened Sequences
  import opened TimerProtocol
  import opened TimerChecks
  import opened TimerEffects
  import P = Pipes

  class Timer {
    var tasks: seq<Task>
    var priorityQueue: seq<nat>
    var jobs: seq<Job>
    const buffer: nat
    var idGen: nat
    var recycledIdPool: seq<nat>
    var taskMap: map<nat, nat>
    var taskIdMap: map<nat, nat>
    ghost var checking: bool
    var pipe: P.Pipe
    ghost var notified: bool
    ghost var wakeAt: nat

    ghost function View(): TimerProtocol.Timer
      reads this
    {
      TimerProtocol.Timer(tasks, priorityQueue, jobs, buffer, idGen, recycledIdPool, taskMap, taskIdMap,
                          checking, pipe, notified, wakeAt)
    }

    constructor (c: Setting, ghost start: nat)
      ensures View() == Initial(c, start)
    {
      buffer := c.buffer;
      tasks, priorityQueue, jobs := [], [], [];
      idGen, recycledIdPool := 1, [];
      taskMap, taskIdMap := map[], map[];
      checking, pipe := false, P.Empty(c.room, c.page);
      notified, wakeAt := false, start + DEFAULT_WAIT;
    }

    /** The id given is positive and belongs to no live task, and it is the only id that is then
        neither live nor recycled. */
    method AssignId() returns (id: nat)
      requires buffer > 0 && IdsAgree(View())
      modifies this`idGen, this`recycledIdPool
      ensures id == AssignedId(old(View())) && 0 < id < idGen && id !in taskIdMap
      ensures forall x :: 0 < x < idGen <==> x == id || x in taskIdMap || x in recycledIdPool
      ensures id !in recycledIdPool && Distinct(recycledIdPool)
      ensures if |old(recycledIdPool)| < buffer
              then idGen == old(idGen) + 1 && recycledIdPool == old(recycledIdPool)
              else idGen == old(idGen) && [id] + recycledIdPool == old(recycledIdPool)
    {
      ghost var pool := recycledIdPool;
      if |recycledIdPool| < buffer {
        id := idGen;
        idGen := idGen + 1;
      } else {
        id := recycledIdPool[0];
        recycledIdPool := recycledIdPool[1..];
        assert pool == [id] + recycledIdPool;
        WithoutIsDistinct(pool, 0);
        assert Without(pool, 0) == recycledIdPool;
      }
    }

    /** The priority queue's push, and the wake-up. */
    method Push(t: nat)
      modifies this`priorityQueue, this`pipe, this`notified
      ensures View() == Pushed(old(View()), t)
    {
      priorityQueue := priorityQueue + [t];
      notified := notified || !P.Full(pipe);
      pipe := P.Written(pipe);
    }

    /** removeTask(task): the task leaves both maps, its id is recycled, and every other live task
        keeps its id. */
    method Remove(t: nat)
      requires t < |tasks|
      modifies this
      ensures View() == Removed(old(View()), t)
      ensures t !in taskMap && forall u :: u != t ==> (u in taskMap <==> u in old(taskMap))
      ensures forall u :: u in taskMap ==> taskMap[u] == old(taskMap)[u]
      ensures old(IdsAgree(View()) && LiveTasksAreMapped(View())) ==>
        && IdsAgree(View()) && LiveTasksAreMapped(View()) && tasks[t].removed
        && forall id :: id in taskIdMap ==> taskIdMap[id] != t
    {
      hide IdsAgree;
      hide LiveTasksAreMapped;
      ghost var before := View();
      RemovedKeepsIds(before, t);
      if t !in taskMap {
        return;
      }
      var id := taskMap[t];
      tasks := tasks[t := tasks[t].(removed := true)];
      taskIdMap := taskIdMap - {id};
      taskMap := taskMap - {t};
      recycledIdPool := recycledIdPool + [id];
    }

    /** removeTask(taskId). */
    method RemoveTask(taskId: nat)
      requires Inv(View())
      modifies this
      ensures View() == Cancelled(old(View()), taskId) && Inv(View())
      ensures taskId !in old(taskIdMap) ==> View() == old(View())
      ensures taskId in old(taskIdMap) ==>
        && tasks[old(taskIdMap)[taskId]].removed && IsRetired(old(View()), View(), old(taskIdMap)[taskId])
        && priorityQueue == old(priorityQueue) && jobs == old(jobs) && |tasks| == |old(tasks)|
        && forall t :: 0 <= t < |tasks| && t != old(taskIdMap)[taskId] ==> tasks[t] == old(tasks)[t]
    {
      CancelKeepsInv(View(), taskId);
      if taskId !in taskIdMap {
        return;
      }
      var t := taskIdMap[taskId];
      assert taskMap[t] == taskId;
      tasks := tasks[t := tasks[t].(removed := true, cancelled := true)];
      taskIdMap := taskIdMap - {taskId};
      taskMap := taskMap - {t};
      recycledIdPool := recycledIdPool + [taskId];
    }

    /** reschedulable. */
    method Reschedulable(t: nat) returns (again: bool)
      requires t < |tasks|
      modifies this`tasks
      ensures tasks == old(tasks)[t := CountedDown(old(tasks)[t])] && again == !Expires(old(tasks)[t])
    {
      again := true;
      if tasks[t].cycleTimes > 0 {
        tasks := tasks[t := tasks[t].(cycleTimes := tasks[t].cycleTimes - 1)];
        if tasks[t].cycleTimes == 0 {
          again := false;
        }
      }
    }

    /** adjustSchedule. */
    method AdjustSchedule(t: nat, now: nat)
      requires t < |tasks|
      modifies this`tasks
      ensures tasks == old(tasks)[t := Rescheduled(old(tasks)[t], now)]
    {
      match tasks[t].kind {
        case Period(p) => tasks := tasks[t := tasks[t].(triggered := tasks[t].triggered + p)];
        case Repeated(i) => tasks := tasks[t := tasks[t].(triggered := now + i)];
        case Daily(_) => tasks := tasks[t := tasks[t].(triggered := tasks[t].triggered + MSEC_IN_DAY)];
      }
    }

    method RescheduleWithoutLocker(t: nat, now: nat)
      requires t < |tasks|
      modifies this
      ensures View() == RescheduledInLock(old(View()), t, now)
      ensures |tasks| == |old(tasks)| && (old(tasks)[t].cycleTimes != 1 ==>
        && priorityQueue == old(priorityQueue) + [t]
        && CountsDown(old(tasks)[t], tasks[t]) && GetsTrigger(old(tasks)[t], tasks[t], now))
      ensures old(tasks)[t].cycleTimes == 1 ==>
        priorityQueue == old(priorityQueue) && IsRetired(old(View()), View(), t)
    {
      var again := Reschedulable(t);
      if !again {
        Remove(t);
        return;
      }
      AdjustSchedule(t, now);
      Push(t);
    }

    /** executeTask: the pool accepts every dispatch. */
    method ExecuteTask(t: nat, now: nat)
      requires t < |tasks|
      modifies this
      ensures View() == Executed(old(View()), t, now)
      ensures IsSentOff(old(View()), View(), t) && IsRequeued(old(View()), View(), t, now)
    {
      hide IsSentOff;
      hide IsRequeued;
      ExecutionSends(View(), t, now);
      var triggered, stage := tasks[t].triggered, FirstStage(tasks[t]);
      if tasks[t].kind.Period? {
        RescheduleWithoutLocker(t, now);
      }
      jobs := jobs + [Job(t, stage)];
      tasks := tasks[t := tasks[t].(dispatches := tasks[t].dispatches + [triggered])];
    }

    /** A new task gets an id and enters both maps. */
    method Register(task: Task) returns (taskId: nat)
      requires buffer > 0 && IdsAgree(View()) && LiveTasksAreMapped(View())
      modifies this
      ensures View() == Registered(old(View()), task) && taskId == AssignedId(old(View()))
      ensures IdsAgree(View()) && taskId > 0 && taskId !in old(taskIdMap)
    {
      hide IdsAgree;
      hide LiveTasksAreMapped;
      RegisterKeepsIds(View(), task);
      taskId := AssignId();
      var t := |tasks|;
      tasks := tasks + [task];
      taskMap := taskMap[t := taskId];
      taskIdMap := taskIdMap[taskId := t];
    }

    /** addTask, addPeriodTask, addRepeatedTask and addDailyTask: an addition takes an id that no
        live task has. A task that is to run at once is dispatched, and any other waits in the queue
        for its first trigger. */
    method Add(kind: Kind, cycleTimes: int, runRightNow: bool, now: nat) returns (taskId: nat)
      requires Inv(View())
      modifies this
      ensures View() == Added(old(View()), kind, cycleTimes, runRightNow, now) && Inv(View())
      ensures taskId > 0 && taskId !in old(taskIdMap)
      ensures Adds(old(View()), View(), taskId, kind, cycleTimes, runRightNow, now)
    {
      hide Adds;
      AddKeepsInv(View(), kind, cycleTimes, runRightNow, now);
      assert buffer > 0 && IdsAgree(View()) && LiveTasksAreMapped(View());
      AdditionAdds(View(), kind, cycleTimes, runRightNow, now);
      hide Inv;
      hide IdsAgree;
      hide LiveTasksAreMapped;
      hide Executed;
      hide AssignedId;
      var task, t := NewTask(kind, cycleTimes, runRightNow, now), |tasks|;
      taskId := Register(task);
      assert t < |tasks|;
      hide Registered;
      if !runRightNow {
        Push(t);
      } else {
        ExecuteTask(t, now);
      }
    }

    /** What a pool thread does of reschedule before it locks. */
    method Decide(j: nat, now: nat)
      requires Inv(View()) && Enabled(View(), TimerProtocol.Decide(j, now))
      modifies this
      ensures View() == DecidedJob(old(View()), j, now) && Inv(View())
      ensures IsDecided(old(View()), View(), j, now)
    {
      hide Inv;
      hide IsDecided;
      DecisionDecides(View(), j, now);
      DecideKeepsInv(View(), j, now);
      var t := jobs[j].task;
      var again := Reschedulable(t);
      if again {
        AdjustSchedule(t, now);
      }
      jobs := jobs[j := Job(t, if again then Adjusted else Expired)];
    }

    /** What is left of reschedule, under the lock. */
    method Commit(j: nat)
      requires Inv(View()) && Enabled(View(), TimerProtocol.Commit(j))
      modifies this
      ensures View() == CommittedJob(old(View()), j) && Inv(View())
      ensures IsCommitted(old(View()), View(), j)
    {
      hide Inv;
      hide IsCommitted;
      CommitCommits(View(), j);
      CommitKeepsInv(View(), j);
      var t, stage := jobs[j].task, jobs[j].stage;
      jobs := jobs[j := Job(t, Done)];
      if stage == Expired {
        Remove(t);
      } else {
        Push(t);
      }
    }

    /** The end of a run that is not rescheduled any more. */
    method Finish(j: nat)
      requires Inv(View()) && Enabled(View(), TimerProtocol.Finish(j))
      modifies this`jobs
      ensures View() == FinishedJob(old(View()), j) && Inv(View())
    {
      hide Inv;
      FinishKeepsInv(View(), j);
      jobs := jobs[j := jobs[j].(stage := Done)];
    }

    /** The priority queue's top: no queued task has an earlier trigger. */
    method Top(ghost before: TimerProtocol.Timer) returns (top: nat)
      requires Inv(before) && before.tasks == tasks && before.priorityQueue == priorityQueue != []
      ensures IsTop(before, top) && top < |priorityQueue| && priorityQueue[top] < |tasks|
    {
      forall i | 0 <= i < |priorityQueue| ensures priorityQueue[i] < |tasks| {
        assert priorityQueue[i] in priorityQueue;
      }
      top := 0;
      for i := 1 to |priorityQueue|
        invariant top < |priorityQueue|
        invariant forall k :: 0 <= k < i ==>
          tasks[priorityQueue[top]].triggered <= tasks[priorityQueue[k]].triggered
      {
        if tasks[priorityQueue[i]].triggered < tasks[priorityQueue[top]].triggered {
          top := i;
        }
      }
    }

    /** What a round does with a task on top that is removed or due; the pipe has been read. */
    method TakeOff(top: nat, now: nat, ghost before: TimerProtocol.Timer)
      requires View() == before.(pipe := P.Read(before.pipe))
      requires IsTop(before, top)
      requires tasks[priorityQueue[top]].removed || tasks[priorityQueue[top]].triggered <= now
      modifies this
      ensures View() == Checked(before, top, now)
    {
      hide Executed;
      hide TimerProtocol.Removed;
      var t := priorityQueue[top];
      ghost var popped := Popped(before, top);
      checking := true;
      priorityQueue := priorityQueue[..top] + priorityQueue[top + 1..];
      assert View() == popped;
      if tasks[t].removed {
        Remove(t);
      } else {
        ExecuteTask(t, now);
      }
    }

    /** The loop of checkTasks; the clock is read anew in every round, and shows no more than a
        given moment. The loop is a run of rounds, so it dispatches in the order of the triggers;
        it ends because nothing spins by that moment, with a round over a task that is not due or
        over the empty queue; by its last reading of the clock it leaves nothing due in the queue,
        and from there it waits no longer than to the earliest trigger. */
    method CheckTasks(clock: nat -> nat, ghost until: nat)
      returns (wait: nat, ghost now: nat, ghost run: seq<Action>, ghost last: Action)
      requires Inv(View()) && NothingSpins(View(), until)
      requires forall i :: clock(i) <= until
      modifies this
      ensures Possible(old(View()), run) && Loop(old(View()), run, until) && now <= until
      ensures last == Rest(now) || (last.Check? && last.now == now)
      ensures Enabled(After(old(View()), run), last) && View() == Step(After(old(View()), run), last)
      ensures Inv(View()) && !checking && wakeAt == now + wait && WaitsForNext(View(), now, wait)
    {
      hide Inv;
      hide WaitsForNext;
      hide NothingSpins;
      hide Possible;
      hide Loop;
      hide After;
      hide Executed;
      hide TimerProtocol.Removed;
      hide Rounds;
      hide Checked;
      hide Step;
      hide Enabled;
      hide IsTop;
      EmptyLoop(View(), until);
      run := [];
      wait := DEFAULT_WAIT;
      var readings: nat := 0;
      while priorityQueue != []
        invariant Possible(old(View()), run) && Loop(old(View()), run, until)
        invariant View() == After(old(View()), run) && Inv(View()) && NothingSpins(View(), until)
        invariant wait == DEFAULT_WAIT
        decreases Rounds(View(), until)
      {
        ghost var before := View();
        pipe := P.Read(pipe);
        var top := Top(before);
        var t := priorityQueue[top];
        if tasks[t].removed {
          RoundFacts(old(View()), run, top, 0, until);
          TakeOff(top, 0, before);
          run := run + [Check(top, 0)];
          continue;
        }
        var time := clock(readings);
        readings := readings + 1;
        if tasks[t].triggered <= time {
          RoundFacts(old(View()), run, top, time, until);
          TakeOff(top, time, before);
          run := run + [Check(top, time)];
        } else {
          var delta := tasks[t].triggered - time;
          wait := if delta < MAX_WAIT then delta else MAX_WAIT;
          now := time;
          LastRound(before, top, now);
          checking, notified, wakeAt := false, false, now + wait;
          last := Check(top, time);
          return;
        }
      }
      now := clock(readings);
      EmptyQueue(View(), now);
      checking, notified, wakeAt := false, false, now + wait;
      last := Rest(now);
    }
  }

  lemma RemovedKeepsIds(s: TimerProtocol.Timer, t: nat)
    requires t < |s.tasks|
    ensures var r := Removed(s, t);
      IdsAgree(s) && LiveTasksAreMapped(s) ==>
        && IdsAgree(r) && LiveTasksAreMapped(r) && r.tasks[t].removed
        && forall id :: id in r.taskIdMap ==> r.taskIdMap[id] != t
  {
    if IdsAgree(s) && LiveTasksAreMapped(s) && t in s.taskMap {
      RemoveKeepsIds(s, t, s.tasks[t].(removed := true));
    }
  }

  /** Nothing that is due is queued, and the wait ends no later than the earliest trigger: exactly
      then unless that is too far, and after two seconds when nothing is queued. */
  ghost predicate WaitsForNext(s: TimerProtocol.Timer, now: nat, wait: nat) {
    && (forall t :: t in s.priorityQueue ==> t < |s.tasks| && now < s.tasks[t].triggered)
    && (if s.priorityQueue == [] then wait == 2000
        else wait <= 600_000 && forall t :: t in s.priorityQueue ==> now + wait <= s.tasks[t].triggered)
    && (wait < 600_000 && s.priorityQueue != [] ==>
          exists t :: t in s.priorityQueue && now + wait == s.tasks[t].triggered)
  }

  /** The round that ends the loop. */
  lemma LastRound(s: TimerProtocol.Timer, top: nat, now: nat)
    requires Inv(s) && IsTop(s, top) && top < |s.priorityQueue| && s.priorityQueue[top] < |s.tasks|
    requires var task := s.tasks[s.priorityQueue[top]]; !task.removed && task.triggered > now
    ensures Enabled(s, Check(top, now)) && Step(s, Check(top, now)) == Checked(s, top, now)
    ensures var wait := Min(s.tasks[s.priorityQueue[top]].triggered - now, MAX_WAIT);
      var u := Checked(s, top, now);
      u == Asleep(s, P.Read(s.pipe), now + wait) && Inv(u) && WaitsForNext(u, now, wait)
  {
    hide Inv;
    var wait := Min(s.tasks[s.priorityQueue[top]].triggered - now, MAX_WAIT);
    SleepKeepsInv(s, P.Read(s.pipe), now + wait);
    assert s.priorityQueue[top] in s.priorityQueue;
    forall t | t in s.priorityQueue
      ensures t < |s.tasks| && s.tasks[s.priorityQueue[top]].triggered <= s.tasks[t].triggered
    {
      var i :| 0 <= i < |s.priorityQueue| && s.priorityQueue[i] == t;
    }
  }

  lemma EmptyQueue(s: TimerProtocol.Timer, now: nat)
    requires Inv(s) && s.priorityQueue == []
    ensures var u := Asleep(s, s.pipe, now + DEFAULT_WAIT);
      && Inv(u) && WaitsForNext(u, now, DEFAULT_WAIT)
      && Enabled(s, Rest(now)) && Step(s, Rest(now)) == u
  {
    hide Inv;
    SleepKeepsInv(s, s.pipe, now + DEFAULT_WAIT);
  }
}
