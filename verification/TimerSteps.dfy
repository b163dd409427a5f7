/** What the steps of the timer do to one task, and how many of them it takes. */
module TimerSteps {
  import opened Counting
  import opened TimerProtocol

  // ---------- what a step does to one task ----------

  /** The steps that bring a task on: the round that takes it off the queue, and those of its job. */
  predicate Concerns(s: Timer, a: Action, t: nat)
    requires Enabled(s, a)
  {
    match a
    case Check(top, now) => s.priorityQueue[top] == t && (s.tasks[t].removed || s.tasks[t].triggered <= now)
    case Decide(j, _) => s.jobs[j].task == t
    case Commit(j) => s.jobs[j].task == t
    case Finish(j) => s.jobs[j].task == t
    case _ => false
  }

  function IsSent(t: nat): Job -> int {
    (job: Job) => if job == Job(t, Sent) then 1 else 0
  }

  /** The runs of a period task that are not over. */
  function SentRuns(s: Timer, t: nat): int {
    Sum(s.jobs, IsSent(t))
  }

  /** The task, its place in the queue and its unfinished jobs are as before. */
  ghost predicate Untouched(s: Timer, u: Timer, t: nat) {
    && t < |s.tasks| && t < |u.tasks| && u.tasks[t] == s.tasks[t]
    && (t in u.priorityQueue <==> t in s.priorityQueue)
    && (forall stage: Stage :: Returns(stage) ==> (Job(t, stage) in u.jobs <==> Job(t, stage) in s.jobs))
    && SentRuns(u, t) == SentRuns(s, t)
  }

  /** One more job. */
  lemma JobAdded(jobs: seq<Job>, job: Job, t: nat)
    ensures forall stage :: Job(t, stage) in jobs + [job] <==> Job(t, stage) in jobs || job == Job(t, stage)
    ensures Sum(jobs + [job], IsSent(t)) == Sum(jobs, IsSent(t)) + IsSent(t)(job)
  {
    SumAppend(jobs, job, IsSent(t));
  }

  lemma ExecutedLeaves(s: Timer, other: nat, now: nat, t: nat)
    requires other < |s.tasks| && t < |s.tasks| && t != other
    ensures Untouched(s, Executed(s, other, now), t)
  {
    hide Sum;
    assert forall u :: u in s.priorityQueue + [other] <==> u in s.priorityQueue || u == other;
    JobAdded(s.jobs, Job(other, FirstStage(s.tasks[other])), t);
    ExecutedTouches(s, other, now);
  }

  lemma CheckLeaves(s: Timer, top: nat, now: nat, t: nat)
    requires Inv(s) && Enabled(s, Check(top, now)) && t < |s.tasks| && !Concerns(s, Check(top, now), t)
    ensures Untouched(s, Checked(s, top, now), t)
  {
    hide Inv;
    hide Executed;
    hide Sum;
    var other := s.priorityQueue[top];
    if other != t {
      TopTask(s, top);
      assert Untouched(s, Popped(s, top), t);
      ExecutedLeaves(Popped(s, top), other, now, t);
    }
  }

  lemma JobLeaves(s: Timer, j: nat, job: Job, t: nat)
    requires j < |s.jobs| && s.jobs[j].task == job.task != t
    ensures forall stage :: Job(t, stage) in s.jobs[j := job] <==> Job(t, stage) in s.jobs
    ensures Sum(s.jobs[j := job], IsSent(t)) == Sum(s.jobs, IsSent(t))
  {
    SumUpdate(s.jobs, j, job, IsSent(t));
    forall stage | Job(t, stage) in s.jobs ensures Job(t, stage) in s.jobs[j := job] {
      var i :| 0 <= i < |s.jobs| && s.jobs[i] == Job(t, stage);
      assert s.jobs[j := job][i] == s.jobs[i];
    }
  }

  /** Every other step but a removal leaves the task alone. */
  lemma StepLeaves(s: Timer, a: Action, t: nat)
    requires Inv(s) && Enabled(s, a) && t < |s.tasks| && !a.Cancel? && !Concerns(s, a, t)
    ensures Untouched(s, Step(s, a), t)
  {
    hide Inv;
    hide Sum;
    hide Checked;
    hide Added;
    match a {
      case Check(top, now) => CheckLeaves(s, top, now, t);
      case Add(kind, cycles, right, now) => AddLeaves(s, kind, cycles, right, now, t);
      case Rest(_) =>
      case Decide(j, _) =>
        JobLeaves(s, j, Job(s.jobs[j].task, if Expires(s.tasks[s.jobs[j].task]) then Expired else Adjusted), t);
      case Commit(j) =>
        JobLeaves(s, j, Job(s.jobs[j].task, Done), t);
        assert forall u :: u in s.priorityQueue + [s.jobs[j].task] <==> u in s.priorityQueue || u == s.jobs[j].task;
      case Finish(j) => JobLeaves(s, j, Job(s.jobs[j].task, Done), t);
    }
  }

  lemma AddLeaves(s: Timer, kind: Kind, cycles: int, right: bool, now: nat, t: nat)
    requires t < |s.tasks| && s.buffer > 0
    ensures Untouched(s, Added(s, kind, cycles, right, now), t)
  {
    hide Executed;
    hide Sum;
    var r := Registered(s, NewTask(kind, cycles, right, now));
    if right {
      ExecutedLeaves(r, |s.tasks|, now, t);
    } else {
      assert forall u :: u in s.priorityQueue + [|s.tasks|] <==> u in s.priorityQueue || u == |s.tasks|;
    }
  }

  /** The round that takes a live task off the queue. */
  lemma RoundServes(s: Timer, top: nat, now: nat)
    requires Inv(s) && Enabled(s, Check(top, now))
    requires var task := s.tasks[s.priorityQueue[top]]; !task.removed && task.triggered <= now
    ensures var t := s.priorityQueue[top];
      var u, task := Checked(s, top, now), s.tasks[t];
      var sent := (if task.kind.Period? then Decided(task, now) else task).(
                  dispatches := task.dispatches + [task.triggered]);
      && t < |u.tasks| && |u.tasks| == |s.tasks|
      && u.tasks[t] == sent.(removed := task.kind.Period? && Expires(task))
      && (t in u.priorityQueue <==> task.kind.Period? && !Expires(task))
      && u.jobs == s.jobs + [Job(t, FirstStage(task))]
  {
    MappedWhenLive(s);
    hide Inv;
    hide Ready;
    hide Sound;
    TopTask(s, top);
    var t := s.priorityQueue[top];
    assert t in s.priorityQueue[..top] + s.priorityQueue[top + 1..] + [t];
  }

  lemma MappedWhenLive(s: Timer)
    requires Inv(s)
    ensures forall t: nat :: t < |s.tasks| && !s.tasks[t].removed ==> t in s.taskMap
  {
  }

  /** The round that meets a removed task. */
  lemma RoundDrops(s: Timer, top: nat, now: nat)
    requires Inv(s) && Enabled(s, Check(top, now)) && s.tasks[s.priorityQueue[top]].removed
    ensures var t := s.priorityQueue[top];
      var u := Checked(s, top, now);
      u.tasks == s.tasks && t !in u.priorityQueue && u.jobs == s.jobs
  {
    hide Inv;
    hide Ready;
    hide Sound;
    TopTask(s, top);
  }

  /** The job that is to reschedule a task, what the task is then, and what there is when the job
      goes on. */
  lemma JobIsAlone(s: Timer, j: nat)
    requires Inv(s) && j < |s.jobs| && Returns(s.jobs[j].stage)
    ensures var job := s.jobs[j];
      && job.task < |s.tasks| && job.task !in s.priorityQueue && StageFits(s.tasks[job.task], job.stage)
      && !s.tasks[job.task].kind.Period?
      && (forall stage :: Returns(stage) && stage != job.stage ==> Job(job.task, stage) !in s.jobs)
      && (forall next, stage :: Returns(stage) ==>
            (Job(job.task, stage) in s.jobs[j := Job(job.task, next)] <==> stage == next))
      && (forall next :: next != Sent ==>
            Sum(s.jobs[j := Job(job.task, next)], IsSent(job.task)) == Sum(s.jobs, IsSent(job.task)))
  {
    var job := s.jobs[j];
    UnfinishedJobs(s);
    hide StageFits;
    forall next, stage | Returns(stage)
      ensures Job(job.task, stage) in s.jobs[j := Job(job.task, next)] <==> stage == next
    {
      assert s.jobs[j := Job(job.task, next)][j] == Job(job.task, next);
    }
    forall next | next != Sent
      ensures Sum(s.jobs[j := Job(job.task, next)], IsSent(job.task)) == Sum(s.jobs, IsSent(job.task))
    {
      SumUpdate(s.jobs, j, Job(job.task, next), IsSent(job.task));
    }
  }

  /** The end of a run of a period task. */
  lemma SentRunEnds(s: Timer, j: nat)
    requires j < |s.jobs| && s.jobs[j].stage == Sent
    ensures var t := s.jobs[j].task;
      var u := FinishedJob(s, j);
      && SentRuns(u, t) == SentRuns(s, t) - 1
      && forall stage :: Returns(stage) ==> (Job(t, stage) in u.jobs <==> Job(t, stage) in s.jobs)
  {
    var t := s.jobs[j].task;
    SumUpdate(s.jobs, j, Job(t, Done), IsSent(t));
    forall stage | Returns(stage) && Job(t, stage) in s.jobs ensures Job(t, stage) in FinishedJob(s, j).jobs {
      var i :| 0 <= i < |s.jobs| && s.jobs[i] == Job(t, stage);
      assert FinishedJob(s, j).jobs[i] == s.jobs[i];
    }
  }

  // ---------- the steps of a task are counted ----------

  /** The steps a task added with n > 0 cycles still takes, at most: three for each cycle that is
      not counted down yet, those it is from the queue, and the ends of its runs. */
  ghost function Work(s: Timer, t: nat): int
    requires t < |s.tasks|
  {
    3 * s.tasks[t].cycleTimes + SentRuns(s, t)
    + if t in s.priorityQueue then 1
      else if Job(t, Adjusted) in s.jobs then 2
      else if Job(t, Expired) in s.jobs then 1
      else 0
  }

  /** A step that concerns the task lowers its work, and no other step changes it. */
  lemma StepsDoTheWork(s: Timer, a: Action, t: nat)
    requires Inv(s) && Enabled(s, a) && t < |s.tasks| && s.tasks[t].cycles > 0
    ensures t < |Step(s, a).tasks| && Step(s, a).tasks[t].cycles == s.tasks[t].cycles
    ensures if Concerns(s, a, t) then Work(Step(s, a), t) < Work(s, t) else Work(Step(s, a), t) == Work(s, t)
  {
    hide Inv;
    hide Ready;
    hide Sound;
    hide Sum;
    if a.Cancel? {
      CancelChangesNoWork(s, a.id, t);
    } else if !Concerns(s, a, t) {
      StepLeaves(s, a, t);
    } else {
      match a {
        case Check(top, now) => RoundDoesWork(s, top, now);
        case Decide(j, now) => DecideDoesWork(s, j, now);
        case Commit(j) => CommitDoesWork(s, j);
        case Finish(j) => SentRunEnds(s, j);
        case _ =>
      }
    }
  }

  lemma RoundDoesWork(s: Timer, top: nat, now: nat)
    requires Inv(s) && Enabled(s, Check(top, now)) && s.tasks[s.priorityQueue[top]].cycles > 0
    requires Concerns(s, Check(top, now), s.priorityQueue[top])
    ensures var t := s.priorityQueue[top];
      var u := Checked(s, top, now);
      t < |u.tasks| && Work(u, t) < Work(s, t) && u.tasks[t].cycles == s.tasks[t].cycles
  {
    hide Inv;
    hide Sound;
    hide Checked;
    hide Sum;
    var t := s.priorityQueue[top];
    TopTask(s, top);
    NoJobInTheQueue(s, t);
    JobAdded(s.jobs, Job(t, FirstStage(s.tasks[t])), t);
    if s.tasks[t].removed {
      RoundDrops(s, top, now);
    } else {
      RoundServes(s, top, now);
    }
  }

  lemma DecideDoesWork(s: Timer, j: nat, now: nat)
    requires Inv(s) && Enabled(s, Decide(j, now)) && s.tasks[s.jobs[j].task].cycles > 0
    ensures var t := s.jobs[j].task;
      var u := DecidedJob(s, j, now);
      t < |u.tasks| && Work(u, t) < Work(s, t) && u.tasks[t].cycles == s.tasks[t].cycles
  {
    hide Sum;
    JobIsAlone(s, j);
    assert Sound(s.tasks[s.jobs[j].task]);
  }

  lemma CommitDoesWork(s: Timer, j: nat)
    requires Inv(s) && Enabled(s, Commit(j)) && s.tasks[s.jobs[j].task].cycles > 0
    ensures var t := s.jobs[j].task;
      var u := CommittedJob(s, j);
      t < |u.tasks| && Work(u, t) < Work(s, t) && u.tasks[t].cycles == s.tasks[t].cycles
  {
    hide Inv;
    hide Sum;
    JobIsAlone(s, j);
    var t := s.jobs[j].task;
    assert t in s.priorityQueue + [t];
    assert s.jobs[j] in s.jobs;
  }

  lemma CancelChangesNoWork(s: Timer, id: nat, t: nat)
    requires t < |s.tasks|
    ensures var u := Cancelled(s, id);
      t < |u.tasks| && Work(u, t) == Work(s, t) && u.tasks[t].cycles == s.tasks[t].cycles
  {
  }

  lemma NoJobInTheQueue(s: Timer, t: nat)
    requires Inv(s) && t in s.priorityQueue
    ensures forall stage :: Returns(stage) ==> Job(t, stage) !in s.jobs
  {
    hide Ready;
    hide Sound;
    hide StageFits;
  }

  /** The task has had all its dispatches and is nowhere any more. */
  ghost predicate Finished(s: Timer, t: nat) {
    && t < |s.tasks| && |s.tasks[t].dispatches| == s.tasks[t].cycles
    && t !in s.priorityQueue && !InPool(s, t)
    && t !in s.taskMap && forall id :: id in s.taskIdMap ==> s.taskIdMap[id] != t
  }

  /** Unless the user removes it, a task has no work left exactly when it is finished. */
  lemma NoWorkIffFinished(s: Timer, t: nat)
    requires Inv(s) && t < |s.tasks| && s.tasks[t].cycles > 0 && !s.tasks[t].cancelled
    ensures Work(s, t) >= 0
    ensures Work(s, t) == 0 <==> Finished(s, t)
    ensures Work(s, t) == 0 <==> t !in s.priorityQueue && !InPool(s, t)
  {
    assert Sound(s.tasks[t]) && Kept(s, t);
    SentRunsOf(s, t);
    hide Sum;
    if t in s.priorityQueue {
      assert Ready(s.tasks[t]);
    } else if Returning(s, t) {
      var j :| 0 <= j < |s.jobs| && Returns(s.jobs[j].stage) && s.jobs[j].task == t;
      assert s.jobs[j] in s.jobs;
    }
  }

  /** What is with the pool is a run of a period task, or a job that is to reschedule its task. */
  lemma SentRunsOf(s: Timer, t: nat)
    ensures SentRuns(s, t) >= 0
    ensures InPool(s, t) <==> SentRuns(s, t) > 0 || Returning(s, t)
  {
    SumIsPositive(s.jobs, IsSent(t));
    if j :| 0 <= j < |s.jobs| && s.jobs[j].stage != Done && s.jobs[j].task == t {
      assert s.jobs[j].stage == Sent ==> IsSent(t)(s.jobs[j]) > 0;
    }
  }

  /** How many steps of a run concern the task. */
  function Turns(s: Timer, run: seq<Action>, t: nat): nat
    requires Possible(s, run)
    decreases |run|
  {
    if run == [] then 0
    else
      var front := run[..|run| - 1];
      Turns(s, front, t) + if Concerns(After(s, front), run[|run| - 1], t) then 1 else 0
  }

  /** Whatever the other tasks and the user do, a task takes no more steps than its work. */
  lemma {:induction false} TurnsAreBounded(s: Timer, run: seq<Action>, t: nat)
    requires Inv(s) && Possible(s, run) && t < |s.tasks| && s.tasks[t].cycles > 0
    ensures var u := After(s, run);
      && Inv(u) && t < |u.tasks| && u.tasks[t].cycles == s.tasks[t].cycles
      && Work(u, t) >= 0 && Turns(s, run, t) + Work(u, t) <= Work(s, t)
    decreases |run|
  {
    hide Step;
    hide Enabled;
    hide Inv;
    hide Concerns;
    hide Work;
    if run == [] {
      WorkIsPositive(s, t);
    } else {
      var front := run[..|run| - 1];
      TurnsAreBounded(s, front, t);
      var u := After(s, front);
      StepsDoTheWork(u, run[|run| - 1], t);
      StepKeepsInv(u, run[|run| - 1]);
      WorkIsPositive(After(s, run), t);
    }
  }

  lemma WorkIsPositive(s: Timer, t: nat)
    requires Inv(s) && t < |s.tasks| && s.tasks[t].cycles > 0
    ensures Work(s, t) >= 0
  {
    assert Sound(s.tasks[t]);
    SentRunsOf(s, t);
  }

  /** A task that is queued for the first time has three steps before it for each cycle, and its
      first round. */
  lemma WorkOfNewTask(s: Timer, kind: Kind, cycles: int, now: nat)
    requires Inv(s) && cycles > 0
    ensures |Added(s, kind, cycles, false, now).tasks| == |s.tasks| + 1
    ensures Work(Added(s, kind, cycles, false, now), |s.tasks|) == 3 * cycles + 1
  {
    var u := Added(s, kind, cycles, false, now);
    assert u.priorityQueue[|u.priorityQueue| - 1] == |s.tasks|;
    SumIsPositive(u.jobs, IsSent(|s.tasks|));
  }
}
