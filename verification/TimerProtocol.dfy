/** FPTimer.epoll.cpp as a protocol: one step is one critical section of the timer (an addition, a
  removal, one round of checkTasks, the end of a reschedule) or the part of a reschedule that a
  pool thread does before it locks. Steps of different threads interleave freely, and every step
  reads the clock for itself. */
module TimerProtocol {
  import opened Bounds
  import opened Sequences
  import P = Pipes

  const MSEC_IN_DAY := 86_400_000
  const DEFAULT_WAIT := 2000
  const MAX_WAIT := 600_000

  /** The classes PeriodTask, RepeatedTask and DailyTask; what is known of a daily task's first
      trigger is that it is some moment. */
  datatype Kind = Period(period: nat) | Repeated(interval: nat) | Daily(first: nat)

  /** A TimerTask. The last four fields are history: the cycles it was added with, its first
      trigger, whether its id was removed by the user, and the trigger of each of its dispatches. */
  datatype Task = Task(kind: Kind, cycleTimes: int, triggered: nat, removed: bool,
                       cycles: int, first: nat, cancelled: bool, dispatches: seq<nat>)

  /** A TimerThreadTask: the user's task is still to finish, and then there is nothing more to do
      when it was rescheduled before its dispatch, and else it is still to be rescheduled; the
      decision about that is made; or it is over. */
  datatype Stage = Sent | Submitted | Adjusted | Expired | Done

  datatype Job = Job(task: nat, stage: Stage)

  /** What does not change: how many ids the buffer of recycled ids keeps back, and how much room
      the pipe has and gives free at once. */
  datatype Setting = Setting(buffer: nat, room: nat, page: nat)

  predicate Proper(c: Setting) {
    c.buffer > 0 && 0 < c.page <= c.room
  }

  /** A task is named by its position in tasks, its place in the order of creation. While the event
      thread is checking it holds the lock from round to round. Otherwise it sleeps until wakeAt,
      unless a message that was written to the pipe since then wakes it. */
  datatype Timer = Timer(
    tasks: seq<Task>,
    priorityQueue: seq<nat>,
    jobs: seq<Job>,
    buffer: nat,
    idGen: nat,
    recycledIdPool: seq<nat>,
    taskMap: map<nat, nat>,
    taskIdMap: map<nat, nat>,
    checking: bool,
    pipe: P.Pipe,
    notified: bool,
    wakeAt: nat)

  datatype Action =
    | Add(kind: Kind, cycleTimes: int, runRightNow: bool, now: nat)
    | Cancel(id: nat)
    | Check(top: nat, now: nat)
    | Rest(now: nat)
    | Decide(job: nat, now: nat)
    | Commit(job: nat)
    | Finish(job: nat)

  // ---------- the steps ----------

  function Initial(c: Setting, now: nat): Timer {
    Timer([], [], [], c.buffer, 1, [], map[], map[], false, P.Empty(c.room, c.page), false, now + DEFAULT_WAIT)
  }

  function NewTask(kind: Kind, cycleTimes: int, runRightNow: bool, now: nat): Task {
    var triggered :=
      match kind
      case Period(p) => if runRightNow then now else now + p
      case Repeated(i) => now + i
      case Daily(first) => first;
    Task(kind, cycleTimes, triggered, false, cycleTimes, triggered, false, [])
  }

  /** reschedulable returns false. */
  predicate Expires(task: Task) {
    task.cycleTimes == 1
  }

  /** What reschedulable leaves. */
  function CountedDown(task: Task): Task {
    if task.cycleTimes > 0 then task.(cycleTimes := task.cycleTimes - 1) else task
  }

  /** adjustSchedule. */
  function Rescheduled(task: Task, now: nat): Task {
    match task.kind
    case Period(p) => task.(triggered := task.triggered + p)
    case Repeated(i) => task.(triggered := now + i)
    case Daily(_) => task.(triggered := task.triggered + MSEC_IN_DAY)
  }

  function Decided(task: Task, now: nat): Task {
    if Expires(task) then CountedDown(task) else Rescheduled(CountedDown(task), now)
  }

  /** The queue's push and the write to the pipe, whose failure nobody looks at. */
  function Pushed(s: Timer, t: nat): Timer {
    s.(priorityQueue := s.priorityQueue + [t],
       pipe := P.Written(s.pipe), notified := s.notified || !P.Full(s.pipe))
  }

  function AssignedId(s: Timer): nat
    requires s.buffer > 0
  {
    if |s.recycledIdPool| < s.buffer then s.idGen else s.recycledIdPool[0]
  }

  /** assignId and the two map insertions, for a new task. */
  function Registered(s: Timer, task: Task): Timer
    requires s.buffer > 0
  {
    var id := AssignedId(s);
    var t := |s.tasks|;
    var isNew := |s.recycledIdPool| < s.buffer;
    s.(tasks := s.tasks + [task],
       idGen := if isNew then s.idGen + 1 else s.idGen,
       recycledIdPool := if isNew then s.recycledIdPool else s.recycledIdPool[1..],
       taskMap := s.taskMap[t := id],
       taskIdMap := s.taskIdMap[id := t])
  }

  /** removeTask(task). */
  function Removed(s: Timer, t: nat): Timer
    requires t < |s.tasks|
  {
    if t !in s.taskMap then s
    else
      var id := s.taskMap[t];
      s.(tasks := s.tasks[t := s.tasks[t].(removed := true)],
         taskIdMap := s.taskIdMap - {id},
         taskMap := s.taskMap - {t},
         recycledIdPool := s.recycledIdPool + [id])
  }

  /** removeTask(taskId). */
  function Cancelled(s: Timer, id: nat): Timer {
    if id !in s.taskIdMap || s.taskIdMap[id] >= |s.tasks| then s
    else
      var t := s.taskIdMap[id];
      s.(tasks := s.tasks[t := s.tasks[t].(removed := true, cancelled := true)],
         taskIdMap := s.taskIdMap - {id},
         taskMap := s.taskMap - {t},
         recycledIdPool := s.recycledIdPool + [id])
  }

  /** rescheduleWithoutLocker. */
  function RescheduledInLock(s: Timer, t: nat, now: nat): Timer
    requires t < |s.tasks|
  {
    var decided := s.(tasks := s.tasks[t := Decided(s.tasks[t], now)]);
    if Expires(s.tasks[t]) then Removed(decided, t) else Pushed(decided, t)
  }

  function Dispatched(s: Timer, t: nat, triggered: nat): Timer
    requires t < |s.tasks|
  {
    s.(tasks := s.tasks[t := s.tasks[t].(dispatches := s.tasks[t].dispatches + [triggered])])
  }

  /** The stage of a new job of the task. */
  function FirstStage(task: Task): Stage {
    if task.kind.Period? then Sent else Submitted
  }

  /** executeTask: a period task is rescheduled before its dispatch, any other by its job. */
  function Executed(s: Timer, t: nat, now: nat): Timer
    requires t < |s.tasks|
  {
    var rescheduled := if s.tasks[t].kind.Period? then RescheduledInLock(s, t, now) else s;
    Dispatched(rescheduled.(jobs := s.jobs + [Job(t, FirstStage(s.tasks[t]))]), t, s.tasks[t].triggered)
  }

  function Added(s: Timer, kind: Kind, cycleTimes: int, runRightNow: bool, now: nat): Timer
    requires s.buffer > 0
  {
    var registered := Registered(s, NewTask(kind, cycleTimes, runRightNow, now));
    if runRightNow then Executed(registered, |s.tasks|, now) else Pushed(registered, |s.tasks|)
  }

  /** The loop of checkTasks goes on behind a round that takes its task off the queue. */
  function Popped(s: Timer, top: nat): Timer
    requires top < |s.priorityQueue|
  {
    s.(priorityQueue := s.priorityQueue[..top] + s.priorityQueue[top + 1..],
       checking := true, pipe := P.Read(s.pipe))
  }

  /** The loop ends and the event thread goes to sleep. */
  function Asleep(s: Timer, pipe: P.Pipe, wakeAt: nat): Timer {
    s.(checking := false, pipe := pipe, notified := false, wakeAt := wakeAt)
  }

  /** One round of checkTasks with the given position on top. */
  function Checked(s: Timer, top: nat, now: nat): Timer
    requires top < |s.priorityQueue| && s.priorityQueue[top] < |s.tasks|
  {
    var t := s.priorityQueue[top];
    if s.tasks[t].removed then Removed(Popped(s, top), t)
    else if s.tasks[t].triggered <= now then Executed(Popped(s, top), t, now)
    else Asleep(s, P.Read(s.pipe), now + Min(s.tasks[t].triggered - now, MAX_WAIT))
  }

  function DecidedJob(s: Timer, j: nat, now: nat): Timer
    requires j < |s.jobs| && s.jobs[j].task < |s.tasks|
  {
    var t := s.jobs[j].task;
    s.(tasks := s.tasks[t := Decided(s.tasks[t], now)],
       jobs := s.jobs[j := Job(t, if Expires(s.tasks[t]) then Expired else Adjusted)])
  }

  function CommittedJob(s: Timer, j: nat): Timer
    requires j < |s.jobs| && s.jobs[j].task < |s.tasks|
  {
    var t := s.jobs[j].task;
    var over := s.(jobs := s.jobs[j := Job(t, Done)]);
    if s.jobs[j].stage == Expired then Removed(over, t) else Pushed(over, t)
  }

  function FinishedJob(s: Timer, j: nat): Timer
    requires j < |s.jobs|
  {
    s.(jobs := s.jobs[j := s.jobs[j].(stage := Done)])
  }

  /** The position holds a task that no queued task should run before. */
  predicate IsTop(s: Timer, top: nat) {
    && top < |s.priorityQueue|
    && (forall i :: 0 <= i < |s.priorityQueue| ==> s.priorityQueue[i] < |s.tasks|)
    && forall i :: 0 <= i < |s.priorityQueue| ==>
         s.tasks[s.priorityQueue[top]].triggered <= s.tasks[s.priorityQueue[i]].triggered
  }

  predicate HasJob(s: Timer, j: nat, stages: set<Stage>) {
    j < |s.jobs| && s.jobs[j].task < |s.tasks| && s.jobs[j].stage in stages
  }

  /** A step that is a critical section of another thread has to wait for the loop of checkTasks. */
  predicate Enabled(s: Timer, a: Action) {
    match a
    case Add(kind, cycles, right, _) => !s.checking && s.buffer > 0 && (kind.Daily? ==> cycles == 0 && !right)
    case Cancel(_) => !s.checking
    case Check(top, _) => IsTop(s, top)
    case Rest(_) => s.priorityQueue == []
    case Decide(j, _) => HasJob(s, j, {Submitted})
    case Commit(j) => !s.checking && HasJob(s, j, {Adjusted, Expired})
    case Finish(j) => HasJob(s, j, {Sent})
  }

  function Step(s: Timer, a: Action): Timer
    requires Enabled(s, a)
  {
    match a
    case Add(kind, cycles, right, now) => Added(s, kind, cycles, right, now)
    case Cancel(id) => Cancelled(s, id)
    case Check(top, now) => Checked(s, top, now)
    case Rest(now) => Asleep(s, s.pipe, now + DEFAULT_WAIT)
    case Decide(j, now) => DecidedJob(s, j, now)
    case Commit(j) => CommittedJob(s, j)
    case Finish(j) => FinishedJob(s, j)
  }

  /** A run from some state: the actions are taken one after the other, each when it is enabled. */
  predicate Possible(s: Timer, run: seq<Action>)
    decreases |run|, 0
  {
    run == []
    || (Possible(s, run[..|run| - 1]) && Enabled(After(s, run[..|run| - 1]), run[|run| - 1]))
  }

  function After(s: Timer, run: seq<Action>): Timer
    requires Possible(s, run)
    decreases |run|, 1
  {
    if run == [] then s else Step(After(s, run[..|run| - 1]), run[|run| - 1])
  }

  // ---------- the life of one task ----------

  /** The distance between the triggers of a task that keeps to a fixed beat. */
  function Stride(kind: Kind): nat
    requires !kind.Repeated?
  {
    if kind.Period? then kind.period else MSEC_IN_DAY
  }

  /** The i-th trigger of a task with a fixed beat. */
  function Beat(task: Task, i: nat): nat
    requires !task.kind.Repeated?
  {
    task.first + i * Stride(task.kind)
  }

  /** What holds of a task wherever it is. */
  ghost predicate Sound(task: Task) {
    && (task.cycles <= 0 ==> task.cycleTimes == task.cycles)
    && (task.cycles > 0 ==> |task.dispatches| <= task.cycles && 0 <= task.cycleTimes)
    && (task.removed && !task.cancelled ==> Spent(task))
    && (!task.kind.Repeated? ==> forall i :: 0 <= i < |task.dispatches| ==> task.dispatches[i] == Beat(task, i))
  }

  /** A task that waits for its trigger, or is about to be queued. */
  ghost predicate Ready(task: Task) {
    && (task.cycles > 0 ==> task.cycleTimes == task.cycles - |task.dispatches| > 0)
    && (!task.kind.Repeated? ==> task.triggered == Beat(task, |task.dispatches|))
  }

  /** A task whose latest run is with the pool. */
  ghost predicate Out(task: Task) {
    && !task.kind.Period? && task.dispatches != []
    && (task.cycles > 0 ==> task.cycleTimes == task.cycles - |task.dispatches| + 1)
    && (!task.kind.Repeated? ==> task.triggered == Beat(task, |task.dispatches| - 1))
  }

  /** A task that has used up its cycles. */
  ghost predicate Spent(task: Task) {
    task.cycles > 0 && task.cycleTimes == 0 && |task.dispatches| == task.cycles
  }

  lemma NextBeat(task: Task, i: nat)
    requires !task.kind.Repeated?
    ensures Beat(task, i + 1) == Beat(task, i) + Stride(task.kind)
  {
    assert (i + 1) * Stride(task.kind) == i * Stride(task.kind) + Stride(task.kind);
  }

  /** The pool gets a task that was ready. */
  lemma ReadyGoesOut(task: Task)
    requires Sound(task) && Ready(task) && !task.kind.Period? && !task.removed
    ensures var sent := task.(dispatches := task.dispatches + [task.triggered]); Sound(sent) && Out(sent)
  {
  }

  /** A decision makes a task that was out ready again, or spent. */
  lemma OutIsDecided(task: Task, now: nat)
    requires Sound(task) && Out(task)
    ensures var decided := Decided(task, now);
      Sound(decided) && if Expires(task) then Spent(decided) else Ready(decided)
  {
    if !task.kind.Repeated? {
      NextBeat(task, |task.dispatches| - 1);
    }
  }

  /** A period task is decided and sent at once. */
  lemma PeriodTaskIsSent(task: Task, now: nat)
    requires Sound(task) && Ready(task) && task.kind.Period? && !task.removed
    ensures var decided := Decided(task, now);
      var sent := decided.(dispatches := task.dispatches + [task.triggered], removed := Expires(task));
      Sound(sent) && if Expires(task) then Spent(sent) else Ready(sent)
  {
    NextBeat(task, |task.dispatches|);
    var sent := Decided(task, now).(dispatches := task.dispatches + [task.triggered]);
    forall i | 0 <= i < |sent.dispatches| ensures sent.dispatches[i] == Beat(sent, i) {
      assert Beat(sent, i) == Beat(task, i);
    }
  }

  // ---------- the invariant ----------

  ghost predicate Pending(s: Timer, j: nat) {
    j < |s.jobs| && Returns(s.jobs[j].stage)
  }

  /** The two maps are inverse to each other, and the ids given out so far are the live ones and
      the recycled ones, each of them one or the other. */
  ghost predicate IdsAgree(s: Timer) {
    && (forall t :: t in s.taskMap ==> s.taskMap[t] in s.taskIdMap && s.taskIdMap[s.taskMap[t]] == t)
    && (forall id :: id in s.taskIdMap ==> s.taskIdMap[id] in s.taskMap && s.taskMap[s.taskIdMap[id]] == id)
    && (forall id :: 0 < id < s.idGen <==> id in s.taskIdMap || id in s.recycledIdPool)
    && (forall id :: id in s.recycledIdPool ==> id !in s.taskIdMap)
    && Distinct(s.recycledIdPool)
    && s.idGen > 0
  }

  /** The maps hold the tasks that are not removed. */
  ghost predicate LiveTasksAreMapped(s: Timer) {
    forall t: nat :: t in s.taskMap <==> t < |s.tasks| && !s.tasks[t].removed
  }

  ghost predicate QueueIsReady(s: Timer) {
    && Distinct(s.priorityQueue)
    && forall t :: t in s.priorityQueue ==> t < |s.tasks| && Ready(s.tasks[t])
  }

  ghost predicate StageFits(task: Task, stage: Stage) {
    match stage
    case Sent => task.kind.Period?
    case Submitted => Out(task)
    case Adjusted => Ready(task) && !task.kind.Period?
    case Expired => Spent(task) && !task.kind.Period?
    case Done => true
  }

  /** The job is still to reschedule its task. */
  predicate Returns(stage: Stage) {
    stage == Submitted || stage == Adjusted || stage == Expired
  }

  /** A job that is still to reschedule its task belongs to one that is not queued and has no
      other such job. */
  ghost predicate JobsAreApart(s: Timer) {
    && (forall j :: 0 <= j < |s.jobs| ==> s.jobs[j].task < |s.tasks|)
    && (forall j :: 0 <= j < |s.jobs| ==> StageFits(s.tasks[s.jobs[j].task], s.jobs[j].stage))
    && (forall j {:trigger s.jobs[j].stage} :: 0 <= j < |s.jobs| && Returns(s.jobs[j].stage) ==>
          s.jobs[j].task !in s.priorityQueue)
    && (forall i, j ::
          (0 <= i < j < |s.jobs| && Returns(s.jobs[i].stage) && Returns(s.jobs[j].stage)) ==>
            s.jobs[i].task != s.jobs[j].task)
  }

  ghost predicate Returning(s: Timer, t: nat) {
    exists j :: 0 <= j < |s.jobs| && Returns(s.jobs[j].stage) && s.jobs[j].task == t
  }

  /** A run of the task is not over yet. */
  ghost predicate InPool(s: Timer, t: nat) {
    exists j :: 0 <= j < |s.jobs| && s.jobs[j].stage != Done && s.jobs[j].task == t
  }

  ghost predicate TasksAreSound(s: Timer) {
    forall t :: 0 <= t < |s.tasks| ==> Sound(s.tasks[t])
  }

  ghost predicate Kept(s: Timer, t: nat)
    requires t < |s.tasks|
  {
    t in s.priorityQueue || Returning(s, t) || s.tasks[t].removed
  }

  /** Nothing is forgotten: a task is queued, comes back from the pool, or is removed. */
  ghost predicate TasksAreKept(s: Timer) {
    forall t: nat :: t < |s.tasks| ==> Kept(s, t)
  }

  ghost predicate Inv(s: Timer) {
    && s.buffer > 0
    && IdsAgree(s) && LiveTasksAreMapped(s)
    && QueueIsReady(s) && JobsAreApart(s) && TasksAreSound(s) && TasksAreKept(s)
  }

  /** The invariant while one task is in nobody's hands. */
  ghost predicate InHand(s: Timer, t: nat) {
    && s.buffer > 0
    && IdsAgree(s) && LiveTasksAreMapped(s)
    && QueueIsReady(s) && JobsAreApart(s) && TasksAreSound(s)
    && (forall u: nat :: u < |s.tasks| && u != t ==> Kept(s, u))
    && t < |s.tasks| && t !in s.priorityQueue && !Returning(s, t)
  }

  // ---------- every step keeps the invariant ----------

  lemma PopTakesInHand(s: Timer, top: nat)
    requires Inv(s) && top < |s.priorityQueue|
    ensures InHand(Popped(s, top), s.priorityQueue[top])
    ensures Ready(s.tasks[s.priorityQueue[top]])
  {
    hide Ready;
    hide Sound;
    hide StageFits;
    var t := s.priorityQueue[top];
    var popped := Popped(s, top);
    WithoutIsDistinct(s.priorityQueue, top);
    assert t in s.priorityQueue;
    forall u: nat | u < |s.tasks| && u != t ensures Kept(popped, u) {
      assert Kept(s, u);
      if Returning(s, u) {
        assert Returning(popped, u);
      }
    }
  }

  /** The task on top, and the queue without it. */
  lemma TopTask(s: Timer, top: nat)
    requires Inv(s) && IsTop(s, top)
    ensures var t, rest := s.priorityQueue[top], s.priorityQueue[..top] + s.priorityQueue[top + 1..];
      && t in s.priorityQueue && Ready(s.tasks[t]) && Sound(s.tasks[t]) && (s.tasks[t].removed ==> t !in s.taskMap)
      && t !in rest && forall u :: u in s.priorityQueue <==> u == t || u in rest
  {
    hide Ready;
    hide Sound;
    hide StageFits;
    WithoutIsDistinct(s.priorityQueue, top);
  }

  lemma EndTakesInHand(s: Timer, j: nat)
    requires Inv(s) && Pending(s, j)
    ensures InHand(s.(jobs := s.jobs[j := Job(s.jobs[j].task, Done)]), s.jobs[j].task)
  {
    hide Ready;
    hide Sound;
    var t := s.jobs[j].task;
    var over := s.(jobs := s.jobs[j := Job(t, Done)]);
    forall u: nat | u < |s.tasks| && u != t ensures Kept(over, u) {
      assert Kept(s, u);
      if i :| 0 <= i < |s.jobs| && Returns(s.jobs[i].stage) && s.jobs[i].task == u {
        assert over.jobs[i] == s.jobs[i];
      }
    }
  }

  lemma RegisterTakesInHand(s: Timer, task: Task)
    requires Inv(s) && Sound(task) && !task.removed
    ensures InHand(Registered(s, task), |s.tasks|)
    ensures AssignedId(s) !in s.taskIdMap && AssignedId(s) > 0
  {
    RegisterKeepsIds(s, task);
    hide IdsAgree;
    hide Ready;
    hide Sound;
    var r := Registered(s, task);
    forall u: nat | u < |r.tasks| && u != |s.tasks| ensures Kept(r, u) {
      assert Kept(s, u);
      if Returning(s, u) {
        assert Returning(r, u);
      }
    }
  }

  lemma AssignedIdIsNew(s: Timer)
    requires IdsAgree(s) && s.buffer > 0
    ensures AssignedId(s) !in s.taskIdMap && AssignedId(s) > 0
    ensures |s.recycledIdPool| < s.buffer ==> AssignedId(s) !in s.recycledIdPool
    ensures |s.recycledIdPool| >= s.buffer ==>
      && Distinct(s.recycledIdPool[1..]) && AssignedId(s) !in s.recycledIdPool[1..]
      && forall id :: id in s.recycledIdPool <==> id == AssignedId(s) || id in s.recycledIdPool[1..]
  {
    var pool := s.recycledIdPool;
    if |pool| < s.buffer {
      assert !(0 < AssignedId(s) < s.idGen);
    } else {
      assert pool[0] in pool;
      WithoutIsDistinct(pool, 0);
      assert Without(pool, 0) == pool[1..];
    }
  }

  lemma RegisterKeepsIds(s: Timer, task: Task)
    requires IdsAgree(s) && LiveTasksAreMapped(s) && s.buffer > 0
    ensures IdsAgree(Registered(s, task))
    ensures AssignedId(s) !in s.taskIdMap && AssignedId(s) > 0
  {
    hide Distinct;
    AssignedIdIsNew(s);
    var r := Registered(s, task);
    forall x: nat
      ensures 0 < x < r.idGen <==> x in r.taskIdMap || x in r.recycledIdPool
    {
      assert 0 < x < s.idGen <==> x in s.taskIdMap || x in s.recycledIdPool;
    }
    assert |s.tasks| !in s.taskMap;
  }

  lemma PushPutsBack(s: Timer, t: nat)
    requires InHand(s, t) && Ready(s.tasks[t])
    ensures Inv(Pushed(s, t))
  {
    hide Ready;
    hide Sound;
    var p := Pushed(s, t);
    assert forall u :: u in p.priorityQueue <==> u == t || u in s.priorityQueue;
    forall j | 0 <= j < |s.jobs| && Returns(s.jobs[j].stage) ensures s.jobs[j].task != t {
      assert s.jobs[j].task == t ==> Returning(s, t);
    }
    forall u: nat | u < |p.tasks| ensures Kept(p, u) {
      if u != t {
        assert Kept(s, u);
        if Returning(s, u) {
          assert Returning(p, u);
        }
      }
    }
  }

  lemma RemovedIsKept(s: Timer, t: nat)
    requires InHand(s, t) && s.tasks[t].removed
    ensures Inv(s)
  {
    assert Kept(s, t);
  }

  /** The task in hand goes to the pool, in a new job or an old one. */
  lemma JobPutsBack(s: Timer, t: nat, jobs: seq<Job>, j: nat)
    requires InHand(s, t) && |s.jobs| <= |jobs| <= |s.jobs| + 1 && |jobs| - 1 <= |s.jobs| && j < |jobs|
    requires |jobs| > |s.jobs| ==> j == |s.jobs|
    requires forall i :: 0 <= i < |s.jobs| && i != j ==> jobs[i] == s.jobs[i]
    requires j < |s.jobs| ==> s.jobs[j] == Job(t, Done)
    requires jobs[j].task == t && Returns(jobs[j].stage) && StageFits(s.tasks[t], jobs[j].stage)
    ensures Inv(s.(jobs := jobs))
  {
    hide Ready;
    hide Sound;
    hide StageFits;
    var p := s.(jobs := jobs);
    forall i | 0 <= i < |s.jobs| && Returns(s.jobs[i].stage) ensures s.jobs[i].task != t {
      assert s.jobs[i].task == t ==> Returning(s, t);
    }
    JobStaysKept(s, t, jobs, j);
  }

  lemma JobStaysKept(s: Timer, t: nat, jobs: seq<Job>, j: nat)
    requires forall u: nat :: u < |s.tasks| && u != t ==> Kept(s, u)
    requires |s.jobs| <= |jobs| && j < |jobs| && jobs[j].task == t && Returns(jobs[j].stage)
    requires forall i :: 0 <= i < |s.jobs| && i != j ==> jobs[i] == s.jobs[i]
    requires j < |s.jobs| ==> s.jobs[j] == Job(t, Done)
    ensures TasksAreKept(s.(jobs := jobs))
  {
    var p := s.(jobs := jobs);
    forall u: nat | u < |p.tasks| ensures Kept(p, u) {
      if u == t {
        assert Returning(p, t);
      } else {
        assert Kept(s, u);
        if i :| 0 <= i < |s.jobs| && Returns(s.jobs[i].stage) && s.jobs[i].task == u {
          assert jobs[i] == s.jobs[i];
        }
      }
    }
  }

  /** The task in hand may be replaced. */
  lemma ChangeInHand(s: Timer, t: nat, task: Task)
    requires InHand(s, t) && Sound(task) && task.removed == s.tasks[t].removed && task.kind == s.tasks[t].kind
    ensures InHand(s.(tasks := s.tasks[t := task]), t)
  {
    hide Ready;
    hide Sound;
    var c := s.(tasks := s.tasks[t := task]);
    forall j | 0 <= j < |s.jobs| ensures StageFits(c.tasks[s.jobs[j].task], s.jobs[j].stage) {
      if s.jobs[j].task == t {
        assert Returns(s.jobs[j].stage) ==> Returning(s, t);
      }
    }
    forall u: nat | u < |s.tasks| && u != t ensures Kept(c, u) {
      assert Kept(s, u);
      if Returning(s, u) {
        assert Returning(c, u);
      }
    }
    assert Returning(c, t) ==> Returning(s, t);
  }

  lemma RemoveKeepsIds(s: Timer, t: nat, task: Task)
    requires IdsAgree(s) && LiveTasksAreMapped(s) && t in s.taskMap && task.removed
    ensures var id := s.taskMap[t];
      var r := s.(tasks := s.tasks[t := task], taskIdMap := s.taskIdMap - {id}, taskMap := s.taskMap - {t},
                  recycledIdPool := s.recycledIdPool + [id]);
      IdsAgree(r) && LiveTasksAreMapped(r)
  {
    var id := s.taskMap[t];
    assert forall x :: x in s.recycledIdPool + [id] <==> x == id || x in s.recycledIdPool;
    assert id !in s.recycledIdPool;
  }

  /** The task in hand leaves the maps. */
  lemma LeaveSettles(s: Timer, t: nat, task: Task)
    requires InHand(s, t) && t in s.taskMap && task.removed && Sound(task) && task.kind == s.tasks[t].kind
    ensures var id := s.taskMap[t];
      Inv(s.(tasks := s.tasks[t := task], taskIdMap := s.taskIdMap - {id}, taskMap := s.taskMap - {t},
             recycledIdPool := s.recycledIdPool + [id]))
  {
    hide Ready;
    hide Sound;
    RemoveKeepsIds(s, t, task);
    hide IdsAgree;
    hide LiveTasksAreMapped;
    var id := s.taskMap[t];
    var r := s.(tasks := s.tasks[t := task], taskIdMap := s.taskIdMap - {id}, taskMap := s.taskMap - {t},
                recycledIdPool := s.recycledIdPool + [id]);
    forall j | 0 <= j < |s.jobs| ensures StageFits(r.tasks[s.jobs[j].task], s.jobs[j].stage) {
      if s.jobs[j].task == t {
        assert Returns(s.jobs[j].stage) ==> Returning(s, t);
      }
    }
    forall u: nat | u < |r.tasks| ensures Kept(r, u) {
      if u != t {
        assert Kept(s, u);
        if Returning(s, u) {
          assert Returning(r, u);
        }
      }
    }
  }

  lemma RemoveSettles(s: Timer, t: nat)
    requires InHand(s, t) && (s.tasks[t].removed || Spent(s.tasks[t]))
    ensures Inv(Removed(s, t))
  {
    if t in s.taskMap {
      LeaveSettles(s, t, s.tasks[t].(removed := true));
    } else {
      RemovedIsKept(s, t);
    }
  }

  lemma ExecutePutsBack(s: Timer, t: nat, now: nat)
    requires InHand(s, t) && Ready(s.tasks[t]) && !s.tasks[t].removed
    ensures Inv(Executed(s, t, now))
  {
    hide Inv;
    hide InHand;
    hide Sound;
    hide Ready;
    LiveTaskIsMapped(s, t);
    if s.tasks[t].kind.Period? {
      PeriodTaskPutsBack(s, t, now);
    } else {
      var task := s.tasks[t];
      ReadyGoesOut(task);
      var sent := task.(dispatches := task.dispatches + [task.triggered]);
      ChangeInHand(s, t, sent);
      JobPutsBack(s.(tasks := s.tasks[t := sent]), t, s.jobs + [Job(t, Submitted)], |s.jobs|);
    }
  }

  lemma PeriodTaskPutsBack(s: Timer, t: nat, now: nat)
    requires InHand(s, t) && Ready(s.tasks[t]) && !s.tasks[t].removed && s.tasks[t].kind.Period?
    ensures Inv(Executed(s, t, now))
  {
    hide Inv;
    hide InHand;
    hide Ready;
    hide Sound;
    LiveTaskIsMapped(s, t);
    var task := s.tasks[t];
    var e := Executed(s, t, now);
    PeriodTaskIsSent(task, now);
    var sent := Decided(task, now).(dispatches := task.dispatches + [task.triggered]);
    if Expires(task) {
      LeaveSettles(s, t, sent.(removed := true));
      assert e.tasks == s.tasks[t := sent.(removed := true)];
      var left := e.(jobs := s.jobs);
      SentJobIsAdded(left, t);
      assert e == left.(jobs := left.jobs + [Job(t, Sent)]);
    } else {
      ChangeInHand(s, t, sent);
      var pushed := Pushed(s.(tasks := s.tasks[t := sent]), t);
      PushPutsBack(s.(tasks := s.tasks[t := sent]), t);
      SentJobIsAdded(pushed, t);
      assert e == pushed.(jobs := pushed.jobs + [Job(t, Sent)]);
    }
  }

  lemma LiveTaskIsMapped(s: Timer, t: nat)
    requires InHand(s, t) && !s.tasks[t].removed
    ensures t < |s.tasks| && t in s.taskMap && t !in s.priorityQueue && Sound(s.tasks[t])
  {
    hide Sound;
  }

  /** A job that does not reschedule its task stands in nobody's way: the jobs that do are the same. */
  lemma OtherJobs(s: Timer, jobs: seq<Job>)
    requires Inv(s) && |s.jobs| <= |jobs|
    requires forall j :: 0 <= j < |s.jobs| ==>
      jobs[j] == s.jobs[j] || (!Returns(s.jobs[j].stage) && !Returns(jobs[j].stage))
    requires forall j :: |s.jobs| <= j < |jobs| ==> !Returns(jobs[j].stage)
    requires forall j :: 0 <= j < |jobs| ==>
      jobs[j].task < |s.tasks| && StageFits(s.tasks[jobs[j].task], jobs[j].stage)
    ensures Inv(s.(jobs := jobs))
  {
    hide Ready;
    hide Sound;
    hide StageFits;
    var u := s.(jobs := jobs);
    assert JobsAreApart(u);
    forall v: nat | v < |u.tasks| ensures Kept(u, v) {
      assert Kept(s, v);
      if Returning(s, v) {
        var i :| 0 <= i < |s.jobs| && Returns(s.jobs[i].stage) && s.jobs[i].task == v;
        assert u.jobs[i] == s.jobs[i];
        assert Returning(u, v);
      }
    }
  }

  lemma SentJobIsAdded(s: Timer, t: nat)
    requires Inv(s) && t < |s.tasks| && s.tasks[t].kind.Period?
    ensures Inv(s.(jobs := s.jobs + [Job(t, Sent)]))
  {
    hide Ready;
    hide Sound;
    hide IdsAgree;
    OtherJobs(s, s.jobs + [Job(t, Sent)]);
  }

  lemma FinishKeepsInv(s: Timer, j: nat)
    requires Inv(s) && Enabled(s, Finish(j))
    ensures Inv(FinishedJob(s, j))
  {
    hide Ready;
    hide Sound;
    hide IdsAgree;
    OtherJobs(s, s.jobs[j := s.jobs[j].(stage := Done)]);
  }

  lemma SleepKeepsInv(s: Timer, pipe: P.Pipe, wakeAt: nat)
    requires Inv(s)
    ensures Inv(Asleep(s, pipe, wakeAt))
  {
    hide Ready;
    hide Sound;
    hide StageFits;
    var w := Asleep(s, pipe, wakeAt);
    forall u: nat | u < |w.tasks| ensures Kept(w, u) {
      assert Kept(s, u);
      if Returning(s, u) {
        assert Returning(w, u);
      }
    }
  }

  lemma CheckKeepsInv(s: Timer, top: nat, now: nat)
    requires Inv(s) && Enabled(s, Check(top, now))
    ensures Inv(Checked(s, top, now))
  {
    hide Inv;
    hide InHand;
    hide Ready;
    hide Removed;
    hide Executed;
    var t := s.priorityQueue[top];
    PopTakesInHand(s, top);
    if s.tasks[t].removed {
      RemoveSettles(Popped(s, top), t);
    } else if s.tasks[t].triggered <= now {
      ExecutePutsBack(Popped(s, top), t, now);
    } else {
      SleepKeepsInv(s, P.Read(s.pipe), now + Min(s.tasks[t].triggered - now, MAX_WAIT));
    }
  }

  lemma DecideKeepsInv(s: Timer, j: nat, now: nat)
    requires Inv(s) && Enabled(s, Decide(j, now))
    ensures Inv(DecidedJob(s, j, now))
  {
    var t := s.jobs[j].task;
    var over := s.(jobs := s.jobs[j := Job(t, Done)]);
    EndTakesInHand(s, j);
    OutIsDecided(s.tasks[t], now);
    assert StageFits(Decided(s.tasks[t], now), if Expires(s.tasks[t]) then Expired else Adjusted);
    hide InHand;
    hide Ready;
    hide Out;
    hide Spent;
    hide StageFits;
    ChangeInHand(over, t, Decided(s.tasks[t], now));
    var decided := over.(tasks := s.tasks[t := Decided(s.tasks[t], now)]);
    var stage := if Expires(s.tasks[t]) then Expired else Adjusted;
    JobPutsBack(decided, t, s.jobs[j := Job(t, stage)], j);
  }

  lemma CommitKeepsInv(s: Timer, j: nat)
    requires Inv(s) && Enabled(s, Commit(j))
    ensures Inv(CommittedJob(s, j))
  {
    var t := s.jobs[j].task;
    var over := s.(jobs := s.jobs[j := Job(t, Done)]);
    EndTakesInHand(s, j);
    if s.jobs[j].stage == Expired {
      RemoveSettles(over, t);
    } else {
      PushPutsBack(over, t);
    }
  }

  lemma AddKeepsInv(s: Timer, kind: Kind, cycleTimes: int, runRightNow: bool, now: nat)
    requires Inv(s) && s.buffer > 0
    ensures Inv(Added(s, kind, cycleTimes, runRightNow, now))
    ensures AssignedId(s) > 0 && AssignedId(s) !in s.taskIdMap
  {
    var task := NewTask(kind, cycleTimes, runRightNow, now);
    RegisterTakesInHand(s, task);
    var registered := Registered(s, task);
    hide InHand;
    hide Inv;
    if runRightNow {
      ExecutePutsBack(registered, |s.tasks|, now);
    } else {
      PushPutsBack(registered, |s.tasks|);
    }
  }

  /** A task may be replaced by one that stands where it stood. */
  lemma AlikeFits(s: Timer, t: nat, task: Task)
    requires QueueIsReady(s) && JobsAreApart(s) && TasksAreSound(s) && t < |s.tasks|
    requires Sound(task) && task.triggered == s.tasks[t].triggered
    requires Ready(s.tasks[t]) ==> Ready(task)
    requires forall stage :: StageFits(s.tasks[t], stage) ==> StageFits(task, stage)
    ensures var c := s.(tasks := s.tasks[t := task]);
      QueueIsReady(c) && JobsAreApart(c) && TasksAreSound(c)
  {
    hide Ready;
    hide Sound;
    hide StageFits;
  }

  lemma CancelKeepsInv(s: Timer, id: nat)
    requires Inv(s)
    ensures Inv(Cancelled(s, id))
  {
    if id in s.taskIdMap {
      var t := s.taskIdMap[id];
      var task := s.tasks[t].(removed := true, cancelled := true);
      assert s.taskMap[t] == id;
      RemoveKeepsIds(s, t, task);
      assert Sound(task);
      hide IdsAgree;
      hide LiveTasksAreMapped;
      AlikeFits(s, t, task);
      CancelledIsKept(s, t, task);
      hide QueueIsReady;
      hide JobsAreApart;
      hide TasksAreSound;
      hide TasksAreKept;
      CancelRegroups(s.(tasks := s.tasks[t := task]), Cancelled(s, id));
    }
  }

  /** All but the ids speak of the tasks, the queue and the jobs only. */
  lemma CancelRegroups(c: Timer, r: Timer)
    requires QueueIsReady(c) && JobsAreApart(c) && TasksAreSound(c) && TasksAreKept(c)
    requires IdsAgree(r) && LiveTasksAreMapped(r) && r.buffer > 0
    requires r.tasks == c.tasks && r.priorityQueue == c.priorityQueue && r.jobs == c.jobs
    ensures Inv(r)
  {
    hide IdsAgree;
    hide Ready;
    hide Sound;
    hide StageFits;
    forall u: nat | u < |r.tasks| ensures Kept(r, u) {
      assert Kept(c, u);
      if Returning(c, u) {
        assert Returning(r, u);
      }
    }
  }

  lemma CancelledIsKept(s: Timer, t: nat, task: Task)
    requires TasksAreKept(s) && t < |s.tasks| && task.removed
    ensures TasksAreKept(s.(tasks := s.tasks[t := task]))
  {
    var c := s.(tasks := s.tasks[t := task]);
    forall u: nat | u < |c.tasks| ensures Kept(c, u) {
      assert Kept(s, u);
      if Returning(s, u) {
        assert Returning(c, u);
      }
    }
  }

  lemma StepKeepsInv(s: Timer, a: Action)
    requires Inv(s) && Enabled(s, a)
    ensures Inv(Step(s, a))
  {
    hide Inv;
    match a {
      case Add(kind, cycles, right, now) => AddKeepsInv(s, kind, cycles, right, now);
      case Cancel(id) => CancelKeepsInv(s, id);
      case Check(top, now) => CheckKeepsInv(s, top, now);
      case Rest(now) => SleepKeepsInv(s, s.pipe, now + DEFAULT_WAIT);
      case Decide(j, now) => DecideKeepsInv(s, j, now);
      case Commit(j) => CommitKeepsInv(s, j);
      case Finish(j) => FinishKeepsInv(s, j);
    }
  }

  lemma {:induction false} RunKeepsInv(s: Timer, run: seq<Action>)
    requires Possible(s, run) && Inv(s)
    ensures Inv(After(s, run))
    decreases |run|
  {
    hide Inv;
    hide Step;
    hide Enabled;
    if run != [] {
      RunKeepsInv(s, run[..|run| - 1]);
      StepKeepsInv(After(s, run[..|run| - 1]), run[|run| - 1]);
    }
  }

  // ---------- what holds in every run ----------

  lemma InitialInv(c: Setting, start: nat)
    requires Proper(c)
    ensures Inv(Initial(c, start))
  {
  }

  lemma ReachableInv(c: Setting, start: nat, run: seq<Action>)
    requires Proper(c) && Possible(Initial(c, start), run)
    ensures Inv(After(Initial(c, start), run))
  {
    hide *;
    InitialInv(c, start);
    RunKeepsInv(Initial(c, start), run);
  }

  /** Whatever the size of the buffer of recycled ids: the two maps are inverse to each other and
      hold the tasks not removed, every id given out is either live or recycled, and the id the
      next addition returns is positive and not live. */
  lemma IdsAreUnique(c: Setting, start: nat, run: seq<Action>)
    requires Proper(c) && Possible(Initial(c, start), run)
    ensures var s := After(Initial(c, start), run);
      && IdsAgree(s) && LiveTasksAreMapped(s) && s.buffer > 0
      && AssignedId(s) > 0 && AssignedId(s) !in s.taskIdMap
  {
    ReachableInv(c, start, run);
    hide Possible;
    hide After;
    RegisterKeepsIds(After(Initial(c, start), run), NewTask(Daily(0), 0, false, 0));
  }

  /** A task is queued at most once. While it is queued, or while a run of it is not over, another
      run of it can be with the pool only if it is a period task; a task that its job is still to
      reschedule is not queued. */
  lemma TasksAreInOnePlace(c: Setting, start: nat, run: seq<Action>)
    requires Proper(c) && Possible(Initial(c, start), run)
    ensures var s := After(Initial(c, start), run);
      && Distinct(s.priorityQueue)
      && (forall t :: t in s.priorityQueue ==> t < |s.tasks| && !Returning(s, t))
      && (forall t :: t in s.priorityQueue && InPool(s, t) ==> s.tasks[t].kind.Period?)
      && (forall i, j :: 0 <= i < j < |s.jobs| && s.jobs[i].stage != Done && s.jobs[j].stage != Done ==>
            s.jobs[i].task == s.jobs[j].task ==>
              s.jobs[i].task < |s.tasks| && s.tasks[s.jobs[i].task].kind.Period?)
  {
    ReachableInv(c, start, run);
    hide Possible;
    hide After;
    UnfinishedJobs(After(Initial(c, start), run));
  }

  /** What kind of task an unfinished job belongs to. */
  lemma UnfinishedJobs(s: Timer)
    requires Inv(s)
    ensures forall j :: 0 <= j < |s.jobs| && s.jobs[j].stage != Done ==>
      s.jobs[j].task < |s.tasks| && (Returns(s.jobs[j].stage) <==> !s.tasks[s.jobs[j].task].kind.Period?)
  {
    hide Sound;
    hide IdsAgree;
    forall j | 0 <= j < |s.jobs| && s.jobs[j].stage != Done
      ensures s.jobs[j].task < |s.tasks| && (Returns(s.jobs[j].stage) <==> !s.tasks[s.jobs[j].task].kind.Period?)
    {
      assert StageFits(s.tasks[s.jobs[j].task], s.jobs[j].stage);
    }
  }

  /** The i-th trigger of a period task is its first one plus i periods, however late the checks
      come; a daily task keeps to its time of day. */
  lemma TriggersKeepTheBeat(c: Setting, start: nat, run: seq<Action>, t: nat, i: nat)
    requires Proper(c) && Possible(Initial(c, start), run)
    requires t < |After(Initial(c, start), run).tasks|
    requires i < |After(Initial(c, start), run).tasks[t].dispatches|
    ensures var task := After(Initial(c, start), run).tasks[t];
      !task.kind.Repeated? ==>
        task.dispatches[i] == task.first + i * if task.kind.Period? then task.kind.period else MSEC_IN_DAY
  {
    ReachableInv(c, start, run);
    assert Sound(After(Initial(c, start), run).tasks[t]);
  }

  /** A task added with n > 0 cycles is dispatched at most n times. Unless the user removes it, it is
      neither queued nor on its way back there only after exactly n dispatches, and is then in
      neither map; with n <= 0 it always is. */
  lemma CyclesAreExact(c: Setting, start: nat, run: seq<Action>, t: nat)
    requires Proper(c) && Possible(Initial(c, start), run)
    requires t < |After(Initial(c, start), run).tasks|
    ensures var s := After(Initial(c, start), run);
      var task := s.tasks[t];
      && (task.cycles > 0 ==> |task.dispatches| <= task.cycles)
      && (task.cycles > 0 && |task.dispatches| == task.cycles ==> t !in s.priorityQueue)
      && (!task.cancelled && t !in s.priorityQueue && !Returning(s, t) ==>
            task.cycles > 0 && |task.dispatches| == task.cycles
            && t !in s.taskMap && forall id :: id in s.taskIdMap ==> s.taskIdMap[id] != t)
  {
    ReachableInv(c, start, run);
    var s := After(Initial(c, start), run);
    assert Sound(s.tasks[t]) && Kept(s, t);
    assert t in s.priorityQueue ==> Ready(s.tasks[t]);
  }

  lemma {:induction false} TopExists(s: Timer, n: nat) returns (top: nat)
    requires 0 < n <= |s.priorityQueue|
    requires forall i :: 0 <= i < |s.priorityQueue| ==> s.priorityQueue[i] < |s.tasks|
    ensures top < n
    ensures forall i :: 0 <= i < n ==>
      s.tasks[s.priorityQueue[top]].triggered <= s.tasks[s.priorityQueue[i]].triggered
  {
    if n == 1 {
      top := 0;
    } else {
      top := TopExists(s, n - 1);
      if s.tasks[s.priorityQueue[n - 1]].triggered < s.tasks[s.priorityQueue[top]].triggered {
        top := n - 1;
      }
    }
  }

  /** Only the task a round takes off the queue gets a new trigger: the keys of the others stay. */
  lemma KeysAreFrozenInTheQueue(c: Setting, start: nat, run: seq<Action>, a: Action, t: nat)
    requires Proper(c) && Possible(Initial(c, start), run)
    requires Enabled(After(Initial(c, start), run), a)
    requires t in After(Initial(c, start), run).priorityQueue
    requires !(a.Check? && After(Initial(c, start), run).priorityQueue[a.top] == t)
    ensures var s := After(Initial(c, start), run);
      var u := Step(s, a);
      t < |s.tasks| <= |u.tasks| && t in u.priorityQueue && u.tasks[t].triggered == s.tasks[t].triggered
  {
    ReachableInv(c, start, run);
    hide Possible;
    hide After;
    var s := After(Initial(c, start), run);
    assert a.Decide? ==> s.jobs[a.job].stage != Done;
    StepKeepsKey(s, a, t);
  }

  /** What executeTask leaves alone. */
  lemma ExecutedTouches(s: Timer, t: nat, now: nat)
    requires t < |s.tasks|
    ensures var e := Executed(s, t, now);
      && |e.tasks| == |s.tasks|
      && (forall u :: 0 <= u < |s.tasks| && u != t ==> e.tasks[u] == s.tasks[u])
      && (e.priorityQueue == s.priorityQueue || e.priorityQueue == s.priorityQueue + [t])
  {
  }

  /** A round leaves the task that is not on top as it was, and queued. */
  lemma CheckPasses(s: Timer, top: nat, now: nat, t: nat)
    requires Enabled(s, Check(top, now)) && t in s.priorityQueue && t < |s.tasks| && s.priorityQueue[top] != t
    ensures var u := Checked(s, top, now);
      t in u.priorityQueue && t < |u.tasks| && u.tasks[t] == s.tasks[t] && |u.tasks| == |s.tasks|
  {
    hide Executed;
    var i :| 0 <= i < |s.priorityQueue| && s.priorityQueue[i] == t;
    assert Popped(s, top).priorityQueue[if i < top then i else i - 1] == t;
    ExecutedTouches(Popped(s, top), s.priorityQueue[top], now);
  }

  lemma StepKeepsKey(s: Timer, a: Action, t: nat)
    requires Enabled(s, a) && t in s.priorityQueue && t < |s.tasks| && !(a.Check? && s.priorityQueue[a.top] == t)
    requires a.Decide? ==> s.jobs[a.job].task != t
    ensures var u := Step(s, a);
      t < |s.tasks| <= |u.tasks| && t in u.priorityQueue && u.tasks[t].triggered == s.tasks[t].triggered
  {
    hide Executed;
    match a {
      case Add(kind, cycles, right, now) =>
        ExecutedTouches(Registered(s, NewTask(kind, cycles, right, now)), |s.tasks|, now);
      case Check(top, now) =>
        CheckPasses(s, top, now, t);
        hide Checked;
      case _ =>
    }
  }

  lemma StepKeepsRemoved(s: Timer, a: Action, t: nat)
    requires Enabled(s, a) && t < |s.tasks| && s.tasks[t].removed
    ensures var u := Step(s, a);
      t < |u.tasks| && u.tasks[t].removed && u.tasks[t].dispatches == s.tasks[t].dispatches
  {
    hide Executed;
    match a {
      case Add(kind, cycles, right, now) =>
        ExecutedTouches(Registered(s, NewTask(kind, cycles, right, now)), |s.tasks|, now);
      case Cancel(_) =>
      case Rest(_) =>
      case Check(top, now) =>
        ExecutedTouches(Popped(s, top), s.priorityQueue[top], now);
      case Decide(_, _) =>
      case Commit(_) =>
      case Finish(_) =>
    }
  }

  lemma {:induction false} RemovedIsFinal(s: Timer, run: seq<Action>, t: nat)
    requires Possible(s, run) && t < |s.tasks| && s.tasks[t].removed
    ensures var u := After(s, run);
      t < |u.tasks| && u.tasks[t].removed && u.tasks[t].dispatches == s.tasks[t].dispatches
    decreases |run|
  {
    hide Step;
    hide Enabled;
    if run != [] {
      RemovedIsFinal(s, run[..|run| - 1], t);
      StepKeepsRemoved(After(s, run[..|run| - 1]), run[|run| - 1], t);
    }
  }

  /** After removeTask(id) has returned, no run of the timer dispatches the task again. */
  lemma RemovedTaskIsNotDispatched(c: Setting, start: nat, before: seq<Action>, id: nat, after: seq<Action>)
    requires Proper(c) && Possible(Initial(c, start), before)
    requires id in After(Initial(c, start), before).taskIdMap
    requires Enabled(After(Initial(c, start), before), Cancel(id))
    requires Possible(Step(After(Initial(c, start), before), Cancel(id)), after)
    ensures var s := After(Initial(c, start), before);
      var t := s.taskIdMap[id];
      var u := After(Step(s, Cancel(id)), after);
      t < |s.tasks| && t < |u.tasks| && u.tasks[t].dispatches == s.tasks[t].dispatches
  {
    ReachableInv(c, start, before);
    var s := After(Initial(c, start), before);
    hide Possible;
    hide After;
    assert s.taskMap[s.taskIdMap[id]] == id;
    RemovedIsFinal(Step(s, Cancel(id)), after, s.taskIdMap[id]);
  }
}
