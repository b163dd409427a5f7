/** TaskThreadPool.cpp as a protocol: one step is one critical section, one wake-up, or one run
  of a task, and steps of different threads interleave freely. */
module PoolProtocol {
  import opened Bounds
  import opened Counting

  datatype Task = Absent | Job(id: nat)

  /** The parameters of init. */
  datatype Config = Config(initCount: int, appendCount: int, perfectCount: int, maxCount: int,
                           maxQueueLength: nat, tempThreadLatencySeconds: int)

  datatype Kind = Normal | Temporary

  /** Where a worker stands: about to lock, in the wait, woken but not yet holding the lock,
      about to run a task it took, behind the run, or gone. */
  datatype Place = Start | Waiting | Woken | Running(id: nat) | Ran | Exited

  datatype Worker = Worker(kind: Kind, place: Place, restLatency: int)

  /** How far release has come: not called, joining the normal threads, waiting for the
      temporary ones, returned. */
  datatype Phase = Open | Joining | Draining | Returned

  datatype Pool = Pool(
    cfg: Config,
    normalThreadCount: int,
    tempThreadCount: int,
    busyThreadCount: int,
    taskQueue: seq<Task>,
    workers: seq<Worker>,
    inited: bool,
    willExit: bool,
    phase: Phase,
    accepted: multiset<nat>,
    executed: multiset<nat>)

  datatype Action =
    | Submit(task: Task, notified: nat)
    | Lock(worker: nat, elapsed: nat)
    | Wake(worker: nat)
    | Run(worker: nat)
    | Finish(worker: nat)
    | Release
    | Join
    | Drain

  // ---------- the steps ----------

  /** ReviseDataRelation. */
  function Revised(c: Config): (r: Config)
    ensures r.perfectCount >= r.initCount
    ensures r.maxCount > 0 ==> r.perfectCount <= r.maxCount
  {
    var maxCount := if c.maxCount > 0 && c.maxCount < c.initCount then c.initCount else c.maxCount;
    var capped := if c.maxCount > 0 && c.perfectCount > maxCount then maxCount else c.perfectCount;
    var perfectCount := if capped < c.initCount then c.initCount else capped;
    c.(maxCount := maxCount, perfectCount := perfectCount)
  }

  const FRESH_NORMAL: Worker := Worker(Normal, Start, 0)

  /** The list with n more normal threads. */
  function Spawned(ws: seq<Worker>, n: nat): (r: seq<Worker>)
    ensures |r| == |ws| + n
  {
    if n == 0 then ws else Spawned(ws, n - 1) + [FRESH_NORMAL]
  }

  lemma {:induction false} SpawnedAt(ws: seq<Worker>, n: nat, i: nat)
    requires i < |ws| + n
    ensures Spawned(ws, n)[i] == if i < |ws| then ws[i] else FRESH_NORMAL
  {
    if n > 0 && i < |ws| + n - 1 {
      SpawnedAt(ws, n - 1, i);
    }
  }

  /** The pool as init leaves it. */
  function Initial(c: Config): Pool {
    var cfg := Revised(c);
    var n := if cfg.initCount > 0 then cfg.initCount else 0;
    Pool(cfg, n, 0, 0, [], Spawned([], n), true, false, Open, multiset{}, multiset{})
  }

  /** append: one temporary thread beyond the perfect count, or normal threads up to it. */
  function Appended(s: Pool): Pool {
    if s.cfg.appendCount == 0 then s
    else if s.normalThreadCount >= s.cfg.perfectCount then
      if s.cfg.maxCount > 0 && s.tempThreadCount + s.normalThreadCount >= s.cfg.maxCount then s
      else s.(workers := s.workers + [Worker(Temporary, Start, s.cfg.tempThreadLatencySeconds)],
              tempThreadCount := s.tempThreadCount + 1)
    else
      var diff := s.cfg.perfectCount - s.normalThreadCount;
      var n := if diff >= s.cfg.appendCount then s.cfg.appendCount else diff;
      if n <= 0 then s
      else s.(workers := Spawned(s.workers, n), normalThreadCount := s.normalThreadCount + n)
  }

  predicate Refuses(s: Pool) {
    !s.inited || s.willExit || (s.cfg.maxQueueLength > 0 && s.cfg.maxQueueLength <= |s.taskQueue|)
  }

  predicate Sleeps(ws: seq<Worker>, i: nat) {
    i < |ws| && ws[i].place == Waiting
  }

  /** notify_one: the chosen waiter if it waits. */
  function Notified(ws: seq<Worker>, i: nat): seq<Worker> {
    if Sleeps(ws, i) then ws[i := ws[i].(place := Woken)] else ws
  }

  function NotifiedAll(ws: seq<Worker>): (r: seq<Worker>)
    ensures |r| == |ws|
    ensures forall i :: 0 <= i < |ws| ==> r[i] == if ws[i].place == Waiting then ws[i].(place := Woken) else ws[i]
  {
    seq(|ws|, i requires 0 <= i < |ws| => if ws[i].place == Waiting then ws[i].(place := Woken) else ws[i])
  }

  function JobsOf(t: Task): multiset<nat> {
    if t.Job? then multiset{t.id} else multiset{}
  }

  /** wakeUp. */
  function Submitted(s: Pool, task: Task, notified: nat): Pool {
    if Refuses(s) then s
    else
      var pushed := s.(taskQueue := s.taskQueue + [task], accepted := s.accepted + JobsOf(task));
      var grown :=
        if s.busyThreadCount + |pushed.taskQueue| > s.normalThreadCount + s.tempThreadCount
        then Appended(pushed) else pushed;
      grown.(workers := Notified(grown.workers, notified))
  }

  /** The critical section at the top of process and temporaryProcess. */
  function Locked(s: Pool, i: nat, elapsed: nat): Pool
    requires i < |s.workers|
  {
    var w := s.workers[i];
    var rest := if w.kind == Temporary && w.place == Woken then w.restLatency - elapsed else w.restLatency;
    if s.taskQueue == [] then
      if w.kind == Normal then
        if s.willExit
        then s.(workers := s.workers[i := w.(place := Exited)], normalThreadCount := s.normalThreadCount - 1)
        else s.(workers := s.workers[i := w.(place := Waiting)])
      else if rest <= 0 || s.willExit
      then s.(workers := s.workers[i := w.(place := Exited)], tempThreadCount := s.tempThreadCount - 1)
      else s.(workers := s.workers[i := w.(place := Waiting, restLatency := rest)])
    else
      var task := s.taskQueue[0];
      var popped := s.(taskQueue := s.taskQueue[1..]);
      var awake := w.(restLatency := if w.kind == Temporary then s.cfg.tempThreadLatencySeconds else rest);
      if task.Absent? then popped.(workers := s.workers[i := awake.(place := Start)])
      else popped.(workers := s.workers[i := awake.(place := Running(task.id))],
                   busyThreadCount := s.busyThreadCount + 1)
  }

  predicate HasWorker(s: Pool, i: nat, place: Place) {
    i < |s.workers| && s.workers[i].place == place
  }

  predicate Enabled(s: Pool, a: Action) {
    match a
    case Submit(_, i) => (forall k :: 0 <= k < |s.workers| && Sleeps(s.workers, k) ==> Sleeps(s.workers, i))
    case Lock(i, _) => HasWorker(s, i, Start) || HasWorker(s, i, Woken)
    case Wake(i) => HasWorker(s, i, Waiting)
    case Run(i) => i < |s.workers| && s.workers[i].place.Running?
    case Finish(i) => HasWorker(s, i, Ran)
    case Release => s.phase == Open
    case Join => s.phase == Joining
                 && forall i :: 0 <= i < |s.workers| && s.workers[i].kind == Normal ==> s.workers[i].place == Exited
    case Drain => s.phase == Draining && s.tempThreadCount == 0
  }

  function Step(s: Pool, a: Action): Pool
    requires Enabled(s, a)
  {
    match a
    case Submit(task, i) => Submitted(s, task, i)
    case Lock(i, elapsed) => Locked(s, i, elapsed)
    case Wake(i) => s.(workers := Notified(s.workers, i))
    case Run(i) =>
      var w := s.workers[i];
      s.(workers := s.workers[i := w.(place := Ran)], executed := s.executed + multiset{w.place.id})
    case Finish(i) =>
      s.(workers := s.workers[i := s.workers[i].(place := Start)], busyThreadCount := s.busyThreadCount - 1)
    case Release => s.(willExit := true, phase := Joining, workers := NotifiedAll(s.workers))
    case Join => s.(phase := Draining)
    case Drain => s.(phase := Returned, inited := false)
  }

  /** A run from init: the actions are taken one after the other, each when it is enabled. */
  predicate Possible(c: Config, run: seq<Action>)
    decreases |run|, 0
  {
    run == []
    || (Possible(c, run[..|run| - 1]) && Enabled(After(c, run[..|run| - 1]), run[|run| - 1]))
  }

  function After(c: Config, run: seq<Action>): Pool
    requires Possible(c, run)
    decreases |run|, 1
  {
    if run == [] then Initial(c) else Step(After(c, run[..|run| - 1]), run[|run| - 1])
  }

  // ---------- counting workers ----------

  function LiveNormal(w: Worker): int { if w.kind == Normal && w.place != Exited then 1 else 0 }

  function LiveTemporary(w: Worker): int { if w.kind == Temporary && w.place != Exited then 1 else 0 }

  function Busy(w: Worker): int { if w.place.Running? || w.place == Ran then 1 else 0 }

  function Asleep(w: Worker): int { if w.place == Waiting then 1 else 0 }

  lemma {:induction false} SumSpawned(ws: seq<Worker>, n: nat, f: Worker -> int)
    ensures f(FRESH_NORMAL) == 0 ==> Sum(Spawned(ws, n), f) == Sum(ws, f)
    ensures f(FRESH_NORMAL) == 1 ==> Sum(Spawned(ws, n), f) == Sum(ws, f) + n
  {
    hide Sum;
    if n > 0 {
      SumSpawned(ws, n - 1, f);
      SumAppend(Spawned(ws, n - 1), FRESH_NORMAL, f);
    }
  }

  lemma {:induction false} SumOfLive(ws: seq<Worker>)
    ensures 0 <= Sum(ws, Busy) + Sum(ws, Asleep) <= Sum(ws, LiveNormal) + Sum(ws, LiveTemporary)
    ensures Sum(ws, Busy) >= 0 && Sum(ws, Asleep) >= 0 && Sum(ws, LiveNormal) >= 0 && Sum(ws, LiveTemporary) >= 0
  {
    if ws != [] {
      SumOfLive(ws[..|ws| - 1]);
    }
  }

  lemma {:induction false} SumNotifiedAll(ws: seq<Worker>, f: Worker -> int)
    requires forall w: Worker :: w.place == Waiting ==> f(w.(place := Woken)) == f(w)
    ensures Sum(NotifiedAll(ws), f) == Sum(ws, f)
    ensures Sum(NotifiedAll(ws), Asleep) == 0
  {
    if ws != [] {
      var last := |ws| - 1;
      SumNotifiedAll(ws[..last], f);
      assert NotifiedAll(ws)[..last] == NotifiedAll(ws[..last]);
    }
  }

  // ---------- where the tasks are ----------

  /** Whether a worker is about to run the task. */
  function Holds(id: nat): Worker -> int {
    (w: Worker) => if w.place == Running(id) then 1 else 0
  }

  function Queued(q: seq<Task>, id: nat): nat {
    if q == [] then 0 else (if q[0] == Job(id) then 1 else 0) + Queued(q[1..], id)
  }

  lemma {:induction false} QueuedPush(q: seq<Task>, t: Task, id: nat)
    ensures Queued(q + [t], id) == Queued(q, id) + if t == Job(id) then 1 else 0
  {
    if q == [] {
      assert (q + [t])[1..] == [];
    } else {
      QueuedPush(q[1..], t, id);
      assert (q + [t])[1..] == q[1..] + [t];
    }
  }

  // ---------- the invariant ----------

  /** Whether every accepted task is certain to be run: some thread is there from the start,
      or append can create one when there is none. */
  predicate Serviceable(c: Config) {
    c.initCount > 0 || c.appendCount > 0 || (c.appendCount < 0 && Revised(c).perfectCount <= 0)
  }

  /** The counters count the workers. */
  ghost predicate Counted(s: Pool) {
    && s.normalThreadCount == Sum(s.workers, LiveNormal)
    && s.tempThreadCount == Sum(s.workers, LiveTemporary)
    && s.busyThreadCount == Sum(s.workers, Busy)
  }

  /** The limits, with what they rest on while the pool is open. */
  ghost predicate Limited(s: Pool) {
    && s.cfg.perfectCount >= s.cfg.initCount
    && (s.cfg.maxCount > 0 ==> s.cfg.perfectCount <= s.cfg.maxCount)
    && s.normalThreadCount <= Max(s.cfg.perfectCount, 0)
    && (s.cfg.maxCount > 0 ==> s.normalThreadCount + s.tempThreadCount <= s.cfg.maxCount)
    && (!s.willExit ==> s.normalThreadCount >= s.cfg.initCount)
    && (!s.willExit && s.tempThreadCount > 0 ==> s.normalThreadCount >= s.cfg.perfectCount)
  }

  ghost predicate Phased(s: Pool) {
    && (s.willExit <==> s.phase != Open)
    && (s.inited <==> s.phase != Returned)
    && (s.willExit ==> Sum(s.workers, Asleep) == 0)
    && (s.phase == Draining || s.phase == Returned ==> s.normalThreadCount == 0)
    && (s.phase == Returned ==> s.tempThreadCount == 0)
  }

  /** Every accepted task is queued, held or executed. */
  ghost predicate Conserved(s: Pool) {
    forall id: nat :: s.accepted[id] == s.executed[id] + Queued(s.taskQueue, id) + Sum(s.workers, Holds(id))
  }

  /** While tasks are queued, fewer workers sleep than live. */
  ghost predicate Attended(s: Pool) {
    s.taskQueue != [] ==> Sum(s.workers, Asleep) < s.normalThreadCount + s.tempThreadCount
  }

  ghost predicate Inv(s: Pool, c: Config) {
    && s.cfg == Revised(c)
    && Counted(s) && Limited(s) && Phased(s) && Conserved(s)
    && (Serviceable(c) ==> Attended(s))
  }

  // ---------- every step keeps the invariant ----------

  lemma InitialInv(c: Config)
    ensures Inv(Initial(c), c)
  {
    var s := Initial(c);
    var n := s.normalThreadCount;
    SumSpawned([], n, LiveNormal);
    SumSpawned([], n, LiveTemporary);
    SumSpawned([], n, Busy);
    SumSpawned([], n, Asleep);
    forall id: nat ensures s.accepted[id] == s.executed[id] + Queued(s.taskQueue, id) + Sum(s.workers, Holds(id)) {
      SumSpawned([], n, Holds(id));
    }
  }

  /** Replacing one worker changes every count by its own share. */
  lemma ReplaceWorker(ws: seq<Worker>, i: nat, w: Worker)
    requires i < |ws|
    ensures var r := ws[i := w];
      && Sum(r, LiveNormal) == Sum(ws, LiveNormal) - LiveNormal(ws[i]) + LiveNormal(w)
      && Sum(r, LiveTemporary) == Sum(ws, LiveTemporary) - LiveTemporary(ws[i]) + LiveTemporary(w)
      && Sum(r, Busy) == Sum(ws, Busy) - Busy(ws[i]) + Busy(w)
      && Sum(r, Asleep) == Sum(ws, Asleep) - Asleep(ws[i]) + Asleep(w)
      && forall id: nat :: Sum(r, Holds(id)) == Sum(ws, Holds(id)) - Holds(id)(ws[i]) + Holds(id)(w)
  {
    SumUpdate(ws, i, w, LiveNormal);
    SumUpdate(ws, i, w, LiveTemporary);
    SumUpdate(ws, i, w, Busy);
    SumUpdate(ws, i, w, Asleep);
    forall id: nat ensures Sum(ws[i := w], Holds(id)) == Sum(ws, Holds(id)) - Holds(id)(ws[i]) + Holds(id)(w) {
      SumUpdate(ws, i, w, Holds(id));
    }
  }

  lemma QueuedPop(q: seq<Task>)
    requires q != []
    ensures forall id: nat :: Queued(q, id) == (if q[0] == Job(id) then 1 else 0) + Queued(q[1..], id)
  {
  }

  /** A worker that finds the queue empty waits or leaves. */
  lemma IdleKeepsInv(s: Pool, c: Config, i: nat, elapsed: nat)
    requires Inv(s, c) && Enabled(s, Lock(i, elapsed)) && s.taskQueue == []
    ensures Inv(Locked(s, i, elapsed), c)
  {
    hide Conserved;
    hide Counted;
    hide Sum;
    hide Serviceable;
    hide Revised;
    IdleConserves(s, i, elapsed);
    IdleCounts(s, i, elapsed);
  }

  lemma IdleConserves(s: Pool, i: nat, elapsed: nat)
    requires Conserved(s) && Enabled(s, Lock(i, elapsed)) && s.taskQueue == []
    ensures Conserved(Locked(s, i, elapsed))
  {
    hide Sum;
    hide Queued;
    var t := Locked(s, i, elapsed);
    assert t.workers == s.workers[i := t.workers[i]];
    forall id: nat ensures t.accepted[id] == t.executed[id] + Queued(t.taskQueue, id) + Sum(t.workers, Holds(id)) {
      SumUpdate(s.workers, i, t.workers[i], Holds(id));
      assert s.accepted[id] == s.executed[id] + Queued(s.taskQueue, id) + Sum(s.workers, Holds(id));
    }
  }

  /** Only the worker itself is counted anew: it leaves, or it is asleep now. */
  lemma IdleCounts(s: Pool, i: nat, elapsed: nat)
    requires Counted(s) && Enabled(s, Lock(i, elapsed)) && s.taskQueue == []
    ensures var t := Locked(s, i, elapsed);
      && Counted(t) && t.normalThreadCount >= 0 && t.tempThreadCount >= 0
      && if s.willExit || t.workers[i].place == Exited then Sum(t.workers, Asleep) == Sum(s.workers, Asleep)
         else Sum(t.workers, Asleep) == Sum(s.workers, Asleep) + 1
  {
    hide Sum;
    var t := Locked(s, i, elapsed);
    assert t.workers == s.workers[i := t.workers[i]];
    ReplaceWorker(s.workers, i, t.workers[i]);
    SumOfLive(t.workers);
  }

  /** A worker that finds a task takes it. */
  lemma TakeKeepsInv(s: Pool, c: Config, i: nat, elapsed: nat)
    requires Inv(s, c) && Enabled(s, Lock(i, elapsed)) && s.taskQueue != []
    ensures Inv(Locked(s, i, elapsed), c)
  {
    hide Sum;
    hide Queued;
    hide Serviceable;
    hide Revised;
    hide Conserved;
    TakeConserves(s, i, elapsed);
    var t := Locked(s, i, elapsed);
    assert t.workers == s.workers[i := t.workers[i]];
    ReplaceWorker(s.workers, i, t.workers[i]);
  }

  lemma TakeConserves(s: Pool, i: nat, elapsed: nat)
    requires Conserved(s) && Enabled(s, Lock(i, elapsed)) && s.taskQueue != []
    ensures Conserved(Locked(s, i, elapsed))
  {
    hide Sum;
    hide Queued;
    var t := Locked(s, i, elapsed);
    assert t.workers == s.workers[i := t.workers[i]];
    QueuedPop(s.taskQueue);
    forall id: nat ensures t.accepted[id] == t.executed[id] + Queued(t.taskQueue, id) + Sum(t.workers, Holds(id)) {
      SumUpdate(s.workers, i, t.workers[i], Holds(id));
      assert s.accepted[id] == s.executed[id] + Queued(s.taskQueue, id) + Sum(s.workers, Holds(id));
    }
  }

  lemma WorkerKeepsInv(s: Pool, c: Config, a: Action)
    requires Inv(s, c) && Enabled(s, a) && (a.Wake? || a.Run? || a.Finish?)
    ensures Inv(Step(s, a), c)
  {
    hide Sum;
    hide Queued;
    hide Serviceable;
    hide Revised;
    hide Conserved;
    var t := Step(s, a);
    WorkerConserves(s, a);
    assert t.workers == s.workers[a.worker := t.workers[a.worker]];
    ReplaceWorker(s.workers, a.worker, t.workers[a.worker]);
    SumOfLive(t.workers);
  }

  lemma WorkerConserves(s: Pool, a: Action)
    requires Conserved(s) && Enabled(s, a) && (a.Wake? || a.Run? || a.Finish?)
    ensures Conserved(Step(s, a))
  {
    hide Sum;
    hide Queued;
    var t := Step(s, a);
    assert t.workers == s.workers[a.worker := t.workers[a.worker]];
    forall id: nat ensures t.accepted[id] == t.executed[id] + Queued(t.taskQueue, id) + Sum(t.workers, Holds(id)) {
      SumUpdate(s.workers, a.worker, t.workers[a.worker], Holds(id));
      assert s.accepted[id] == s.executed[id] + Queued(s.taskQueue, id) + Sum(s.workers, Holds(id));
    }
  }

  lemma ReleaseKeepsInv(s: Pool, c: Config)
    requires Inv(s, c) && Enabled(s, Release)
    ensures Inv(Step(s, Release), c)
  {
    SumNotifiedAll(s.workers, LiveNormal);
    SumNotifiedAll(s.workers, LiveTemporary);
    SumNotifiedAll(s.workers, Busy);
    SumOfLive(s.workers);
    var t := Step(s, Release);
    forall id: nat ensures t.accepted[id] == t.executed[id] + Queued(t.taskQueue, id) + Sum(t.workers, Holds(id)) {
      SumNotifiedAll(s.workers, Holds(id));
    }
  }

  lemma JoinKeepsInv(s: Pool, c: Config)
    requires Inv(s, c) && Enabled(s, Join)
    ensures Inv(Step(s, Join), c)
  {
    SumIsPositive(s.workers, LiveNormal);
  }

  /** Adding a worker that is about to lock. */
  lemma AddWorker(ws: seq<Worker>, w: Worker)
    requires w.place == Start
    ensures var r := ws + [w];
      && Sum(r, LiveNormal) == Sum(ws, LiveNormal) + LiveNormal(w)
      && Sum(r, LiveTemporary) == Sum(ws, LiveTemporary) + LiveTemporary(w)
      && Sum(r, Busy) == Sum(ws, Busy) && Sum(r, Asleep) == Sum(ws, Asleep)
      && forall id: nat :: Sum(r, Holds(id)) == Sum(ws, Holds(id))
  {
    SumAppend(ws, w, LiveNormal);
    SumAppend(ws, w, LiveTemporary);
    SumAppend(ws, w, Busy);
    SumAppend(ws, w, Asleep);
    forall id: nat ensures Sum(ws + [w], Holds(id)) == Sum(ws, Holds(id)) {
      SumAppend(ws, w, Holds(id));
    }
  }

  lemma AddNormalWorkers(ws: seq<Worker>, n: nat)
    ensures var r := Spawned(ws, n);
      && Sum(r, LiveNormal) == Sum(ws, LiveNormal) + n && Sum(r, LiveTemporary) == Sum(ws, LiveTemporary)
      && Sum(r, Busy) == Sum(ws, Busy) && Sum(r, Asleep) == Sum(ws, Asleep)
      && forall id: nat :: Sum(r, Holds(id)) == Sum(ws, Holds(id))
  {
    SumSpawned(ws, n, LiveNormal);
    SumSpawned(ws, n, LiveTemporary);
    SumSpawned(ws, n, Busy);
    SumSpawned(ws, n, Asleep);
    forall id: nat ensures Sum(Spawned(ws, n), Holds(id)) == Sum(ws, Holds(id)) {
      SumSpawned(ws, n, Holds(id));
    }
  }

  /** What append does to the counts. */
  lemma AppendCounts(s: Pool)
    requires Counted(s)
    ensures var t := Appended(s);
      && Counted(t) && Sum(t.workers, Asleep) == Sum(s.workers, Asleep)
      && forall id: nat :: Sum(t.workers, Holds(id)) == Sum(s.workers, Holds(id))
  {
    hide Sum;
    hide Spawned;
    var t := Appended(s);
    if t.tempThreadCount > s.tempThreadCount {
      AddWorker(s.workers, Worker(Temporary, Start, s.cfg.tempThreadLatencySeconds));
    } else if t.normalThreadCount > s.normalThreadCount {
      AddNormalWorkers(s.workers, t.normalThreadCount - s.normalThreadCount);
    }
  }

  /** A push with its append: the limits hold, and when tasks can be served somebody lives. */
  lemma PushAndGrow(s: Pool, c: Config, task: Task) returns (grown: Pool)
    requires Inv(s, c) && !Refuses(s)
    ensures var pushed := s.(taskQueue := s.taskQueue + [task], accepted := s.accepted + JobsOf(task));
      grown == if s.busyThreadCount + |pushed.taskQueue| > s.normalThreadCount + s.tempThreadCount
               then Appended(pushed) else pushed
    ensures Counted(grown) && Limited(grown) && Conserved(grown) && Phased(grown)
    ensures Serviceable(c) ==> grown.normalThreadCount + grown.tempThreadCount > 0
    ensures grown.cfg == s.cfg && grown.taskQueue != [] && !grown.willExit
  {
    var pushed := s.(taskQueue := s.taskQueue + [task], accepted := s.accepted + JobsOf(task));
    var grows := s.busyThreadCount + |pushed.taskQueue| > s.normalThreadCount + s.tempThreadCount;
    grown := if grows then Appended(pushed) else pushed;
    hide Sum;
    hide Spawned;
    hide Queued;
    AppendCounts(pushed);
    SumOfLive(s.workers);
    forall id: nat
      ensures grown.accepted[id] == grown.executed[id] + Queued(grown.taskQueue, id) + Sum(grown.workers, Holds(id))
    {
      QueuedPush(s.taskQueue, task, id);
    }
  }

  /** notify_one keeps the counts and leaves somebody awake. */
  lemma NotifyKeepsInv(s: Pool, c: Config, i: nat)
    requires s.cfg == Revised(c) && Counted(s) && Limited(s) && Conserved(s) && Phased(s) && !s.willExit
    requires Serviceable(c) ==> s.normalThreadCount + s.tempThreadCount > 0
    requires forall k :: 0 <= k < |s.workers| && Sleeps(s.workers, k) ==> Sleeps(s.workers, i)
    ensures Inv(s.(workers := Notified(s.workers, i)), c)
  {
    hide Sum;
    hide Queued;
    hide Serviceable;
    hide Revised;
    SumOfLive(s.workers);
    var t := s.(workers := Notified(s.workers, i));
    if Sleeps(s.workers, i) {
      ReplaceWorker(s.workers, i, t.workers[i]);
      forall id: nat ensures t.accepted[id] == t.executed[id] + Queued(t.taskQueue, id) + Sum(t.workers, Holds(id)) {
        assert s.accepted[id] == s.executed[id] + Queued(s.taskQueue, id) + Sum(s.workers, Holds(id));
      }
    } else {
      forall k | 0 <= k < |s.workers| ensures Asleep(s.workers[k]) == 0 {
        assert !Sleeps(s.workers, k);
      }
      SumIsPositive(s.workers, Asleep);
      assert t == s;
    }
  }

  /** A new thread does not sleep. */
  lemma AppendedSleeps(s: Pool, k: nat)
    ensures Sleeps(Appended(s).workers, k) <==> Sleeps(s.workers, k)
  {
    var n := Appended(s).normalThreadCount - s.normalThreadCount;
    if n > 0 && k < |s.workers| + n {
      SpawnedAt(s.workers, n, k);
    }
  }

  lemma SubmitKeepsInv(s: Pool, c: Config, task: Task, i: nat)
    requires Inv(s, c) && Enabled(s, Submit(task, i))
    ensures Inv(Step(s, Submit(task, i)), c)
  {
    if !Refuses(s) {
      hide Sum;
      hide Queued;
      hide Serviceable;
      hide Revised;
      hide Counted;
      hide Limited;
      hide Conserved;
      hide Phased;
      var grown := PushAndGrow(s, c, task);
      forall k | 0 <= k < |grown.workers| && Sleeps(grown.workers, k) ensures Sleeps(grown.workers, i) {
        AppendedSleeps(s.(taskQueue := grown.taskQueue, accepted := grown.accepted), k);
        assert Sleeps(s.workers, k);
        AppendedSleeps(s.(taskQueue := grown.taskQueue, accepted := grown.accepted), i);
      }
      NotifyKeepsInv(grown, c, i);
    }
  }

  lemma StepKeepsInv(s: Pool, c: Config, a: Action)
    requires Inv(s, c) && Enabled(s, a)
    ensures Inv(Step(s, a), c)
  {
    if !a.Drain? {
      hide Inv;
    }
    match a {
      case Submit(task, i) => SubmitKeepsInv(s, c, task, i);
      case Lock(i, elapsed) =>
        if s.taskQueue == [] {
          IdleKeepsInv(s, c, i, elapsed);
        } else {
          TakeKeepsInv(s, c, i, elapsed);
        }
      case Wake(_) => WorkerKeepsInv(s, c, a);
      case Run(_) => WorkerKeepsInv(s, c, a);
      case Finish(_) => WorkerKeepsInv(s, c, a);
      case Release => ReleaseKeepsInv(s, c);
      case Join => JoinKeepsInv(s, c);
      case Drain => DrainKeepsInv(s, c);
    }
  }

  lemma DrainKeepsInv(s: Pool, c: Config)
    requires Inv(s, c) && Enabled(s, Drain)
    ensures Inv(Step(s, Drain), c)
  {
    hide Sum;
  }

  lemma {:induction false} RunKeepsInv(c: Config, run: seq<Action>)
    requires Possible(c, run)
    ensures Inv(After(c, run), c)
    decreases |run|
  {
    hide Inv;
    hide Step;
    hide Enabled;
    if run == [] {
      InitialInv(c);
    } else {
      RunKeepsInv(c, run[..|run| - 1]);
      StepKeepsInv(After(c, run[..|run| - 1]), c, run[|run| - 1]);
    }
  }

  // ---------- what holds in every run ----------

  /** The counters count workers and stay inside the settings. */
  ghost predicate Bounded(s: Pool, c: Config) {
    && 0 <= s.normalThreadCount <= Max(Revised(c).perfectCount, 0)
    && 0 <= s.tempThreadCount
    && 0 <= s.busyThreadCount <= s.normalThreadCount + s.tempThreadCount
    && (c.maxCount > 0 ==> s.normalThreadCount + s.tempThreadCount <= Revised(c).maxCount)
  }

  lemma InvBounds(s: Pool, c: Config)
    requires Inv(s, c)
    ensures Bounded(s, c)
  {
    SumOfLive(s.workers);
  }

  /** The counters are what they are called and stay inside their limits. */
  lemma CountersAreBounded(c: Config, run: seq<Action>)
    requires Possible(c, run)
    ensures Counted(After(c, run)) && Bounded(After(c, run), c)
  {
    hide Possible;
    hide After;
    hide Counted;
    RunKeepsInv(c, run);
    InvBounds(After(c, run), c);
  }

  predicate IsAwake(w: Worker) {
    w.place != Exited && w.place != Waiting
  }

  ghost predicate SomebodyIsAwake(ws: seq<Worker>) {
    exists i :: 0 <= i < |ws| && IsAwake(ws[i])
  }

  lemma {:induction false} AwakeWorker(ws: seq<Worker>) returns (i: nat)
    requires Sum(ws, Asleep) < Sum(ws, LiveNormal) + Sum(ws, LiveTemporary)
    ensures i < |ws| && IsAwake(ws[i])
  {
    var last := |ws| - 1;
    if IsAwake(ws[last]) {
      i := last;
    } else {
      i := AwakeWorker(ws[..last]);
    }
  }

  lemma InvAttends(s: Pool, c: Config)
    requires Inv(s, c) && Serviceable(c) && s.taskQueue != []
    ensures SomebodyIsAwake(s.workers)
  {
    var i := AwakeWorker(s.workers);
  }

  /** No wake-up is lost: while a task is queued, some live worker is not asleep. */
  lemma QueuedTasksAreAttended(c: Config, run: seq<Action>)
    requires Possible(c, run) && Serviceable(c) && After(c, run).taskQueue != []
    ensures SomebodyIsAwake(After(c, run).workers)
  {
    hide *;
    RunKeepsInv(c, run);
    InvAttends(After(c, run), c);
  }

  /** The tasks a run has submitted and seen accepted. */
  function Acceptances(c: Config, run: seq<Action>, id: nat): nat
    requires Possible(c, run)
    decreases |run|
  {
    if run == [] then 0
    else
      var before := run[..|run| - 1];
      Acceptances(c, before, id)
      + match run[|run| - 1]
        case Submit(task, _) => if task == Job(id) && !Refuses(After(c, before)) then 1 else 0
        case _ => 0
  }

  /** The times a run has run a task. */
  function Executions(c: Config, run: seq<Action>, id: nat): nat
    requires Possible(c, run)
    decreases |run|
  {
    if run == [] then 0
    else
      var before := run[..|run| - 1];
      Executions(c, before, id)
      + match run[|run| - 1]
        case Run(i) => if After(c, before).workers[i].place == Running(id) then 1 else 0
        case _ => 0
  }

  lemma StepHistory(s: Pool, a: Action, id: nat)
    requires Enabled(s, a)
    ensures Step(s, a).accepted[id] == s.accepted[id] + if a.Submit? && a.task == Job(id) && !Refuses(s) then 1 else 0
    ensures Step(s, a).executed[id]
         == s.executed[id] + if a.Run? && s.workers[a.worker].place == Running(id) then 1 else 0
  {
  }

  /** The two histories in the state record what happened. */
  lemma {:induction false} HistoriesAreTrue(c: Config, run: seq<Action>, id: nat)
    requires Possible(c, run)
    ensures After(c, run).accepted[id] == Acceptances(c, run, id)
    ensures After(c, run).executed[id] == Executions(c, run, id)
    decreases |run|
  {
    if run != [] {
      HistoriesAreTrue(c, run[..|run| - 1], id);
      StepHistory(After(c, run[..|run| - 1]), run[|run| - 1], id);
      hide Step;
      hide Initial;
    }
  }

  lemma NothingIsLeft(s: Pool, c: Config)
    requires Inv(s, c) && s.phase == Returned
    ensures forall i :: 0 <= i < |s.workers| ==> s.workers[i].place == Exited
    ensures Serviceable(c) ==> s.taskQueue == []
    ensures forall id: nat :: Sum(s.workers, Holds(id)) == 0
  {
    SumIsPositive(s.workers, LiveNormal);
    SumIsPositive(s.workers, LiveTemporary);
    SumOfLive(s.workers);
    forall i | 0 <= i < |s.workers| ensures s.workers[i].place == Exited {
      assert LiveNormal(s.workers[i]) <= 0 && LiveTemporary(s.workers[i]) <= 0;
    }
    forall id: nat ensures Sum(s.workers, Holds(id)) == 0 {
      SumIsPositive(s.workers, Holds(id));
    }
  }

  /** Nothing that was accepted is lost once release has returned. */
  lemma NothingIsLost(s: Pool, c: Config)
    requires Inv(s, c) && s.phase == Returned && Serviceable(c)
    ensures s.taskQueue == [] && s.accepted == s.executed
  {
    NothingIsLeft(s, c);
    forall id: nat ensures s.accepted[id] == s.executed[id] {
      assert s.accepted[id] == s.executed[id] + Queued(s.taskQueue, id) + Sum(s.workers, Holds(id));
    }
  }

  /** At any moment no task has been run more often than it was accepted; when release has
      returned, each has been run exactly as often, and nothing is queued. */
  lemma AcceptedTasksRunOnce(c: Config, run: seq<Action>, id: nat)
    requires Possible(c, run)
    ensures Executions(c, run, id) <= Acceptances(c, run, id)
    ensures Serviceable(c) && After(c, run).phase == Returned ==>
      After(c, run).taskQueue == [] && Executions(c, run, id) == Acceptances(c, run, id)
  {
    var s := After(c, run);
    RunKeepsInv(c, run);
    HistoriesAreTrue(c, run, id);
    assert s.accepted[id] == s.executed[id] + Queued(s.taskQueue, id) + Sum(s.workers, Holds(id));
    SumIsPositive(s.workers, Holds(id));
    if s.phase == Returned {
      NothingIsLeft(s, c);
    }
  }

  /** One more step. */
  lemma Extend(c: Config, run: seq<Action>, a: Action)
    requires Possible(c, run) && Enabled(After(c, run), a)
    ensures Possible(c, run + [a]) && After(c, run + [a]) == Step(After(c, run), a)
  {
    assert (run + [a])[..|run|] == run;
  }

  lemma LoneSubmission(c: Config) returns (s: Pool)
    requires !Serviceable(c)
    ensures s == Submitted(Initial(c), Job(0), 0) && Enabled(Initial(c), Submit(Job(0), 0))
    ensures s.workers == [] && s.accepted == multiset{0} && s.executed == multiset{} && s.phase == Open
    ensures s.tempThreadCount == 0
  {
    var start := Initial(c);
    assert start.workers == [] && !Refuses(start);
    var pushed := start.(taskQueue := [] + [Job(0)], accepted := multiset{} + multiset{0});
    assert Appended(pushed) == pushed;
    s := Submitted(start, Job(0), 0);
  }

  /** Without a thread from the start and without append, release returns over a task that was
      accepted and never run. */
  lemma UnserviceablePoolLosesTask(c: Config) returns (run: seq<Action>)
    requires !Serviceable(c)
    ensures Possible(c, run) && After(c, run).phase == Returned
    ensures Acceptances(c, run, 0) == 1 && Executions(c, run, 0) == 0
  {
    var submitted := LoneSubmission(c);
    hide Initial;
    hide Submitted;
    Extend(c, [], Submit(Job(0), 0));
    run := [] + [Submit(Job(0), 0)];
    assert After(c, run) == submitted;
    Extend(c, run, Release);
    run := run + [Release];
    Extend(c, run, Join);
    run := run + [Join];
    Extend(c, run, Drain);
    run := run + [Drain];
    HistoriesAreTrue(c, run, 0);
  }

  /** Release returns with every accepted task run, over all runs, exactly for these settings. */
  lemma EveryTaskRunsIffServiceable(c: Config)
    ensures Serviceable(c) <==>
      forall run: seq<Action>, id: nat :: Possible(c, run) && After(c, run).phase == Returned ==>
        Executions(c, run, id) == Acceptances(c, run, id)
  {
    if Serviceable(c) {
      forall run: seq<Action>, id: nat | Possible(c, run) && After(c, run).phase == Returned
        ensures Executions(c, run, id) == Acceptances(c, run, id)
      {
        AcceptedTasksRunOnce(c, run, id);
      }
    } else {
      var run := UnserviceablePoolLosesTask(c);
      assert Executions(c, run, 0) != Acceptances(c, run, 0);
    }
  }

  // ---------- release comes to an end ----------

  function Effort(w: Worker): int {
    match w.place
    case Start => 1
    case Waiting => 2
    case Woken => 1
    case Running(_) => 3
    case Ran => 2
    case Exited => 0
  }

  function PhaseEffort(p: Phase): nat {
    match p case Open => 3 case Joining => 2 case Draining => 1 case Returned => 0
  }

  /** What is left to do once the pool is closing. */
  function Measure(s: Pool): int {
    4 * |s.taskQueue| + Sum(s.workers, Effort) + PhaseEffort(s.phase)
  }

  /** Once release has begun, submissions change nothing, every other step brings the end
      nearer, and until the end some step other than a submission is possible. */
  lemma ReleaseMakesProgress(c: Config, run: seq<Action>)
    requires Possible(c, run) && After(c, run).willExit
    ensures var s := After(c, run);
      && Measure(s) >= 0
      && (forall a: Action {:trigger Step(s, a)} :: Enabled(s, a) ==>
            if a.Submit? then Step(s, a) == s else Measure(Step(s, a)) < Measure(s))
      && (s.phase != Returned ==> exists a: Action :: Enabled(s, a) && !a.Submit?)
  {
    var s := After(c, run);
    RunKeepsInv(c, run);
    SumIsPositive(s.workers, Effort);
    forall a: Action | Enabled(s, a)
      ensures if a.Submit? then Step(s, a) == s else Measure(Step(s, a)) < Measure(s)
    {
      ClosingStep(s, c, a);
    }
    if s.phase != Returned {
      var a := ClosingChoice(s, c);
    }
  }

  lemma NobodySleeps(s: Pool)
    requires Sum(s.workers, Asleep) == 0
    ensures forall i :: 0 <= i < |s.workers| ==> s.workers[i].place != Waiting
  {
    SumIsPositive(s.workers, Asleep);
    forall i | 0 <= i < |s.workers| ensures s.workers[i].place != Waiting {
      assert Asleep(s.workers[i]) <= 0;
    }
  }

  lemma ClosingStep(s: Pool, c: Config, a: Action)
    requires Inv(s, c) && s.willExit && Enabled(s, a)
    ensures if a.Submit? then Step(s, a) == s else Measure(Step(s, a)) < Measure(s)
  {
    NobodySleeps(s);
    hide Sum;
    hide Counted;
    hide Limited;
    hide Conserved;
    hide Attended;
    if a.Lock? {
      ClosingLock(s, a.worker, a.elapsed);
    } else if a.Run? || a.Finish? {
      var t := Step(s, a);
      assert t.workers == s.workers[a.worker := t.workers[a.worker]];
      SumUpdate(s.workers, a.worker, t.workers[a.worker], Effort);
    }
  }

  lemma ClosingLock(s: Pool, i: nat, elapsed: nat)
    requires s.willExit && Enabled(s, Lock(i, elapsed))
    ensures Measure(Locked(s, i, elapsed)) < Measure(s)
  {
    hide Sum;
    var t := Locked(s, i, elapsed);
    assert t.workers == s.workers[i := t.workers[i]];
    SumUpdate(s.workers, i, t.workers[i], Effort);
  }

  lemma ClosingChoice(s: Pool, c: Config) returns (a: Action)
    requires Inv(s, c) && s.willExit && s.phase != Returned
    ensures Enabled(s, a) && !a.Submit?
  {
    NobodySleeps(s);
    if i :| 0 <= i < |s.workers| && s.workers[i].place != Exited {
      match s.workers[i].place {
        case Start => a := Lock(i, 0);
        case Woken => a := Lock(i, 0);
        case Running(_) => a := Run(i);
        case Ran => a := Finish(i);
      }
    } else {
      SumIsPositive(s.workers, LiveTemporary);
      a := if s.phase == Joining then Join else Drain;
    }
  }
}
