/** The class TaskThreadPool: what each critical section does to the guarded fields. The
  methods are the steps of PoolProtocol, whose theorems therefore speak about them. */
module TaskThreadPools {
  import opened Bounds
  import opened PoolProtocol

  class TaskThreadPool {
    var cfg: Config
    var normalThreadCount: int
    var tempThreadCount: int
    var busyThreadCount: int
    var taskQueue: seq<Task>
    var workers: seq<Worker>
    var inited: bool
    var willExit: bool
    ghost var phase: Phase
    ghost var accepted: multiset<nat>
    ghost var executed: multiset<nat>

    ghost function View(): Pool
      reads this
    {
      Pool(cfg, normalThreadCount, tempThreadCount, busyThreadCount, taskQueue, workers, inited, willExit,
           phase, accepted, executed)
    }

    constructor ()
      ensures !inited && workers == [] && taskQueue == []
    {
      cfg := Config(0, 0, 0, 0, 0, 0);
      normalThreadCount, tempThreadCount, busyThreadCount := 0, 0, 0;
      taskQueue, workers, inited, willExit := [], [], false, false;
      phase, accepted, executed := Open, multiset{}, multiset{};
    }

    method ReviseDataRelation()
      modifies this`cfg
      ensures cfg == Revised(old(cfg)) && AreRevised(old(cfg), cfg)
    {
      if cfg.maxCount > 0 {
        if cfg.maxCount < cfg.initCount {
          cfg := cfg.(maxCount := cfg.initCount);
        }
        if cfg.perfectCount > cfg.maxCount {
          cfg := cfg.(perfectCount := cfg.maxCount);
        }
      }
      if cfg.perfectCount < cfg.initCount {
        cfg := cfg.(perfectCount := cfg.initCount);
      }
    }

    /** Start n normal threads. */
    method Spawn(n: int)
      modifies this`workers, this`normalThreadCount
      ensures workers == Spawned(old(workers), if n > 0 then n else 0)
      ensures normalThreadCount == old(normalThreadCount) + if n > 0 then n else 0
    {
      var i := 0;
      while i < n
        invariant 0 <= i && (i <= n || i == 0)
        invariant workers == Spawned(old(workers), i)
        invariant normalThreadCount == old(normalThreadCount) + i
      {
        workers := workers + [FRESH_NORMAL];
        normalThreadCount := normalThreadCount + 1;
        i := i + 1;
      }
    }

    method Init(c: Config)
      requires workers == [] && taskQueue == []
      modifies this
      ensures View() == if old(inited) then old(View()) else Initial(c)
      ensures !old(inited) ==> Inv(View(), c) && Bounded(View(), c)
      ensures !old(inited) ==> inited && !willExit && taskQueue == [] && AreRevised(c, cfg)
      ensures !old(inited) ==> normalThreadCount == |workers| == Max(c.initCount, 0)
      ensures !old(inited) ==> forall i :: 0 <= i < |workers| ==> workers[i].kind == Normal && workers[i].place == Start
    {
      hide Inv;
      hide Bounded;
      hide Spawned;
      hide Revised;
      InitialInv(c);
      InvBounds(Initial(c), c);
      InitialThreads(c);
      if inited {
        return;
      }
      cfg := c;
      normalThreadCount, tempThreadCount, busyThreadCount := 0, 0, 0;
      willExit := false;
      phase, accepted, executed := Open, multiset{}, multiset{};
      ReviseDataRelation();
      Spawn(cfg.initCount);
      inited := true;
    }

    method Append() returns (ok: bool)
      modifies this`workers, this`normalThreadCount, this`tempThreadCount
      ensures View() == Appended(old(View()))
      ensures !ok ==> View() == old(View())
    {
      if cfg.appendCount == 0 {
        return false;
      }
      if normalThreadCount >= cfg.perfectCount {
        if cfg.maxCount > 0 && tempThreadCount + normalThreadCount >= cfg.maxCount {
          return false;
        }
        workers := workers + [Worker(Temporary, Start, cfg.tempThreadLatencySeconds)];
        tempThreadCount := tempThreadCount + 1;
        return true;
      }
      var diff := cfg.perfectCount - normalThreadCount;
      Spawn(if diff >= cfg.appendCount then cfg.appendCount else diff);
      return true;
    }

    /** wakeUp; `notified` is the waiter that notify_one wakes, when any waits. A task is refused
        exactly when the pool is not initialised or closing, or its queue is as long as the limit
        allows. An accepted task is queued last, and when the settings let tasks be served at all
        somebody is up to take it. If there are fewer threads than tasks to run and to wait, normal
        threads join up to the perfect count, or one temporary thread beyond it. */
    method WakeUp(task: Task, notified: nat, ghost c: Config) returns (ok: bool)
      requires Inv(View(), c) && Enabled(View(), Submit(task, notified))
      modifies this
      ensures View() == Step(old(View()), Submit(task, notified))
      ensures Inv(View(), c) && Bounded(View(), c)
      ensures ok <==> inited && !willExit && (cfg.maxQueueLength == 0 || |old(taskQueue)| < cfg.maxQueueLength)
      ensures taskQueue == old(taskQueue) + if ok then [task] else []
      ensures ok ==> Grows(old(View()), View()) && Wakes(old(workers), workers, notified)
      ensures !ok ==> View() == old(View())
      ensures ok && Serviceable(c) ==> SomebodyIsAwake(workers)
    {
      hide Inv;
      hide Bounded;
      hide SomebodyIsAwake;
      hide Serviceable;
      hide Spawned;
      hide Grows;
      hide Wakes;
      WakeUpFacts(View(), c, task, notified);
      if !inited || willExit || (cfg.maxQueueLength > 0 && cfg.maxQueueLength <= |taskQueue|) {
        return false;
      }
      taskQueue := taskQueue + [task];
      accepted := accepted + JobsOf(task);
      if busyThreadCount + |taskQueue| > normalThreadCount + tempThreadCount {
        var _ := Append();
      }
      if notified < |workers| && workers[notified].place == Waiting {
        workers := workers[notified := workers[notified].(place := Woken)];
      }
      return true;
    }

    /** The locked part of process for normal thread i, up to the wait, the exit or the unlock. It
        takes the first task; over an empty queue it goes to sleep, or leaves a pool that is
        closing. While tasks are queued somebody is up. */
    method ProcessSection(i: nat, ghost elapsed: nat, ghost c: Config)
      requires Inv(View(), c) && Enabled(View(), Lock(i, elapsed)) && workers[i].kind == Normal
      modifies this
      ensures View() == Step(old(View()), Lock(i, elapsed))
      ensures Inv(View(), c) && Bounded(View(), c)
      ensures Serviceable(c) && taskQueue != [] ==> SomebodyIsAwake(workers)
      ensures workers[i].place == Waiting ==> taskQueue == [] && !willExit
      ensures Decides(old(View()), View(), i, elapsed)
    {
      hide Decides;
      hide Inv;
      hide Bounded;
      hide SomebodyIsAwake;
      hide Serviceable;
      hide Step;
      hide Enabled;
      LockFacts(View(), c, i, elapsed);
      if |taskQueue| == 0 {
        if willExit {
          normalThreadCount := normalThreadCount - 1;
          workers := workers[i := workers[i].(place := Exited)];
          return;
        }
        workers := workers[i := workers[i].(place := Waiting)];
        return;
      }
      TakeTask(i);
    }

    /** The locked part of temporaryProcess for temporary thread i; `elapsed` is what the
        monotonic clock says the wait took, when it comes from one. It takes the first task; over an
        empty queue it sleeps as long as it has latency left, and then leaves. */
    method TemporarySection(i: nat, elapsed: nat, ghost c: Config)
      requires Inv(View(), c) && Enabled(View(), Lock(i, elapsed)) && workers[i].kind == Temporary
      modifies this
      ensures View() == Step(old(View()), Lock(i, elapsed))
      ensures Inv(View(), c) && Bounded(View(), c)
      ensures Serviceable(c) && taskQueue != [] ==> SomebodyIsAwake(workers)
      ensures workers[i].place == Waiting ==> taskQueue == [] && !willExit
      ensures Decides(old(View()), View(), i, elapsed)
    {
      hide Decides;
      hide Inv;
      hide Bounded;
      hide SomebodyIsAwake;
      hide Serviceable;
      hide Step;
      hide Enabled;
      LockFacts(View(), c, i, elapsed);
      var worker := workers[i];
      if worker.place == Woken {
        worker := worker.(restLatency := worker.restLatency - elapsed);
      }
      if |taskQueue| == 0 {
        if worker.restLatency <= 0 || willExit {
          tempThreadCount := tempThreadCount - 1;
          workers := workers[i := workers[i].(place := Exited)];
          return;
        }
        workers := workers[i := worker.(place := Waiting)];
        return;
      }
      workers := workers[i := worker.(restLatency := cfg.tempThreadLatencySeconds)];
      label rested:
      TakeTask(i);
      assert old@rested(workers[i]) == old(workers[i]).(restLatency := cfg.tempThreadLatencySeconds);
    }

    /** Pop the front task; an absent one sends the thread round its loop. */
    method TakeTask(i: nat)
      requires taskQueue != [] && i < |workers|
      modifies this`taskQueue, this`workers, this`busyThreadCount
      ensures taskQueue == old(taskQueue)[1..]
      ensures var task := old(taskQueue)[0];
        && workers == old(workers)[i := old(workers)[i].(place := if task.Absent? then Start else Running(task.id))]
        && busyThreadCount == old(busyThreadCount) + if task.Absent? then 0 else 1
    {
      var task := taskQueue[0];
      taskQueue := taskQueue[1..];
      if task.Absent? {
        workers := workers[i := workers[i].(place := Start)];
        return;
      }
      busyThreadCount := busyThreadCount + 1;
      workers := workers[i := workers[i].(place := Running(task.id))];
    }

    /** The locked part behind the run. */
    method FinishSection(i: nat, ghost c: Config)
      requires Inv(View(), c) && Enabled(View(), Finish(i))
      modifies this
      ensures View() == Step(old(View()), Finish(i))
      ensures Inv(View(), c) && Bounded(View(), c)
    {
      hide Inv;
      hide Bounded;
      FinishFacts(View(), c, i);
      busyThreadCount := busyThreadCount - 1;
      workers := workers[i := workers[i].(place := Start)];
    }

    /** The first locked part of release, with notify_all: nobody sleeps any more, nothing is
        accepted any more, and what was accepted stays queued. */
    method BeginRelease(ghost c: Config)
      requires Inv(View(), c) && Enabled(View(), Release)
      modifies this
      ensures View() == Step(old(View()), Release)
      ensures Inv(View(), c) && Bounded(View(), c)
      ensures Refuses(View()) && forall i :: 0 <= i < |workers| ==> workers[i].place != Waiting
      ensures taskQueue == old(taskQueue) && accepted == old(accepted) && executed == old(executed)
    {
      hide Inv;
      hide Bounded;
      ReleaseFacts(View(), c);
      willExit := true;
      phase := Joining;
      workers := NotifiedAll(workers);
    }

    /** The end of release, once the temporary threads are gone: every worker has left, and when
        the settings let tasks be served at all each accepted task has been run. */
    method EndRelease(ghost c: Config)
      requires Inv(View(), c) && Enabled(View(), Drain)
      modifies this
      ensures View() == Step(old(View()), Drain)
      ensures Inv(View(), c) && Refuses(View())
      ensures forall i :: 0 <= i < |workers| ==> workers[i].place == Exited
      ensures Serviceable(c) ==> taskQueue == [] && accepted == executed
    {
      hide Inv;
      hide Serviceable;
      DrainFacts(View(), c);
      phase := Returned;
      inited := false;
    }
  }

  // ---------- what the steps mean for a caller ----------

  /** What becomes of the settings. */
  ghost predicate AreRevised(c: Config, r: Config) {
    var limit := if c.maxCount > 0 then Max(c.maxCount, c.initCount) else c.maxCount;
    && r.initCount == c.initCount && r.appendCount == c.appendCount && r.maxCount == limit
    && r.perfectCount == Max(c.initCount, if c.maxCount > 0 then Min(c.perfectCount, limit) else c.perfectCount)
    && r.maxQueueLength == c.maxQueueLength && r.tempThreadLatencySeconds == c.tempThreadLatencySeconds
  }

  lemma InitialThreads(c: Config)
    ensures AreRevised(c, Initial(c).cfg)
    ensures var ws := Initial(c).workers;
      |ws| == Max(c.initCount, 0) && forall i :: 0 <= i < |ws| ==> ws[i].kind == Normal && ws[i].place == Start
  {
    hide Spawned;
    var ws := Initial(c).workers;
    forall i | 0 <= i < |ws| ensures ws[i] == FRESH_NORMAL {
      SpawnedAt([], |ws|, i);
    }
  }

  /** A thread takes the first task, if there is one, and goes round once more for an absent one.
      Otherwise it waits, or leaves: any thread when the pool is closing, and a temporary one when
      no latency is left to it. */
  ghost predicate Decides(s: Pool, t: Pool, i: nat, elapsed: nat) {
    && i < |s.workers| == |t.workers|
    && var w, place := s.workers[i], t.workers[i].place;
    var rest := w.restLatency - if w.place == Woken then elapsed else 0;
    if s.taskQueue != [] then
      t.taskQueue == s.taskQueue[1..]
      && place == match s.taskQueue[0] case Absent => Start case Job(id) => Running(id)
    else
      t.taskQueue == [] && place == if s.willExit || (w.kind == Temporary && rest <= 0) then Exited else Waiting
  }

  /** The threads that an accepted submission adds. */
  ghost predicate Grows(s: Pool, t: Pool) {
    var crowded := s.busyThreadCount + |s.taskQueue| + 1 > s.normalThreadCount + s.tempThreadCount;
    var missing := s.cfg.perfectCount - s.normalThreadCount;
    var normal := if crowded && s.cfg.appendCount > 0 then Max(0, Min(s.cfg.appendCount, missing)) else 0;
    var mayExceed := s.cfg.maxCount <= 0 || s.normalThreadCount + s.tempThreadCount < s.cfg.maxCount;
    var temporary := if crowded && s.cfg.appendCount != 0 && missing <= 0 && mayExceed then 1 else 0;
    && t.normalThreadCount == s.normalThreadCount + normal && t.tempThreadCount == s.tempThreadCount + temporary
    && |t.workers| == |s.workers| + normal + temporary
    && forall i :: |s.workers| <= i < |t.workers| ==>
         t.workers[i].place == Start && t.workers[i].kind == if temporary == 1 then Temporary else Normal
  }

  /** Of the threads there were, the chosen one is woken if it waits. */
  ghost predicate Wakes(was: seq<Worker>, ws: seq<Worker>, notified: nat) {
    |was| <= |ws| && forall i :: 0 <= i < |was| ==>
      && ws[i].kind == was[i].kind && ws[i].restLatency == was[i].restLatency
      && ws[i].place == if i == notified && was[i].place == Waiting then Woken else was[i].place
  }

  lemma GrowthFacts(s: Pool, task: Task, notified: nat)
    requires !Refuses(s)
    ensures var t := Submitted(s, task, notified); Grows(s, t) && Wakes(s.workers, t.workers, notified)
  {
    hide Spawned;
    var pushed := s.(taskQueue := s.taskQueue + [task], accepted := s.accepted + JobsOf(task));
    var t := Appended(pushed);
    var diff := s.cfg.perfectCount - s.normalThreadCount;
    var n := if diff >= s.cfg.appendCount then s.cfg.appendCount else diff;
    if n > 0 {
      forall i | 0 <= i < |s.workers| + n
        ensures Spawned(s.workers, n)[i] == if i < |s.workers| then s.workers[i] else FRESH_NORMAL
      {
        SpawnedAt(s.workers, n, i);
      }
    }
  }

  lemma WakeUpFacts(s: Pool, c: Config, task: Task, notified: nat)
    requires Inv(s, c) && Enabled(s, Submit(task, notified))
    ensures var t := Step(s, Submit(task, notified));
      && Inv(t, c) && Bounded(t, c)
      && t.taskQueue == s.taskQueue + (if Refuses(s) then [] else [task])
      && (!Refuses(s) ==> Grows(s, t) && Wakes(s.workers, t.workers, notified))
      && (!Refuses(s) && Serviceable(c) ==> SomebodyIsAwake(t.workers))
  {
    hide Inv;
    hide Bounded;
    hide Grows;
    hide Wakes;
    var t := Step(s, Submit(task, notified));
    if !Refuses(s) {
      GrowthFacts(s, task, notified);
    }
    StepKeepsInv(s, c, Submit(task, notified));
    InvBounds(t, c);
    if !Refuses(s) && Serviceable(c) {
      InvAttends(t, c);
    }
  }

  lemma LockFacts(s: Pool, c: Config, i: nat, elapsed: nat)
    requires Inv(s, c) && Enabled(s, Lock(i, elapsed))
    ensures var t := Step(s, Lock(i, elapsed));
      && i < |s.workers| && t == Locked(s, i, elapsed) && s.workers[i].place in {Start, Woken}
      && Inv(t, c) && Bounded(t, c) && |t.workers| == |s.workers|
      && (Serviceable(c) && t.taskQueue != [] ==> SomebodyIsAwake(t.workers))
      && (t.workers[i].place == Waiting ==> t.taskQueue == [] && !t.willExit)
      && Decides(s, t, i, elapsed)
  {
    hide Inv;
    hide Bounded;
    var t := Step(s, Lock(i, elapsed));
    StepKeepsInv(s, c, Lock(i, elapsed));
    InvBounds(t, c);
    if Serviceable(c) && t.taskQueue != [] {
      InvAttends(t, c);
    }
  }

  lemma FinishFacts(s: Pool, c: Config, i: nat)
    requires Inv(s, c) && Enabled(s, Finish(i))
    ensures Inv(Step(s, Finish(i)), c) && Bounded(Step(s, Finish(i)), c)
  {
    hide *;
    StepKeepsInv(s, c, Finish(i));
    InvBounds(Step(s, Finish(i)), c);
  }

  lemma ReleaseFacts(s: Pool, c: Config)
    requires Inv(s, c) && Enabled(s, Release)
    ensures Inv(Step(s, Release), c) && Bounded(Step(s, Release), c)
  {
    hide *;
    StepKeepsInv(s, c, Release);
    InvBounds(Step(s, Release), c);
  }

  lemma DrainFacts(s: Pool, c: Config)
    requires Inv(s, c) && Enabled(s, Drain)
    ensures var t := Step(s, Drain);
      && Inv(t, c)
      && (forall i :: 0 <= i < |t.workers| ==> t.workers[i].place == Exited)
      && (Serviceable(c) ==> t.taskQueue == [] && t.accepted == t.executed)
  {
    hide Inv;
    StepKeepsInv(s, c, Drain);
    NothingIsLeft(Step(s, Drain), c);
    if Serviceable(c) {
      NothingIsLost(Step(s, Drain), c);
    }
  }
}
