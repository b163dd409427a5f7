/** When threads leave the pool, and how long its queue gets, in every run. */
module PoolThreads {
  import opened PoolProtocol

  // ---------- the queue ----------

  predicate QueueFits(s: Pool) {
    s.cfg.maxQueueLength > 0 ==> |s.taskQueue| <= s.cfg.maxQueueLength
  }

  lemma StepKeepsQueueLimit(s: Pool, a: Action)
    requires Enabled(s, a) && QueueFits(s)
    ensures QueueFits(Step(s, a)) && Step(s, a).cfg == s.cfg
  {
  }

  /** With a limit, no more tasks are ever queued than it allows. */
  lemma {:induction false} QueueIsBounded(c: Config, run: seq<Action>)
    requires Possible(c, run)
    ensures c.maxQueueLength > 0 ==> |After(c, run).taskQueue| <= c.maxQueueLength
    ensures After(c, run).cfg == Revised(c)
    decreases |run|
  {
    hide Step;
    hide Enabled;
    if run != [] {
      QueueIsBounded(c, run[..|run| - 1]);
      StepKeepsQueueLimit(After(c, run[..|run| - 1]), run[|run| - 1]);
    }
  }

  // ---------- the threads ----------

  /** The seconds that a thread has waited since it was created or took its last task. */
  function Waited(c: Config, run: seq<Action>, i: nat): nat
    requires Possible(c, run)
    decreases |run|
  {
    if run == [] then 0
    else
      var front := run[..|run| - 1];
      WaitedBy(After(c, front), run[|run| - 1], i, Waited(c, front, i))
  }

  function WaitedBy(s: Pool, a: Action, i: nat, before: nat): nat
    requires Enabled(s, a)
  {
    if !(a.Lock? && a.worker == i) then before
    else if s.taskQueue != [] then 0
    else before + if s.workers[i].place == Woken then a.elapsed else 0
  }

  /** A temporary thread has served as long as its latency says, and no longer; a normal one stays. */
  predicate Serves(s: Pool, i: nat, waited: nat) {
    if i >= |s.workers| then waited == 0
    else if s.workers[i].kind == Normal then s.workers[i].place == Exited ==> s.willExit
    else
      var w, latency := s.workers[i], s.cfg.tempThreadLatencySeconds;
      && (w.place != Exited ==> w.restLatency == latency - waited)
      && (w.place == Waiting ==> waited < latency)
      && (w.place == Exited ==> s.willExit || waited >= latency)
  }

  lemma LockServes(s: Pool, j: nat, elapsed: nat, i: nat, waited: nat)
    requires Enabled(s, Lock(j, elapsed)) && Serves(s, i, waited)
    ensures Serves(Locked(s, j, elapsed), i, WaitedBy(s, Lock(j, elapsed), i, waited))
  {
  }

  lemma SubmitServes(s: Pool, task: Task, notified: nat, i: nat, waited: nat)
    requires Serves(s, i, waited)
    ensures Serves(Submitted(s, task, notified), i, waited)
  {
    hide Spawned;
    if !Refuses(s) {
      var pushed := s.(taskQueue := s.taskQueue + [task], accepted := s.accepted + JobsOf(task));
      AppendServes(pushed, i, waited);
      hide Appended;
    }
  }

  lemma AppendServes(s: Pool, i: nat, waited: nat)
    requires Serves(s, i, waited)
    ensures Serves(Appended(s), i, waited)
  {
    hide Spawned;
    var diff := s.cfg.perfectCount - s.normalThreadCount;
    var n := if diff >= s.cfg.appendCount then s.cfg.appendCount else diff;
    if n > 0 && i < |s.workers| + n {
      SpawnedAt(s.workers, n, i);
    }
  }

  lemma StepServes(s: Pool, a: Action, i: nat, waited: nat)
    requires Enabled(s, a) && Serves(s, i, waited)
    ensures Serves(Step(s, a), i, WaitedBy(s, a, i, waited))
  {
    hide Locked;
    hide Submitted;
    match a {
      case Submit(task, notified) => SubmitServes(s, task, notified, i, waited);
      case Lock(j, elapsed) => LockServes(s, j, elapsed, i, waited);
      case _ =>
    }
  }

  lemma {:induction false} RunServes(c: Config, run: seq<Action>, i: nat)
    requires Possible(c, run)
    ensures Serves(After(c, run), i, Waited(c, run, i))
    decreases |run|
  {
    hide Step;
    hide Enabled;
    hide Serves;
    hide WaitedBy;
    if run == [] {
      InitialServes(c, i);
    } else {
      RunServes(c, run[..|run| - 1], i);
      StepServes(After(c, run[..|run| - 1]), run[|run| - 1], i, Waited(c, run[..|run| - 1], i));
    }
  }

  lemma InitialServes(c: Config, i: nat)
    ensures Serves(Initial(c), i, 0)
  {
    hide Spawned;
    if i < |Initial(c).workers| {
      SpawnedAt([], |Initial(c).workers|, i);
    }
  }

  /** In every run: a normal thread leaves only when release has begun. A temporary one leaves only
      then, or when it has waited without a task for as long as its latency says; and it does not
      go to sleep any more when it has. */
  lemma ThreadsServe(c: Config, run: seq<Action>, i: nat)
    requires Possible(c, run) && i < |After(c, run).workers|
    ensures var s, latency := After(c, run), c.tempThreadLatencySeconds;
      var w := s.workers[i];
      && (w.place == Exited ==> s.willExit || (w.kind == Temporary && Waited(c, run, i) >= latency))
      && (w.kind == Temporary && w.place == Waiting ==> Waited(c, run, i) < latency)
  {
    hide Possible;
    hide After;
    hide Waited;
    RunServes(c, run, i);
    QueueIsBounded(c, run);
  }
}
