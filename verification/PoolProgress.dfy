/** A queued task is reached: while it waits, the steps of the threads are bounded and one of them
  is possible, whatever is submitted meanwhile and whether release has begun or not. */
module PoolProgress {
  import opened Counting
  import opened PoolProtocol

  /** What the threads do by themselves. */
  predicate IsWork(a: Action) {
    a.Lock? || a.Wake? || a.Run? || a.Finish?
  }

  function Works(run: seq<Action>): nat {
    if run == [] then 0 else Works(run[..|run| - 1]) + if IsWork(run[|run| - 1]) then 1 else 0
  }

  /** A worker takes the task at the front. */
  predicate Takes(s: Pool, a: Action) {
    a.Lock? && s.taskQueue != []
  }

  /** The tasks that workers take in a run from a state. */
  function Taken(c: Config, run: seq<Action>, more: seq<Action>): nat
    requires Possible(c, run + more)
    decreases |more|
  {
    if more == [] then 0
    else
      var front := more[..|more| - 1];
      FrontIsPossible(c, run, more);
      Taken(c, run, front) + if Takes(After(c, run + front), more[|more| - 1]) then 1 else 0
  }

  lemma FrontIsPossible(c: Config, run: seq<Action>, more: seq<Action>)
    requires Possible(c, run + more) && more != []
    ensures var front, last := more[..|more| - 1], more[|more| - 1];
      && Possible(c, run + front) && Enabled(After(c, run + front), last)
      && After(c, run + more) == Step(After(c, run + front), last)
  {
    hide Enabled;
    hide Step;
    assert (run + more)[..|run + more| - 1] == run + more[..|more| - 1];
  }

  // ---------- one step ----------

  /** The work that the threads have begun, and one more for each thread there was. */
  function Begun(s: Pool): int {
    Sum(s.workers, Effort) - |s.workers|
  }

  lemma EffortOf(s: Pool, t: Pool, i: nat)
    requires i < |s.workers| == |t.workers| && t.workers == s.workers[i := t.workers[i]]
    ensures Begun(t) == Begun(s) - Effort(s.workers[i]) + Effort(t.workers[i])
  {
    SumUpdate(s.workers, i, t.workers[i], Effort);
  }

  lemma WorkLowers(s: Pool, a: Action)
    requires Enabled(s, a) && IsWork(a) && s.taskQueue != []
    ensures Begun(Step(s, a)) + 1 <= Begun(s) + if Takes(s, a) then 3 else 0
    ensures Step(s, a).taskQueue == if Takes(s, a) then s.taskQueue[1..] else s.taskQueue
  {
    hide Sum;
    EffortOf(s, Step(s, a), a.worker);
  }

  lemma GrowthIsNoWork(s: Pool)
    ensures Begun(Appended(s)) == Begun(s) && Appended(s).taskQueue == s.taskQueue
  {
    hide Sum;
    hide Spawned;
    if s.normalThreadCount >= s.cfg.perfectCount {
      SumAppend(s.workers, Worker(Temporary, Start, s.cfg.tempThreadLatencySeconds), Effort);
    } else {
      var diff := s.cfg.perfectCount - s.normalThreadCount;
      var n := if diff >= s.cfg.appendCount then s.cfg.appendCount else diff;
      if n > 0 {
        SumSpawned(s.workers, n, Effort);
      }
    }
  }

  lemma NotifyIsNoWork(s: Pool, i: nat)
    ensures Begun(s.(workers := Notified(s.workers, i))) <= Begun(s)
  {
    hide Sum;
    if Sleeps(s.workers, i) {
      EffortOf(s, s.(workers := Notified(s.workers, i)), i);
    }
  }

  lemma {:induction false} NotifyAllLowers(ws: seq<Worker>)
    ensures Sum(NotifiedAll(ws), Effort) <= Sum(ws, Effort)
  {
    if ws != [] {
      var last := |ws| - 1;
      NotifyAllLowers(ws[..last]);
      assert NotifiedAll(ws)[..last] == NotifiedAll(ws[..last]);
    }
  }

  lemma OtherStepsAddNone(s: Pool, a: Action)
    requires Enabled(s, a) && !IsWork(a)
    ensures Begun(Step(s, a)) <= Begun(s) && s.taskQueue <= Step(s, a).taskQueue
  {
    hide Sum;
    match a {
      case Submit(task, i) =>
        if !Refuses(s) {
          var pushed := s.(taskQueue := s.taskQueue + [task], accepted := s.accepted + JobsOf(task));
          GrowthIsNoWork(pushed);
          hide Appended;
          NotifyIsNoWork(pushed, i);
          NotifyIsNoWork(Appended(pushed), i);
        }
      case Release => NotifyAllLowers(s.workers);
      case _ =>
    }
  }

  // ---------- a task in the queue ----------

  ghost predicate CanGoOn(s: Pool) {
    exists a: Action :: (a.Lock? || a.Run? || a.Finish?) && Enabled(s, a)
  }

  lemma AttendedPoolGoesOn(s: Pool, c: Config)
    requires Inv(s, c) && Serviceable(c) && s.taskQueue != []
    ensures CanGoOn(s)
  {
    InvAttends(s, c);
    var i: nat :| i < |s.workers| && IsAwake(s.workers[i]);
    assert Enabled(s, Lock(i, 0)) || Enabled(s, Run(i)) || Enabled(s, Finish(i));
  }

  lemma {:induction false} EffortIsBounded(ws: seq<Worker>)
    ensures 0 <= Sum(ws, Effort) <= 3 * |ws|
  {
    if ws != [] {
      EffortIsBounded(ws[..|ws| - 1]);
    }
  }

  /** The k-th task and those behind it have moved up by n places. */
  predicate MovedUp(was: seq<Task>, q: seq<Task>, k: nat, n: nat) {
    n <= k < |was| && k - n < |q| && was[k..] <= q[k - n..]
  }

  lemma StartsInPlace(q: seq<Task>, k: nat)
    requires k < |q|
    ensures MovedUp(q, q, k, 0)
  {
  }

  lemma MovesOn(was: seq<Task>, q: seq<Task>, r: seq<Task>, k: nat, n: nat)
    requires MovedUp(was, q, k, n)
    ensures q != [] && q[k - n] == was[k]
    ensures q <= r ==> MovedUp(was, r, k, n)
    ensures r == q[1..] && n < k ==> MovedUp(was, r, k, n + 1)
  {
    assert was[k] == was[k..][0] == q[k - n..][0];
    if q <= r {
      assert r[k - n..][..|q| - (k - n)] == q[k - n..];
    }
    if r == q[1..] && n < k {
      assert r[k - n - 1..] == q[k - n..];
    }
  }

  /** The task has moved up by what was taken, and the work done is paid for. */
  lemma {:induction false} QueueMovesUp(c: Config, run: seq<Action>, more: seq<Action>, k: nat)
    requires Possible(c, run) && Possible(c, run + more) && k < |After(c, run).taskQueue|
    requires Taken(c, run, more) <= k
    ensures var s, t, n := After(c, run), After(c, run + more), Taken(c, run, more);
      && MovedUp(s.taskQueue, t.taskQueue, k, n)
      && Works(more) + Begun(t) <= Begun(s) + 3 * n
    decreases |more|
  {
    hide Step;
    hide Enabled;
    hide Begun;
    hide MovedUp;
    if more == [] {
      assert run + more == run;
      StartsInPlace(After(c, run).taskQueue, k);
    } else {
      var front, last := more[..|more| - 1], more[|more| - 1];
      FrontIsPossible(c, run, more);
      QueueMovesUp(c, run, front, k);
      var u := After(c, run + front);
      MovesOn(After(c, run).taskQueue, u.taskQueue, Step(u, last).taskQueue, k, Taken(c, run, front));
      if IsWork(last) {
        WorkLowers(u, last);
      } else {
        OtherStepsAddNone(u, last);
      }
    }
  }

  /** A task with k others in front of it, in any state of any run: until it is taken the threads
      do at most three steps for each task that is taken before it, two more for each thread that
      there was and one for each that there is now; submissions and release may come between them.
      The task is still queued, in its place, and some thread can go on. */
  lemma QueuedTaskComesUp(c: Config, run: seq<Action>, more: seq<Action>, k: nat)
    requires Serviceable(c) && Possible(c, run) && Possible(c, run + more) && k < |After(c, run).taskQueue|
    requires Taken(c, run, more) <= k
    ensures var s, t, n := After(c, run), After(c, run + more), Taken(c, run, more);
      && k - n < |t.taskQueue| && t.taskQueue[k - n] == s.taskQueue[k]
      && Works(more) <= 3 * n + 2 * |s.workers| + |t.workers| && CanGoOn(t)
  {
    hide CanGoOn;
    hide Inv;
    hide Sum;
    hide Possible;
    hide After;
    hide Taken;
    var s, t, n := After(c, run), After(c, run + more), Taken(c, run, more);
    QueueMovesUp(c, run, more, k);
    MovesOn(s.taskQueue, t.taskQueue, t.taskQueue, k, n);
    EffortIsBounded(s.workers);
    EffortIsBounded(t.workers);
    RunKeepsInv(c, run + more);
    AttendedPoolGoesOn(t, c);
  }
}
