/** Whether the event thread wakes in time. It sleeps up to the earliest trigger it knows of, and
  whoever queues a task writes to a pipe to wake it; nobody looks whether the write succeeds. */
module TimerWakes {
  import P = Pipes
  import opened TimerProtocol
  import opened TimerChecks

  /** No trigger is slept over: the event thread is up, or is woken, or wakes by itself no later
      than the earliest trigger. */
  ghost predicate WakesInTime(s: Timer) {
    s.checking || s.notified
    || forall t :: t in s.priorityQueue && t < |s.tasks| ==> s.wakeAt <= s.tasks[t].triggered
  }

  /** A task that is queued while the event thread sleeps is slept over exactly when nobody has
      woken it yet, the write fails, and the thread wakes later. */
  lemma PushIsHeardIff(s: Timer, t: nat)
    requires WakesInTime(s) && t < |s.tasks|
    ensures WakesInTime(Pushed(s, t)) <==>
      s.checking || s.notified || !P.Full(s.pipe) || s.wakeAt <= s.tasks[t].triggered
  {
    var u := Pushed(s, t);
    assert u.priorityQueue[|s.priorityQueue|] == t;
    assert forall x :: x in u.priorityQueue <==> x in s.priorityQueue || x == t;
  }

  // ---------- the messages in the pipe ----------

  /** No more messages are unread than tasks are queued. */
  ghost predicate PipeFits(s: Timer, c: Setting) {
    P.Sound(s.pipe) && s.pipe.room == c.room && s.pipe.page == c.page && s.pipe.unread <= |s.priorityQueue|
  }

  /** While the event thread sleeps and nobody has woken it, a write succeeds. */
  ghost predicate Audible(s: Timer) {
    !s.checking && !s.notified ==> !P.Full(s.pipe)
  }

  lemma PushKeepsPipe(s: Timer, c: Setting, t: nat)
    requires PipeFits(s, c) && Audible(s)
    ensures PipeFits(Pushed(s, t), c) && Audible(Pushed(s, t))
  {
  }

  lemma ExecutedKeepsPipe(s: Timer, c: Setting, t: nat, now: nat)
    requires PipeFits(s, c) && Audible(s) && t < |s.tasks|
    ensures PipeFits(Executed(s, t, now), c) && Audible(Executed(s, t, now))
  {
    if s.tasks[t].kind.Period? && !Expires(s.tasks[t]) {
      PushKeepsPipe(s, c, t);
    }
  }

  /** As long as the queue is not too long, or room is given free at once, a message can be written
      whenever the event thread has gone to sleep. */
  lemma StepKeepsPipe(s: Timer, c: Setting, a: Action)
    requires Enabled(s, a) && PipeFits(s, c) && Audible(s)
    requires c.page == 1 || |s.priorityQueue| + c.page <= c.room + 1
    ensures PipeFits(Step(s, a), c) && Audible(Step(s, a))
  {
    hide Executed;
    match a {
      case Add(kind, cycles, right, now) =>
        var r := Registered(s, NewTask(kind, cycles, right, now));
        if right {
          ExecutedKeepsPipe(r, c, |s.tasks|, now);
        } else {
          PushKeepsPipe(r, c, |s.tasks|);
        }
      case Check(top, now) => CheckKeepsPipe(s, c, top, now);
      case _ =>
    }
  }

  lemma CheckKeepsPipe(s: Timer, c: Setting, top: nat, now: nat)
    requires IsTop(s, top) && PipeFits(s, c) && Audible(s)
    requires c.page == 1 || |s.priorityQueue| + c.page <= c.room + 1
    ensures PipeFits(Checked(s, top, now), c) && Audible(Checked(s, top, now))
  {
    hide Executed;
    var popped := Popped(s, top);
    assert PipeFits(popped, c);
    ExecutedKeepsPipe(popped, c, s.priorityQueue[top], now);
  }

  // ---------- every step wakes in time ----------

  lemma PushWakes(s: Timer, t: nat)
    requires WakesInTime(s) && Audible(s)
    ensures WakesInTime(Pushed(s, t))
  {
  }

  lemma ExecutedWakes(s: Timer, t: nat, now: nat)
    requires WakesInTime(s) && Audible(s) && t < |s.tasks| && t !in s.priorityQueue
    ensures WakesInTime(Executed(s, t, now))
  {
    ExecutedTouches(s, t, now);
    if s.tasks[t].kind.Period? && !Expires(s.tasks[t]) {
      assert Executed(s, t, now).checking == s.checking;
      assert Executed(s, t, now).notified == Pushed(s, t).notified;
    }
  }

  lemma AddWakes(s: Timer, kind: Kind, cycles: int, right: bool, now: nat)
    requires Inv(s) && WakesInTime(s) && Audible(s)
    ensures WakesInTime(Added(s, kind, cycles, right, now))
  {
    hide Executed;
    hide Pushed;
    QueuedTasksAreOld(s);
    var r := Registered(s, NewTask(kind, cycles, right, now));
    assert WakesInTime(r) && Audible(r);
    if right {
      ExecutedWakes(r, |s.tasks|, now);
    } else {
      PushWakes(r, |s.tasks|);
    }
  }

  lemma QueuedTasksAreOld(s: Timer)
    requires Inv(s)
    ensures s.buffer > 0 && forall t :: t in s.priorityQueue ==> t < |s.tasks|
  {
  }

  lemma CheckWakes(s: Timer, top: nat, now: nat)
    requires Enabled(s, Check(top, now))
    ensures WakesInTime(Checked(s, top, now))
  {
    var task := s.tasks[s.priorityQueue[top]];
    if task.removed || task.triggered <= now {
      assert Checked(s, top, now).checking;
    } else {
      TopIsFloor(s, Check(top, now));
    }
  }

  lemma DecideWakes(s: Timer, j: nat, now: nat)
    requires Inv(s) && Enabled(s, Decide(j, now)) && WakesInTime(s)
    ensures WakesInTime(DecidedJob(s, j, now))
  {
    assert Returns(s.jobs[j].stage) && s.jobs[j].task !in s.priorityQueue;
    hide Inv;
  }

  lemma CommitWakes(s: Timer, j: nat)
    requires Enabled(s, Commit(j)) && WakesInTime(s) && Audible(s)
    ensures WakesInTime(CommittedJob(s, j))
  {
    hide Pushed;
    var over := s.(jobs := s.jobs[j := Job(s.jobs[j].task, Done)]);
    assert WakesInTime(over) && Audible(over);
    if s.jobs[j].stage == Adjusted {
      PushWakes(over, s.jobs[j].task);
    }
  }

  lemma StepWakes(s: Timer, a: Action)
    requires Inv(s) && Enabled(s, a) && WakesInTime(s) && Audible(s)
    ensures WakesInTime(Step(s, a))
  {
    hide Inv;
    hide Checked;
    hide Added;
    hide DecidedJob;
    hide CommittedJob;
    match a {
      case Add(kind, cycles, right, now) => AddWakes(s, kind, cycles, right, now);
      case Check(top, now) => CheckWakes(s, top, now);
      case Decide(j, now) => DecideWakes(s, j, now);
      case Commit(j) => CommitWakes(s, j);
      case _ =>
    }
  }

  // ---------- runs ----------

  /** No more than k tasks are queued when a step of the run is taken. */
  predicate Within(s: Timer, run: seq<Action>, k: nat)
    requires Possible(s, run)
  {
    forall i :: 0 <= i < |run| ==> |Before(s, run, i).priorityQueue| <= k
  }

  lemma WithinFront(s: Timer, run: seq<Action>, k: nat)
    requires Possible(s, run) && run != [] && Within(s, run, k)
    ensures Within(s, run[..|run| - 1], k) && |After(s, run[..|run| - 1]).priorityQueue| <= k
  {
    var front := run[..|run| - 1];
    assert Before(s, run, |front|) == After(s, front);
    forall i | 0 <= i < |front| ensures |Before(s, front, i).priorityQueue| <= k {
      assert front[..i] == run[..i];
      assert |Before(s, run, i).priorityQueue| <= k;
    }
  }

  lemma {:induction false} RunWakes(c: Setting, start: nat, run: seq<Action>, k: nat)
    requires Proper(c) && Possible(Initial(c, start), run) && Within(Initial(c, start), run, k)
    requires c.page == 1 || k + c.page <= c.room + 1
    ensures var s := After(Initial(c, start), run);
      Inv(s) && WakesInTime(s) && PipeFits(s, c) && Audible(s)
    decreases |run|
  {
    var init := Initial(c, start);
    hide Inv;
    hide Step;
    hide Enabled;
    hide PipeFits;
    hide Audible;
    hide WakesInTime;
    if run == [] {
      InitialWakes(c, start);
    } else {
      var front := run[..|run| - 1];
      WithinFront(init, run, k);
      RunWakes(c, start, front, k);
      var s, a := After(init, front), run[|run| - 1];
      StepKeepsInv(s, a);
      StepKeepsPipe(s, c, a);
      StepWakes(s, a);
    }
  }

  lemma InitialWakes(c: Setting, start: nat)
    requires Proper(c)
    ensures var s := Initial(c, start);
      Inv(s) && WakesInTime(s) && PipeFits(s, c) && Audible(s)
  {
    InitialInv(c, start);
    hide Inv;
  }

  // ---------- a run in which a trigger is slept over ----------

  lemma ExtendWithin(s: Timer, run: seq<Action>, a: Action, k: nat)
    requires Possible(s, run) && Within(s, run, k)
    requires Enabled(After(s, run), a) && |After(s, run).priorityQueue| <= k
    ensures var longer := run + [a];
      Possible(s, longer) && Within(s, longer, k) && After(s, longer) == Step(After(s, run), a)
  {
    hide Enabled;
    hide Step;
    var longer := run + [a];
    assert longer[..|longer| - 1] == run;
    forall i | 0 <= i < |longer| ensures |Before(s, longer, i).priorityQueue| <= k {
      if i < |run| {
        assert longer[..i] == run[..i];
        assert |Before(s, run, i).priorityQueue| <= k;
      } else {
        assert longer[..i] == run;
      }
    }
  }

  function Numbers(n: nat): (r: seq<nat>)
    ensures |r| == n && forall i :: 0 <= i < n ==> r[i] == i
  {
    seq(n, i requires i >= 0 => i)
  }

  /** A few tasks with a far trigger, the message of each of which is unread. */
  ghost predicate Waiting(s: Timer, c: Setting, far: nat, n: nat) {
    && |s.tasks| == n && s.priorityQueue == Numbers(n)
    && (forall i :: 0 <= i < n ==> !s.tasks[i].removed && s.tasks[i].triggered == far)
    && s.pipe == P.Pipe(c.room, c.page, 0, n) && !s.checking && s.buffer == c.buffer
  }

  lemma WaitingGrows(s: Timer, c: Setting, start: nat, far: nat, n: nat)
    requires Proper(c) && Waiting(s, c, start + far, n) && n < c.room
    ensures var a := Add(Repeated(far), 1, false, start);
      Enabled(s, a) && Waiting(Step(s, a), c, start + far, n + 1)
  {
    assert Numbers(n) + [n] == Numbers(n + 1);
  }

  lemma {:induction false} FillQueue(c: Setting, start: nat, far: nat, n: nat, k: nat) returns (run: seq<Action>)
    requires Proper(c) && n <= c.room && n <= k
    ensures Possible(Initial(c, start), run) && Within(Initial(c, start), run, k)
    ensures Waiting(After(Initial(c, start), run), c, start + far, n)
  {
    var init := Initial(c, start);
    if n == 0 {
      run := [];
      assert Possible(init, []) && After(init, []) == init;
      assert Numbers(0) == [];
    } else {
      var front := FillQueue(c, start, far, n - 1, k);
      hide Step;
      hide Enabled;
      hide Possible;
      hide After;
      WaitingGrows(After(init, front), c, start, far, n - 1);
      ExtendWithin(init, front, Add(Repeated(far), 1, false, start), k);
      run := front + [Add(Repeated(far), 1, false, start)];
    }
  }

  /** Behind them an endless period task that was dispatched r times by one call of checkTasks: r
      messages of the first page are read, and as many are unread as tasks are queued. */
  ghost predicate Crowded(s: Timer, c: Setting, start: nat, far: nat, n: nat, r: nat) {
    && |s.tasks| == n + 1 && s.priorityQueue == Numbers(n + 1)
    && (forall i :: 0 <= i < n ==> !s.tasks[i].removed && s.tasks[i].triggered == far)
    && !s.tasks[n].removed && s.tasks[n].kind == Period(MAX_WAIT) && s.tasks[n].cycleTimes <= 0
    && s.tasks[n].triggered == start + (r + 1) * MAX_WAIT <= far
    && s.pipe == P.Pipe(c.room, c.page, r, n + 1) && s.buffer == c.buffer
  }

  lemma CrowdStarts(s: Timer, c: Setting, start: nat, far: nat, n: nat)
    requires Proper(c) && Waiting(s, c, far, n) && n < c.room && start + MAX_WAIT <= far
    ensures var a := Add(Period(MAX_WAIT), 0, false, start);
      Enabled(s, a) && Crowded(Step(s, a), c, start, far, n, 0)
  {
    assert Numbers(n) + [n] == Numbers(n + 1);
  }

  lemma CrowdGoesOn(s: Timer, c: Setting, start: nat, far: nat, n: nat, r: nat, now: nat)
    requires Proper(c) && Crowded(s, c, start, far, n, r)
    requires n > 0 && r + 1 < c.page && r + 1 + n < c.room && start + (r + 2) * MAX_WAIT <= far
    requires start + (r + 1) * MAX_WAIT <= now
    ensures var a := Check(n, now);
      Enabled(s, a) && Crowded(Step(s, a), c, start, far, n, r + 1)
  {
    var q := s.priorityQueue;
    assert q[..n] + q[n + 1..] == Numbers(n) && Numbers(n) + [n] == Numbers(n + 1);
  }

  /** The clock has been set forward, and one call of checkTasks catches up. */
  lemma {:induction false} Crowd(c: Setting, start: nat, far: nat, n: nat, r: nat, k: nat, now: nat)
    returns (run: seq<Action>)
    requires Proper(c) && n > 0 && r + 1 < c.page && r + n < c.room && n + 1 <= k
    requires far == start + c.page * MAX_WAIT && start + r * MAX_WAIT <= now
    ensures Possible(Initial(c, start), run) && Within(Initial(c, start), run, k)
    ensures Crowded(After(Initial(c, start), run), c, start, far, n, r)
    decreases r
  {
    var init := Initial(c, start);
    var a: Action;
    hide Step;
    hide Enabled;
    hide Possible;
    hide After;
    if r == 0 {
      run := FillQueue(c, start, c.page * MAX_WAIT, n, k);
      CrowdStarts(After(init, run), c, start, far, n);
      a := Add(Period(MAX_WAIT), 0, false, start);
    } else {
      run := Crowd(c, start, far, n, r - 1, k, now);
      CrowdGoesOn(After(init, run), c, start, far, n, r - 1, now);
      a := Check(n, now);
    }
    ExtendWithin(init, run, a, k);
    run := run + [a];
  }

  /** The loop of checkTasks ends and reads one more message, but the pipe is as full as before. */
  lemma CrowdFallsAsleep(s: Timer, c: Setting, start: nat, far: nat, n: nat, r: nat)
    requires Proper(c) && Crowded(s, c, start, far, n, r) && n > 0 && r + 1 < c.page && r + 1 + n == c.room
    ensures var a := Check(n, start + r * MAX_WAIT);
      && Enabled(s, a)
      && var u := Step(s, a);
      && !u.checking && !u.notified && P.Full(u.pipe) && u.wakeAt == start + (r + 1) * MAX_WAIT
      && u.priorityQueue == Numbers(n + 1) && u.buffer == c.buffer
  {
  }

  lemma LastTaskIsSleptOver(s: Timer, now: nat)
    requires !s.checking && !s.notified && P.Full(s.pipe) && s.wakeAt > now && s.buffer > 0
    ensures var a := Add(Repeated(0), 1, false, now);
      && Enabled(s, a) && !WakesInTime(Step(s, a)) && Step(s, a).wakeAt == s.wakeAt
      && |Step(s, a).tasks| == |s.tasks| + 1 && Step(s, a).tasks[|s.tasks|].triggered == now
  {
    var u := Added(s, Repeated(0), 1, false, now);
    assert u.priorityQueue[|s.priorityQueue|] == |s.tasks|;
    assert |s.tasks| in u.priorityQueue && u.tasks[|s.tasks|].triggered == now;
  }

  /** The run: every reading of checkTasks is the same moment, and the event thread sleeps ten
      minutes past the trigger of the task that is added last, which is due at once. */
  lemma SleepingOver(c: Setting, start: nat, k: nat) returns (run: seq<Action>)
    requires Proper(c) && c.page > 1 && k + c.page > c.room + 1
    ensures Possible(Initial(c, start), run) && Within(Initial(c, start), run, k)
    ensures var s := After(Initial(c, start), run);
      !WakesInTime(s) && exists t :: 0 <= t < |s.tasks| && s.tasks[t].triggered + MAX_WAIT == s.wakeAt
  {
    var init := Initial(c, start);
    var n, r, now := c.room - c.page + 1, c.page - 2, start + (c.page - 2) * MAX_WAIT;
    hide Step;
    hide Enabled;
    hide Possible;
    hide After;
    hide WakesInTime;
    run := Crowd(c, start, start + c.page * MAX_WAIT, n, r, k, now);
    CrowdFallsAsleep(After(init, run), c, start, start + c.page * MAX_WAIT, n, r);
    ExtendWithin(init, run, Check(n, now), k);
    run := run + [Check(n, now)];
    ghost var last := |After(init, run).tasks|;
    LastTaskIsSleptOver(After(init, run), now);
    ExtendWithin(init, run, Add(Repeated(0), 1, false, now), k);
    run := run + [Add(Repeated(0), 1, false, now)];
    assert After(init, run).tasks[last].triggered + MAX_WAIT == After(init, run).wakeAt;
  }

  ghost predicate AlwaysInTime(c: Setting, start: nat, k: nat) {
    forall run: seq<Action> :: Possible(Initial(c, start), run) && Within(Initial(c, start), run, k) ==>
      WakesInTime(After(Initial(c, start), run))
  }

  /** With no more than k tasks in the queue no trigger is ever slept over, exactly when the pipe
      gives the room of every message free at once, or k is small enough: at most its room less
      one page, and one more. */
  lemma WakesInTimeIff(c: Setting, start: nat, k: nat)
    requires Proper(c)
    ensures AlwaysInTime(c, start, k) <==> c.page == 1 || k + c.page <= c.room + 1
  {
    if c.page == 1 || k + c.page <= c.room + 1 {
      forall run: seq<Action> | Possible(Initial(c, start), run) && Within(Initial(c, start), run, k)
        ensures WakesInTime(After(Initial(c, start), run))
      {
        RunWakes(c, start, run, k);
      }
    } else {
      var run := SleepingOver(c, start, k);
    }
  }

  /** A pipe of Linux has 16 pages of 4096 bytes unless it is told otherwise. */
  const DEFAULT_ROOM := 16 * 1024
  const DEFAULT_PAGE := 1024

  lemma DefaultPipe(buffer: nat, start: nat, k: nat)
    requires buffer > 0
    ensures AlwaysInTime(Setting(buffer, DEFAULT_ROOM, DEFAULT_PAGE), start, k) <==> k <= 15_361
  {
    WakesInTimeIff(Setting(buffer, DEFAULT_ROOM, DEFAULT_PAGE), start, k);
  }
}
