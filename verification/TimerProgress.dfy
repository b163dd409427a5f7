/** How far the timer's own steps bring a task: when it gets its next dispatch, when it comes to
  its end, and how many steps that takes. */
module TimerProgress {
  import opened Bounds
  import opened TimerProtocol
  import opened TimerSteps
  import opened TimerChecks

  // ---------- runs, from the front ----------

  lemma {:induction false} Prepend(s: Timer, a: Action, rest: seq<Action>)
    requires Enabled(s, a) && Possible(Step(s, a), rest)
    ensures Possible(s, [a] + rest) && After(s, [a] + rest) == After(Step(s, a), rest)
    decreases |rest|
  {
    hide Step;
    hide Enabled;
    var run := [a] + rest;
    if rest == [] {
      assert run[..0] == [];
      assert Possible(s, []) && After(s, []) == s;
    } else {
      Prepend(s, a, rest[..|rest| - 1]);
      assert run[..|run| - 1] == [a] + rest[..|rest| - 1];
    }
  }

  lemma {:induction false} FirstAction(s: Timer, run: seq<Action>)
    requires Possible(s, run) && run != []
    ensures Enabled(s, run[0]) && Possible(Step(s, run[0]), run[1..])
    ensures After(Step(s, run[0]), run[1..]) == After(s, run)
    decreases |run|
  {
    hide Step;
    hide Enabled;
    var front := run[..|run| - 1];
    if front == [] {
      assert run[1..] == [];
      assert Possible(s, []) && After(s, []) == s;
    } else {
      FirstAction(s, front);
      assert run[1..][..|run| - 2] == front[1..];
    }
  }

  /** The user may add tasks but removes none. */
  predicate NoCancel(run: seq<Action>) {
    forall i :: 0 <= i < |run| ==> !run[i].Cancel?
  }

  /** A step of the timer's own threads. */
  predicate Own(a: Action) {
    !a.Add? && !a.Cancel?
  }

  /** What the clock shows after a step, when it showed the given time before. */
  function Clock(a: Action, from: nat): nat {
    if a.Cancel? || a.Commit? || a.Finish? then from else a.now
  }

  /** The clock never goes back. */
  predicate Timely(run: seq<Action>, from: nat)
    decreases |run|
  {
    run == [] || (from <= Clock(run[0], from) && Timely(run[1..], Clock(run[0], from)))
  }

  // ---------- what stands in a task's way ----------

  predicate IsSticker(s: Timer, b: nat) {
    b in s.priorityQueue && b < |s.tasks| && Sticks(s.tasks[b])
  }

  /** A task that goes on for ever without moving its trigger is queued before the given time. */
  ghost predicate StuckBefore(s: Timer, m: int) {
    exists b: nat :: IsSticker(s, b) && s.tasks[b].triggered < m
  }

  /** Only the user gets such a task out of the queue, and it keeps its trigger. */
  lemma StickerStays(s: Timer, a: Action, b: nat)
    requires Inv(s) && Enabled(s, a) && !a.Cancel? && IsSticker(s, b)
    ensures IsSticker(Step(s, a), b) && Step(s, a).tasks[b].triggered == s.tasks[b].triggered
  {
    if Concerns(s, a, b) {
      StickerIsServed(s, a, b);
    } else {
      StepLeaves(s, a, b);
    }
  }

  /** A step that concerns such a task does not change where it stands. */
  lemma StickerIsServed(s: Timer, a: Action, b: nat)
    requires Inv(s) && Enabled(s, a) && Concerns(s, a, b) && IsSticker(s, b)
    ensures IsSticker(Step(s, a), b) && Step(s, a).tasks[b].triggered == s.tasks[b].triggered
  {
    assert Sound(s.tasks[b]);
    match a {
      case Check(top, now) => RoundServes(s, top, now);
      case Decide(j, _) => JobIsAlone(s, j);
      case Commit(j) => JobIsAlone(s, j);
      case _ =>
    }
  }

  /** No step of the timer's own makes such a task. */
  lemma NoNewSticker(s: Timer, a: Action, b: nat)
    requires Inv(s) && Enabled(s, a) && Own(a) && IsSticker(Step(s, a), b)
    ensures IsSticker(s, b) && Step(s, a).tasks[b].triggered == s.tasks[b].triggered
  {
    hide Inv;
    OwnKeepsTasks(s, a);
    if !Concerns(s, a, b) {
      StepLeaves(s, a, b);
    } else {
      match a {
        case Check(top, now) => NoNewStickerByRound(s, top, now);
        case Decide(j, _) => JobIsAlone(s, j);
        case Commit(j) => JobIsAlone(s, j);
        case _ =>
      }
    }
  }

  lemma NoNewStickerByRound(s: Timer, top: nat, now: nat)
    requires Inv(s) && Enabled(s, Check(top, now)) && Concerns(s, Check(top, now), s.priorityQueue[top])
    requires IsSticker(Checked(s, top, now), s.priorityQueue[top])
    ensures var b := s.priorityQueue[top];
      IsSticker(s, b) && Checked(s, top, now).tasks[b].triggered == s.tasks[b].triggered
  {
    hide Inv;
    hide Checked;
    TopTask(s, top);
    if s.tasks[s.priorityQueue[top]].removed {
      RoundDrops(s, top, now);
    } else {
      RoundServes(s, top, now);
    }
  }

  lemma OwnKeepsTasks(s: Timer, a: Action)
    requires Enabled(s, a) && Own(a)
    ensures |Step(s, a).tasks| == |s.tasks|
  {
    if a.Check? {
      ExecutedTouches(Popped(s, a.top), s.priorityQueue[a.top], a.now);
    }
  }

  lemma StaysClear(s: Timer, a: Action, m: int)
    requires Inv(s) && Enabled(s, a) && Own(a) && !StuckBefore(s, m)
    ensures !StuckBefore(Step(s, a), m)
  {
    hide Inv;
    hide Step;
    hide Enabled;
    if StuckBefore(Step(s, a), m) {
      var b: nat :| IsSticker(Step(s, a), b) && Step(s, a).tasks[b].triggered < m;
      NoNewSticker(s, a, b);
    }
  }

  // ---------- when the last dispatch comes ----------

  predicate HasCyclesLeft(task: Task) {
    task.cycles > |task.dispatches|
  }

  /** The earliest time the clock can show at the last dispatch of a task with cycles left that its
      jobs reschedule, when it shows the given time now. A repeated task waits from the end of one
      run to the next. */
  function LastTime(task: Task, from: nat): int
    requires HasCyclesLeft(task) && !task.kind.Period?
  {
    var left := task.cycles - |task.dispatches|;
    match task.kind
    case Repeated(interval) =>
      if task.cycleTimes > left then from + left * interval
      else Max(task.triggered, from) + (left - 1) * interval
    case Daily(_) => Max(Beat(task, task.cycles - 1), from)
  }

  /** What must not be queued before which time. A period task is rescheduled in its round, so it
      has to come to the top only. Any other is rescheduled by its job, which needs the lock, so
      that the loop of checkTasks has to end behind its dispatch as well. */
  function Limit(task: Task, from: nat): int
    requires HasCyclesLeft(task)
  {
    if task.kind.Period? then Beat(task, task.cycles - 1) else LastTime(task, from) + 1
  }

  lemma OneLess(left: int, interval: nat)
    requires left >= 1
    ensures left * interval == interval + (left - 1) * interval && (left - 1) * interval >= 0
  {
  }

  /** The later the clock, the later the limit. */
  lemma LimitWaits(task: Task, from: nat, later: nat)
    requires HasCyclesLeft(task) && from <= later
    ensures Limit(task, from) <= Limit(task, later)
  {
  }

  /** A dispatch leaves the limit where it was, or moves it away if it comes late; the last
      dispatch reaches it. */
  lemma DispatchAndLimit(task: Task, sent: Task, from: nat, now: nat)
    requires Sound(task) && Ready(task) && HasCyclesLeft(task) && task.triggered <= now && from <= now
    requires sent == (if task.kind.Period? then Decided(task, now) else task).(
                     dispatches := task.dispatches + [task.triggered], removed := sent.removed)
    ensures if HasCyclesLeft(sent) then Limit(task, from) <= Limit(sent, now)
            else Limit(task, from) <= if task.kind.Period? then task.triggered else now + 1
    ensures now == Max(task.triggered, from) ==>
      if HasCyclesLeft(sent) then Limit(sent, now) == Limit(task, from)
      else task.kind.Period? || Limit(task, from) == now + 1
  {
    var left := task.cycles - |task.dispatches|;
    if task.kind.Repeated? {
      OneLess(left, task.kind.interval);
    } else {
      LaterBeat(|task.dispatches|, task.cycles - 1, Stride(task.kind));
    }
  }

  lemma LaterBeat(i: nat, j: nat, stride: nat)
    requires i <= j
    ensures i * stride <= j * stride
  {
  }

  lemma DecisionAndLimit(task: Task, from: nat, now: nat)
    requires Sound(task) && Out(task) && HasCyclesLeft(task) && from <= now
    ensures HasCyclesLeft(Decided(task, now)) && Limit(task, from) <= Limit(Decided(task, now), now)
    ensures now == from ==> Limit(Decided(task, now), now) == Limit(task, from)
  {
    if task.kind.Repeated? {
      OneLess(task.cycles - |task.dispatches|, task.kind.interval);
    }
  }

  /** The task stands in the way of the other: it is queued too early, or the last run of the other
      is over and its job waits for a lock that the loop of checkTasks does not give back. */
  ghost predicate Blocks(s: Timer, t: nat, b: nat, from: nat) {
    && t < |s.tasks| && IsSticker(s, b)
    && if HasCyclesLeft(s.tasks[t]) then s.tasks[b].triggered < Limit(s.tasks[t], from)
       else s.checking && Returning(s, t) && s.tasks[b].triggered <= from
  }

  lemma BlockedIsNotFinished(s: Timer, t: nat, b: nat, from: nat)
    requires Blocks(s, t, b, from)
    ensures !Finished(s, t)
  {
    if !HasCyclesLeft(s.tasks[t]) {
      var j :| 0 <= j < |s.jobs| && Returns(s.jobs[j].stage) && s.jobs[j].task == t;
      assert InPool(s, t);
    }
  }

  lemma ReturningByStage(s: Timer, t: nat)
    ensures Returning(s, t) <==> exists stage :: Returns(stage) && Job(t, stage) in s.jobs
  {
    if Returning(s, t) {
      var j :| 0 <= j < |s.jobs| && Returns(s.jobs[j].stage) && s.jobs[j].task == t;
      assert Job(t, s.jobs[j].stage) in s.jobs;
    }
  }

  /** As long as it has cycles left, the limit of a task only moves away; its last dispatch is a
      round that comes at the limit or later. */
  lemma LimitMovesAway(s: Timer, a: Action, t: nat, from: nat)
    requires Inv(s) && Enabled(s, a) && !a.Cancel? && from <= Clock(a, from)
    requires t < |s.tasks| && HasCyclesLeft(s.tasks[t])
    ensures var u := Step(s, a);
      && t < |u.tasks| && u.tasks[t].cycles == s.tasks[t].cycles
      && if HasCyclesLeft(u.tasks[t]) then Limit(s.tasks[t], from) <= Limit(u.tasks[t], Clock(a, from))
         else a.Check? && s.priorityQueue[a.top] == t && LastRoundOf(s, u, t, from, a.now)
  {
    hide Inv;
    hide Limit;
    if !Concerns(s, a, t) {
      StepLeaves(s, a, t);
      LimitWaits(s.tasks[t], from, Clock(a, from));
    } else {
      match a {
        case Check(top, now) => RoundAndLimit(s, top, from, now);
        case Decide(j, now) =>
          JobIsAlone(s, j);
          TasksAreSoundAt(s, t);
          DecisionAndLimit(s.tasks[t], from, now);
        case Commit(j) => SameLimit(s.tasks[t], CommittedJob(s, j).tasks[t], from);
        case _ =>
      }
    }
  }

  lemma TasksAreSoundAt(s: Timer, t: nat)
    requires Inv(s) && t < |s.tasks|
    ensures Sound(s.tasks[t])
  {
  }

  lemma SameLimit(task: Task, other: Task, from: nat)
    requires HasCyclesLeft(task) && other == task.(removed := other.removed)
    ensures Limit(other, from) == Limit(task, from)
  {
  }

  /** The state behind the last dispatch of a task, seen from the state before it. */
  ghost predicate LastRoundOf(s: Timer, u: Timer, t: nat, from: nat, now: nat)
    requires t < |s.tasks| && HasCyclesLeft(s.tasks[t])
  {
    if s.tasks[t].kind.Period? then Limit(s.tasks[t], from) <= s.tasks[t].triggered && !Returning(u, t)
    else Limit(s.tasks[t], from) <= now + 1 && u.checking && Returning(u, t)
  }

  lemma RoundAndLimit(s: Timer, top: nat, from: nat, now: nat)
    requires Inv(s) && Enabled(s, Check(top, now)) && from <= now
    requires Concerns(s, Check(top, now), s.priorityQueue[top]) && HasCyclesLeft(s.tasks[s.priorityQueue[top]])
    ensures var t := s.priorityQueue[top];
      var u, task := Checked(s, top, now), s.tasks[t];
      && t < |u.tasks| && u.tasks[t].cycles == task.cycles
      && (if HasCyclesLeft(u.tasks[t]) then Limit(task, from) <= Limit(u.tasks[t], now)
          else LastRoundOf(s, u, t, from, now))
      && (now == Max(task.triggered, from) && !task.removed ==>
            if HasCyclesLeft(u.tasks[t]) then Limit(u.tasks[t], now) == Limit(task, from)
            else task.kind.Period? || Limit(task, from) == now + 1)
  {
    hide Inv;
    hide Checked;
    hide Limit;
    TopTask(s, top);
    var t := s.priorityQueue[top];
    if s.tasks[t].removed {
      RoundDrops(s, top, now);
      LimitWaits(s.tasks[t], from, now);
    } else {
      RoundServes(s, top, now);
      RoundSends(s, top, now);
      DispatchAndLimit(s.tasks[t], Checked(s, top, now).tasks[t], from, now);
    }
  }

  /** Behind the dispatch the lock stays with the loop, and a job is to reschedule the task unless
      it is a period task. */
  lemma RoundSends(s: Timer, top: nat, now: nat)
    requires Inv(s) && Enabled(s, Check(top, now))
    requires var task := s.tasks[s.priorityQueue[top]]; !task.removed && task.triggered <= now
    ensures var t, u := s.priorityQueue[top], Checked(s, top, now);
      u.checking && (Returning(u, t) <==> !s.tasks[t].kind.Period?)
  {
    RoundServes(s, top, now);
    NoJobInTheQueue(s, s.priorityQueue[top]);
    RoundKeepsLock(s, top, now);
    hide Inv;
    hide Checked;
    var t, u := s.priorityQueue[top], Checked(s, top, now);
    ReturningByStage(u, t);
    if !s.tasks[t].kind.Period? {
      assert Job(t, Submitted) in u.jobs && Returns(Submitted);
    }
  }

  lemma RoundKeepsLock(s: Timer, top: nat, now: nat)
    requires Enabled(s, Check(top, now))
    requires var task := s.tasks[s.priorityQueue[top]]; task.removed || task.triggered <= now
    ensures Checked(s, top, now).checking
  {
  }

  /** What stands in the way goes on to do so, whatever is done but a removal. */
  lemma BlockStays(s: Timer, a: Action, t: nat, b: nat, from: nat)
    requires Inv(s) && Enabled(s, a) && !a.Cancel? && from <= Clock(a, from) && Blocks(s, t, b, from)
    ensures Blocks(Step(s, a), t, b, Clock(a, from))
  {
    hide Inv;
    hide Limit;
    hide Step;
    StickerStays(s, a, b);
    if HasCyclesLeft(s.tasks[t]) {
      LimitMovesAway(s, a, t, from);
      assert a.Check? && s.priorityQueue[a.top] == t ==> s.tasks[t].triggered <= s.tasks[b].triggered by {
        var i :| 0 <= i < |s.priorityQueue| && s.priorityQueue[i] == b;
      }
    } else {
      LockIsKept(s, a, t, b, from);
    }
  }

  lemma LockIsKept(s: Timer, a: Action, t: nat, b: nat, from: nat)
    requires Inv(s) && Enabled(s, a) && !a.Cancel? && from <= Clock(a, from)
    requires t < |s.tasks| && IsSticker(s, b) && !HasCyclesLeft(s.tasks[t])
    requires s.checking && Returning(s, t) && s.tasks[b].triggered <= from
    ensures var u := Step(s, a);
      t < |u.tasks| && !HasCyclesLeft(u.tasks[t]) && u.checking && Returning(u, t)
  {
    hide Inv;
    var u := Step(s, a);
    ReturningByStage(s, t);
    ReturningByStage(u, t);
    assert a.Check? || a.Decide? || a.Finish? by {
      assert b in s.priorityQueue;
    }
    match a {
      case Check(top, now) =>
        TopIsFloor(s, a);
        RoundKeepsLock(s, top, now);
        NoJobInTheQueueOf(s, t);
        StepLeaves(s, a, t);
      case Decide(j, now) =>
        if s.jobs[j].task == t {
          assert u.jobs[j] in u.jobs;
        } else {
          StepLeaves(s, a, t);
        }
      case Finish(j) =>
        if s.jobs[j].task == t {
          SentRunEnds(s, j);
        } else {
          StepLeaves(s, a, t);
        }
      case _ =>
    }
  }

  lemma NoJobInTheQueueOf(s: Timer, t: nat)
    requires Inv(s) && Returning(s, t)
    ensures t !in s.priorityQueue
  {
    var j :| 0 <= j < |s.jobs| && Returns(s.jobs[j].stage) && s.jobs[j].task == t;
  }

  /** While another task stands in its way, a task does not come to its end. */
  lemma {:induction false} BlockedTaskIsNotFinished(s: Timer, run: seq<Action>, t: nat, b: nat, from: nat)
    requires Inv(s) && Possible(s, run) && NoCancel(run) && Timely(run, from) && Blocks(s, t, b, from)
    ensures !Finished(After(s, run), t)
    decreases |run|
  {
    hide Inv;
    hide Step;
    hide Enabled;
    hide Blocks;
    hide Finished;
    if run == [] {
      EmptyLoop(s, from);
      BlockedIsNotFinished(s, t, b, from);
    } else {
      var a := run[0];
      FirstAction(s, run);
      StepKeepsInv(s, a);
      BlockStays(s, a, t, b, from);
      BlockedTaskIsNotFinished(Step(s, a), run[1..], t, b, Clock(a, from));
    }
  }

  /** While such a task is queued before it, a task waits unchanged. */
  lemma StuckTaskStays(s: Timer, a: Action, t: nat, b: nat)
    requires Inv(s) && Enabled(s, a) && !a.Cancel? && t in s.priorityQueue && t < |s.tasks|
    requires IsSticker(s, b) && s.tasks[b].triggered < s.tasks[t].triggered
    ensures var u := Step(s, a); t in u.priorityQueue && t < |u.tasks| && u.tasks[t] == s.tasks[t]
  {
    hide Inv;
    hide Checked;
    hide Added;
    if !Concerns(s, a, t) {
      StepLeaves(s, a, t);
    } else if !a.Finish? {
      match a {
        case Check(top, now) => TopIsFloor(s, a);
        case Decide(j, _) => JobIsAlone(s, j);
        case Commit(j) => JobIsAlone(s, j);
        case _ =>
      }
    }
  }

  lemma {:induction false} StuckTaskWaits(s: Timer, run: seq<Action>, t: nat, b: nat)
    requires Inv(s) && Possible(s, run) && NoCancel(run)
    requires t in s.priorityQueue && t < |s.tasks|
    requires IsSticker(s, b) && s.tasks[b].triggered < s.tasks[t].triggered
    ensures var u := After(s, run); t in u.priorityQueue && t < |u.tasks| && u.tasks[t] == s.tasks[t]
    decreases |run|
  {
    hide Inv;
    hide Step;
    hide Enabled;
    if run != [] {
      var a := run[0];
      FirstAction(s, run);
      StepKeepsInv(s, a);
      StuckTaskStays(s, a, t, b);
      StickerStays(s, a, b);
      StuckTaskWaits(Step(s, a), run[1..], t, b);
    }
  }

  // ---------- a task that nothing stands in the way of ----------

  /** Whatever the clock, a round does the same to a task that is removed or due. */
  lemma AnyClockServes(s: Timer, top: nat, now: nat, other: nat)
    requires Inv(s) && Enabled(s, Check(top, now)) && Enabled(s, Check(top, other))
    requires Concerns(s, Check(top, now), s.priorityQueue[top])
    requires Concerns(s, Check(top, other), s.priorityQueue[top])
    ensures Checked(s, top, now) == Checked(s, top, other)
  {
  }

  /** The round that brings on a queued task: its own, or one of those before it. */
  lemma NextRound(s: Timer, t: nat, now: nat) returns (a: Action)
    requires Inv(s) && t in s.priorityQueue && t < |s.tasks| && s.tasks[t].triggered <= now
    requires !StuckBefore(s, s.tasks[t].triggered)
    ensures a.Check? && a.now == now && Enabled(s, a)
    ensures Concerns(s, a, t) || Untouched(s, Step(s, a), t)
    ensures !Concerns(s, a, t) ==>
      s.tasks[t].triggered > 0
      && 0 <= Rounds(Step(s, a), s.tasks[t].triggered - 1) < Rounds(s, s.tasks[t].triggered - 1)
  {
    forall i | 0 <= i < |s.priorityQueue| ensures s.priorityQueue[i] < |s.tasks| {
      assert s.priorityQueue[i] in s.priorityQueue;
    }
    var top := TopExists(s, |s.priorityQueue|);
    var due := s.tasks[t].triggered;
    if s.tasks[s.priorityQueue[top]].triggered >= due {
      top :| 0 <= top < |s.priorityQueue| && s.priorityQueue[top] == t;
      a := Check(top, now);
    } else {
      a := Check(top, now);
      EarlierRound(s, top, t, now);
    }
  }

  /** A round over an earlier task, seen with the clock just before the task's trigger. */
  lemma EarlierRoundWorks(s: Timer, top: nat, t: nat, now: nat)
    requires Inv(s) && t < |s.tasks| && s.tasks[t].triggered <= now
    requires IsTop(s, top) && s.tasks[s.priorityQueue[top]].triggered < s.tasks[t].triggered
    ensures s.tasks[t].triggered > 0
    ensures var a, b := Check(top, now), Check(top, s.tasks[t].triggered - 1);
      && Enabled(s, a) && Enabled(s, b) && !Concerns(s, a, t) && Works(s, b, s.tasks[t].triggered - 1)
      && Step(s, b) == Step(s, a)
  {
    hide Inv;
    hide Checked;
    var due := s.tasks[t].triggered;
    var a, b := Check(top, now), Check(top, due - 1);
    assert Enabled(s, a) && Enabled(s, b);
    AnyClockServes(s, top, now, due - 1);
  }

  lemma EarlierRound(s: Timer, top: nat, t: nat, now: nat)
    requires Inv(s) && t in s.priorityQueue && t < |s.tasks| && s.tasks[t].triggered <= now
    requires !StuckBefore(s, s.tasks[t].triggered)
    requires IsTop(s, top) && s.tasks[s.priorityQueue[top]].triggered < s.tasks[t].triggered
    ensures var a, due := Check(top, now), s.tasks[t].triggered;
      && Enabled(s, a) && !Concerns(s, a, t) && Untouched(s, Step(s, a), t)
      && due > 0 && 0 <= Rounds(Step(s, a), due - 1) < Rounds(s, due - 1)
  {
    hide *;
    var due := s.tasks[t].triggered;
    var a := Check(top, now);
    EarlierRoundWorks(s, top, t, now);
    StepLeaves(s, a, t);
    NothingSpinsBefore(s, due);
    RoundCountsDown(s, Check(top, due - 1), due - 1);
    StepKeepsInv(s, a);
    RoundsAreNotNegative(Step(s, a), due - 1);
  }

  lemma NothingSpinsBefore(s: Timer, due: nat)
    requires !StuckBefore(s, due) && due > 0
    ensures NothingSpins(s, due - 1)
  {
    forall b | b in s.priorityQueue && b < |s.tasks| ensures !Spins(s.tasks[b], due - 1) {
      assert Sticks(s.tasks[b]) ==> IsSticker(s, b);
    }
  }

  lemma RoundsAreNotNegative(s: Timer, now: nat)
    requires Inv(s)
    ensures Rounds(s, now) >= 0
  {
    CostsArePositive(s.priorityQueue, s.tasks, now);
  }

  /** The rounds still to come before that of a queued task. */
  function RoundsBefore(s: Timer, t: nat): int
    requires t < |s.tasks|
  {
    if t in s.priorityQueue && s.tasks[t].triggered > 0 then Rounds(s, s.tasks[t].triggered - 1) else 0
  }

  lemma DueTaskIsSent(s: Timer, a: Action, t: nat)
    requires Inv(s) && Enabled(s, a) && a.Check? && Concerns(s, a, t) && t < |s.tasks| && !s.tasks[t].removed
    ensures var u := Step(s, a);
      t < |u.tasks| && u.tasks[t].dispatches == s.tasks[t].dispatches + [s.tasks[t].triggered]
  {
    hide Inv;
    RoundServes(s, a.top, a.now);
  }

  lemma {:induction false} ServeNext(s: Timer, t: nat, now: nat) returns (run: seq<Action>)
    requires Inv(s) && t in s.priorityQueue && t < |s.tasks| && !s.tasks[t].removed && s.tasks[t].triggered <= now
    requires !StuckBefore(s, s.tasks[t].triggered)
    ensures Possible(s, run) && OnlyRounds(run)
    ensures var u := After(s, run);
      t < |u.tasks| && u.tasks[t].dispatches == s.tasks[t].dispatches + [s.tasks[t].triggered]
    decreases RoundsBefore(s, t)
  {
    hide Inv;
    hide Step;
    hide Enabled;
    hide Concerns;
    var a := NextRound(s, t, now);
    StepKeepsInv(s, a);
    if Concerns(s, a, t) {
      DueTaskIsSent(s, a, t);
      run := [a] + [];
      EmptyLoop(Step(s, a), now);
      Prepend(s, a, []);
    } else {
      StaysClear(s, a, s.tasks[t].triggered);
      var rest := ServeNext(Step(s, a), t, now);
      run := [a] + rest;
      Prepend(s, a, rest);
    }
  }

  predicate OnlyRounds(run: seq<Action>) {
    forall i :: 0 <= i < |run| ==> run[i].Check?
  }

  /** The run takes the task one dispatch further at least. */
  ghost predicate Dispatches(s: Timer, run: seq<Action>, t: nat)
    requires t < |s.tasks|
  {
    && Possible(s, run) && t < |After(s, run).tasks|
    && |After(s, run).tasks[t].dispatches| > |s.tasks[t].dispatches|
  }

  ghost predicate CanBeDispatched(s: Timer, t: nat)
    requires t < |s.tasks|
  {
    exists run :: Dispatches(s, run, t) && NoCancel(run)
  }

  /** A queued task can get its next dispatch, without the user removing another one, exactly when
      no endless task of period zero is queued before it; rounds of checkTasks are then enough. */
  lemma DispatchedIffNotStuck(s: Timer, t: nat)
    requires Inv(s) && t in s.priorityQueue && t < |s.tasks| && !s.tasks[t].removed
    ensures CanBeDispatched(s, t) <==> !StuckBefore(s, s.tasks[t].triggered)
    ensures CanBeDispatched(s, t) ==> exists run :: Dispatches(s, run, t) && OnlyRounds(run)
  {
    hide Inv;
    if StuckBefore(s, s.tasks[t].triggered) {
      var b: nat :| b < |s.tasks| && IsSticker(s, b) && s.tasks[b].triggered < s.tasks[t].triggered;
      forall run | Possible(s, run) && NoCancel(run)
        ensures !Dispatches(s, run, t)
      {
        StuckTaskWaits(s, run, t, b);
      }
    } else {
      var run := ServeNext(s, t, s.tasks[t].triggered);
      assert Dispatches(s, run, t) && NoCancel(run);
    }
  }

  // ---------- a task comes to its end ----------

  /** Nothing stands in the way of the task. */
  ghost predicate Unblocked(s: Timer, t: nat, from: nat) {
    forall b: nat :: !Blocks(s, t, b, from)
  }

  /** A task with n > 0 cycles that the user has not removed. */
  predicate Finite(s: Timer, t: nat) {
    t < |s.tasks| && s.tasks[t].cycles > 0 && !s.tasks[t].cancelled
  }

  /** Steps that bring on other tasks than this one: the rounds before that of a queued task, and
      those up to the end of the loop. */
  function Rank(s: Timer, t: nat, from: nat): int
    requires t < |s.tasks|
  {
    if t in s.priorityQueue then RoundsBefore(s, t) else if s.checking then 1 + Rounds(s, from) else 0
  }

  /** A step that brings on a task, directly or by way of others. */
  ghost predicate BringsOn(s: Timer, a: Action, t: nat, from: nat)
    requires t < |s.tasks|
  {
    && Enabled(s, a) && Own(a) && from <= Clock(a, from)
    && var u := Step(s, a);
    && Finite(u, t) && Unblocked(u, t, Clock(a, from))
    && (Work(u, t) < Work(s, t)
        || (Work(u, t) == Work(s, t) && 0 <= Rank(u, t, Clock(a, from)) < Rank(s, t, from)))
  }

  lemma UnblockedIsClear(s: Timer, t: nat, from: nat)
    requires t < |s.tasks|
    ensures Unblocked(s, t, from) <==>
      if HasCyclesLeft(s.tasks[t]) then !StuckBefore(s, Limit(s.tasks[t], from))
      else s.checking && Returning(s, t) ==> !StuckBefore(s, from + 1)
  {
    hide Limit;
    hide Returning;
    if !Unblocked(s, t, from) {
      var b: nat :| Blocks(s, t, b, from);
    }
    if m: int :| m == (if HasCyclesLeft(s.tasks[t]) then Limit(s.tasks[t], from) else from + 1) && StuckBefore(s, m) {
      var b: nat :| IsSticker(s, b) && s.tasks[b].triggered < m;
      assert HasCyclesLeft(s.tasks[t]) || (s.checking && Returning(s, t)) ==> Blocks(s, t, b, from);
    }
  }

  /** A run of a period task ends. */
  lemma EndBringsOn(s: Timer, t: nat, from: nat) returns (a: Action)
    requires Inv(s) && Finite(s, t) && t !in s.priorityQueue && !Returning(s, t) && InPool(s, t)
    requires Unblocked(s, t, from)
    ensures BringsOn(s, a, t, from)
  {
    var j: nat :| j < |s.jobs| && s.jobs[j].stage != Done && s.jobs[j].task == t;
    a := Finish(j);
    TasksAreSoundAt(s, t);
    assert Kept(s, t) && s.tasks[t].removed;
    hide Inv;
    StepsDoTheWork(s, a, t);
    SentRunEnds(s, j);
    ReturningByStage(s, t);
    ReturningByStage(FinishedJob(s, j), t);
    hide Work;
    hide Returning;
    assert !HasCyclesLeft(s.tasks[t]);
  }

  /** A job that has the lock, or needs none, goes on. */
  lemma JobBringsOn(s: Timer, t: nat, j: nat, from: nat) returns (a: Action)
    requires Inv(s) && Finite(s, t) && Unblocked(s, t, from)
    requires j < |s.jobs| && Returns(s.jobs[j].stage) && s.jobs[j].task == t
    requires s.checking ==> s.jobs[j].stage == Submitted
    ensures BringsOn(s, a, t, from)
  {
    hide Inv;
    hide Work;
    hide Step;
    hide Limit;
    hide Unblocked;
    hide StuckBefore;
    hide Rank;
    a := if s.jobs[j].stage == Submitted then Decide(j, from) else Commit(j);
    JobIsAlone(s, j);
    assert Enabled(s, a) && Concerns(s, a, t);
    StepsDoTheWork(s, a, t);
    JobKeepsLimit(s, a, t, from);
    UnblockedIsClear(s, t, from);
    UnblockedIsClear(Step(s, a), t, from);
    if HasCyclesLeft(s.tasks[t]) {
      StaysClear(s, a, Limit(s.tasks[t], from));
    } else {
      JobIsReturning(s, t, j);
      if s.checking {
        StaysClear(s, a, from + 1);
      }
    }
  }

  lemma JobIsReturning(s: Timer, t: nat, j: nat)
    requires j < |s.jobs| && Returns(s.jobs[j].stage) && s.jobs[j].task == t
    ensures Returning(s, t)
  {
  }

  lemma JobKeepsLimit(s: Timer, a: Action, t: nat, from: nat)
    requires Inv(s) && Enabled(s, a) && Concerns(s, a, t) && Finite(s, t)
    requires a.Commit? || (a.Decide? && a.now == from)
    ensures var u := Step(s, a);
      && Finite(u, t) && u.checking == s.checking
      && (HasCyclesLeft(u.tasks[t]) <==> HasCyclesLeft(s.tasks[t]))
      && (HasCyclesLeft(s.tasks[t]) ==> Limit(u.tasks[t], from) == Limit(s.tasks[t], from))
  {
    var j := a.job;
    JobIsAlone(s, j);
    TasksAreSoundAt(s, t);
    hide Inv;
    hide Ready;
    if a.Decide? && HasCyclesLeft(s.tasks[t]) {
      DecisionAndLimit(s.tasks[t], from, from);
    }
  }

  /** A round or the end of the loop, while a job waits for the lock. */
  lemma LoopGoesOn(s: Timer, t: nat, from: nat) returns (a: Action)
    requires Inv(s) && Finite(s, t) && Unblocked(s, t, from)
    requires s.checking && Returning(s, t)
    ensures BringsOn(s, a, t, from)
  {
    hide Inv;
    hide Step;
    hide Enabled;
    hide Limit;
    hide Unblocked;
    hide StuckBefore;
    hide Work;
    hide Rounds;
    hide Returning;
    NoJobInTheQueueOf(s, t);
    ClearByNow(s, t, from);
    a := NextOfLoop(s, from);
    LoopConcernsQueued(s, a, t);
    StepLeaves(s, a, t);
    StepsDoTheWork(s, a, t);
    ReturningByStage(s, t);
    ReturningByStage(Step(s, a), t);
    UnblockedIsClear(s, t, from);
    UnblockedIsClear(Step(s, a), t, from);
    if HasCyclesLeft(s.tasks[t]) {
      StaysClear(s, a, Limit(s.tasks[t], from));
    } else {
      StaysClear(s, a, from + 1);
    }
  }

  lemma LoopConcernsQueued(s: Timer, a: Action, t: nat)
    requires Enabled(s, a) && (a.Check? || a.Rest?) && t !in s.priorityQueue
    ensures !Concerns(s, a, t)
  {
  }

  /** Nothing that stands in the way is due. */
  lemma ClearByNow(s: Timer, t: nat, from: nat)
    requires Inv(s) && Finite(s, t) && Unblocked(s, t, from) && s.checking && Returning(s, t)
    ensures !StuckBefore(s, from + 1)
  {
    UnblockedIsClear(s, t, from);
    var j :| 0 <= j < |s.jobs| && Returns(s.jobs[j].stage) && s.jobs[j].task == t;
    JobIsAlone(s, j);
    if HasCyclesLeft(s.tasks[t]) && s.tasks[t].kind.Repeated? {
      OneLess(s.tasks[t].cycles - |s.tasks[t].dispatches|, s.tasks[t].kind.interval);
    }
    hide Inv;
  }

  /** Over a clock that stands still and with nothing that spins, the loop of checkTasks comes
      nearer to its end. */
  lemma NextOfLoop(s: Timer, now: nat) returns (a: Action)
    requires Inv(s) && s.checking && !StuckBefore(s, now + 1)
    ensures (a.Check? || a.Rest?) && a.now == now && Enabled(s, a)
    ensures 0 <= Rounds(s, now) && 0 <= Rounds(Step(s, a), now)
    ensures !Step(s, a).checking || (Step(s, a).checking && Rounds(Step(s, a), now) < Rounds(s, now))
  {
    RoundsAreNotNegative(s, now);
    if s.priorityQueue == [] {
      a := Rest(now);
    } else {
      QueuedTasksExist(s);
      forall i | 0 <= i < |s.priorityQueue| ensures s.priorityQueue[i] < |s.tasks| {
        assert s.priorityQueue[i] in s.priorityQueue;
      }
      var top := TopExists(s, |s.priorityQueue|);
      a := Check(top, now);
      assert Enabled(s, a);
      if Works(s, a, now) {
        NothingSpinsBefore(s, now + 1);
        RoundCountsDown(s, a, now);
      }
    }
    StepKeepsInv(s, a);
    RoundsAreNotNegative(Step(s, a), now);
  }

  /** The next trigger of a queued task is not after its limit, which it keeps until it is due. */
  lemma QueuedTaskIsLive(s: Timer, t: nat, from: nat)
    requires Inv(s) && Finite(s, t) && t in s.priorityQueue
    ensures var task := s.tasks[t];
      && !task.removed && HasCyclesLeft(task)
      && task.triggered <= Limit(task, from) == Limit(task, Max(task.triggered, from))
  {
    var task := s.tasks[t];
    assert Sound(task) && Ready(task);
    hide Inv;
    match task.kind {
      case Repeated(interval) => OneLess(task.cycles - |task.dispatches|, interval);
      case _ => LaterBeat(|task.dispatches|, task.cycles - 1, Stride(task.kind));
    }
  }

  lemma RoundBringsOn(s: Timer, t: nat, from: nat) returns (a: Action)
    requires Inv(s) && Finite(s, t) && t in s.priorityQueue && Unblocked(s, t, from)
    ensures BringsOn(s, a, t, from)
  {
    hide Inv;
    hide Step;
    hide Enabled;
    hide Concerns;
    hide Limit;
    hide Unblocked;
    hide Returning;
    hide Work;
    hide IsSticker;
    hide Rounds;
    var task := s.tasks[t];
    var now := Max(task.triggered, from);
    QueuedTaskIsLive(s, t, from);
    UnblockedIsClear(s, t, from);
    a := NextRound(s, t, now);
    StepsDoTheWork(s, a, t);
    StaysClear(s, a, Limit(task, from));
    if Concerns(s, a, t) {
      DueRoundKeepsLimit(s, a, t, from);
    }
    UnblockedIsClear(Step(s, a), t, now);
  }

  lemma DueRoundKeepsLimit(s: Timer, a: Action, t: nat, from: nat)
    requires Inv(s) && Finite(s, t) && t in s.priorityQueue && HasCyclesLeft(s.tasks[t]) && !s.tasks[t].removed
    requires a.Check? && a.now == Max(s.tasks[t].triggered, from) && Enabled(s, a) && Concerns(s, a, t)
    ensures var u := Step(s, a);
      && Finite(u, t)
      && if HasCyclesLeft(u.tasks[t]) then Limit(u.tasks[t], a.now) == Limit(s.tasks[t], from)
         else Returning(u, t) ==> Limit(s.tasks[t], from) == a.now + 1
  {
    hide Inv;
    hide Limit;
    hide Checked;
    hide Returning;
    RoundServes(s, a.top, a.now);
    RoundSends(s, a.top, a.now);
    RoundAndLimit(s, a.top, from, a.now);
  }

  lemma SomeStepBringsOn(s: Timer, t: nat, from: nat) returns (a: Action)
    requires Inv(s) && Finite(s, t) && Unblocked(s, t, from) && (t in s.priorityQueue || InPool(s, t))
    ensures BringsOn(s, a, t, from)
  {
    hide Inv;
    hide BringsOn;
    hide Unblocked;
    if t in s.priorityQueue {
      a := RoundBringsOn(s, t, from);
    } else if Returning(s, t) {
      var j: nat :| j < |s.jobs| && Returns(s.jobs[j].stage) && s.jobs[j].task == t;
      if s.checking && s.jobs[j].stage != Submitted {
        a := LoopGoesOn(s, t, from);
      } else {
        a := JobBringsOn(s, t, j, from);
      }
    } else {
      a := EndBringsOn(s, t, from);
    }
  }

  // ---------- the main results ----------

  lemma {:induction false} RunToTheEnd(s: Timer, t: nat, from: nat) returns (run: seq<Action>)
    requires Inv(s) && Finite(s, t) && Unblocked(s, t, from)
    ensures Possible(s, run) && NoCancel(run) && Timely(run, from) && Finished(After(s, run), t)
    decreases Work(s, t), Rank(s, t, from)
  {
    hide Inv;
    hide Enabled;
    hide Step;
    hide Work;
    hide Rank;
    hide Finished;
    hide Unblocked;
    NoWorkIffFinished(s, t);
    if t !in s.priorityQueue && !InPool(s, t) {
      run := [];
      EmptyLoop(s, from);
    } else {
      var a := SomeStepBringsOn(s, t, from);
      StepKeepsInv(s, a);
      var rest := RunToTheEnd(Step(s, a), t, Clock(a, from));
      run := [a] + rest;
      Prepend(s, a, rest);
    }
  }

  /** Without the user removing another task the timer can bring this one to its end, on a clock
      that shows the given time now and never goes back. */
  ghost predicate CanBeFinished(s: Timer, t: nat, from: nat) {
    exists run :: Possible(s, run) && NoCancel(run) && Timely(run, from) && Finished(After(s, run), t)
  }

  /** A task with n > 0 cycles that the user leaves alone can be brought to exactly n dispatches,
      all of them run, and out of both maps exactly when no endless task of period zero stands in
      its way: none is queued before the limit of its last dispatch, or, when that is over, none
      that is due keeps the loop of checkTasks from giving back the lock its job waits for. */
  lemma FinishedIffUnblocked(s: Timer, t: nat, from: nat)
    requires Inv(s) && Finite(s, t)
    ensures CanBeFinished(s, t, from) <==> Unblocked(s, t, from)
  {
    hide Inv;
    hide Blocks;
    hide Possible;
    hide Timely;
    hide NoCancel;
    if Unblocked(s, t, from) {
      var run := RunToTheEnd(s, t, from);
    } else {
      var b: nat :| Blocks(s, t, b, from);
      forall run | Possible(s, run) && NoCancel(run) && Timely(run, from) ensures !Finished(After(s, run), t) {
        BlockedTaskIsNotFinished(s, run, t, b, from);
      }
    }
  }

  ghost predicate NothingSticks(s: Timer) {
    forall b: nat :: !IsSticker(s, b)
  }

  /** Every task added now with n > 0 cycles can be brought to its end, whether it is to run at once
      or not. */
  ghost predicate AdditionsFinish(s: Timer)
    requires s.buffer > 0
  {
    forall kind: Kind, cycles: int, right: bool, now: nat, from: nat :: cycles > 0 && !kind.Daily? ==>
      CanBeFinished(Added(s, kind, cycles, right, now), |s.tasks|, from)
  }

  lemma AddedTask(s: Timer, kind: Kind, cycles: int, right: bool, now: nat)
    requires Inv(s) && !s.checking && cycles > 0 && !kind.Daily?
    ensures var u := Added(s, kind, cycles, right, now);
      && Inv(u) && Finite(u, |s.tasks|)
      && (forall b: nat :: IsSticker(u, b) <==> IsSticker(s, b))
      && forall b: nat :: IsSticker(s, b) ==> b < |u.tasks| && u.tasks[b] == s.tasks[b]
  {
    hide Inv;
    hide Added;
    hide Sticks;
    QueuedTasksExist(s);
    AddKeepsInv(s, kind, cycles, right, now);
    NewTaskIsFinite(s, kind, cycles, right, now);
    forall b: nat
      ensures IsSticker(Added(s, kind, cycles, right, now), b) <==> IsSticker(s, b)
      ensures IsSticker(s, b) ==> Added(s, kind, cycles, right, now).tasks[b] == s.tasks[b]
    {
      if b < |s.tasks| {
        AddLeaves(s, kind, cycles, right, now, b);
      }
    }
  }

  lemma NewTaskIsFinite(s: Timer, kind: Kind, cycles: int, right: bool, now: nat)
    requires s.buffer > 0 && cycles > 0
    ensures var u := Added(s, kind, cycles, right, now);
      && |u.tasks| == |s.tasks| + 1 && Finite(u, |s.tasks|) && !Sticks(u.tasks[|s.tasks|])
      && u.checking == s.checking
      && (!right ==> u.tasks[|s.tasks|] == NewTask(kind, cycles, false, now))
  {
  }

  lemma QueuedTasksExist(s: Timer)
    requires Inv(s)
    ensures s.buffer > 0 && forall b :: b in s.priorityQueue ==> b < |s.tasks|
  {
  }

  /** In every reachable state in which the lock is free: whatever finite task is added can be
      brought to its end, exactly when no endless task of period zero is queued. */
  lemma AdditionsFinishIffNothingSticks(c: Setting, start: nat, run: seq<Action>)
    requires Proper(c) && Possible(Initial(c, start), run) && !After(Initial(c, start), run).checking
    ensures var s := After(Initial(c, start), run);
      s.buffer > 0 && (NothingSticks(s) <==> AdditionsFinish(s))
  {
    ReachableInv(c, start, run);
    var s := After(Initial(c, start), run);
    QueuedTasksExist(s);
    hide Inv;
    hide Possible;
    hide After;
    hide Added;
    hide CanBeFinished;
    var t := |s.tasks|;
    if NothingSticks(s) {
      forall kind: Kind, cycles: int, right: bool, now: nat, from: nat | cycles > 0 && !kind.Daily?
        ensures CanBeFinished(Added(s, kind, cycles, right, now), t, from)
      {
        AddedTask(s, kind, cycles, right, now);
        FinishedIffUnblocked(Added(s, kind, cycles, right, now), t, from);
      }
    } else {
      var b: nat :| IsSticker(s, b);
      LateTaskIsBlocked(s, b);
    }
  }

  lemma LateTaskIsBlocked(s: Timer, b: nat)
    requires Inv(s) && IsSticker(s, b) && !s.checking && s.buffer > 0
    ensures !CanBeFinished(Added(s, Repeated(s.tasks[b].triggered + 1), 1, false, 0), |s.tasks|, 0)
  {
    hide Inv;
    hide Added;
    var kind := Repeated(s.tasks[b].triggered + 1);
    var u := Added(s, kind, 1, false, 0);
    AddedTask(s, kind, 1, false, 0);
    NewTaskIsFinite(s, kind, 1, false, 0);
    assert Blocks(u, |s.tasks|, b, 0);
    FinishedIffUnblocked(u, |s.tasks|, 0);
  }

  /** An endless period task of period zero, and a task to be run once that comes later. */
  function Waiting(now: nat, later: nat, delay: nat): seq<Action> {
    [Add(Period(0), 0, false, now), Add(Repeated(delay), 1, false, later)]
  }

  lemma WaitingState(c: Setting, start: nat, now: nat, later: nat, delay: nat)
    requires Proper(c)
    ensures Possible(Initial(c, start), Waiting(now, later, delay))
    ensures var s := After(Initial(c, start), Waiting(now, later, delay));
      && s.priorityQueue == [0, 1]
      && s.tasks == [NewTask(Period(0), 0, false, now), NewTask(Repeated(delay), 1, false, later)]
  {
    hide Executed;
    var init := Initial(c, start);
    var run := Waiting(now, later, delay);
    assert run[..1] == [run[0]] && run[..1][..0] == [];
    assert Possible(init, []) && After(init, []) == init;
    assert Possible(init, run[..1]) && After(init, run[..1]) == Step(init, run[0]);
    assert Possible(init, run) && After(init, run) == Step(Step(init, run[0]), run[1]);
  }

  lemma SecondTaskIsStuck(s: Timer, now: nat, later: nat, delay: nat, from: nat)
    requires Inv(s) && s.priorityQueue == [0, 1] && now < later + delay
    requires s.tasks == [NewTask(Period(0), 0, false, now), NewTask(Repeated(delay), 1, false, later)]
    ensures 1 in s.priorityQueue && s.tasks[1].cycles == 1
    ensures !CanBeDispatched(s, 1) && !CanBeFinished(s, 1, from)
  {
    hide Inv;
    hide CanBeDispatched;
    hide CanBeFinished;
    assert s.priorityQueue[1] in s.priorityQueue && IsSticker(s, s.priorityQueue[0]);
    DispatchedIffNotStuck(s, 1);
    assert Blocks(s, 1, 0, from);
    FinishedIffUnblocked(s, 1, from);
  }

  /** A task that waits for ever: added for once behind an endless task of period zero, it can not
      even be dispatched. */
  lemma TaskThatWaitsForEver(c: Setting, start: nat, now: nat, later: nat, delay: nat)
    requires Proper(c) && now < later + delay
    ensures Possible(Initial(c, start), Waiting(now, later, delay))
    ensures var s := After(Initial(c, start), Waiting(now, later, delay));
      && 1 in s.priorityQueue && |s.tasks| == 2 && s.tasks[1].cycles == 1
      && !CanBeDispatched(s, 1)
  {
    hide *;
    WaitingState(c, start, now, later, delay);
    ReachableInv(c, start, Waiting(now, later, delay));
    SecondTaskIsStuck(After(Initial(c, start), Waiting(now, later, delay)), now, later, delay, 0);
  }

  lemma TaskThatNeverEnds(c: Setting, start: nat, now: nat, later: nat, delay: nat, from: nat)
    requires Proper(c) && now < later + delay
    ensures Possible(Initial(c, start), Waiting(now, later, delay))
    ensures !CanBeFinished(After(Initial(c, start), Waiting(now, later, delay)), 1, from)
  {
    hide *;
    WaitingState(c, start, now, later, delay);
    ReachableInv(c, start, Waiting(now, later, delay));
    SecondTaskIsStuck(After(Initial(c, start), Waiting(now, later, delay)), now, later, delay, from);
  }
}
