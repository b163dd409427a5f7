/** The loop of checkTasks: when it ends, in which order it dispatches, and what it leaves. Every
  round reads the clock for itself, and no reading is past a given moment. */
module TimerChecks {
  import opened Counting
  import opened Sequences
  import opened TimerProtocol

  /** The round takes its task off the queue: the loop goes on after it. */
  predicate Works(s: Timer, a: Action, until: nat) {
    && a.Check? && a.now <= until && Enabled(s, a)
    && (s.tasks[s.priorityQueue[a.top]].removed || s.tasks[s.priorityQueue[a.top]].triggered <= a.now)
  }

  /** Rounds of one call of checkTasks, up to the one that ends it, with the clock read no later
      than the given moment. */
  predicate Loop(s: Timer, run: seq<Action>, until: nat)
    requires Possible(s, run)
  {
    forall i :: 0 <= i < |run| ==> Works(Before(s, run, i), run[i], until)
  }

  lemma {:induction false} PrefixIsPossible(s: Timer, run: seq<Action>, i: nat)
    requires Possible(s, run) && i <= |run|
    ensures Possible(s, run[..i])
    decreases |run|
  {
    hide Enabled;
    if i < |run| {
      PrefixIsPossible(s, run[..|run| - 1], i);
      assert run[..|run| - 1][..i] == run[..i];
    } else {
      assert run[..i] == run;
    }
  }

  /** The state in which the i-th action of a run is taken. */
  function Before(s: Timer, run: seq<Action>, i: nat): Timer
    requires Possible(s, run) && i <= |run|
  {
    PrefixIsPossible(s, run, i);
    After(s, run[..i])
  }

  lemma EmptyLoop(s: Timer, until: nat)
    ensures Possible(s, []) && Loop(s, [], until) && After(s, []) == s
  {
  }

  lemma LoopPrefix(s: Timer, run: seq<Action>, until: nat)
    requires Possible(s, run) && run != [] && Loop(s, run, until)
    ensures var front := run[..|run| - 1];
      && Possible(s, front) && Loop(s, front, until)
      && Works(After(s, front), run[|run| - 1], until) && Enabled(After(s, front), run[|run| - 1])
      && After(s, run) == Step(After(s, front), run[|run| - 1])
  {
    hide Works;
    hide Step;
    var front := run[..|run| - 1];
    forall i | 0 <= i < |front| ensures Works(Before(s, front, i), front[i], until) {
      assert front[..i] == run[..i];
      assert Works(Before(s, run, i), run[i], until);
    }
    assert Before(s, run, |run| - 1) == After(s, front);
    assert Works(Before(s, run, |run| - 1), run[|run| - 1], until);
  }

  // ---------- the order of the rounds ----------

  /** No queued task has an earlier trigger. */
  predicate Floor(s: Timer, m: nat) {
    forall t :: t in s.priorityQueue && t < |s.tasks| ==> m <= s.tasks[t].triggered
  }

  lemma ExecutedKeepsFloor(s: Timer, t: nat, now: nat, m: nat)
    requires t < |s.tasks| && m <= s.tasks[t].triggered && Floor(s, m)
    ensures Floor(Executed(s, t, now), m)
  {
    var e := Executed(s, t, now);
    ExecutedTouches(s, t, now);
    assert e.tasks[t].triggered >= s.tasks[t].triggered;
    hide Executed;
  }

  lemma RoundKeepsFloor(s: Timer, a: Action, until: nat, m: nat)
    requires Works(s, a, until) && Floor(s, m)
    ensures Floor(Step(s, a), m)
  {
    var t := s.priorityQueue[a.top];
    assert t in s.priorityQueue;
    var popped := Popped(s, a.top);
    assert forall u :: u in popped.priorityQueue ==> u in s.priorityQueue;
    assert Floor(popped, m);
    if s.tasks[t].removed {
      hide Executed;
    } else {
      assert Step(s, a) == Executed(popped, t, a.now);
      hide Step;
      ExecutedKeepsFloor(popped, t, a.now, m);
    }
  }

  /** The trigger of the task that a round finds on top. */
  function TopTrigger(s: Timer, run: seq<Action>, i: nat, until: nat): nat
    requires Possible(s, run) && Loop(s, run, until) && i < |run|
  {
    var b := Before(s, run, i);
    b.tasks[b.priorityQueue[run[i].top]].triggered
  }

  lemma {:induction false} FloorFrom(s: Timer, run: seq<Action>, i: nat, until: nat)
    requires Possible(s, run) && Loop(s, run, until) && i < |run|
    ensures Floor(After(s, run), TopTrigger(s, run, i, until))
    decreases |run|
  {
    hide Step;
    hide Floor;
    var front := run[..|run| - 1];
    LoopPrefix(s, run, until);
    if i == |run| - 1 {
      TopIsFloor(After(s, front), run[i]);
    } else {
      FloorFrom(s, front, i, until);
      assert front[..i] == run[..i];
    }
    RoundKeepsFloor(After(s, front), run[|run| - 1], until, TopTrigger(s, run, i, until));
  }

  lemma TopIsFloor(s: Timer, a: Action)
    requires a.Check? && Enabled(s, a)
    ensures Floor(s, s.tasks[s.priorityQueue[a.top]].triggered)
  {
    forall t | t in s.priorityQueue ensures s.tasks[s.priorityQueue[a.top]].triggered <= s.tasks[t].triggered {
      var i :| 0 <= i < |s.priorityQueue| && s.priorityQueue[i] == t;
    }
  }

  /** The rounds of one call of checkTasks meet their tasks in the order of the triggers. */
  lemma RoundsAreInOrder(s: Timer, run: seq<Action>, i: nat, j: nat, until: nat)
    requires Possible(s, run) && Loop(s, run, until) && i < j < |run|
    ensures TopTrigger(s, run, i, until) <= TopTrigger(s, run, j, until)
  {
    hide Step;
    hide Enabled;
    var front := run[..j];
    PrefixIsPossible(s, run, j);
    forall k | 0 <= k < j ensures Works(Before(s, front, k), front[k], until) {
      assert front[..k] == run[..k];
      assert Works(Before(s, run, k), run[k], until);
    }
    FloorFrom(s, front, i, until);
    assert front[..i] == run[..i];
    TopIsQueued(After(s, front), run[j], until);
  }

  lemma TopIsQueued(s: Timer, a: Action, until: nat)
    requires Works(s, a, until)
    ensures s.priorityQueue[a.top] in s.priorityQueue && s.priorityQueue[a.top] < |s.tasks|
  {
  }

  // ---------- the end of the loop ----------

  /** A period task that goes on for ever and does not move its trigger. */
  predicate Sticks(task: Task) {
    !task.removed && task.kind == Period(0) && task.cycles <= 0
  }

  /** Such a task once it is due. */
  predicate Spins(task: Task, until: nat) {
    Sticks(task) && task.triggered <= until
  }

  predicate NothingSpins(s: Timer, until: nat) {
    forall t :: t in s.priorityQueue && t < |s.tasks| ==> !Spins(s.tasks[t], until)
  }

  /** How many of the triggers from one on are due. */
  function DueTriggers(from: nat, period: nat, until: nat): nat
    requires period > 0
    decreases until + period - from
  {
    if from > until then 0 else 1 + DueTriggers(from + period, period, until)
  }

  /** The rounds the loop can spend on a queued task. */
  function Cost(task: Task, until: nat): int {
    if task.removed then 1
    else if task.triggered > until then 0
    else if !task.kind.Period? then 1
    else if task.cycles > 0 then task.cycleTimes
    else if task.kind.period == 0 then 0
    else DueTriggers(task.triggered, task.kind.period, until)
  }

  function CostOf(tasks: seq<Task>, until: nat): nat -> int {
    (t: nat) => if t < |tasks| then Cost(tasks[t], until) else 0
  }

  function Rounds(s: Timer, until: nat): int {
    Sum(s.priorityQueue, CostOf(s.tasks, until))
  }

  /** A round spends one of the rounds of its task. */
  lemma RoundCosts(task: Task, now: nat, until: nat)
    requires Ready(task) && task.kind.Period? && !task.removed && task.triggered <= until && !Spins(task, until)
    requires task.cycles <= 0 ==> task.cycleTimes == task.cycles
    ensures var sent := Decided(task, now).(dispatches := task.dispatches + [task.triggered]);
      if Expires(task) then Cost(task, until) >= 1 else Cost(sent, until) <= Cost(task, until) - 1
  {
  }

  lemma {:induction false} CostsArePositive(q: seq<nat>, tasks: seq<Task>, until: nat)
    requires forall t :: t in q && t < |tasks| ==> Ready(tasks[t])
    ensures Sum(q, CostOf(tasks, until)) >= 0
  {
    if q != [] {
      CostsArePositive(q[..|q| - 1], tasks, until);
      assert q[|q| - 1] in q;
    }
  }

  /** The task that executeTask got, as it is queued again. */
  lemma ExecutedTask(s: Timer, t: nat, now: nat)
    requires t < |s.tasks| && t !in s.priorityQueue
    ensures var e := Executed(s, t, now);
      t in e.priorityQueue ==>
        && s.tasks[t].kind.Period? && !Expires(s.tasks[t]) && e.priorityQueue == s.priorityQueue + [t]
        && e.tasks[t] == Decided(s.tasks[t], now).(dispatches := s.tasks[t].dispatches + [s.tasks[t].triggered])
  {
  }

  lemma ExecutedCosts(s: Timer, t: nat, now: nat, until: nat)
    requires t < |s.tasks| && t !in s.priorityQueue
    requires Ready(s.tasks[t]) && Sound(s.tasks[t])
    requires !s.tasks[t].removed && s.tasks[t].triggered <= until && !Spins(s.tasks[t], until)
    ensures Rounds(Executed(s, t, now), until) <= Rounds(s, until) + Cost(s.tasks[t], until) - 1
    ensures t in Executed(s, t, now).priorityQueue ==> !Spins(Executed(s, t, now).tasks[t], until)
  {
    var e := Executed(s, t, now);
    var q := s.priorityQueue;
    ExecutedTouches(s, t, now);
    ExecutedTask(s, t, now);
    hide Executed;
    hide Sum;
    SumAgrees(q, CostOf(s.tasks, until), CostOf(e.tasks, until));
    if t in e.priorityQueue {
      SumAppend(q, t, CostOf(e.tasks, until));
      RoundCosts(s.tasks[t], now, until);
    } else {
      assert e.priorityQueue == q by {
        assert t in q + [t];
      }
      assert Cost(s.tasks[t], until) >= 1;
    }
  }

  lemma ExecutedStartsNothing(s: Timer, t: nat, now: nat, until: nat)
    requires t < |s.tasks| && t !in s.priorityQueue && NothingSpins(s, until)
    requires t in Executed(s, t, now).priorityQueue ==> !Spins(Executed(s, t, now).tasks[t], until)
    ensures NothingSpins(Executed(s, t, now), until)
  {
    ExecutedTouches(s, t, now);
    hide Executed;
    hide Spins;
  }

  /** A round that takes its task off the queue leaves fewer rounds, and sets nothing spinning. */
  lemma RoundCountsDown(s: Timer, a: Action, until: nat)
    requires Inv(s) && Works(s, a, until) && NothingSpins(s, until)
    ensures Rounds(Step(s, a), until) <= Rounds(s, until) - 1
    ensures NothingSpins(Step(s, a), until)
  {
    hide Inv;
    hide Ready;
    hide Sound;
    hide Sum;
    hide Executed;
    var t := s.priorityQueue[a.top];
    TopTask(s, a.top);
    var popped := Popped(s, a.top);
    SumRemove(s.priorityQueue, a.top, CostOf(s.tasks, until));
    assert NothingSpins(popped, until) && !Spins(s.tasks[t], until);
    if s.tasks[t].removed {
      assert Step(s, a) == popped;
    } else {
      assert Step(s, a) == Executed(popped, t, a.now);
      hide Step;
      hide NothingSpins;
      hide Spins;
      ExecutedCosts(popped, t, a.now, until);
      ExecutedStartsNothing(popped, t, a.now, until);
    }
  }

  lemma {:induction false} LoopIsBounded(s: Timer, run: seq<Action>, until: nat)
    requires Inv(s) && NothingSpins(s, until) && Possible(s, run) && Loop(s, run, until)
    ensures Inv(After(s, run)) && NothingSpins(After(s, run), until)
    ensures |run| + Rounds(After(s, run), until) <= Rounds(s, until)
    ensures |run| <= Rounds(s, until)
    decreases |run|
  {
    hide Step;
    hide Enabled;
    if run != [] {
      var front := run[..|run| - 1];
      LoopPrefix(s, run, until);
      LoopIsBounded(s, front, until);
      RoundCountsDown(After(s, front), run[|run| - 1], until);
      StepKeepsInv(After(s, front), run[|run| - 1]);
    }
    CostsArePositive(After(s, run).priorityQueue, After(s, run).tasks, until);
  }

  /** A task that spins is queued again as it was. */
  lemma RoundKeepsSpinner(s: Timer, a: Action, until: nat, t: nat)
    requires Inv(s) && Works(s, a, until) && t in s.priorityQueue && t < |s.tasks| && Spins(s.tasks[t], until)
    ensures var u := Step(s, a);
      t in u.priorityQueue && t < |u.tasks| && Spins(u.tasks[t], until)
  {
    if s.priorityQueue[a.top] == t {
      assert Sound(s.tasks[t]);
      hide Ready;
      hide IdsAgree;
      var popped := Popped(s, a.top);
      assert Step(s, a) == Executed(popped, t, a.now);
      assert t in popped.priorityQueue + [t];
    } else {
      CheckPasses(s, a.top, a.now, t);
    }
  }

  /** Over a task that spins the loop goes on for as long as one likes. */
  lemma {:induction false} SpinningLoop(s: Timer, until: nat, t: nat, n: nat) returns (run: seq<Action>)
    requires Inv(s) && t in s.priorityQueue && t < |s.tasks| && Spins(s.tasks[t], until)
    ensures |run| == n && Possible(s, run) && Loop(s, run, until)
    ensures var u := After(s, run);
      Inv(u) && t in u.priorityQueue && t < |u.tasks| && Spins(u.tasks[t], until)
  {
    if n == 0 {
      run := [];
    } else {
      var front := SpinningLoop(s, until, t, n - 1);
      var u := After(s, front);
      var a := SpinnerWorks(u, until, t);
      run := front + [a];
      hide Inv;
      hide Works;
      hide Enabled;
      hide Step;
      ExtendLoop(s, front, a, until);
      RoundKeepsSpinner(u, a, until, t);
      StepKeepsInv(u, a);
    }
  }

  lemma SpinnerWorks(s: Timer, until: nat, t: nat) returns (a: Action)
    requires Inv(s) && t in s.priorityQueue && t < |s.tasks| && Spins(s.tasks[t], until)
    ensures Works(s, a, until) && Enabled(s, a)
  {
    forall i | 0 <= i < |s.priorityQueue| ensures s.priorityQueue[i] < |s.tasks| {
      assert s.priorityQueue[i] in s.priorityQueue;
    }
    var top := TopExists(s, |s.priorityQueue|);
    a := Check(top, until);
    var i :| 0 <= i < |s.priorityQueue| && s.priorityQueue[i] == t;
    assert s.tasks[s.priorityQueue[top]].triggered <= s.tasks[s.priorityQueue[i]].triggered;
  }

  lemma ExtendLoop(s: Timer, front: seq<Action>, a: Action, until: nat)
    requires Possible(s, front) && Loop(s, front, until)
    requires Enabled(After(s, front), a) && Works(After(s, front), a, until)
    ensures var run := front + [a];
      Possible(s, run) && Loop(s, run, until) && After(s, run) == Step(After(s, front), a)
  {
    hide Works;
    hide Enabled;
    hide Step;
    var run := front + [a];
    assert run[..|run| - 1] == front;
    forall i | 0 <= i < |run| ensures Works(Before(s, run, i), run[i], until) {
      if i < |front| {
        assert run[..i] == front[..i];
        assert Works(Before(s, front, i), front[i], until);
      } else {
        assert run[..i] == front;
      }
    }
  }

  ghost predicate LoopsAreShort(s: Timer, until: nat, bound: int) {
    forall run: seq<Action> :: Possible(s, run) && Loop(s, run, until) ==> |run| <= bound
  }

  /** When the clock is read no later than a given moment, the loop of checkTasks comes to an end
      exactly when no queued task spins by then. */
  lemma LoopEndsIffNothingSpins(s: Timer, until: nat)
    requires Inv(s)
    ensures NothingSpins(s, until) <==> exists bound: int :: LoopsAreShort(s, until, bound)
  {
    hide Possible;
    hide Loop;
    if NothingSpins(s, until) {
      forall run: seq<Action> | Possible(s, run) && Loop(s, run, until) ensures |run| <= Rounds(s, until) {
        LoopIsBounded(s, run, until);
      }
      assert LoopsAreShort(s, until, Rounds(s, until));
    } else {
      var t :| t in s.priorityQueue && t < |s.tasks| && Spins(s.tasks[t], until);
      forall bound: int ensures !LoopsAreShort(s, until, bound) {
        var run := SpinningLoop(s, until, t, if bound < 0 then 0 else bound + 1);
        assert |run| > bound;
      }
    }
  }

  lemma RoundOf(s: Timer, top: nat, now: nat, until: nat)
    requires Inv(s) && NothingSpins(s, until) && IsTop(s, top) && now <= until
    requires s.tasks[s.priorityQueue[top]].removed || s.tasks[s.priorityQueue[top]].triggered <= now
    ensures var a := Check(top, now);
      && Works(s, a, until) && Enabled(s, a) && Step(s, a) == Checked(s, top, now)
      && Inv(Checked(s, top, now)) && NothingSpins(Checked(s, top, now), until)
      && Rounds(Checked(s, top, now), until) < Rounds(s, until)
  {
    var a := Check(top, now);
    assert Works(s, a, until) && Enabled(s, a) && Step(s, a) == Checked(s, top, now);
    hide *;
    RoundCountsDown(s, a, until);
    StepKeepsInv(s, a);
  }

  /** What a further round does to a loop that nothing keeps spinning. */
  lemma RoundFacts(s: Timer, run: seq<Action>, top: nat, now: nat, until: nat)
    requires Possible(s, run) && Loop(s, run, until) && now <= until
    requires var u := After(s, run);
      Inv(u) && NothingSpins(u, until) && IsTop(u, top)
      && (u.tasks[u.priorityQueue[top]].removed || u.tasks[u.priorityQueue[top]].triggered <= now)
    ensures var u, longer := After(s, run), run + [Check(top, now)];
      && Possible(s, longer) && Loop(s, longer, until) && After(s, longer) == Checked(u, top, now)
      && Inv(After(s, longer)) && NothingSpins(After(s, longer), until)
      && Rounds(After(s, longer), until) < Rounds(u, until) && Rounds(u, until) > 0
  {
    hide *;
    RoundOf(After(s, run), top, now, until);
    ExtendLoop(s, run, Check(top, now), until);
    RoundsArePositive(s, run + [Check(top, now)], until);
  }

  lemma RoundsArePositive(s: Timer, run: seq<Action>, until: nat)
    requires Possible(s, run) && Inv(After(s, run))
    ensures Rounds(After(s, run), until) >= 0
  {
    CostsArePositive(After(s, run).priorityQueue, After(s, run).tasks, until);
  }
}
