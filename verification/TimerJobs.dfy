/** The jobs that the timer gives to the thread pool: one for each dispatch, and which of them can
  be there at the same time. */
module TimerJobs {
  import opened Counting
  import opened TimerProtocol

  function IsOf(t: nat): Job -> int {
    (job: Job) => if job.task == t then 1 else 0
  }

  /** As many jobs of a task were given to the pool as it has dispatches. */
  ghost predicate JobsMatch(s: Timer) {
    forall t: nat :: Sum(s.jobs, IsOf(t)) == if t < |s.tasks| then |s.tasks[t].dispatches| else 0
  }

  lemma ExecutedMatches(s: Timer, t: nat, now: nat)
    requires t < |s.tasks| && JobsMatch(s)
    ensures JobsMatch(Executed(s, t, now))
  {
    hide Sum;
    var e := Executed(s, t, now);
    var job := Job(t, FirstStage(s.tasks[t]));
    assert |e.tasks| == |s.tasks| && e.jobs == s.jobs + [job];
    forall u: nat ensures Sum(e.jobs, IsOf(u)) == if u < |e.tasks| then |e.tasks[u].dispatches| else 0 {
      SumAppend(s.jobs, job, IsOf(u));
    }
  }

  /** A job goes on. */
  lemma JobGoesOn(s: Timer, u: Timer, j: nat, job: Job)
    requires JobsMatch(s) && j < |s.jobs| && job.task == s.jobs[j].task && u.jobs == s.jobs[j := job]
    requires |u.tasks| == |s.tasks|
    requires forall t :: 0 <= t < |s.tasks| ==> u.tasks[t].dispatches == s.tasks[t].dispatches
    ensures JobsMatch(u)
  {
    hide Sum;
    forall t: nat ensures Sum(u.jobs, IsOf(t)) == if t < |u.tasks| then |u.tasks[t].dispatches| else 0 {
      SumUpdate(s.jobs, j, job, IsOf(t));
    }
  }

  lemma StepKeepsMatch(s: Timer, a: Action)
    requires Enabled(s, a) && JobsMatch(s)
    ensures JobsMatch(Step(s, a))
  {
    hide Sum;
    hide Executed;
    match a {
      case Add(kind, cycles, right, now) =>
        var r := Registered(s, NewTask(kind, cycles, right, now));
        assert JobsMatch(r);
        if right {
          ExecutedMatches(r, |s.tasks|, now);
        }
      case Check(top, now) => CheckKeepsMatch(s, top, now);
      case Decide(j, now) => JobGoesOn(s, DecidedJob(s, j, now), j, DecidedJob(s, j, now).jobs[j]);
      case Commit(j) => JobGoesOn(s, CommittedJob(s, j), j, Job(s.jobs[j].task, Done));
      case Finish(j) => JobGoesOn(s, FinishedJob(s, j), j, Job(s.jobs[j].task, Done));
      case _ =>
    }
  }

  lemma CheckKeepsMatch(s: Timer, top: nat, now: nat)
    requires IsTop(s, top) && JobsMatch(s)
    ensures JobsMatch(Checked(s, top, now))
  {
    hide Sum;
    hide Executed;
    assert JobsMatch(Popped(s, top));
    ExecutedMatches(Popped(s, top), s.priorityQueue[top], now);
  }

  lemma {:induction false} RunKeepsMatch(s: Timer, run: seq<Action>)
    requires Possible(s, run) && JobsMatch(s)
    ensures JobsMatch(After(s, run))
    decreases |run|
  {
    hide JobsMatch;
    hide Step;
    hide Enabled;
    if run != [] {
      RunKeepsMatch(s, run[..|run| - 1]);
      StepKeepsMatch(After(s, run[..|run| - 1]), run[|run| - 1]);
    }
  }

  /** Every dispatch reaches the pool as one job, and nothing else does. */
  lemma DispatchesAreJobs(c: Setting, start: nat, run: seq<Action>, t: nat)
    requires Possible(Initial(c, start), run)
    ensures var s := After(Initial(c, start), run);
      Sum(s.jobs, IsOf(t)) == if t < |s.tasks| then |s.tasks[t].dispatches| else 0
  {
    assert JobsMatch(Initial(c, start));
    RunKeepsMatch(Initial(c, start), run);
  }

  /** A queue that holds one endless period task, whose runs so far are not over. */
  ghost predicate Overruns(s: Timer, period: nat, n: nat) {
    && s.priorityQueue == [0] && |s.tasks| == 1
    && s.tasks[0].kind == Period(period) && s.tasks[0].cycleTimes <= 0 && !s.tasks[0].removed
    && |s.jobs| == n && forall j :: 0 <= j < n ==> s.jobs[j] == Job(0, Sent)
  }

  /** The runs of a period task do not wait for each other: when they take longer than the period,
      any number of them is with the pool while the task is queued. */
  lemma {:induction false} RunsOverlap(c: Setting, start: nat, period: nat, n: nat) returns (run: seq<Action>)
    requires Proper(c)
    ensures Possible(Initial(c, start), run) && Overruns(After(Initial(c, start), run), period, n)
  {
    var init := Initial(c, start);
    hide Executed;
    if n == 0 {
      run := [Add(Period(period), 0, false, 0)];
      assert run[..0] == [] && Possible(init, []) && After(init, []) == init;
      assert After(init, run) == Step(init, run[0]);
    } else {
      var front := RunsOverlap(c, start, period, n - 1);
      var s := After(init, front);
      var a := Check(0, s.tasks[0].triggered);
      run := front + [a];
      assert run[..|run| - 1] == front;
      hide Possible;
      OverrunGoesOn(s, period, n - 1);
    }
  }

  lemma OverrunGoesOn(s: Timer, period: nat, n: nat)
    requires Overruns(s, period, n)
    ensures var a := Check(0, s.tasks[0].triggered);
      Enabled(s, a) && Overruns(Step(s, a), period, n + 1)
  {
  }

  const OVERLAP := [Add(Period(10), 0, true, 0), Check(0, 10)]

  /** The shortest case: added to run at once, and due again before that run is over. */
  lemma QueuedWithTwoRuns(c: Setting, start: nat)
    requires Proper(c)
    ensures Possible(Initial(c, start), OVERLAP)
    ensures var s := After(Initial(c, start), OVERLAP);
      && s.priorityQueue == [0] && s.jobs == [Job(0, Sent), Job(0, Sent)]
      && |s.tasks| == 1 && s.tasks[0].dispatches == [0, 10]
  {
    var init := Initial(c, start);
    assert OVERLAP[..1] == [OVERLAP[0]] && OVERLAP[..1][..0] == [];
    assert Possible(init, []) && After(init, []) == init;
    var s := Step(init, OVERLAP[0]);
    assert Possible(init, OVERLAP[..1]) && After(init, OVERLAP[..1]) == s;
    assert s.priorityQueue == [0] && |s.tasks| == 1 && s.tasks[0].triggered == 10;
    assert Possible(init, OVERLAP) && After(init, OVERLAP) == Step(s, OVERLAP[1]);
  }
}
