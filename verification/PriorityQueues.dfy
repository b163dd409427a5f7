/** The task queues of the two ParamTemplateThreadPool headers: one deque that prior tasks enter at
  the front, and a pair of queues. Both keep to one discipline. */
module PriorityQueues {
  import opened Sequences

  /** What waits, oldest first. */
  datatype Waiting<K> = Waiting(prior: seq<K>, ordinary: seq<K>)

  function Size<K>(w: Waiting<K>): nat {
    |w.prior| + |w.ordinary|
  }

  // ---------- the discipline ----------

  datatype Call<K> = Wake(task: K) | Force(task: K) | Prior(task: K) | Take

  predicate Accepts<K>(w: Waiting<K>, max: nat) {
    max == 0 || Size(w) < max
  }

  /** The task that is taken next: a prior one if there is one, the newest or the oldest. */
  function Front<K>(w: Waiting<K>, newestFirst: bool): K
    requires Size(w) > 0
  {
    if w.prior == [] then w.ordinary[0] else if newestFirst then w.prior[|w.prior| - 1] else w.prior[0]
  }

  function Called<K>(w: Waiting<K>, c: Call<K>, max: nat, newestFirst: bool): Waiting<K> {
    match c
    case Wake(x) => if Accepts(w, max) then w.(ordinary := w.ordinary + [x]) else w
    case Force(x) => w.(ordinary := w.ordinary + [x])
    case Prior(x) => w.(prior := w.prior + [x])
    case Take =>
      if w.prior != [] then
        w.(prior := if newestFirst then w.prior[..|w.prior| - 1] else w.prior[1..])
      else if w.ordinary != [] then w.(ordinary := w.ordinary[1..])
      else w
  }

  /** What waits after a run of calls, and the prior and ordinary tasks that were taken, in order. */
  datatype History<K> = History(waiting: Waiting<K>, priorTaken: seq<K>, ordinaryTaken: seq<K>)

  function Next<K>(h: History<K>, c: Call<K>, max: nat, newestFirst: bool): History<K> {
    var w := h.waiting;
    History(Called(w, c, max, newestFirst),
            if c.Take? && w.prior != [] then h.priorTaken + [Front(w, newestFirst)] else h.priorTaken,
            if c.Take? && w.prior == [] && w.ordinary != [] then h.ordinaryTaken + [w.ordinary[0]]
            else h.ordinaryTaken)
  }

  function After<K>(run: seq<Call<K>>, max: nat, newestFirst: bool): History<K> {
    if run == [] then History(Waiting([], []), [], [])
    else Next(After(run[..|run| - 1], max, newestFirst), run[|run| - 1], max, newestFirst)
  }

  function PriorCalls<K>(run: seq<Call<K>>): seq<K> {
    if run == [] then []
    else
      var front, c := PriorCalls(run[..|run| - 1]), run[|run| - 1];
      if c.Prior? then front + [c.task] else front
  }

  ghost predicate Agree<K>(deque: History<K>, pair: History<K>, prior: seq<K>) {
    && deque.ordinaryTaken == pair.ordinaryTaken && deque.waiting.ordinary == pair.waiting.ordinary
    && |deque.priorTaken| == |pair.priorTaken| && |deque.waiting.prior| == |pair.waiting.prior|
    && multiset(deque.priorTaken) + multiset(deque.waiting.prior) == multiset(prior)
    && pair.priorTaken + pair.waiting.prior == prior
  }

  lemma TakingKeepsTasks<K>(taken: seq<K>, waiting: seq<K>)
    requires waiting != []
    ensures var last := |waiting| - 1;
      multiset(taken + [waiting[last]]) + multiset(waiting[..last]) == multiset(taken) + multiset(waiting)
    ensures taken + [waiting[0]] + waiting[1..] == taken + waiting
  {
    assert waiting == waiting[..|waiting| - 1] + [waiting[|waiting| - 1]];
    assert waiting == [waiting[0]] + waiting[1..];
  }

  lemma CallKeepsAgreement<K>(deque: History<K>, pair: History<K>, prior: seq<K>, c: Call<K>, max: nat)
    requires Agree(deque, pair, prior)
    ensures Agree(Next(deque, c, max, true), Next(pair, c, max, false), if c.Prior? then prior + [c.task] else prior)
  {
    match c {
      case Wake(_) =>
      case Force(_) =>
      case Prior(x) =>
        assert pair.priorTaken + (pair.waiting.prior + [x]) == prior + [x];
        assert multiset(deque.waiting.prior + [x]) == multiset(deque.waiting.prior) + multiset{x};
      case Take =>
        if deque.waiting.prior != [] {
          TakeKeepsAgreement(deque, pair, prior, max);
        }
    }
  }

  lemma TakeKeepsAgreement<K>(deque: History<K>, pair: History<K>, prior: seq<K>, max: nat)
    requires Agree(deque, pair, prior) && deque.waiting.prior != []
    ensures Agree(Next(deque, Take, max, true), Next(pair, Take, max, false), prior)
  {
    var d, p := deque.waiting.prior, pair.waiting.prior;
    var last := |d| - 1;
    assert Next(deque, Take, max, true)
        == History(Waiting(d[..last], deque.waiting.ordinary), deque.priorTaken + [d[last]], deque.ordinaryTaken);
    assert Next(pair, Take, max, false)
        == History(Waiting(p[1..], pair.waiting.ordinary), pair.priorTaken + [p[0]], pair.ordinaryTaken);
    hide Next;
    TakingKeepsTasks(deque.priorTaken, d);
    TakingKeepsTasks(pair.priorTaken, p);
  }

  /** Whichever form runs, at every moment as many prior and the same ordinary tasks wait and have
      been taken. The two differ in the order of the prior tasks alone: the deque serves the same
      ones, the pair of queues serves them as they came. */
  lemma {:induction false} FormsAgree<K>(run: seq<Call<K>>, max: nat)
    ensures Agree(After(run, max, true), After(run, max, false), PriorCalls(run))
    decreases |run|
  {
    if run != [] {
      var front := run[..|run| - 1];
      FormsAgree(front, max);
      CallKeepsAgreement(After(front, max, true), After(front, max, false), PriorCalls(front), run[|run| - 1], max);
      hide Agree;
      hide Next;
    }
  }

  /** Ordinary tasks leave in the order in which they were accepted. */
  lemma {:induction false} OrdinaryTasksKeepTheirOrder<K>(run: seq<Call<K>>, max: nat, newestFirst: bool)
    ensures var h := After(run, max, newestFirst);
      h.ordinaryTaken + h.waiting.ordinary == OrdinaryCalls(run, max, newestFirst)
    decreases |run|
  {
    if run != [] {
      OrdinaryTasksKeepTheirOrder(run[..|run| - 1], max, newestFirst);
    }
  }

  function OrdinaryCalls<K>(run: seq<Call<K>>, max: nat, newestFirst: bool): seq<K> {
    if run == [] then []
    else
      var front, c := OrdinaryCalls(run[..|run| - 1], max, newestFirst), run[|run| - 1];
      if c.Force? || (c.Wake? && Accepts(After(run[..|run| - 1], max, newestFirst).waiting, max))
      then front + [c.task] else front
  }

  /** No ordinary task is taken while a prior one waits: when a call takes one, every prior task
      called for so far has been taken. */
  lemma PriorTasksGoFirst<K>(run: seq<Call<K>>, c: Call<K>, max: nat, newestFirst: bool)
    requires After(run + [c], max, newestFirst).ordinaryTaken != After(run, max, newestFirst).ordinaryTaken
    ensures c == Take
    ensures multiset(After(run, max, newestFirst).priorTaken) == multiset(PriorCalls(run))
  {
    OneMoreCall(run, c, max, newestFirst);
    FormsAgree(run, max);
    hide After;
    hide PriorCalls;
  }

  /** The task to be taken next. The pair of queues serves the prior tasks as they came, the deque
      serves the newest that waits; the ordinary tasks come last, in the order of acceptance. */
  ghost predicate IsNext<K>(task: K, run: seq<Call<K>>, max: nat, newestFirst: bool) {
    var h, prior, ordinary := After(run, max, newestFirst), PriorCalls(run), OrdinaryCalls(run, max, newestFirst);
    if |h.priorTaken| < |prior| then
      if newestFirst then h.waiting.prior != [] && task == h.waiting.prior[|h.waiting.prior| - 1]
      else task == prior[|h.priorTaken|]
    else |h.ordinaryTaken| < |ordinary| && task == ordinary[|h.ordinaryTaken|]
  }

  /** The task at the front is the one to be taken next. */
  lemma NextTask<K>(run: seq<Call<K>>, max: nat, newestFirst: bool)
    ensures var w := After(run, max, newestFirst).waiting;
      Size(w) > 0 ==> IsNext(Front(w, newestFirst), run, max, newestFirst)
  {
    FormsAgree(run, max);
    OrdinaryTasksKeepTheirOrder(run, max, newestFirst);
    var h := After(run, max, newestFirst);
    assert |multiset(h.priorTaken) + multiset(h.waiting.prior)| == |h.priorTaken| + |h.waiting.prior|;
    assert |multiset(PriorCalls(run))| == |PriorCalls(run)|;
    hide After;
  }

  lemma OneMoreCall<K>(run: seq<Call<K>>, c: Call<K>, max: nat, newestFirst: bool)
    ensures After(run + [c], max, newestFirst) == Next(After(run, max, newestFirst), c, max, newestFirst)
    ensures OrdinaryCalls(run + [c], max, newestFirst)
         == OrdinaryCalls(run, max, newestFirst)
            + if c.Force? || (c.Wake? && Accepts(After(run, max, newestFirst).waiting, max)) then [c.task] else []
  {
    assert (run + [c])[..|run|] == run;
  }

  // ---------- the two pools ----------

  /** ParamTemplateThreadPool.h. The limit zero is no limit. */
  class DequePool<K> {
    var taskQueue: seq<K>
    const maxQueueLength: nat
    /** The calls so far. */
    ghost var run: seq<Call<K>>

    ghost function Past(): History<K>
      reads this
    {
      After(run, maxQueueLength, true)
    }

    /** The deque holds the prior tasks, newest first, and then the others, oldest first. */
    ghost predicate Valid()
      reads this
    {
      taskQueue == Reversed(Past().waiting.prior) + Past().waiting.ordinary
    }

    constructor (maxQueueLength: nat)
      ensures Valid() && run == [] && this.maxQueueLength == maxQueueLength
    {
      taskQueue, this.maxQueueLength, run := [], maxQueueLength, [];
    }

    /** An ordinary task is refused exactly when as many tasks wait as the limit allows. */
    method WakeUp(task: K) returns (accepted: bool)
      requires Valid()
      modifies this
      ensures Valid() && run == old(run) + [Wake(task)]
      ensures accepted <==> maxQueueLength == 0 || |old(taskQueue)| < maxQueueLength
      ensures taskQueue == old(taskQueue) + if accepted then [task] else []
      ensures OrdinaryCalls(run, maxQueueLength, true)
           == OrdinaryCalls(old(run), maxQueueLength, true) + if accepted then [task] else []
    {
      hide After;
      hide OrdinaryCalls;
      hide Reversed;
      OneMoreCall(run, Wake(task), maxQueueLength, true);
      Regroup(Reversed(Past().waiting.prior), Past().waiting.ordinary, [task]);
      run := run + [Wake(task)];
      if maxQueueLength != 0 && maxQueueLength <= |taskQueue| {
        return false;
      }
      accepted := true;
      taskQueue := taskQueue + [task];
    }

    method ForceWakeUp(task: K)
      requires Valid()
      modifies this
      ensures Valid() && run == old(run) + [Force(task)] && taskQueue == old(taskQueue) + [task]
    {
      hide After;
      hide OrdinaryCalls;
      hide Reversed;
      OneMoreCall(run, Force(task), maxQueueLength, true);
      Regroup(Reversed(Past().waiting.prior), Past().waiting.ordinary, [task]);
      run := run + [Force(task)];
      taskQueue := taskQueue + [task];
    }

    method PriorWakeUp(task: K)
      requires Valid()
      modifies this
      ensures Valid() && run == old(run) + [Prior(task)] && taskQueue == [task] + old(taskQueue)
    {
      OneMoreCall(run, Prior(task), maxQueueLength, true);
      ReversedPush(Past().waiting.prior, task);
      run := run + [Prior(task)];
      taskQueue := [task] + taskQueue;
    }

    /** process takes the front: the newest prior task that waits, and only when none does the
        ordinary task that was accepted first of those not taken yet. */
    method TakeFront() returns (task: K)
      requires Valid() && taskQueue != []
      modifies this
      ensures Valid() && run == old(run) + [Take]
      ensures IsNext(task, old(run), maxQueueLength, true)
    {
      NextTask(run, maxQueueLength, true);
      OneMoreCall(run, Take, maxQueueLength, true);
      var prior := Past().waiting.prior;
      if prior != [] {
        var last := |prior| - 1;
        ReversedPush(prior[..last], prior[last]);
        assert prior == prior[..last] + [prior[last]];
      }
      run := run + [Take];
      task := taskQueue[0];
      taskQueue := taskQueue[1..];
    }
  }

  /** ParamTemplateThreadPool.double.queue.h. */
  class DoubleQueuePool<K> {
    var priorQueue: seq<K>
    var taskQueue: seq<K>
    const maxQueueLength: nat
    /** The calls so far. */
    ghost var run: seq<Call<K>>

    ghost predicate Valid()
      reads this
    {
      Waiting(priorQueue, taskQueue) == After(run, maxQueueLength, false).waiting
    }

    constructor (maxQueueLength: nat)
      ensures Valid() && run == [] && this.maxQueueLength == maxQueueLength
    {
      priorQueue, taskQueue, this.maxQueueLength, run := [], [], maxQueueLength, [];
    }

    /** An ordinary task is refused exactly when as many tasks wait as the limit allows. */
    method WakeUp(task: K) returns (accepted: bool)
      requires Valid()
      modifies this
      ensures Valid() && run == old(run) + [Wake(task)]
      ensures accepted <==> maxQueueLength == 0 || |old(priorQueue)| + |old(taskQueue)| < maxQueueLength
      ensures OrdinaryCalls(run, maxQueueLength, false)
           == OrdinaryCalls(old(run), maxQueueLength, false) + if accepted then [task] else []
    {
      OneMoreCall(run, Wake(task), maxQueueLength, false);
      run := run + [Wake(task)];
      if maxQueueLength != 0 && maxQueueLength <= |taskQueue| + |priorQueue| {
        return false;
      }
      accepted := true;
      taskQueue := taskQueue + [task];
    }

    method ForceWakeUp(task: K)
      requires Valid()
      modifies this
      ensures Valid() && run == old(run) + [Force(task)] && |taskQueue| > 0 && taskQueue[|taskQueue| - 1] == task
    {
      OneMoreCall(run, Force(task), maxQueueLength, false);
      run := run + [Force(task)];
      taskQueue := taskQueue + [task];
    }

    method PriorWakeUp(task: K)
      requires Valid()
      modifies this
      ensures Valid() && run == old(run) + [Prior(task)] && |priorQueue| > 0 && priorQueue[|priorQueue| - 1] == task
    {
      OneMoreCall(run, Prior(task), maxQueueLength, false);
      run := run + [Prior(task)];
      priorQueue := priorQueue + [task];
    }

    /** The prior task that came first of those not taken yet, and only when all are taken the
        ordinary task that was accepted first of those not taken yet. */
    method TakeFront() returns (task: K)
      requires Valid() && (priorQueue != [] || taskQueue != [])
      modifies this
      ensures Valid() && run == old(run) + [Take]
      ensures IsNext(task, old(run), maxQueueLength, false)
    {
      NextTask(run, maxQueueLength, false);
      OneMoreCall(run, Take, maxQueueLength, false);
      run := run + [Take];
      if |priorQueue| != 0 {
        task, priorQueue := priorQueue[0], priorQueue[1..];
      } else {
        task, taskQueue := taskQueue[0], taskQueue[1..];
      }
    }
  }
}
