/**
The round-robin executor of kernel/src/task/simple_executor.rs. A task is taken to become
ready on a fixed poll of its own, or never; its waker does nothing.
*/
module SimpleExecutor {

  /** A task in the queue: its spawn index, on which poll it is ready, and how often it was polled. A task
      that has been polled as often as it needs without being ready never will be. */
  datatype Task = Task(index: nat, needs: nat, polls: nat) {
    /** The poll that comes next. */
    function Next(): Visit { Visit(polls, index) }
  }

  /** The poll of task `index` after it has been polled `round` times. */
  datatype Visit = Visit(round: nat, index: nat)

  predicate Before(a: Visit, b: Visit) {
    a.round < b.round || (a.round == b.round && a.index < b.index)
  }

  ghost predicate Ordered(vs: seq<Visit>) {
    forall i, j {:trigger Before(vs[i], vs[j])} :: 0 <= i < j < |vs| ==> Before(vs[i], vs[j])
  }

  function Sum(ns: seq<nat>): nat {
    if ns == [] then 0 else ns[0] + Sum(ns[1..])
  }

  lemma {:induction false} SumIncrement(ns: seq<nat>, i: nat)
    requires i < |ns|
    ensures Sum(ns[i := ns[i] + 1]) == Sum(ns) + 1
  {
    if i > 0 {
      SumIncrement(ns[1..], i - 1);
      assert ns[i := ns[i] + 1][1..] == ns[1..][i - 1 := ns[1..][i - 1] + 1];
    } else {
      assert ns[0 := ns[0] + 1][1..] == ns[1..];
    }
  }

  lemma {:induction false} SumMono(ns: seq<nat>, ms: seq<nat>)
    requires |ns| == |ms| && forall i :: 0 <= i < |ns| ==> ns[i] <= ms[i]
    ensures Sum(ns) <= Sum(ms)
    ensures Sum(ns) == Sum(ms) ==> ns == ms
  {
    if ns != [] { SumMono(ns[1..], ms[1..]); }
  }

  lemma {:induction false} SumZero(ns: seq<nat>)
    requires forall i :: 0 <= i < |ns| ==> ns[i] == 0
    ensures Sum(ns) == 0
  {
    if ns != [] { SumZero(ns[1..]); }
  }

  function Count(log: seq<Visit>, index: nat): nat {
    if log == [] then 0
    else Count(log[..|log| - 1], index) + if log[|log| - 1].index == index then 1 else 0
  }

  lemma CountSnoc(log: seq<Visit>, v: Visit, index: nat)
    ensures Count(log + [v], index) == Count(log, index) + if v.index == index then 1 else 0
  {
    assert (log + [v])[..|log|] == log;
  }

  // ----- the queue ---------------------------------------------------------------------

  /** The queue after polling the task in front. */
  function Turn(queue: seq<Task>): seq<Task>
    requires queue != []
  {
    var t := queue[0];
    if t.polls + 1 == t.needs then queue[1..] else queue[1..] + [t.(polls := t.polls + 1)]
  }

  /** The poll of the front task one round later. */
  function Horizon(queue: seq<Task>): Visit
    requires queue != []
  {
    Visit(queue[0].polls + 1, queue[0].index)
  }

  /** Tasks stand in the order of their next polls, and within one round of the front. */
  ghost predicate InOrder(queue: seq<Task>) {
    && (forall a, b {:trigger Before(queue[a].Next(), queue[b].Next())} :: 0 <= a < b < |queue| ==>
          Before(queue[a].Next(), queue[b].Next()))
    && (forall a :: 0 <= a < |queue| ==> Before(queue[a].Next(), Horizon(queue)))
  }

  lemma TurnInOrder(queue: seq<Task>)
    requires InOrder(queue) && queue != []
    ensures InOrder(Turn(queue))
    ensures Turn(queue) != [] ==> Before(queue[0].Next(), Turn(queue)[0].Next())
    ensures Turn(queue) != [] ==> Before(Horizon(queue), Horizon(Turn(queue)))
  {
    var rest, last := queue[1..], queue[0].(polls := queue[0].polls + 1);
    assert forall a :: 0 <= a < |rest| ==> rest[a] == queue[a + 1];
    assert last.Next() == Horizon(queue);
    if rest != [] { assert Before(queue[0].Next(), rest[0].Next()); }
  }

  /** A queued task is the one the counts describe, and is not ready yet. */
  predicate Entry(t: Task, needs: seq<nat>, polled: seq<nat>) {
    && t.index < |needs| && t.index < |polled|
    && t.needs == needs[t.index] && t.polls == polled[t.index] && t.polls < t.needs
  }

  ghost predicate Entries(queue: seq<Task>, needs: seq<nat>, polled: seq<nat>) {
    && |polled| == |needs|
    && (forall a {:trigger Entry(queue[a], needs, polled)} :: 0 <= a < |queue| ==> Entry(queue[a], needs, polled))
  }

  ghost predicate Present(queue: seq<Task>, i: nat) {
    exists a :: 0 <= a < |queue| && queue[a].index == i
  }

  /** No task that still needs polls is missing from the queue. */
  ghost predicate Complete(queue: seq<Task>, needs: seq<nat>, polled: seq<nat>) {
    && |polled| == |needs|
    && (forall i: nat {:trigger Present(queue, i)} :: i < |needs| ==>
          polled[i] <= needs[i] && (polled[i] < needs[i] ==> Present(queue, i)))
  }

  lemma TurnEntries(queue: seq<Task>, needs: seq<nat>, polled: seq<nat>)
    requires InOrder(queue) && Entries(queue, needs, polled) && queue != []
    ensures Entry(queue[0], needs, polled)
    ensures Entries(Turn(queue), needs, polled[queue[0].index := polled[queue[0].index] + 1])
  {
    var t := queue[0];
    assert Entry(t, needs, polled);
    var polled' := polled[t.index := polled[t.index] + 1];
    var queue' := Turn(queue);
    forall a | 0 <= a < |queue'| ensures Entry(queue'[a], needs, polled') {
      if a < |queue| - 1 {
        assert queue'[a] == queue[a + 1] && Entry(queue[a + 1], needs, polled);
        assert Before(queue[0].Next(), queue[a + 1].Next());
      }
    }
  }

  lemma TurnComplete(queue: seq<Task>, needs: seq<nat>, polled: seq<nat>)
    requires Complete(queue, needs, polled) && queue != [] && Entry(queue[0], needs, polled)
    ensures Complete(Turn(queue), needs, polled[queue[0].index := polled[queue[0].index] + 1])
  {
    var t, queue' := queue[0], Turn(queue);
    var polled' := polled[t.index := polled[t.index] + 1];
    forall i: nat | i < |needs|
      ensures polled'[i] <= needs[i] && (polled'[i] < needs[i] ==> Present(queue', i))
    {
      assert Present(queue, i) || polled[i] == needs[i];
      if polled'[i] < needs[i] {
        if i == t.index {
          assert queue'[|queue| - 1].index == i;
        } else {
          var a :| 0 <= a < |queue| && queue[a].index == i;
          assert queue'[a - 1].index == i;
        }
      }
    }
  }

  lemma EmptyMeansDone(needs: seq<nat>, polled: seq<nat>)
    requires Complete([], needs, polled)
    ensures polled == needs
  {
    forall i: nat | i < |needs| ensures polled[i] == needs[i] {
      assert !Present([], i);
    }
  }

  lemma CompleteBelow(queue: seq<Task>, needs: seq<nat>, polled: seq<nat>)
    requires Complete(queue, needs, polled)
    ensures Sum(polled) <= Sum(needs)
  {
    forall i: nat | i < |needs| ensures polled[i] <= needs[i] {
      assert Present(queue, i) || !Present(queue, i);
    }
    SumMono(polled, needs);
  }

  // ----- the history -------------------------------------------------------------------

  /** The log holds exactly the polls counted, in order. */
  ghost predicate Logged(log: seq<Visit>, polled: seq<nat>) {
    && Ordered(log) && |log| == Sum(polled)
    && (forall v :: v in log <==> v.index < |polled| && v.round < polled[v.index])
    && (forall i :: 0 <= i < |polled| ==> Count(log, i) == polled[i])
  }

  ghost predicate AllBefore(log: seq<Visit>, v: Visit) {
    forall k :: 0 <= k < |log| ==> Before(log[k], v)
  }

  lemma OrderedSnoc(log: seq<Visit>, v: Visit)
    requires Ordered(log) && AllBefore(log, v)
    ensures Ordered(log + [v])
  {
  }

  lemma CountsSnoc(log: seq<Visit>, polled: seq<nat>, v: Visit)
    requires v.index < |polled| && forall i :: 0 <= i < |polled| ==> Count(log, i) == polled[i]
    ensures forall i :: 0 <= i < |polled| ==> Count(log + [v], i) == polled[v.index := polled[v.index] + 1][i]
  {
    forall i | 0 <= i < |polled| ensures Count(log + [v], i) == polled[v.index := polled[v.index] + 1][i] {
      CountSnoc(log, v, i);
    }
  }

  lemma MembersSnoc(log: seq<Visit>, polled: seq<nat>, v: Visit)
    requires v.index < |polled| && v.round == polled[v.index]
    requires forall w :: w in log <==> w.index < |polled| && w.round < polled[w.index]
    ensures var polled' := polled[v.index := polled[v.index] + 1];
            forall w :: w in log + [v] <==> w.index < |polled'| && w.round < polled'[w.index]
  {
    var polled' := polled[v.index := polled[v.index] + 1];
    forall w: Visit ensures w in log + [v] <==> w.index < |polled'| && w.round < polled'[w.index] {
      assert w in log + [v] <==> w in log || w == v;
    }
  }

  lemma LogTurn(log: seq<Visit>, polled: seq<nat>, v: Visit)
    requires Logged(log, polled) && v.index < |polled| && v.round == polled[v.index] && AllBefore(log, v)
    ensures Logged(log + [v], polled[v.index := polled[v.index] + 1])
  {
    SumIncrement(polled, v.index);
    OrderedSnoc(log, v);
    CountsSnoc(log, polled, v);
    MembersSnoc(log, polled, v);
  }

  /** When a task became ready: on the poll after `needs - 1` others. */
  function Finish(needs: seq<nat>, i: nat): Visit
    requires i < |needs|
  {
    Visit(needs[i], i)
  }

  /** `done` lists exactly the tasks polled often enough, in the order in which they became ready. */
  ghost predicate Finished(done: seq<nat>, needs: seq<nat>, polled: seq<nat>) {
    && |polled| == |needs|
    && (forall k :: 0 <= k < |done| ==> done[k] < |needs|)
    && (forall i {:trigger i in done} :: i in done <==> 0 <= i < |needs| && polled[i] == needs[i])
    && (forall k, l {:trigger Before(Finish(needs, done[k]), Finish(needs, done[l]))} :: 0 <= k < l < |done| ==>
          Before(Finish(needs, done[k]), Finish(needs, done[l])))
  }

  ghost predicate FinishedBefore(done: seq<nat>, needs: seq<nat>, v: Visit) {
    forall k :: 0 <= k < |done| ==> done[k] < |needs| && Before(Finish(needs, done[k]), v)
  }

  lemma DoneTurn(done: seq<nat>, needs: seq<nat>, polled: seq<nat>, i: nat)
    requires Finished(done, needs, polled) && i < |needs| && polled[i] < needs[i]
    requires FinishedBefore(done, needs, Visit(polled[i] + 1, i))
    ensures var ready := polled[i] + 1 == needs[i];
            Finished(if ready then done + [i] else done, needs, polled[i := polled[i] + 1])
  {
    var polled' := polled[i := polled[i] + 1];
    var done' := if polled[i] + 1 == needs[i] then done + [i] else done;
    forall j ensures j in done' <==> 0 <= j < |needs| && polled'[j] == needs[j] {
      assert j in done <==> 0 <= j < |needs| && polled[j] == needs[j];
    }
  }

  // ----- a run -------------------------------------------------------------------------

  ghost predicate QueueInv(queue: seq<Task>, needs: seq<nat>, polled: seq<nat>) {
    InOrder(queue) && Entries(queue, needs, polled) && Complete(queue, needs, polled)
  }

  ghost predicate LogInv(queue: seq<Task>, polled: seq<nat>, log: seq<Visit>) {
    Logged(log, polled) && (queue != [] ==> AllBefore(log, queue[0].Next()))
  }

  ghost predicate DoneInv(queue: seq<Task>, needs: seq<nat>, polled: seq<nat>, done: seq<nat>) {
    Finished(done, needs, polled) && (queue != [] ==> FinishedBefore(done, needs, Horizon(queue)))
  }

  lemma Beginning(queue: seq<Task>, needs: seq<nat>, polled: seq<nat>)
    requires |queue| == |needs| && polled == seq(|needs|, _ => 0)
    requires forall i :: 0 <= i < |needs| ==> needs[i] > 0 && queue[i] == Task(i, needs[i], 0)
    ensures QueueInv(queue, needs, polled) && LogInv(queue, polled, []) && DoneInv(queue, needs, polled, [])
  {
    SumZero(polled);
    assert forall i :: 0 <= i < |needs| ==> Entry(queue[i], needs, polled);
    forall i: nat | i < |needs| ensures Present(queue, i) {
      assert queue[i].index == i;
    }
  }

  lemma BeforeTrans(log: seq<Visit>, v: Visit, w: Visit)
    requires AllBefore(log, v) && Before(v, w)
    ensures AllBefore(log + [v], w)
  {
  }

  lemma FinishedLater(done: seq<nat>, needs: seq<nat>, i: nat, v: Visit, w: Visit)
    requires FinishedBefore(done, needs, v) && Before(v, w)
    ensures FinishedBefore(done, needs, w)
    ensures i < |needs| && Finish(needs, i) == v ==> FinishedBefore(done + [i], needs, w)
  {
  }

  lemma TurnKeepsQueue(queue: seq<Task>, needs: seq<nat>, polled: seq<nat>)
    requires queue != [] && QueueInv(queue, needs, polled)
    ensures var t := queue[0];
            && t.index < |polled|
            && var polled' := polled[t.index := polled[t.index] + 1];
               Sum(polled) < Sum(polled') <= Sum(needs) && QueueInv(Turn(queue), needs, polled')
  {
    TurnInOrder(queue);
    TurnEntries(queue, needs, polled);
    TurnComplete(queue, needs, polled);
    CompleteBelow(Turn(queue), needs, polled[queue[0].index := polled[queue[0].index] + 1]);
    SumIncrement(polled, queue[0].index);
  }

  lemma TurnKeepsLog(queue: seq<Task>, needs: seq<nat>, polled: seq<nat>, log: seq<Visit>)
    requires queue != [] && Entry(queue[0], needs, polled) && LogInv(queue, polled, log)
    requires Turn(queue) != [] ==> Before(queue[0].Next(), Turn(queue)[0].Next())
    ensures LogInv(Turn(queue), polled[queue[0].index := polled[queue[0].index] + 1], log + [queue[0].Next()])
  {
    LogTurn(log, polled, queue[0].Next());
    if Turn(queue) != [] { BeforeTrans(log, queue[0].Next(), Turn(queue)[0].Next()); }
  }

  lemma TurnKeepsDone(queue: seq<Task>, needs: seq<nat>, polled: seq<nat>, done: seq<nat>)
    requires queue != [] && InOrder(queue) && Entry(queue[0], needs, polled) && DoneInv(queue, needs, polled, done)
    ensures var t := queue[0];
            DoneInv(Turn(queue), needs, polled[t.index := polled[t.index] + 1],
                    if t.polls + 1 == t.needs then done + [t.index] else done)
  {
    var t := queue[0];
    TurnInOrder(queue);
    DoneTurn(done, needs, polled, t.index);
    if Turn(queue) != [] { FinishedLater(done, needs, t.index, Horizon(queue), Horizon(Turn(queue))); }
  }

  /** No task in the queue has become ready. */
  ghost predicate AllPending(queue: seq<Task>) {
    forall a :: 0 <= a < |queue| ==> queue[a].polls < queue[a].needs
  }

  /** How many polls are left. */
  ghost function Remaining(queue: seq<Task>): nat {
    if queue == [] then 0
    else (if queue[0].polls < queue[0].needs then queue[0].needs - queue[0].polls else 0) + Remaining(queue[1..])
  }

  lemma {:induction false} RemainingSnoc(queue: seq<Task>, t: Task)
    ensures Remaining(queue + [t]) == Remaining(queue) + if t.polls < t.needs then t.needs - t.polls else 0
  {
    if queue == [] {
      assert [t][1..] == [];
    } else {
      assert (queue + [t])[1..] == queue[1..] + [t];
      RemainingSnoc(queue[1..], t);
    }
  }

  lemma TurnRemaining(queue: seq<Task>)
    requires queue != [] && AllPending(queue)
    ensures AllPending(Turn(queue)) && Remaining(Turn(queue)) == Remaining(queue) - 1
  {
    var t := queue[0];
    assert forall a :: 0 <= a < |queue[1..]| ==> queue[1..][a] == queue[a + 1];
    RemainingSnoc(queue[1..], t.(polls := t.polls + 1));
  }

  /** The polls a run makes. */
  ghost function Polls(queue: seq<Task>): seq<Visit>
    requires AllPending(queue)
    decreases Remaining(queue)
  {
    if queue == [] then []
    else
      TurnRemaining(queue);
      [queue[0].Next()] + Polls(Turn(queue))
  }

  /** The tasks that become ready, in order. */
  ghost function Completions(queue: seq<Task>): seq<nat>
    requires AllPending(queue)
    decreases Remaining(queue)
  {
    if queue == [] then []
    else
      TurnRemaining(queue);
      (if queue[0].polls + 1 == queue[0].needs then [queue[0].index] else []) + Completions(Turn(queue))
  }

  lemma Regroup<T>(a: seq<T>, b: seq<T>, c: seq<T>)
    ensures a + b + c == a + (b + c)
  {
  }

  lemma LogOneTurn(queue: seq<Task>, needs: seq<nat>, polled: seq<nat>, log: seq<Visit>)
    requires QueueInv(queue, needs, polled) && LogInv(queue, polled, log) && AllPending(queue) && queue != []
    ensures var t := queue[0];
            && t.index < |polled|
            && var polled' := polled[t.index := polled[t.index] + 1];
               QueueInv(Turn(queue), needs, polled') && LogInv(Turn(queue), polled', log + [t.Next()])
    ensures AllPending(Turn(queue)) && Remaining(Turn(queue)) < Remaining(queue)
  {
    assert Entry(queue[0], needs, polled);
    TurnKeepsQueue(queue, needs, polled);
    TurnInOrder(queue);
    TurnKeepsLog(queue, needs, polled, log);
    TurnRemaining(queue);
  }

  lemma {:induction false} LogFrom(queue: seq<Task>, needs: seq<nat>, polled: seq<nat>, log: seq<Visit>)
    requires QueueInv(queue, needs, polled) && LogInv(queue, polled, log) && AllPending(queue)
    ensures Logged(log + Polls(queue), needs)
    decreases Remaining(queue)
  {
    if queue == [] {
      EmptyMeansDone(needs, polled);
      assert log + Polls(queue) == log;
    } else {
      var t := queue[0];
      LogOneTurn(queue, needs, polled, log);
      LogFrom(Turn(queue), needs, polled[t.index := polled[t.index] + 1], log + [t.Next()]);
      Regroup(log, [t.Next()], Polls(Turn(queue)));
    }
  }

  lemma DoneOneTurn(queue: seq<Task>, needs: seq<nat>, polled: seq<nat>, done: seq<nat>)
    requires QueueInv(queue, needs, polled) && DoneInv(queue, needs, polled, done) && AllPending(queue) && queue != []
    ensures var t := queue[0];
            var now := if t.polls + 1 == t.needs then [t.index] else [];
            && t.index < |polled|
            && var polled' := polled[t.index := polled[t.index] + 1];
               QueueInv(Turn(queue), needs, polled') && DoneInv(Turn(queue), needs, polled', done + now)
    ensures AllPending(Turn(queue)) && Remaining(Turn(queue)) < Remaining(queue)
  {
    assert Entry(queue[0], needs, polled);
    TurnKeepsQueue(queue, needs, polled);
    TurnKeepsDone(queue, needs, polled, done);
    TurnRemaining(queue);
    assert done + [] == done;
  }

  lemma {:induction false} DoneFrom(queue: seq<Task>, needs: seq<nat>, polled: seq<nat>, done: seq<nat>)
    requires QueueInv(queue, needs, polled) && DoneInv(queue, needs, polled, done) && AllPending(queue)
    ensures Finished(done + Completions(queue), needs, needs)
    decreases Remaining(queue)
  {
    if queue == [] {
      EmptyMeansDone(needs, polled);
      assert done + Completions(queue) == done;
    } else {
      var t := queue[0];
      var now := if t.polls + 1 == t.needs then [t.index] else [];
      DoneOneTurn(queue, needs, polled, done);
      DoneFrom(Turn(queue), needs, polled[t.index := polled[t.index] + 1], done + now);
      Regroup(done, now, Completions(Turn(queue)));
    }
  }

  /** Round robin: a run makes exactly the sum of the polls that the tasks need. Task `i` is polled
      exactly `needs[i]` times, round after round in spawn order; tasks become ready in the order of
      what they need, and in spawn order among equals. */
  lemma RoundRobin(queue: seq<Task>, needs: seq<nat>)
    requires |queue| == |needs|
    requires forall i :: 0 <= i < |needs| ==> needs[i] > 0 && queue[i] == Task(i, needs[i], 0)
    ensures AllPending(queue)
    ensures |Polls(queue)| == Sum(needs) && Ordered(Polls(queue))
    ensures forall v :: v in Polls(queue) <==> v.index < |needs| && v.round < needs[v.index]
    ensures forall i :: 0 <= i < |needs| ==> Count(Polls(queue), i) == needs[i]
    ensures Finished(Completions(queue), needs, needs)
  {
    var polled := seq(|needs|, _ => 0);
    Beginning(queue, needs, polled);
    LogFrom(queue, needs, polled, []);
    DoneFrom(queue, needs, polled, []);
    assert [] + Polls(queue) == Polls(queue) && [] + Completions(queue) == Completions(queue);
  }

  /** The queue after `n` polls, or when it is empty. */
  function Turns(queue: seq<Task>, n: nat): seq<Task>
    decreases n
  {
    if n == 0 || queue == [] then queue else Turns(Turn(queue), n - 1)
  }

  lemma {:induction false} PendingEnds(queue: seq<Task>)
    requires AllPending(queue)
    ensures Turns(queue, Remaining(queue)) == []
    decreases Remaining(queue)
  {
    if queue != [] {
      assert queue[0].polls < queue[0].needs;
      TurnRemaining(queue);
      PendingEnds(Turn(queue));
    }
  }

  /** A task that is never ready stays in the queue. */
  lemma {:induction false} StuckStays(queue: seq<Task>, a: nat, n: nat)
    requires a < |queue| && queue[a].needs <= queue[a].polls
    ensures Turns(queue, n) != []
    decreases n
  {
    if n > 0 {
      if a == 0 {
        assert Turn(queue)[|queue| - 1] == queue[0].(polls := queue[0].polls + 1);
        StuckStays(Turn(queue), |queue| - 1, n - 1);
      } else {
        assert Turn(queue)[a - 1] == queue[a];
        StuckStays(Turn(queue), a - 1, n - 1);
      }
    }
  }

  /** The loop ends exactly if every task becomes ready at some poll. */
  lemma RunEndsExact(queue: seq<Task>)
    ensures (exists n: nat :: Turns(queue, n) == []) <==> AllPending(queue)
  {
    if AllPending(queue) {
      PendingEnds(queue);
    } else {
      var a :| 0 <= a < |queue| && queue[a].needs <= queue[a].polls;
      forall n: nat ensures Turns(queue, n) != [] { StuckStays(queue, a, n); }
    }
  }

  class SimpleExecutor {
    var taskQueue: seq<Task>

    constructor ()
      ensures taskQueue == []
    {
      taskQueue := [];
    }

    method Spawn(needs: nat)
      modifies this
      ensures taskQueue == old(taskQueue) + [Task(|old(taskQueue)|, needs, 0)]
    {
      taskQueue := taskQueue + [Task(|taskQueue|, needs, 0)];
    }

    method Run() returns (log: seq<Visit>, done: seq<nat>)
      requires AllPending(taskQueue)
      modifies this
      ensures taskQueue == [] && log == Polls(old(taskQueue)) && done == Completions(old(taskQueue))
    {
      log, done := [], [];
      while taskQueue != []
        invariant AllPending(taskQueue)
        invariant log + Polls(taskQueue) == Polls(old(taskQueue))
        invariant done + Completions(taskQueue) == Completions(old(taskQueue))
        decreases Remaining(taskQueue)
      {
        TurnRemaining(taskQueue);
        ghost var rest := Turn(taskQueue);
        var task := taskQueue[0];
        taskQueue := taskQueue[1..];
        Regroup(log, [task.Next()], Polls(rest));
        log := log + [task.Next()];
        if task.polls + 1 == task.needs {
          Regroup(done, [task.index], Completions(rest));
          done := done + [task.index];                                  // Poll::Ready
        } else {
          assert [] + Completions(rest) == Completions(rest);
          taskQueue := taskQueue + [task.(polls := task.polls + 1)];    // Poll::Pending
        }
        assert taskQueue == rest;
      }
    }
  }
}
