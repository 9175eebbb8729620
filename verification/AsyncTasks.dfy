/**
The life of a task in the executor: it is queued when spawned and when woken, its turn comes in
the order of the queue, and when it is ready it is gone for good.
*/
module AsyncTasks {
  import opened Layouts
  import opened AsyncRuntime
  import opened AsyncRuns

  // ----- the end -----------------------------------------------------------------------

  /** The task existed and has been removed, with its cached waker. */
  predicate Gone(s: State, id: nat) {
    id < s.nextId && id !in s.tasks && id !in s.cache
  }

  /** `log` goes on from `was` without a poll of the task. */
  ghost predicate NoPollSince(was: seq<Mark>, log: seq<Mark>, id: nat) {
    was <= log && forall i :: |was| <= i < |log| ==> log[i] != PollBegin(id)
  }

  lemma GoneMain(s: State, id: nat)
    requires Gone(s, id)
    ensures Gone(MainStep(s), id) && NoPollSince(s.log, MainStep(s).log, id)
  {
    match s.pc
    case KeyFast => PopKeepsTasks(s, KeyRegister, KeyFast);
    case KeySecond => PopKeepsTasks(s, RunTop, KeyTake);
    case _ =>
  }

  lemma PopKeepsTasks(s: State, empty: Pc, taken: Pc)
    ensures var s' := PopCode(s, empty, taken);
            s'.nextId == s.nextId && s'.tasks == s.tasks && s'.cache == s.cache && s'.log == s.log
  {
    if s.codes.None? {
      assert PopCode(s, empty, taken) == s.(pc := Stopped);
    } else if s.codes.value == [] {
      assert PopCode(s, empty, taken) == s.(pc := empty);
    }
  }

  lemma GoneStep(s: State, e: Event, id: nat)
    requires Gone(s, id)
    ensures Gone(Step(s, e), id) && NoPollSince(s.log, Step(s, e).log, id)
  {
    if e.Main? { GoneMain(s, id); }
  }

  lemma {:induction false} GoneForever(s: State, es: seq<Event>, id: nat)
    requires Gone(s, id)
    ensures Gone(Exec(s, es), id) && NoPollSince(s.log, Exec(s, es).log, id)
    decreases |es|
  {
    if es != [] {
      GoneStep(s, es[0], id);
      GoneForever(Step(s, es[0]), es[1..], id);
    }
  }

  /** A task that returns ready is removed with its waker and never polled again, in every run from every
      reachable state. */
  lemma ReadyIsFinal(before: seq<Event>, es: seq<Event>, id: nat)
    requires Exec(Initial(), before).pc == Busy(id)
    ensures var s := Exec(Initial(), before);
            var t := Exec(Step(s, Return(true)), es);
            && id in s.tasks && id in s.cache
            && Completed(id) in t.log
            && id !in t.tasks && id !in t.cache
            && NoPollSince(s.log, t.log, id)
  {
    var s := Exec(Initial(), before);
    CacheExact(before);
    ExecInv(Initial(), before);
    var s1 := Step(s, Return(true));
    assert s1.log == s.log + [Completed(id)];
    assert s1.log[|s.log|] == Completed(id);
    GoneForever(s1, es, id);
    assert Exec(s1, es).log[|s.log|] == Completed(id);
  }

  /** A task that returns pending stays, with its waker, and so do all others. */
  lemma PendingStays(s: State, id: nat)
    requires s.pc == Busy(id)
    ensures Step(s, Return(false)) == s.(pc := RunTop)
    ensures var t := Step(s, Return(true));
            t.tasks == s.tasks - {id} && t.cache == s.cache - {id} && t.queue == s.queue && t.woken == s.woken
  {
  }

  // ----- cached wakers -----------------------------------------------------------------

  /** Wakers are cached for exactly the live tasks that have been polled. */
  ghost predicate CacheInv(s: State) {
    !s.pc.Stopped? ==> s.cache == s.tasks - s.unpolled && forall t :: t in s.unpolled ==> t in s.tasks
  }

  lemma CacheStep(s: State, e: Event)
    requires Inv(s) && CacheInv(s)
    ensures CacheInv(Step(s, e))
  {
    if s.pc.Stopped? {
    } else if e.Main? {
      CacheMain(s);
    } else if e.KeyIrq? && s.interrupts {
      KeyIrqStep(s, e.code);
    }
  }

  lemma CacheMain(s: State)
    requires Inv(s) && CacheInv(s) && !s.pc.Stopped?
    ensures CacheInv(MainStep(s))
  {
    match s.pc
    case KeyFast => PopKeepsTasks(s, KeyRegister, KeyFast);
    case KeySecond => PopKeepsTasks(s, RunTop, KeyTake);
    case _ =>
  }

  lemma {:induction false} CacheRuns(s: State, es: seq<Event>)
    requires Inv(s) && CacheInv(s)
    ensures CacheInv(Exec(s, es))
    decreases |es|
  {
    if es != [] {
      CacheStep(s, es[0]);
      StepInv(s, es[0]);
      CacheRuns(Step(s, es[0]), es[1..]);
    }
  }

  /** In every run, wakers are cached for exactly the live tasks that have been polled. */
  lemma CacheExact(es: seq<Event>)
    ensures var s := Exec(Initial(), es);
            !s.pc.Stopped? ==> s.cache == s.tasks - s.unpolled
  {
    CacheRuns(Initial(), es);
  }

  // ----- queueing ----------------------------------------------------------------------

  /** A spawned task is live, unpolled, and last in the queue; with a full queue the spawn panics. */
  lemma SpawnQueues(s: State, e: Event)
    requires s.pc.Boot? && (e.Spawn? || (e.SpawnKeyboard? && s.keyboard.None?))
    ensures var t := Step(s, e);
            && (t.pc.Stopped? <==> |s.queue| >= 100)
            && (!t.pc.Stopped? ==>
                  && t.queue == s.queue + [s.nextId] && t.tasks == s.tasks + {s.nextId}
                  && s.nextId in t.unpolled && t.nextId == s.nextId + 1
                  && (e.SpawnKeyboard? ==> t.keyboard == Some(s.nextId)))
  {
  }

  /** A woken task is last in the queue, and marked as woken until its next poll. */
  lemma WakeQueues(s: State, id: nat)
    requires !s.pc.Stopped? && CanWake(s, id)
    ensures forall e :: (e == WakeOther(id) && s.pc.Busy?) || (e == WakeIrq(id) && s.interrupts) ==>
              var t := Step(s, e);
              && (t.pc.Stopped? <==> |s.queue| >= 100)
              && (!t.pc.Stopped? ==> t.queue == s.queue + [id] && id in t.woken && t.tasks == s.tasks)
  {
  }

  /** A scancode that is accepted while the keyboard's waker is registered queues the keyboard task once,
      and uses the waker up. */
  lemma KeyQueues(s: State, code: Scancode)
    requires !s.pc.Stopped? && s.interrupts && s.codes.Some? && |s.codes.value| < 100 && s.keyboard.Some?
    ensures var t := Step(s, KeyIrq(code));
            && (t.pc.Stopped? <==> s.waker && |s.queue| >= 100)
            && (!t.pc.Stopped? ==>
                  && t.codes == Some(s.codes.value + [code]) && !t.waker
                  && t.queue == if s.waker then s.queue + [s.keyboard.value] else s.queue)
  {
    KeyIrqStep(s, code);
  }

  /** The keyboard task takes its waker back when it finds a scancode after registering. */
  lemma TakenBack(s: State)
    requires s.pc.KeySecond? && s.codes.Some? && s.codes.value != []
    ensures var t := Step(Step(s, Main), Main);
            !t.waker && t.pc.KeyFast? && t.delivered == s.delivered + [s.codes.value[0]] && t.queue == s.queue
  {
  }

  // ----- turns -------------------------------------------------------------------------

  /** An event pops the front of the queue, or leaves it in front of what it pushes. */
  lemma QueueStep(s: State, e: Event)
    ensures var t := Step(s, e);
            || (t.pops == s.pops && s.queue <= t.queue)
            || (t.pops == s.pops + 1 && s.queue != [] && t.queue == s.queue[1..] && t.pc == Popped(s.queue[0]))
  {
    if e.KeyIrq? && s.interrupts && !s.pc.Stopped? {
      KeyIrqStep(s, e.code);
    } else if e.Main? && s.pc.KeyFast? {
      PopKeepsQueue(s, KeyRegister, KeyFast);
    } else if e.Main? && s.pc.KeySecond? {
      PopKeepsQueue(s, RunTop, KeyTake);
    }
  }

  lemma PopKeepsQueue(s: State, empty: Pc, taken: Pc)
    ensures PopCode(s, empty, taken).queue == s.queue && PopCode(s, empty, taken).pops == s.pops
  {
    if s.codes.None? {
      assert PopCode(s, empty, taken) == s.(pc := Stopped);
    } else if s.codes.value == [] {
      assert PopCode(s, empty, taken) == s.(pc := empty);
    }
  }

  /** First in, first out: over any run, what was queued and not popped since is still in front. */
  lemma {:induction false} QueueOrder(s: State, es: seq<Event>)
    ensures var t := Exec(s, es);
            t.pops >= s.pops && (t.pops - s.pops <= |s.queue| ==> s.queue[t.pops - s.pops..] <= t.queue)
    decreases |es|
  {
    if es != [] {
      var s1, t := Step(s, es[0]), Exec(s, es);
      QueueStep(s, es[0]);
      QueueOrder(s1, es[1..]);
      var p := t.pops - s1.pops;
      if s1.pops == s.pops && p <= |s.queue| {
        assert s.queue[p..] <= s1.queue[p..];
      } else if s1.pops == s.pops + 1 && p + 1 <= |s.queue| {
        assert s1.queue[p..] == s.queue[p + 1..];
      }
    }
  }

  /** So the turn of every queued id comes: after as many pops as there were ids in front of it, it is the
      one that is popped. */
  lemma {:induction false} TurnComes(s: State, es: seq<Event>, k: nat) returns (m: nat)
    requires k < |s.queue| && Exec(s, es).pops > s.pops + k
    ensures m <= |es| && Exec(s, es[..m]).pc == Popped(s.queue[k])
    decreases |es|
  {
    assert es != [];
    var s1 := Step(s, es[0]);
    QueueStep(s, es[0]);
    if s1.pops == s.pops {
      m := TurnComes(s1, es[1..], k);
      ExecPrefix(s, es, m);
      m := m + 1;
    } else if k == 0 {
      m := 1;
      ExecPrefix(s, es, 0);
      assert es[1..][..0] == [];
    } else {
      m := TurnComes(s1, es[1..], k - 1);
      ExecPrefix(s, es, m);
      m := m + 1;
    }
  }

  lemma ExecPrefix(s: State, es: seq<Event>, m: nat)
    requires m < |es|
    ensures Exec(s, es[..m + 1]) == Exec(Step(s, es[0]), es[1..][..m])
  {
    assert es[..m + 1] == [es[0]] + es[1..][..m];
    ExecCons(s, es[0], es[1..][..m]);
  }

  /** A popped id begins a poll exactly if its task is live; its waker is then cached and it counts as polled
      and not woken. */
  lemma PoppedIsPolled(s: State, id: nat)
    requires s.pc == Popped(id)
    ensures var t := Step(s, Main);
            if id in s.tasks then
              && t.log == s.log + [PollBegin(id)] && id in t.cache && id !in t.unpolled && id !in t.woken
              && t.queue == s.queue && t.tasks == s.tasks
              && (t.pc == Busy(id) <==> s.keyboard != Some(id))
            else t == s.(pc := RunTop)
  {
  }
}
