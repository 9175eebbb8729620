/**
The executor and the keyboard stream as the kernel runs them: objects whose fields the
operations update one at a time. Whatever the operations do is a run of the state machine of
AsyncRuntime.dfy, so that everything proved about its runs holds for these objects.

What a future does in its poll, and when scancodes arrive, are parameters.
*/
module Executor {
  import opened Layouts
  import opened AsyncRuntime
  import opened AsyncRuns

  /** Some events lead from the initial state to `s`. */
  ghost predicate Reachable(s: State) {
    exists es: seq<Event> :: Exec(Initial(), es) == s
  }

  lemma ReachableStep(s: State, e: Event)
    requires Reachable(s)
    ensures Reachable(Step(s, e))
  {
    var es :| Exec(Initial(), es) == s;
    ExecConcat(Initial(), es, [e]);
    assert [e][1..] == [];
    assert Exec(s, [e]) == Step(s, e);
  }

  lemma ReachableInv(s: State)
    requires Reachable(s)
    ensures Inv(s) && FifoInv(s)
  {
    var es :| Exec(Initial(), es) == s;
    ExecInv(Initial(), es);
    ScancodeFifo(Initial(), es);
  }

  /** `expect("scancode queue not initialized")` never fails. */
  lemma QueueInitialized(s: State)
    requires Reachable(s) && (s.pc.KeyFast? || s.pc.KeySecond?)
    ensures s.codes.Some? && s.keyboard.Some?
  {
    ReachableInv(s);
  }

  /** `panic!("task with same ID already in tasks")` is never reached. */
  lemma IdIsFresh(s: State)
    requires Reachable(s) && !s.pc.Stopped?
    ensures s.nextId !in s.tasks && (s.keyboard.None? ==> !s.waker)
  {
    ReachableInv(s);
  }

  /** Interrupts are enabled except during the check before a halt. */
  lemma Interruptible(s: State)
    requires Reachable(s) && !s.pc.Stopped? && !s.pc.Check?
    ensures s.interrupts
  {
    ReachableInv(s);
  }

  lemma LiveIdIsKnown(s: State, id: nat)
    requires Reachable(s) && !s.pc.Stopped? && id in s.tasks
    ensures id < s.nextId
  {
    ReachableInv(s);
  }

  lemma PendingIsSafe(s: State, id: nat)
    requires Reachable(s) && s.pc.RunTop? && s.keyboard == Some(id) && s.codes.Some?
    ensures s.waker || id in s.queue
    ensures s.codes.value != [] ==> id in s.queue
  {
    ReachableInv(s);
  }

  lemma HaltedIsIdle(s: State)
    requires Reachable(s) && s.pc.Halted?
    ensures s.queue == [] && (s.codes.Some? ==> s.codes.value == [] && s.waker && s.keyboard.Some?)
  {
    ReachableInv(s);
  }

  datatype PollNextResult = ReadyCode(code: Scancode) | Pending | Panic

  /** What can happen during the poll of a task: it wakes a task, or a scancode arrives. */
  datatype Action = WakeUp(id: nat) | Arrival(code: Scancode)

  /** What happens in one poll of a task, and whether it is then ready. */
  datatype Behaviour = Behaviour(actions: seq<Action>, ready: bool)

  /** Scancodes arriving during one `poll_next`. */
  datatype Arrivals = Arrivals(a0: seq<Scancode>, a1: seq<Scancode>, a2: seq<Scancode>, a3: seq<Scancode>)

  /** What happens in one turn of the loop: scancodes arriving before the id is popped and before it is
      looked up, and the poll itself; which part of that applies depends on the task. */
  datatype PollScript =
    PollScript(early: seq<Scancode>, late: seq<Scancode>, behaviour: Behaviour, arrivals: seq<Arrivals>)

  /** The interrupt that ends a halt. */
  datatype Interrupt = KeyPress(code: Scancode) | Timer

  /** One turn of `run`: the polls, the scancodes arriving before interrupts are disabled, and the interrupt
      that ends the halt, if there is one. */
  datatype Round = Round(script: seq<PollScript>, before: seq<Scancode>, interrupt: Interrupt)

  datatype TaskResult = Returned | StillRunning | QueueEmpty | Panicked

  // ----- what the operations amount to -------------------------------------------------

  function AfterArrivals(s: State, codes: seq<Scancode>): State
    decreases |codes|
  {
    if codes == [] then s else AfterArrivals(Step(s, KeyIrq(codes[0])), codes[1..])
  }

  function ActionEvent(a: Action): Event {
    match a
    case WakeUp(id) => WakeOther(id)
    case Arrival(code) => KeyIrq(code)
  }

  function AfterActions(s: State, actions: seq<Action>): State
    decreases |actions|
  {
    if actions == [] then s else AfterActions(Step(s, ActionEvent(actions[0])), actions[1..])
  }

  /** `poll_next`, with scancodes arriving before each of its operations. */
  function AfterPollNext(s: State, a: Arrivals): State {
    var s1 := Step(AfterArrivals(s, a.a0), Main);
    if s1.pc.KeyRegister? then AfterPollAgain(s1, a) else s1
  }

  function AfterPollAgain(s: State, a: Arrivals): State {
    AfterSecondPop(Step(AfterArrivals(s, a.a1), Main), a)
  }

  function AfterSecondPop(s: State, a: Arrivals): State {
    var s1 := AfterArrivals(Step(AfterArrivals(s, a.a2), Main), a.a3);
    if s1.pc.KeyTake? then Step(s1, Main) else s1
  }

  /** `print_keypresses` goes on polling while there are scancodes. */
  function AfterKeyboard(s: State, arrivals: seq<Arrivals>): State
    decreases |arrivals|
  {
    if arrivals == [] || !s.pc.KeyFast? then s else AfterKeyboard(AfterPollNext(s, arrivals[0]), arrivals[1..])
  }

  /** One poll, once the task has been found. */
  function AfterPoll(s: State, p: PollScript): State {
    if s.pc.Busy? then Step(AfterActions(s, p.behaviour.actions), Return(p.behaviour.ready))
    else AfterKeyboard(if s.pc.KeyInit? then Step(s, Main) else s, p.arrivals)
  }

  /** One id taken from the queue: stale ids are skipped. */
  function AfterTask(s: State, p: PollScript): State {
    var s1 := AfterArrivals(Step(s, Main), p.late);
    if s1.pc.Stopped? then s1
    else
      var s2 := Step(s1, Main);
      if s2.pc.RunTop? then s2 else AfterPoll(s2, p)
  }

  /** One turn of the loop: it ends when the queue is found empty. */
  function AfterTurn(s: State, p: PollScript): State {
    var s1 := AfterArrivals(s, p.early);
    if s1.pc.Stopped? then s1
    else if s1.queue == [] then Step(s1, Main)
    else AfterTask(s1, p)
  }

  /** `run_ready_tasks`, as far as the script reaches. */
  function AfterTasks(s: State, script: seq<PollScript>): State
    decreases |script|
  {
    if !s.pc.RunTop? then s
    else if script == [] then (if s.queue == [] then Step(s, Main) else s)
    else AfterTasks(AfterTurn(s, script[0]), script[1..])
  }

  function InterruptEvent(i: Interrupt): Event {
    match i
    case KeyPress(code) => KeyIrq(code)
    case Timer => OtherIrq
  }

  /** `sleep_if_idle` up to the halt. */
  function BeforeHalt(s: State, before: seq<Scancode>): State {
    Step(Step(AfterArrivals(s, before), Main), Main)
  }

  /** `sleep_if_idle`: a halt lasts until the next interrupt. */
  function AfterSleep(s: State, before: seq<Scancode>, interrupt: Interrupt): State {
    var s1 := BeforeHalt(s, before);
    if s1.pc.Halted? then Step(s1, InterruptEvent(interrupt)) else s1
  }

  /** `run`, as far as the rounds reach. */
  function AfterRounds(s: State, rounds: seq<Round>): State
    decreases |rounds|
  {
    if rounds == [] || !s.pc.RunTop? then s
    else
      var s1 := AfterTasks(s, rounds[0].script);
      if !s1.pc.Idle? then s1 else AfterRounds(AfterSleep(s1, rounds[0].before, rounds[0].interrupt), rounds[1..])
  }

  lemma {:induction false} StoppedArrivals(s: State, codes: seq<Scancode>)
    requires s.pc.Stopped?
    ensures AfterArrivals(s, codes) == s
    decreases |codes|
  {
    if codes != [] { StoppedArrivals(s, codes[1..]); }
  }

  lemma {:induction false} StoppedActions(s: State, actions: seq<Action>)
    requires s.pc.Stopped?
    ensures AfterActions(s, actions) == s
    decreases |actions|
  {
    if actions != [] { StoppedActions(s, actions[1..]); }
  }

  // ----- the objects -------------------------------------------------------------------

  class Executor {
    var tasks: set<nat>
    var taskQueue: seq<nat>
    var wakerCache: set<nat>
    /** `NEXT_ID` of `TaskId::new`. */
    var nextId: nat
    /** The statics of the keyboard module; a waker is the id it wakes. */
    var scancodes: Option<seq<Scancode>>
    var waker: Option<nat>
    var interruptsEnabled: bool
    /** Which task runs `print_keypresses`, and the other tasks for which a waker exists. */
    var keyboard: Option<nat>
    var wakers: set<nat>
    ghost var s: State

    ghost predicate Matches()
      reads this
    {
      && tasks == s.tasks && taskQueue == s.queue && wakerCache == s.cache && nextId == s.nextId
      && scancodes == s.codes && interruptsEnabled == s.interrupts
      && (waker == if s.waker then s.keyboard else None)
      && keyboard == s.keyboard && (forall t: nat :: t in wakers <==> CanWake(s, t))
    }

    /** The object is in a reachable state of the machine. */
    ghost predicate Valid()
      reads this
    {
      Reachable(s) && (!s.pc.Stopped? ==> Matches())
    }

    constructor ()
      ensures Valid() && s == Initial()
    {
      tasks, taskQueue, wakerCache, nextId := {}, [], {}, 0;
      scancodes, waker, interruptsEnabled := None, None, true;
      keyboard, wakers := None, {};
      s := Initial();
      assert Exec(Initial(), []) == Initial();
    }

    /** The machine makes the move that the fields have just made. */
    ghost method Record(e: Event)
      requires Reachable(s)
      modifies this`s
      ensures s == Step(old(s), e) && Reachable(s)
    {
      ReachableStep(s, e);
      s := Step(s, e);
    }

    /** `wake_task`. */
    method WakeTask(id: nat) returns (panic: bool)
      modifies this`taskQueue
      ensures panic <==> |old(taskQueue)| >= CAPACITY
      ensures taskQueue == if panic then old(taskQueue) else old(taskQueue) + [id]
    {
      if |taskQueue| >= CAPACITY { return true; }
      taskQueue := taskQueue + [id];
      return false;
    }

    /** `Task::new` and `Executor::spawn`: the fresh id is never in the map already. */
    method Spawn(isKeyboard: bool) returns (panic: bool)
      requires Valid() && s.pc.Boot? && (isKeyboard ==> keyboard.None?)
      modifies this
      ensures Valid() && s == SpawnTask(old(s), isKeyboard) && panic == s.pc.Stopped?
    {
      var id := nextId;
      nextId := nextId + 1;
      IdIsFresh(s);
      assert id !in tasks;               // panic!("task with same ID already in tasks")
      tasks := tasks + {id};
      if isKeyboard { keyboard := Some(id); }
      panic := WakeTask(id);
      Record(if isKeyboard then SpawnKeyboard else Event.Spawn);
    }

    /** `add_scancode`, from the interrupt handler. */
    method AddScancode(code: Scancode) returns (panic: bool)
      requires Valid() && !s.pc.Stopped? && interruptsEnabled
      modifies this
      ensures Valid() && s == Step(old(s), KeyIrq(code)) && panic == s.pc.Stopped?
    {
      KeyIrqStep(s, code);
      panic := false;
      if scancodes.Some? && |scancodes.value| < CAPACITY {
        scancodes := Some(scancodes.value + [code]);
        if waker.Some? {
          var id := waker.value;
          waker := None;
          panic := WakeTask(id);
        }
      }
      Record(KeyIrq(code));
    }

    /** Scancodes that arrive between two operations of the main line. */
    method Arrive(codes: seq<Scancode>) returns (panic: bool)
      requires Valid() && !s.pc.Stopped? && interruptsEnabled && !s.pc.Halted?
      modifies this
      ensures Valid() && panic == s.pc.Stopped? && s == AfterArrivals(old(s), codes)
      ensures !panic ==> s.pc == old(s).pc && s.delivered == old(s).delivered && s.keyboard == old(s).keyboard
      ensures !panic ==> interruptsEnabled && (s.codes.Some? <==> old(s).codes.Some?)
    {
      panic := false;
      for i := 0 to |codes|
        invariant Valid() && !s.pc.Stopped? && interruptsEnabled
        invariant s.pc == old(s).pc && s.delivered == old(s).delivered && s.keyboard == old(s).keyboard
        invariant AfterArrivals(s, codes[i..]) == AfterArrivals(old(s), codes)
        invariant s.codes.Some? <==> old(s).codes.Some?
      {
        assert codes[i..][1..] == codes[i + 1..];
        panic := AddScancode(codes[i]);
        if panic {
          StoppedArrivals(s, codes[i + 1..]);
          return;
        }
      }
    }

    /** `queue.pop()`. */
    method PopScancode() returns (r: Option<Scancode>)
      requires Valid() && (s.pc.KeyFast? || s.pc.KeySecond?)
      modifies this
      ensures Valid() && s == MainStep(old(s)) && old(s).codes.Some?
      ensures r == if old(s).codes.value == [] then None else Some(old(s).codes.value[0])
    {
      QueueInitialized(s);
      if scancodes.value == [] {
        r := None;
      } else {
        r := Some(scancodes.value[0]);
        scancodes := Some(scancodes.value[1..]);
      }
      Record(Main);
    }

    /** `WAKER.register`. */
    method RegisterWaker(id: nat)
      requires Valid() && s.pc.KeyRegister? && s.keyboard == Some(id)
      modifies this
      ensures Valid() && s == MainStep(old(s))
    {
      waker := Some(id);
      Record(Main);
    }

    /** `WAKER.take`. */
    method TakeWaker()
      requires Valid() && s.pc.KeyTake?
      modifies this
      ensures Valid() && s == MainStep(old(s))
    {
      waker := None;
      Record(Main);
    }

    /** The slow path of `poll_next`: register, then look again. */
    method PollAgain(id: nat, a: Arrivals) returns (r: PollNextResult)
      requires Valid() && s.pc.KeyRegister? && s.keyboard == Some(id) && s.codes.Some? && interruptsEnabled
      modifies this
      ensures Valid() && s == AfterPollAgain(old(s), a) && Answers(r, id, old(s).delivered)
    {
      var panic := Arrive(a.a1);
      if panic {
        StoppedArrivals(s, a.a2);
        StoppedArrivals(s, a.a3);
        return Panic;
      }
      RegisterWaker(id);
      Interruptible(s);
      r := PollSecond(id, a);
    }

    /** The second pop, with the waker registered. */
    method PollSecond(id: nat, a: Arrivals) returns (r: PollNextResult)
      requires Valid() && s.pc.KeySecond? && s.keyboard == Some(id) && s.codes.Some? && interruptsEnabled
      modifies this
      ensures Valid() && s == AfterSecondPop(old(s), a) && Answers(r, id, old(s).delivered)
    {
      var panic := Arrive(a.a2);
      if panic {
        StoppedArrivals(s, a.a3);
        return Panic;
      }
      var code := PopScancode();
      panic := Arrive(a.a3);
      if panic { return Panic; }
      if code.Some? {
        TakeWaker();
        return ReadyCode(code.value);
      }
      PendingIsSafe(s, id);
      return Pending;
    }

    /** What `poll_next` promises: a code is the oldest one not yet delivered; a pending poll leaves the
        task queued or its waker registered, and queued if scancodes have come in meanwhile. */
    ghost predicate Answers(r: PollNextResult, id: nat, delivered: seq<Scancode>)
      reads this
    {
      match r
      case ReadyCode(code) =>
        s.pc.KeyFast? && s.keyboard == Some(id) && s.delivered == delivered + [code]
      case Pending =>
        && s.pc.RunTop? && s.delivered == delivered && (s.waker || id in s.queue)
        && (s.codes.Some? && s.codes.value != [] ==> id in s.queue)
      case Panic => s.pc.Stopped?
    }

    /** `poll_next`, with scancodes arriving before each of its operations. */
    method PollNext(id: nat, a: Arrivals) returns (r: PollNextResult)
      requires Valid() && s.pc.KeyFast? && s.keyboard == Some(id)
      modifies this
      ensures Valid() && s == AfterPollNext(old(s), a) && Answers(r, id, old(s).delivered)
    {
      Interruptible(s);
      var panic := Arrive(a.a0);
      if panic { return Panic; }
      var code := PopScancode();
      if code.Some? { return ReadyCode(code.value); }
      r := PollAgain(id, a);
    }

    /** One poll of `print_keypresses`, as far as the arrivals given reach. */
    method PollKeyboard(id: nat, arrivals: seq<Arrivals>) returns (r: TaskResult)
      requires Valid() && (s.pc.KeyInit? || s.pc.KeyFast?) && s.keyboard == Some(id)
      requires s.pc.KeyInit? <==> s.codes.None?
      modifies this
      ensures Valid() && s == AfterKeyboard(if old(s).pc.KeyInit? then Step(old(s), Main) else old(s), arrivals)
      ensures (r == Panicked <==> s.pc.Stopped?) && (r == Returned <==> s.pc.RunTop?)
      ensures !s.pc.Idle? && r != QueueEmpty
    {
      if scancodes.None? {
        scancodes := Some([]);
        Record(Main);
      }
      ghost var first := s;
      for i := 0 to |arrivals|
        invariant Valid() && s.pc.KeyFast? && s.keyboard == Some(id)
        invariant AfterKeyboard(s, arrivals[i..]) == AfterKeyboard(first, arrivals)
      {
        assert arrivals[i..][1..] == arrivals[i + 1..];
        var next := PollNext(id, arrivals[i]);
        match next
        case ReadyCode(_) =>
        case Pending => return Returned;
        case Panic => return Panicked;
      }
      return StillRunning;
    }

    /** The running task wakes a task, if a waker for it exists. */
    method WakeOtherTask(id: nat) returns (panic: bool)
      requires Valid() && s.pc.Busy?
      modifies this
      ensures Valid() && s == Step(old(s), WakeOther(id)) && panic == s.pc.Stopped? && (!panic ==> s.pc == old(s).pc)
    {
      panic := false;
      if id in wakers { panic := WakeTask(id); }
      Record(WakeOther(id));
    }

    method Act(a: Action) returns (panic: bool)
      requires Valid() && s.pc.Busy?
      modifies this
      ensures Valid() && s == Step(old(s), ActionEvent(a)) && panic == s.pc.Stopped? && (!panic ==> s.pc == old(s).pc)
    {
      match a
      case WakeUp(id) => panic := WakeOtherTask(id);
      case Arrival(code) =>
        Interruptible(s);
        panic := AddScancode(code);
    }

    /** One poll of any other task: it wakes tasks through wakers that exist while scancodes arrive, then
        returns. */
    method PollOther(id: nat, b: Behaviour) returns (panic: bool)
      requires Valid() && s.pc == Busy(id)
      modifies this
      ensures Valid() && s == Step(AfterActions(old(s), b.actions), Return(b.ready))
      ensures panic == s.pc.Stopped? && (!panic ==> s.pc.RunTop?)
    {
      for i := 0 to |b.actions|
        invariant Valid() && s.pc == Busy(id)
        invariant AfterActions(s, b.actions[i..]) == AfterActions(old(s), b.actions)
      {
        assert b.actions[i..][1..] == b.actions[i + 1..];
        panic := Act(b.actions[i]);
        if panic {
          StoppedActions(s, b.actions[i + 1..]);
          return;
        }
      }
      if b.ready {
        tasks := tasks - {id};
        wakerCache := wakerCache - {id};
      }
      Record(Return(b.ready));
      panic := false;
    }

    /** One id from the queue. */
    method RunTask(p: PollScript) returns (r: TaskResult)
      requires Valid() && s.pc.RunTop? && taskQueue != []
      modifies this
      ensures Valid() && s == AfterTask(old(s), p) && !s.pc.Idle? && r != QueueEmpty
      ensures (r == Panicked <==> s.pc.Stopped?) && (r == Returned <==> s.pc.RunTop?)
    {
      var id := PopTask();
      Interruptible(s);
      var panic := Arrive(p.late);
      if panic { return Panicked; }
      if id !in tasks {
        Record(Main);                    // task no longer exists
        return Returned;
      }
      r := Poll(id, p);
    }

    /** The task is found, and polled. */
    method Poll(id: nat, p: PollScript) returns (r: TaskResult)
      requires Valid() && s.pc == Popped(id) && id in tasks
      modifies this
      ensures Valid() && s == AfterPoll(AsyncRuntime.BeginPoll(old(s), id), p) && !s.pc.Idle? && r != QueueEmpty
      ensures (r == Panicked <==> s.pc.Stopped?) && (r == Returned <==> s.pc.RunTop?)
    {
      BeginPoll(id);
      if keyboard == Some(id) {
        r := PollKeyboard(id, p.arrivals);
      } else {
        var panic := PollOther(id, p.behaviour);
        r := if panic then Panicked else Returned;
      }
    }

    /** A turn of the loop in `run_ready_tasks`. */
    method RunTurn(p: PollScript) returns (r: TaskResult)
      requires Valid() && s.pc.RunTop?
      modifies this
      ensures Valid() && s == AfterTurn(old(s), p)
      ensures (r == Panicked <==> s.pc.Stopped?) && (r == Returned <==> s.pc.RunTop?)
      ensures r == QueueEmpty <==> s.pc.Idle?
    {
      Interruptible(s);
      var panic := Arrive(p.early);
      if panic { return Panicked; }
      if taskQueue == [] {
        Record(Main);
        return QueueEmpty;
      }
      r := RunTask(p);
    }

    /** `run_ready_tasks`, as far as the script of polls reaches. */
    method RunReadyTasks(script: seq<PollScript>) returns (r: TaskResult)
      requires Valid() && s.pc.RunTop?
      modifies this
      ensures Valid() && s == AfterTasks(old(s), script)
      ensures (r == Panicked <==> s.pc.Stopped?) && (r == QueueEmpty <==> s.pc.Idle?)
    {
      for i := 0 to |script|
        invariant Valid() && s.pc.RunTop?
        invariant AfterTasks(s, script[i..]) == AfterTasks(old(s), script)
      {
        assert script[i..][1..] == script[i + 1..];
        r := RunTurn(script[i]);
        if r != Returned { return; }
      }
      if taskQueue != [] { return StillRunning; }
      Record(Main);
      return QueueEmpty;
    }

    /** `task_queue.pop()`. */
    method PopTask() returns (id: nat)
      requires Valid() && s.pc.RunTop? && taskQueue != []
      modifies this
      ensures Valid() && s == MainStep(old(s)) && s.pc == Popped(id)
    {
      id := taskQueue[0];
      taskQueue := taskQueue[1..];
      Record(Main);
    }

    /** The waker is cached, and the poll begins. */
    method BeginPoll(id: nat)
      requires Valid() && s.pc == Popped(id) && id in tasks
      modifies this
      ensures Valid() && s == AsyncRuntime.BeginPoll(old(s), id)
    {
      LiveIdIsKnown(s, id);
      wakerCache := wakerCache + {id};
      if keyboard != Some(id) { wakers := wakers + {id}; }
      Record(Main);
    }

    /** Interrupts off, the check, and interrupts on again, halting if there is nothing to do. */
    method DisableAndCheck() returns (halted: bool)
      requires Valid() && s.pc.Idle?
      modifies this
      ensures Valid() && s == Step(Step(old(s), Main), Main) && interruptsEnabled
      ensures halted == s.pc.Halted? && (!halted ==> s.pc.RunTop?)
    {
      interruptsEnabled := false;
      Record(Main);
      halted := taskQueue == [];
      interruptsEnabled := true;
      Record(Main);
    }

    /** `sleep_if_idle`, with scancodes arriving before interrupts are disabled: a processor that halts has
        nothing left to do, and the next interrupt ends the halt. */
    method SleepIfIdle(before: seq<Scancode>, interrupt: Interrupt) returns (panic: bool)
      requires Valid() && s.pc.Idle?
      modifies this
      ensures Valid() && s == AfterSleep(old(s), before, interrupt)
      ensures panic == s.pc.Stopped? && (!panic ==> s.pc.RunTop?)
      ensures var halt := BeforeHalt(old(s), before);
              halt.pc.Halted? ==> halt.queue == [] && (halt.codes.Some? ==> halt.codes.value == [] && halt.waker)
    {
      Interruptible(s);
      panic := Arrive(before);
      if panic { return; }
      var halted := DisableAndCheck();
      if halted {
        HaltedIsIdle(s);
        WakeUpBy(interrupt);
      }
    }

    /** The interrupt that ends a halt; the task queue is empty, so it has room. */
    method WakeUpBy(interrupt: Interrupt)
      requires Valid() && s.pc.Halted? && interruptsEnabled && taskQueue == []
      modifies this
      ensures Valid() && s == Step(old(s), InterruptEvent(interrupt)) && s.pc.RunTop?
    {
      match interrupt
      case KeyPress(code) =>
        var panic := AddScancode(code);
        assert !panic;
      case Timer => Record(OtherIrq);
    }

    /** `run`, as far as the rounds given reach. */
    method Run(rounds: seq<Round>) returns (panic: bool)
      requires Valid() && s.pc.RunTop?
      modifies this
      ensures Valid() && s == AfterRounds(old(s), rounds) && panic == s.pc.Stopped?
    {
      for i := 0 to |rounds|
        invariant Valid() && s.pc.RunTop?
        invariant AfterRounds(s, rounds[i..]) == AfterRounds(old(s), rounds)
      {
        assert rounds[i..][1..] == rounds[i + 1..];
        var r := RunReadyTasks(rounds[i].script);
        if r != QueueEmpty { return r == Panicked; }
        panic := SleepIfIdle(rounds[i].before, rounds[i].interrupt);
        if panic { return; }
      }
      panic := false;
    }
  }
}
