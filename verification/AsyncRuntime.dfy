/**
The asynchronous runtime: the executor of kernel/src/task/executor.rs, the keyboard task of
kernel/src/task/keyboard.rs and the interrupt handler that feeds it, as one state machine.

Every main-line step is one operation on a shared object (a queue, the waker, the interrupt
flag); an interrupt may arrive between any two of them while interrupts are enabled. A
handler runs to its end before the main line goes on. A push to a full task queue panics and
stops the machine.
*/
module AsyncRuntime {
  import opened Layouts

  /** Capacity of `SCANCODE_QUEUE` and of `task_queue`. */
  const CAPACITY: nat := 100

  type Scancode = bv8

  /** Where the main line is. */
  datatype Pc =
    | Boot                  // tasks are being spawned
    | RunTop                // run_ready_tasks: about to pop a task id
    | Popped(id: nat)       // about to look the task up
    | Busy(id: nat)         // inside the poll of a task other than the keyboard's
    | KeyInit               // first poll of the keyboard task: ScancodeStream::new
    | KeyFast               // poll_next: first pop
    | KeyRegister           // poll_next: register the waker
    | KeySecond             // poll_next: second pop
    | KeyTake               // poll_next: take the waker back
    | Idle                  // sleep_if_idle: about to disable interrupts
    | Check                 // sleep_if_idle: interrupts disabled, about to look at the queue
    | Halted                // sti; hlt
    | Stopped               // panic

  datatype Mark = PollBegin(id: nat) | Completed(id: nat)

  datatype State = State(
    pc: Pc,
    interrupts: bool,
    nextId: nat,                      // TaskId::new
    tasks: set<nat>,
    queue: seq<nat>,
    cache: set<nat>,                  // keys of waker_cache
    keyboard: Option<nat>,            // id of the task running print_keypresses
    codes: Option<seq<Scancode>>,     // SCANCODE_QUEUE, None before initialisation
    waker: bool,                      // WAKER holds the keyboard task's waker
    // history
    unpolled: set<nat>,               // spawned, never polled
    woken: set<nat>,                  // woken since the last poll began
    log: seq<Mark>,
    received: seq<Scancode>,          // by the handler, after initialisation
    accepted: seq<Scancode>,
    delivered: seq<Scancode>,
    pops: nat,                        // from the task queue
    pushes: nat,                      // of the keyboard task's id
    registrations: nat)

  function Initial(): State {
    State(Boot, true, 0, {}, [], {}, None, None, false, {}, {}, [], [], [], [], 0, 0, 0)
  }

  datatype Event =
    | Spawn                           // any other task
    | SpawnKeyboard
    | Start                           // executor.run()
    | Main                            // the next main-line step
    | WakeOther(id: nat)              // a running task wakes a task
    | Return(ready: bool)             // the running task's poll returns
    | KeyIrq(code: Scancode)
    | WakeIrq(id: nat)                // another interrupt wakes a task
    | OtherIrq

  // ----- operations --------------------------------------------------------------------

  /** `wake_task`: push the id, or panic when the queue is full. */
  function Wake(s: State, id: nat): State {
    if |s.queue| >= CAPACITY then s.(pc := Stopped)
    else s.(queue := s.queue + [id], woken := s.woken + {id},
            pushes := if s.keyboard == Some(id) then s.pushes + 1 else s.pushes)
  }

  /** `Executor::spawn`; the new id is fresh, so the insertion never finds an old entry. */
  function SpawnTask(s: State, keyboard: bool): State {
    var id := s.nextId;
    var s' := s.(nextId := id + 1, tasks := s.tasks + {id}, unpolled := s.unpolled + {id},
                 keyboard := if keyboard then Some(id) else s.keyboard);
    if |s.queue| >= CAPACITY then s'.(pc := Stopped)
    else s'.(queue := s.queue + [id], pushes := if keyboard then s.pushes + 1 else s.pushes)
  }

  /** `add_scancode`, as far as the queue and the waker are concerned. */
  function AddScancode(s: State, code: Scancode): State {
    match s.codes
    case None => s
    case Some(q) =>
      if |q| >= CAPACITY then s.(received := s.received + [code])
      else
        var s' := s.(codes := Some(q + [code]), received := s.received + [code], accepted := s.accepted + [code]);
        if s.waker && s.keyboard.Some? then Wake(s'.(waker := false), s.keyboard.value) else s'
  }

  /** An interrupt ends a halt: `sleep_if_idle` returns and `run` loops. */
  function Resume(s: State): State {
    if s.pc.Halted? then s.(pc := RunTop) else s
  }

  /** The keyboard task pops a scancode, and goes to `empty` or `taken`. */
  function PopCode(s: State, empty: Pc, taken: Pc): State {
    match s.codes
    case Some(q) =>
      if q == [] then s.(pc := empty)
      else s.(codes := Some(q[1..]), delivered := s.delivered + [q[0]], pc := taken)
    case None => s.(pc := Stopped)   // expect("scancode queue not initialized")
  }

  /** Look the popped id up; if the task still exists, cache its waker and poll it. */
  function BeginPoll(s: State, id: nat): State {
    if id !in s.tasks then s.(pc := RunTop)
    else
      s.(pc := if s.keyboard != Some(id) then Busy(id) else if s.codes.None? then KeyInit else KeyFast,
         cache := s.cache + {id}, unpolled := s.unpolled - {id}, woken := s.woken - {id},
         log := s.log + [PollBegin(id)])
  }

  function MainStep(s: State): State {
    match s.pc
    case RunTop =>
      if s.queue == [] then s.(pc := Idle)
      else s.(pc := Popped(s.queue[0]), queue := s.queue[1..], pops := s.pops + 1)
    case Popped(id) => BeginPoll(s, id)
    case KeyInit => s.(codes := Some([]), pc := KeyFast)
    case KeyFast => PopCode(s, KeyRegister, KeyFast)
    case KeyRegister => s.(waker := true, registrations := s.registrations + 1, pc := KeySecond)
    case KeySecond => PopCode(s, RunTop, KeyTake)
    case KeyTake => s.(waker := false, pc := KeyFast)
    case Idle => s.(interrupts := false, pc := Check)
    case Check => s.(interrupts := true, pc := if s.queue == [] then Halted else RunTop)
    case _ => s
  }

  /** A waker of `id` exists: the task has been polled, and it is not the keyboard's. */
  predicate CanWake(s: State, id: nat) {
    id < s.nextId && id !in s.unpolled && s.keyboard != Some(id)
  }

  function FinishPoll(s: State, id: nat, ready: bool): State {
    if ready then
      s.(pc := RunTop, tasks := s.tasks - {id}, cache := s.cache - {id}, log := s.log + [Completed(id)])
    else s.(pc := RunTop)
  }

  /** One event; an event that cannot happen now changes nothing. */
  function Step(s: State, e: Event): State {
    if s.pc.Stopped? then s
    else
      match e
      case Spawn => if s.pc.Boot? then SpawnTask(s, false) else s
      case SpawnKeyboard => if s.pc.Boot? && s.keyboard.None? then SpawnTask(s, true) else s
      case Start => if s.pc.Boot? then s.(pc := RunTop) else s
      case Main => MainStep(s)
      case WakeOther(id) => if s.pc.Busy? && CanWake(s, id) then Wake(s, id) else s
      case Return(ready) => if s.pc.Busy? then FinishPoll(s, s.pc.id, ready) else s
      case KeyIrq(code) => if s.interrupts then AddScancode(Resume(s), code) else s
      case WakeIrq(id) => if s.interrupts && CanWake(s, id) then Wake(Resume(s), id) else s
      case OtherIrq => if s.interrupts then Resume(s) else s
  }

  function Exec(s: State, es: seq<Event>): State
    decreases |es|
  {
    if es == [] then s else Exec(Step(s, es[0]), es[1..])
  }

  // ----- invariants --------------------------------------------------------------------

  predicate InKeyPoll(pc: Pc) {
    pc.KeyInit? || pc.KeyFast? || pc.KeyRegister? || pc.KeySecond? || pc.KeyTake?
  }

  /** The id waits in the queue, or has just been popped for its next poll. */
  predicate Queued(s: State, id: nat) {
    id in s.queue || s.pc == Popped(id)
  }

  /** Executor: ids are fresh, wakers are cached for live tasks only, finished tasks are gone, and a
      live task that was never polled, or was woken since its poll began, is queued. */
  ghost predicate TaskInv(s: State) {
    && |s.queue| <= CAPACITY
    && (forall t :: t in s.tasks ==> t < s.nextId)
    && s.cache <= s.tasks && s.unpolled <= s.tasks
    && (forall t: nat :: Completed(t) in s.log ==> t < s.nextId && t !in s.tasks)
    && (s.pc.Busy? ==> s.pc.id in s.tasks && s.keyboard != Some(s.pc.id) && s.pc.id !in s.unpolled)
    && (forall t :: t in s.tasks && (t in s.unpolled || t in s.woken) ==> Queued(s, t))
  }

  /** Sleeping: interrupts are off exactly at the check, and a halted processor has nothing to do. */
  ghost predicate SleepInv(s: State) {
    && (s.interrupts <==> !s.pc.Check?)
    && (s.pc.Halted? ==> s.queue == [])
  }

  /** Keyboard: once initialised, outside its poll the task is queued or its waker is registered, and
      with scancodes waiting it is queued; at the second pop a registered waker that is gone has been
      turned into a queued id. */
  ghost predicate KeyInv(s: State) {
    match s.keyboard
    case None => s.codes.None? && !s.waker && !InKeyPoll(s.pc)
    case Some(k) =>
      && k in s.tasks
      && (s.codes.None? ==> !s.waker && (k in s.unpolled || s.pc.KeyInit?))
      && (s.pc.KeyInit? ==> s.codes.None?)
      && (InKeyPoll(s.pc) && !s.pc.KeyInit? ==> s.codes.Some?)
      && (s.codes.Some? ==> |s.codes.value| <= CAPACITY)
      && (s.codes.Some? && !InKeyPoll(s.pc) ==> s.waker || Queued(s, k))
      && (s.codes.Some? && !InKeyPoll(s.pc) && s.codes.value != [] ==> Queued(s, k))
      && (s.pc.KeySecond? ==> s.waker || k in s.queue)
  }

  ghost predicate Inv(s: State) {
    !s.pc.Stopped? ==> TaskInv(s) && SleepInv(s) && KeyInv(s)
  }

  // ----- one step ----------------------------------------------------------------------

  lemma WakeInv(s: State, id: nat)
    requires TaskInv(s) && KeyInv(s) && !s.pc.Stopped? && !Wake(s, id).pc.Stopped?
    ensures TaskInv(Wake(s, id)) && KeyInv(Wake(s, id))
  {
    var s' := Wake(s, id);
    assert forall t :: Queued(s, t) ==> Queued(s', t);
    assert Queued(s', id);
  }

  lemma SpawnInv(s: State, keyboard: bool)
    requires TaskInv(s) && KeyInv(s) && s.pc.Boot? && !SpawnTask(s, keyboard).pc.Stopped?
    requires keyboard ==> s.keyboard.None?
    ensures TaskInv(SpawnTask(s, keyboard)) && KeyInv(SpawnTask(s, keyboard))
  {
    var s' := SpawnTask(s, keyboard);
    assert s'.queue[|s.queue|] == s.nextId;
    assert forall t :: Queued(s, t) ==> Queued(s', t);
  }

  lemma ResumeInv(s: State)
    requires TaskInv(s) && KeyInv(s)
    ensures TaskInv(Resume(s)) && KeyInv(Resume(s))
  {
    assert forall t :: Queued(s, t) ==> Queued(Resume(s), t);
  }

  /** The handler: a scancode that finds a registered waker queues the task; one that finds none finds
      the task queued already, also when it is dropped because the scancode queue is full. */
  lemma AddScancodeInv(s: State, code: Scancode)
    requires TaskInv(s) && KeyInv(s) && !s.pc.Stopped? && !AddScancode(s, code).pc.Stopped?
    ensures TaskInv(AddScancode(s, code)) && KeyInv(AddScancode(s, code))
  {
    var s' := AddScancode(s, code);
    assert forall t :: Queued(s, t) ==> Queued(s', t);
    if s.codes.Some? && |s.codes.value| < CAPACITY && s.waker {
      assert Queued(s', s.keyboard.value);
    }
  }

  lemma PopTaskInv(s: State)
    requires TaskInv(s) && s.pc.RunTop? && s.queue != []
    ensures TaskInv(MainStep(s))
  {
    forall t | Queued(s, t) ensures Queued(MainStep(s), t) {
      assert s.queue == [s.queue[0]] + s.queue[1..];
    }
  }

  lemma MainTaskInv(s: State)
    requires TaskInv(s) && KeyInv(s) && !s.pc.Stopped?
    ensures !MainStep(s).pc.Stopped? && TaskInv(MainStep(s))
  {
    var s' := MainStep(s);
    if s.pc.RunTop? && s.queue != [] {
      PopTaskInv(s);
    } else if !s.pc.Popped? {
      assert forall t :: Queued(s, t) ==> Queued(s', t);
    }
  }

  lemma MainKeyInv(s: State)
    requires TaskInv(s) && KeyInv(s) && !s.pc.Stopped?
    ensures KeyInv(MainStep(s))
  {
    if s.pc.RunTop? && s.queue != [] {
      assert s.queue == [s.queue[0]] + s.queue[1..];
    }
  }

  lemma FinishInv(s: State, ready: bool)
    requires TaskInv(s) && KeyInv(s) && s.pc.Busy?
    ensures TaskInv(FinishPoll(s, s.pc.id, ready)) && KeyInv(FinishPoll(s, s.pc.id, ready))
  {
    assert forall t :: Queued(s, t) ==> Queued(FinishPoll(s, s.pc.id, ready), t);
  }

  lemma SleepStep(s: State, e: Event)
    requires !s.pc.Stopped? && SleepInv(s)
    ensures !Step(s, e).pc.Stopped? ==> SleepInv(Step(s, e))
  {
  }

  lemma StepInv(s: State, e: Event)
    requires Inv(s)
    ensures Inv(Step(s, e))
  {
    if !s.pc.Stopped? && !Step(s, e).pc.Stopped? {
      SleepStep(s, e);
      match e
      case Spawn => if s.pc.Boot? { SpawnInv(s, false); }
      case SpawnKeyboard => if s.pc.Boot? && s.keyboard.None? { SpawnInv(s, true); }
      case Start => assert forall t :: Queued(s, t) ==> Queued(Step(s, e), t);
      case Main =>
        MainTaskInv(s);
        MainKeyInv(s);
      case WakeOther(id) => if s.pc.Busy? && CanWake(s, id) { WakeInv(s, id); }
      case Return(ready) => if s.pc.Busy? { FinishInv(s, ready); }
      case KeyIrq(code) =>
        ResumeInv(s);
        if s.interrupts { AddScancodeInv(Resume(s), code); }
      case WakeIrq(id) =>
        ResumeInv(s);
        if s.interrupts && CanWake(s, id) { WakeInv(Resume(s), id); }
      case OtherIrq => ResumeInv(s);
    }
  }
}
