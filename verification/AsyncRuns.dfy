/**
Guarantees of the asynchronous runtime over every run: interrupts at arbitrary points, any
number of tasks, and tasks that wake each other and finish as they like.
*/
module AsyncRuns {
  import opened Layouts
  import opened AsyncRuntime

  lemma {:induction false} ExecInv(s: State, es: seq<Event>)
    requires Inv(s)
    ensures Inv(Exec(s, es))
    decreases |es|
  {
    if es != [] {
      StepInv(s, es[0]);
      ExecInv(Step(s, es[0]), es[1..]);
    }
  }

  /** No wake-up is lost: while scancodes wait and the keyboard task is not in its poll, its id is
      queued; so a halted processor has empty queues, with the keyboard's waker registered and no
      live task unpolled or woken. */
  lemma NoLostWakeup(es: seq<Event>)
    ensures var s := Exec(Initial(), es);
            !s.pc.Stopped? ==>
              && (s.codes.Some? && s.codes.value != [] && !InKeyPoll(s.pc) ==>
                    s.keyboard.Some? && Queued(s, s.keyboard.value))
              && (s.pc.Halted? ==>
                    && s.interrupts && s.queue == []
                    && (s.codes.Some? ==> s.codes.value == [] && s.waker)
                    && s.tasks !! s.unpolled && s.tasks !! s.woken)
  {
    ExecInv(Initial(), es);
    var s := Exec(Initial(), es);
    if s.pc.Halted? {
      assert forall t :: t in s.tasks ==> !Queued(s, t);
    }
  }

  // ----- executor ----------------------------------------------------------------------

  /** No poll begins after the task has completed. */
  ghost predicate LogInv(s: State) {
    forall i, j :: 0 <= i < j < |s.log| && s.log[i].Completed? ==> s.log[j] != PollBegin(s.log[i].id)
  }

  lemma LogSnoc(log: seq<Mark>, m: Mark, s: State)
    requires LogInv(s) && log == s.log + [m]
    requires m.PollBegin? ==> Completed(m.id) !in s.log
    ensures forall i, j :: 0 <= i < j < |log| && log[i].Completed? ==> log[j] != PollBegin(log[i].id)
  {
    forall i | 0 <= i < |s.log| && s.log[i].Completed? ensures m != PollBegin(s.log[i].id) {
      assert Completed(s.log[i].id) in s.log;
    }
  }

  lemma LogStep(s: State, e: Event)
    requires Inv(s) && LogInv(s)
    ensures LogInv(Step(s, e))
  {
    if e.Main? && s.pc.Popped? && s.pc.id in s.tasks {
      LogSnoc(Step(s, e).log, PollBegin(s.pc.id), s);
    } else if e.Return? && s.pc.Busy? && e.ready {
      LogSnoc(Step(s, e).log, Completed(s.pc.id), s);
    } else {
      assert Step(s, e).log == s.log;
    }
  }

  lemma {:induction false} LogExec(s: State, es: seq<Event>)
    requires Inv(s) && LogInv(s)
    ensures LogInv(Exec(s, es))
    decreases |es|
  {
    if es != [] {
      LogStep(s, es[0]);
      StepInv(s, es[0]);
      LogExec(Step(s, es[0]), es[1..]);
    }
  }

  /** Executor safety: a completed task is never polled again, wakers are cached only for live tasks,
      and every live task that is unpolled or was woken since its last poll began is queued. */
  lemma ExecutorSafety(es: seq<Event>)
    ensures var s := Exec(Initial(), es);
            && LogInv(s)
            && (!s.pc.Stopped? ==>
                  && s.cache <= s.tasks
                  && forall t :: t in s.tasks && (t in s.unpolled || t in s.woken) ==> Queued(s, t))
  {
    ExecInv(Initial(), es);
    LogExec(Initial(), es);
  }

  /** In every run, an id left in the queue by a task that has completed is popped without effect: no poll,
      no waker, no change but the program counter. */
  lemma CompletedIdSkipped(es: seq<Event>, id: nat)
    ensures var s := Exec(Initial(), es);
            s.pc == Popped(id) && Completed(id) in s.log ==> Step(s, Main) == s.(pc := RunTop)
  {
    ExecInv(Initial(), es);
  }

  // ----- scancodes ---------------------------------------------------------------------

  /** `a` can be obtained from `r` by leaving elements out. */
  ghost predicate Subsequence(a: seq<Scancode>, r: seq<Scancode>)
    decreases |r|
  {
    || a == []
    || (r != [] && Subsequence(a, r[..|r| - 1]))
    || (r != [] && a[|a| - 1] == r[|r| - 1] && Subsequence(a[..|a| - 1], r[..|r| - 1]))
  }

  lemma SubsequenceSnoc(a: seq<Scancode>, r: seq<Scancode>, x: Scancode)
    requires Subsequence(a, r)
    ensures Subsequence(a, r + [x]) && Subsequence(a + [x], r + [x])
  {
    assert (r + [x])[..|r|] == r && (a + [x])[..|a|] == a;
  }

  /** What was delivered, followed by what is queued, is what was accepted. */
  predicate Conserved(s: State) {
    match s.codes
    case None => s.received == s.accepted == s.delivered == []
    case Some(q) => s.accepted == s.delivered + q
  }

  ghost predicate FifoInv(s: State) {
    Conserved(s) && Subsequence(s.accepted, s.received)
  }

  lemma PopConserves(s: State, empty: Pc, taken: Pc)
    requires Conserved(s)
    ensures Conserved(PopCode(s, empty, taken))
  {
    if s.codes.Some? && s.codes.value != [] {
      var s', q := PopCode(s, empty, taken), s.codes.value;
      assert s'.codes.value == q[1..] && s'.delivered == s.delivered + [q[0]];
      SplitHead(s.delivered, q);
    }
  }

  lemma SplitHead(d: seq<Scancode>, q: seq<Scancode>)
    requires q != []
    ensures d + q == d + [q[0]] + q[1..]
  {
  }

  lemma AddKeepsFifo(s: State, code: Scancode)
    requires FifoInv(s)
    ensures FifoInv(AddScancode(s, code))
  {
    if s.codes.Some? {
      SubsequenceSnoc(s.accepted, s.received, code);
      assert s.delivered + s.codes.value + [code] == s.delivered + (s.codes.value + [code]);
    }
  }

  /** Only the handler and the keyboard's pops touch the scancodes. */
  lemma CodesUntouched(s: State, e: Event)
    requires !e.KeyIrq? && (e.Main? ==> !s.pc.KeyInit? && !s.pc.KeyFast? && !s.pc.KeySecond?)
    ensures SameCodes(s, Step(s, e))
  {
  }

  predicate SameAccounts(s: State, t: State) {
    t.pushes == s.pushes && t.waker == s.waker && t.keyboard == s.keyboard && t.registrations == s.registrations
  }

  /** A pop changes the queue and what was delivered, but neither what came in nor the wake-up accounts. */
  lemma PopKeeps(s: State, empty: Pc, taken: Pc)
    ensures var s' := PopCode(s, empty, taken);
            s'.accepted == s.accepted && s'.received == s.received && SameAccounts(s, s')
  {
    if s.codes.None? {
      assert PopCode(s, empty, taken) == s.(pc := Stopped);
    } else if s.codes.value == [] {
      assert PopCode(s, empty, taken) == s.(pc := empty);
    }
  }

  predicate SameCodes(s: State, t: State) {
    t.codes == s.codes && t.received == s.received && t.accepted == s.accepted && t.delivered == s.delivered
  }

  lemma FifoSame(s: State, t: State)
    requires FifoInv(s) && SameCodes(s, t)
    ensures FifoInv(t)
  {
  }

  lemma FifoPop(s: State, empty: Pc, taken: Pc)
    requires FifoInv(s)
    ensures FifoInv(PopCode(s, empty, taken))
  {
    PopConserves(s, empty, taken);
    PopKeeps(s, empty, taken);
  }

  lemma KeyIrqStep(s: State, code: Scancode)
    requires !s.pc.Stopped? && s.interrupts
    ensures Step(s, KeyIrq(code)) == AddScancode(Resume(s), code)
  {
  }

  lemma FifoKeyIrq(s: State, code: Scancode)
    requires FifoInv(s) && !s.pc.Stopped? && s.interrupts
    ensures FifoInv(Step(s, KeyIrq(code)))
  {
    KeyIrqStep(s, code);
    FifoSame(s, Resume(s));
    AddKeepsFifo(Resume(s), code);
  }

  lemma FifoStep(s: State, e: Event)
    requires FifoInv(s) && Inv(s)
    ensures FifoInv(Step(s, e))
  {
    if s.pc.Stopped? {
    } else if e.KeyIrq? {
      if s.interrupts { FifoKeyIrq(s, e.code); }
    } else if e.Main? && s.pc.KeyFast? {
      FifoPop(s, KeyRegister, KeyFast);
    } else if e.Main? && s.pc.KeySecond? {
      FifoPop(s, RunTop, KeyTake);
    } else if e.Main? && s.pc.KeyInit? {
      assert s.codes.None?;
    } else {
      CodesUntouched(s, e);
      FifoSame(s, Step(s, e));
    }
  }

  /** First in, first out, over whole runs: the scancodes delivered to the task followed by those still
      queued are the accepted ones, a subsequence of those received after initialisation. */
  lemma {:induction false} ScancodeFifo(s: State, es: seq<Event>)
    requires Inv(s) && FifoInv(s)
    ensures FifoInv(Exec(s, es))
    decreases |es|
  {
    if es != [] {
      FifoStep(s, es[0]);
      StepInv(s, es[0]);
      ScancodeFifo(Step(s, es[0]), es[1..]);
    }
  }

  /** A scancode received after initialisation is dropped exactly when a full queue is waiting. */
  lemma DropExact(s: State, code: Scancode)
    requires Inv(s) && !s.pc.Stopped? && s.interrupts && s.codes.Some?
    ensures Step(s, KeyIrq(code)).received == s.received + [code]
    ensures Step(s, KeyIrq(code)).accepted == s.accepted <==> |s.codes.value| == CAPACITY
    ensures |s.codes.value| < CAPACITY ==> Step(s, KeyIrq(code)).accepted == s.accepted + [code]
  {
    assert |s.accepted + [code]| == |s.accepted| + 1;
  }

  // ----- wake accounting ---------------------------------------------------------------

  function One(b: bool): nat { if b then 1 else 0 }

  /** Every push of the keyboard task's id beyond the spawn uses up a registration. */
  ghost predicate AccountInv(s: State) {
    s.pushes + One(s.waker) <= One(s.keyboard.Some?) + s.registrations
  }

  lemma AccountBegin(s: State, id: nat)
    ensures SameAccounts(s, BeginPoll(s, id))
  {
  }

  lemma AccountMain(s: State)
    requires AccountInv(s)
    ensures AccountInv(MainStep(s))
  {
    match s.pc
    case Popped(id) => AccountBegin(s, id);
    case KeyFast => PopKeeps(s, KeyRegister, KeyFast);
    case KeySecond => PopKeeps(s, RunTop, KeyTake);
    case _ =>
  }

  lemma AccountAdd(s: State, code: Scancode)
    requires AccountInv(s)
    ensures AccountInv(AddScancode(s, code))
  {
  }

  lemma AccountStep(s: State, e: Event)
    requires AccountInv(s)
    ensures AccountInv(Step(s, e))
  {
    if e.Main? {
      AccountMain(s);
    } else if e.KeyIrq? {
      AccountAdd(Resume(s), e.code);
    }
  }

  lemma {:induction false} WakeAccounting(s: State, es: seq<Event>)
    requires AccountInv(s)
    ensures AccountInv(Exec(s, es))
    decreases |es|
  {
    if es != [] {
      AccountStep(s, es[0]);
      WakeAccounting(Step(s, es[0]), es[1..]);
    }
  }

  // ----- the kernel as it boots: one keyboard task -------------------------------------

  /** Only the keyboard task has been spawned. */
  predicate Solo(s: State) {
    s.nextId <= 1 && s.tasks <= {0} && (s.keyboard == Some(0) <==> s.nextId == 1) && !s.pc.Busy?
  }

  /** The queue can only grow by registrations, so it overflows only after the task has registered its
      waker at least a hundred times more often than it was polled. */
  ghost predicate FloodInv(s: State) {
    && Solo(s)
    && (if s.pc.Stopped? then s.pops + CAPACITY <= s.registrations
        else |s.queue| + One(s.waker) + s.pops <= s.nextId + s.registrations)
  }

  lemma FloodMain(s: State)
    requires Inv(s) && FloodInv(s) && !s.pc.Stopped?
    ensures FloodInv(MainStep(s))
  {
    MainTaskInv(s);
    if s.pc.Popped? && s.pc.id in s.tasks { assert s.pc.id == 0; }
  }

  lemma FloodAdd(s: State, code: Scancode)
    requires FloodInv(s) && !s.pc.Stopped?
    ensures FloodInv(AddScancode(s, code))
  {
  }

  lemma FloodStep(s: State, e: Event)
    requires Inv(s) && FloodInv(s) && !e.Spawn?
    ensures FloodInv(Step(s, e))
  {
    if s.pc.Stopped? {
    } else if e.Main? {
      FloodMain(s);
    } else if e.KeyIrq? {
      FloodAdd(Resume(s), e.code);
    }
  }

  lemma {:induction false} StopNeedsFlood(s: State, es: seq<Event>)
    requires Inv(s) && FloodInv(s) && forall i :: 0 <= i < |es| ==> !es[i].Spawn?
    ensures FloodInv(Exec(s, es))
    decreases |es|
  {
    if es != [] {
      FloodStep(s, es[0]);
      StepInv(s, es[0]);
      StopNeedsFlood(Step(s, es[0]), es[1..]);
    }
  }

  /** One turn of a loop inside a single poll: find no scancode, register, be interrupted, find it at
      the second pop. It leaves one more copy of the id in the task queue. */
  const FloodTurn: seq<Event> := [Main, Main, KeyIrq(0), Main, Main]

  predicate Polling(s: State, n: nat) {
    && s.pc.KeyFast? && s.interrupts && s.codes.Some? && s.codes.value == []
    && !s.waker && s.keyboard.Some? && |s.queue| == n
  }

  lemma Turn(s: State, n: nat)
    requires Polling(s, n) && n <= CAPACITY
    ensures n < CAPACITY ==> Polling(Exec(s, FloodTurn), n + 1)
    ensures n == CAPACITY ==> Exec(s, FloodTurn).pc.Stopped?
  {
    var s1 := Step(s, Main);
    var s2 := Step(s1, Main);
    assert s2 == s.(pc := KeySecond, waker := true, registrations := s.registrations + 1);
    var s3 := Step(s2, KeyIrq(0));
    assert s3.codes.Some? && s3.codes.value == [0] && !s3.waker && s3.keyboard == s.keyboard && s3.interrupts;
    ExecFive(s, Main, Main, KeyIrq(0), Main, Main);
    if n < CAPACITY {
      assert s3.pc.KeySecond? && |s3.queue| == n + 1;
      var s4 := Step(s3, Main);
      assert s4.pc.KeyTake? && s4.codes.Some? && s4.codes.value == [] && s4.queue == s3.queue && s4.interrupts;
    }
  }

  lemma ExecCons(s: State, e: Event, es: seq<Event>)
    ensures Exec(s, [e] + es) == Exec(Step(s, e), es)
  {
    assert ([e] + es)[1..] == es;
  }

  lemma ExecFive(s: State, a: Event, b: Event, c: Event, d: Event, e: Event)
    ensures Exec(s, [a, b, c, d, e]) == Step(Step(Step(Step(Step(s, a), b), c), d), e)
  {
    var s1 := Step(s, a);
    var s2 := Step(s1, b);
    var s3 := Step(s2, c);
    var s4 := Step(s3, d);
    ExecCons(s, a, [b, c, d, e]);
    ExecCons(s1, b, [c, d, e]);
    ExecCons(s2, c, [d, e]);
    ExecCons(s3, d, [e]);
    ExecCons(s4, e, []);
    assert [a, b, c, d, e] == [a] + [b, c, d, e] && [b, c, d, e] == [b] + [c, d, e];
    assert [c, d, e] == [c] + [d, e] && [d, e] == [d] + [e] && [e] == [e] + [];
    assert Exec(Step(s4, e), []) == Step(s4, e);
  }

  lemma {:induction false} ExecConcat(s: State, a: seq<Event>, b: seq<Event>)
    ensures Exec(s, a + b) == Exec(Exec(s, a), b)
    decreases |a|
  {
    if a == [] {
      assert a + b == b;
    } else {
      assert (a + b)[1..] == a[1..] + b;
      ExecConcat(Step(s, a[0]), a[1..], b);
    }
  }

  function Flood(n: nat): seq<Event> {
    if n == 0 then [SpawnKeyboard, Start, Main, Main, Main] else Flood(n - 1) + FloodTurn
  }

  lemma {:induction false} Flooded(n: nat)
    requires n <= CAPACITY
    ensures Polling(Exec(Initial(), Flood(n)), n)
  {
    if n == 0 {
      ExecFive(Initial(), SpawnKeyboard, Start, Main, Main, Main);
    } else {
      Flooded(n - 1);
      ExecConcat(Initial(), Flood(n - 1), FloodTurn);
      Turn(Exec(Initial(), Flood(n - 1)), n - 1);
    }
  }

  /** The panic on a full task queue does happen, with the keyboard task alone: a hundred interrupts
      that each fall between the registration and the second pop of one poll fill the queue. */
  lemma FloodStops()
    ensures Exec(Initial(), Flood(CAPACITY + 1)).pc.Stopped?
  {
    Flooded(CAPACITY);
    ExecConcat(Initial(), Flood(CAPACITY), FloodTurn);
    Turn(Exec(Initial(), Flood(CAPACITY)), CAPACITY);
  }

  /** Exactly which events stop a running machine: those that push onto a full task queue. */
  lemma StopExact(s: State, e: Event)
    requires Inv(s) && !s.pc.Stopped?
    ensures Step(s, e).pc.Stopped? <==>
              && |s.queue| == CAPACITY
              && match e
                 case Spawn => s.pc.Boot?
                 case SpawnKeyboard => s.pc.Boot? && s.keyboard.None?
                 case WakeOther(id) => s.pc.Busy? && CanWake(s, id)
                 case WakeIrq(id) => s.interrupts && CanWake(s, id)
                 case KeyIrq(code) => s.interrupts && s.waker && s.codes.Some? && |s.codes.value| < CAPACITY
                 case _ => false
  {
    if e.Main? { MainTaskInv(s); }
  }

  // ----- progress ----------------------------------------------------------------------

  function Waiting(s: State): nat {
    if s.codes.Some? then |s.codes.value| else 0
  }

  function PcRank(s: State): nat {
    match s.pc
    case Halted => 0
    case Check => if s.queue == [] then 1 else 4
    case Idle => if s.queue == [] then 2 else 5
    case RunTop => 3
    case KeySecond => 8
    case KeyRegister => 9
    case KeyFast => 10
    case KeyInit => 11
    case _ => 12
  }

  /** An upper bound on the main-line steps left before the processor halts. */
  function Rank(s: State): nat {
    10 * |s.queue| + 5 * Waiting(s) + PcRank(s)
  }

  lemma MainProgress(s: State)
    requires Inv(s) && Solo(s) && !s.pc.Stopped? && !s.pc.Boot? && !s.pc.Halted?
    ensures var s' := MainStep(s);
            && Rank(s') < Rank(s) && Solo(s') && !s'.pc.Stopped? && !s'.pc.Boot?
            && s'.accepted == s.accepted
  {
    MainTaskInv(s);
    if s.pc.Popped? && s.pc.id in s.tasks { assert s.pc.id == 0; }
  }

  /** Wake-ups lead to deliveries: from any reachable state of the booted kernel, if no more interrupts
      come, the main line halts within `Rank(s)` steps with every accepted scancode delivered. */
  lemma {:induction false} Drains(s: State) returns (n: nat)
    requires Inv(s) && FifoInv(s) && Solo(s) && !s.pc.Stopped? && !s.pc.Boot?
    ensures n <= Rank(s)
    ensures var t := Exec(s, seq(n, _ => Main)); t.pc.Halted? && t.delivered == s.accepted && t.queue == []
    decreases Rank(s)
  {
    if s.pc.Halted? {
      n := 0;
      assert s.delivered == s.accepted;
    } else {
      MainProgress(s);
      StepInv(s, Main);
      FifoStep(s, Main);
      var m := Drains(MainStep(s));
      n := m + 1;
      var es := seq(n, _ => Main);
      assert es[0] == Main && es[1..] == seq(m, _ => Main);
    }
  }

  // ----- from the start ----------------------------------------------------------------

  /** Scancodes and wake-ups of every run. */
  lemma KeyboardRuns(es: seq<Event>)
    ensures var s := Exec(Initial(), es);
            && Subsequence(s.accepted, s.received)
            && (s.codes.Some? ==> s.accepted == s.delivered + s.codes.value)
            && s.pushes <= 1 + s.registrations
  {
    ExecInv(Initial(), es);
    ScancodeFifo(Initial(), es);
    WakeAccounting(Initial(), es);
  }

  /** Every run of the kernel as it boots stops only after a flood, and otherwise, left alone, delivers all
      it has accepted and halts. */
  lemma BootedRuns(es: seq<Event>) returns (n: nat)
    requires forall i :: 0 <= i < |es| ==> !es[i].Spawn?
    ensures var s := Exec(Initial(), es);
            && (s.pc.Stopped? ==> s.pops + CAPACITY <= s.registrations)
            && (!s.pc.Stopped? && !s.pc.Boot? ==>
                  && n <= Rank(s)
                  && var t := Exec(s, seq(n, _ => Main)); t.pc.Halted? && t.delivered == s.accepted && t.queue == [])
  {
    var s := Exec(Initial(), es);
    ExecInv(Initial(), es);
    ScancodeFifo(Initial(), es);
    StopNeedsFlood(Initial(), es);
    n := 0;
    if !s.pc.Stopped? && !s.pc.Boot? { n := Drains(s); }
  }
}
