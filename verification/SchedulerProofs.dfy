/** Safety, fairness and tick conservation of the scheduler over all of its runs. */
module SchedulerProofs {
  import opened Alignment
  import opened Wrappers
  import opened SchedulerModel

  // ------------------------------------------------------------ step lemmas

  /** Rewriting one task keeps the invariant when it stays where it was and is fine by itself. */
  lemma UpdateKeepsInv(s: State, i: nat, t: Task)
    requires Inv(s) && i < |s.tasks|
    requires t.currentCpu == s.tasks[i].currentCpu && TaskOk(t, i, s)
    requires forall j :: 0 <= j < |s.tasks| && j != i ==> s.tasks[j].id != t.id
    ensures Inv(s.(tasks := s.tasks[i := t]))
  {
    var u := s.(tasks := s.tasks[i := t]);
    forall j | 0 <= j < |u.tasks| ensures TaskOk(u.tasks[j], j, u) {
      assert TaskOk(s.tasks[j], j, s);
    }
  }

  lemma AppendKeepsInv(s: State, t: Task)
    requires Inv(s) && |s.tasks| < MAX_TASKS
    requires t.currentCpu == None && TaskOk(t, |s.tasks|, s)
    requires forall j :: 0 <= j < |s.tasks| ==> s.tasks[j].id != t.id
    ensures Inv(s.(tasks := s.tasks + [t]))
  {
    var u := s.(tasks := s.tasks + [t]);
    forall j | 0 <= j < |u.tasks| ensures TaskOk(u.tasks[j], j, u) {
      if j < |s.tasks| { assert TaskOk(s.tasks[j], j, s); }
    }
  }

  /** A fresh id is nobody's, and handing it out keeps the invariant. */
  lemma NextIdKeepsInv(s: State)
    requires Inv(s)
    ensures Inv(s.(nextId := s.nextId + 1)) && forall j :: 0 <= j < |s.tasks| ==> s.tasks[j].id != s.nextId
  {
    var n := s.(nextId := s.nextId + 1);
    forall j | 0 <= j < |n.tasks| ensures TaskOk(n.tasks[j], j, n) && s.tasks[j].id != s.nextId {
      assert TaskOk(s.tasks[j], j, s);
    }
  }

  lemma CreateKeepsInv(s: State, name: string, data: Option<nat>)
    requires Inv(s)
    ensures Inv(DoCreate(s, name, data))
  {
    hide Agreement;
    var slot := FreeSlot(s.tasks, 0);
    if slot >= MAX_TASKS {
    } else if |name| >= NAME_CAPACITY {
      if slot < |s.tasks| {
        assert TaskOk(s.tasks[slot], slot, s);
        UpdateKeepsInv(s, slot, s.tasks[slot].(name := ""));
      }
    } else {
      var n := s.(nextId := s.nextId + 1);
      NextIdKeepsInv(s);
      var t := FreshTask(s.nextId, name, data, s.active);
      if slot < |s.tasks| { UpdateKeepsInv(n, slot, t); } else { AppendKeepsInv(n, t); }
    }
  }

  /** A task that may go on an idle CPU keeps every invariant when it goes there. */
  lemma DispatchKeepsInv(s: State, i: nat, cpu: Cpu)
    requires Inv(s) && s.active && i < |s.tasks|
    requires s.perCpu[cpu] == NO_TASK && s.tasks[i].currentCpu == None
    requires Eligible(s.tasks[i], i, cpu, s.bsp)
    ensures Inv(Dispatch(s, i, cpu))
  {
  }

  lemma StartKeepsInv(s: State)
    requires Inv(s) && Enabled(s, Start)
    ensures Inv(DoStart(s))
  {
    var a := s.(active := true);
    assert Inv(a);
    var first := PickNext(s.tasks, NO_TASK, s.bsp, s.bsp);
    var i := if first >= |s.tasks| then 0 else first;
    assert TaskOk(s.tasks[i], i, s);
    DispatchKeepsInv(a, i, s.bsp);
  }

  lemma WakeKeepsInv(s: State)
    requires Inv(s)
    ensures Inv(s.(tasks := Wake(s.tasks, s.tick)))
  {
    var w := s.(tasks := Wake(s.tasks, s.tick));
    forall i | 0 <= i < |w.tasks| ensures TaskOk(w.tasks[i], i, w) { assert TaskOk(s.tasks[i], i, s); }
    assert forall i :: 0 <= i < |w.tasks| ==>
             w.tasks[i].id == s.tasks[i].id && w.tasks[i].currentCpu == s.tasks[i].currentCpu;
  }

  /** Taking task i off `cpu` and clearing the per-CPU slot. */
  lemma OffKeepsInv(s: State, i: nat, cpu: Cpu, t: Task)
    requires Inv(s) && s.perCpu[cpu] == i < |s.tasks|
    requires t.currentCpu == None && t.id == s.tasks[i].id && TaskOk(t, i, s)
    ensures Inv(s.(tasks := s.tasks[i := t], perCpu := s.perCpu[cpu := NO_TASK]))
  {
    var u := s.(tasks := s.tasks[i := t], perCpu := s.perCpu[cpu := NO_TASK]);
    forall j | 0 <= j < |u.tasks| ensures TaskOk(u.tasks[j], j, u) { assert TaskOk(s.tasks[j], j, s); }
    assert s.tasks[i].currentCpu == Some(cpu);
  }

  /** Descheduling, seen with the per-CPU slot cleared. */
  lemma DescheduledKeepsInv(s: State, cpu: Cpu, timerTick: bool)
    requires Inv(s)
    ensures var d := Descheduled(s, cpu, timerTick); Inv(d.(perCpu := d.perCpu[cpu := NO_TASK]))
  {
    var w := s.(tasks := Wake(s.tasks, s.tick));
    WakeKeepsInv(s);
    var cur := s.perCpu[cpu];
    if cur < |s.tasks| {
      assert TaskOk(w.tasks[cur], cur, w);
      OffKeepsInv(w, cur, cpu, Outgoing(w.tasks[cur], cpu, timerTick, s.tick, s.bsp));
    } else {
      assert w.perCpu[cpu := NO_TASK] == w.perCpu;
    }
  }

  /** A task leaving a CPU while still runnable may always be picked there again. */
  lemma OutgoingStaysEligible(s: State, cpu: Cpu, timerTick: bool)
    requires Inv(s) && s.perCpu[cpu] < |s.tasks|
    ensures var d := Descheduled(s, cpu, timerTick); var t := d.tasks[s.perCpu[cpu]];
            t.status != Running && (t.status == Ready ==> Eligible(t, s.perCpu[cpu], cpu, s.bsp))
  {
    assert TaskOk(s.tasks[s.perCpu[cpu]], s.perCpu[cpu], s);
  }

  /** The scan's choice is never on another CPU: that CPU would be its affinity. */
  lemma SwitchKeepsInv(s: State, cpu: Cpu, timerTick: bool)
    requires Inv(s) && s.active
    ensures Inv(Switch(Descheduled(s, cpu, timerTick), cpu))
  {
    var d := Descheduled(s, cpu, timerTick);
    var cur := d.perCpu[cpu];
    var e := d.(perCpu := d.perCpu[cpu := NO_TASK]);
    DescheduledKeepsInv(s, cpu, timerTick);
    var next := PickNext(d.tasks, cur, cpu, d.bsp);
    if next < |d.tasks| {
      assert TaskOk(e.tasks[next], next, e);
      DispatchKeepsInv(e, next, cpu);
      assert Dispatch(e, next, cpu) == Dispatch(d, next, cpu) by {
        assert e.perCpu[cpu := next] == d.perCpu[cpu := next];
      }
    } else if cur < |d.tasks| {
      OutgoingStaysEligible(s, cpu, timerTick);
    } else {
      assert e.perCpu == d.perCpu;
    }
  }

  lemma PreemptKeepsInv(s: State, cpu: Cpu)
    requires Inv(s)
    ensures Inv(DoPreempt(s, cpu))
  {
    var ticked := TickPrologue(s, cpu);
    assert Inv(ticked) by {
      forall i | 0 <= i < |ticked.tasks| ensures TaskOk(ticked.tasks[i], i, ticked) { assert TaskOk(s.tasks[i], i, s); }
    }
    if ticked.active && |ticked.tasks| >= 2 { SwitchKeepsInv(ticked, cpu, !s.yielding[cpu]); }
  }

  lemma TerminateKeepsInv(s: State, id: nat)
    requires Inv(s)
    ensures Inv(DoTerminate(s, id))
  {
    var i := IndexOfId(s.tasks, id, 0);
    if i != |s.tasks| && i != 0 {
      assert TaskOk(s.tasks[i], i, s);
      var t := s.tasks[i].(status := Terminated, wakeTick := 0, affinity := None);
      var ended := if t.currentCpu == None then t.(lastCpu := None, runTickStart := 0, userData := None) else t;
      UpdateKeepsInv(s, i, ended);
    }
  }

  /** Every step of every CPU keeps the invariant. */
  lemma StepKeepsInv(s: State, step: Step)
    requires Inv(s) && Enabled(s, step)
    ensures Inv(Next(s, step))
  {
    hide DoCreate, DoStart, DoPreempt, DoTerminate, EndCurrent, TaskOk, UniqueIds, Agreement;
    match step
    case Create(name, data) => CreateKeepsInv(s, name, data);
    case Start => StartKeepsInv(s);
    case StartAp(c) => assert s.perCpu[c := NO_TASK] == s.perCpu;
    case Yield(c) => if s.active && |s.tasks| >= 2 { YieldKeepsInv(s, c); }
    case Preempt(c) => PreemptKeepsInv(s, c);
    case Sleep(c, ticks) => LiveSleepKeepsInv(s, c, ticks);
    case Terminate(id) => TerminateKeepsInv(s, id);
    case Exit(c) => EndCurrentKeepsInv(s, c);
    case Detach(c) => if s.perCpu[c] < |s.tasks| { EndCurrentKeepsInv(s, c); }
  }

  lemma YieldKeepsInv(s: State, c: Cpu)
    requires Inv(s)
    ensures Inv(s.(yielding := s.yielding[c := true]))
  {
    var t := s.(yielding := s.yielding[c := true]);
    forall i | 0 <= i < |t.tasks| ensures TaskOk(t.tasks[i], i, t) { assert TaskOk(s.tasks[i], i, s); }
  }

  lemma LiveSleepKeepsInv(s: State, c: Cpu, ticks: nat)
    requires Inv(s) && Enabled(s, Sleep(c, ticks))
    ensures Inv(DoSleep(s, c, ticks))
  {
    var cur := s.perCpu[c];
    assert TaskOk(s.tasks[cur], cur, s);
    UpdateKeepsInv(s, cur, s.tasks[cur].(wakeTick := s.tick + ticks, status := Blocked));
  }

  lemma EndCurrentKeepsInv(s: State, c: Cpu)
    requires Inv(s) && s.perCpu[c] < |s.tasks|
    ensures Inv(s.(tasks := s.tasks[s.perCpu[c] := EndCurrent(s.tasks[s.perCpu[c]])]))
  {
    var cur := s.perCpu[c];
    assert TaskOk(s.tasks[cur], cur, s);
    UpdateKeepsInv(s, cur, EndCurrent(s.tasks[cur]));
  }

  // ---------------------------------------------------------------- safety

  lemma {:induction false} RunKeepsInv(s: State, run: seq<Step>)
    requires Inv(s) && ValidRun(s, run)
    ensures Inv(After(s, run))
    decreases |run|
  {
    if run != [] {
      StepKeepsInv(s, run[0]);
      RunKeepsInv(Next(s, run[0]), run[1..]);
    }
  }

  /** Safety in every interleaving from boot, in the kernel's own terms. */
  lemma NoTaskOnTwoCpus(bsp: Cpu, run: seq<Step>)
    requires ValidRun(Initial(bsp), run)
    ensures var s := After(Initial(bsp), run);
            && Shape(s)
            && (forall c: Cpu, d: Cpu :: c != d && s.perCpu[c] < |s.tasks| ==> s.perCpu[c] != s.perCpu[d])
            && (forall c: Cpu, i: nat :: i < |s.tasks| ==> (s.perCpu[c] == i <==> s.tasks[i].currentCpu == Some(c)))
            && (forall i: nat :: i < |s.tasks| && s.tasks[i].currentCpu.Some? && s.tasks[i].status != Terminated
                  ==> s.tasks[i].affinity == s.tasks[i].currentCpu)
            && (forall i: nat :: i < |s.tasks| && s.tasks[i].status == Running ==> s.tasks[i].currentCpu.Some?)
            && (FreeSlot(s.tasks, 0) < |s.tasks| ==> forall c: Cpu :: s.perCpu[c] != FreeSlot(s.tasks, 0))
  {
    RunKeepsInv(Initial(bsp), run);
    var s := After(Initial(bsp), run);
    forall i: nat | i < |s.tasks| ensures TaskOk(s.tasks[i], i, s) { }
  }

  /**
   Sleep does not look at the task's state. For a task that another CPU has terminated the
   invariant is lost; for every other current task it is kept.
   */
  lemma SleepKeepsInvExactlyWhenAlive(s: State, c: Cpu, ticks: nat)
    requires Inv(s) && s.perCpu[c] < |s.tasks|
    ensures Inv(DoSleep(s, c, ticks)) <==> s.tasks[s.perCpu[c]].status != Terminated
  {
    var cur := s.perCpu[c];
    assert TaskOk(s.tasks[cur], cur, s);
    var u := DoSleep(s, c, ticks);
    if s.tasks[cur].status != Terminated {
      UpdateKeepsInv(s, cur, u.tasks[cur]);
    } else {
      assert !TaskOk(u.tasks[cur], cur, u);
    }
  }

  /** The idle task on CPU 0 and a task on CPU 1 that CPU 0 has just terminated. */
  function TerminatedOnCpu1(): State {
    var idle := Task(1, "idle", Running, 0, None, false, Some(0), Some(0), Some(0), 0, 0);
    var a := Task(2, "a", Terminated, 0, None, true, None, Some(1), Some(1), 0, 0);
    State([idle, a], seq(MAX_CPUS, c => if c < 2 then c else NO_TASK), seq(MAX_CPUS, _ => false), 3, true, 0, 0)
  }

  /** In any such state, sleeping for one tick and a boot-CPU tick put the task on both CPUs. */
  lemma SleepAfterTerminateDuplicates(s: State, c: Cpu)
    requires Inv(s) && s.active && |s.tasks| == 2 && c != s.bsp && !s.yielding[s.bsp]
    requires s.perCpu[c] == 1 && s.tasks[1].status == Terminated
    ensures var u := DoPreempt(DoSleep(s, c, 1), s.bsp); u.perCpu[s.bsp] == 1 && u.perCpu[c] == 1
  {
    assert TaskOk(s.tasks[1], 1, s);
    var d := TickPrologue(DoSleep(s, c, 1), s.bsp);
    assert s.perCpu[s.bsp] != 1;
    var w := Descheduled(d, s.bsp, true);
    assert w.tasks[1] == WakeOne(d.tasks[1], d.tick);
    assert CyclicSlot(0, 1, 2) == 1 && Runnable(w.tasks, 1, s.bsp, s.bsp);
  }

  /** Boot, a second task, a tick on CPU 1, and the task is terminated while it runs there. */
  function ToTermination(): seq<Step> {
    [Create("idle", None), Start, Create("a", None), Preempt(1), Terminate(2)]
  }

  /** CPU 0 runs the idle task; `more` follow it, the second on CPU 1 if it is running. */
  function IdleAnd(more: seq<Task>): State {
    var idle := Task(1, "idle", Running, 0, None, false, Some(0), Some(0), Some(0), 0, 0);
    var onOne := more != [] && more[0].status != Ready;
    State([idle] + more, seq(MAX_CPUS, c => if c == 0 || (c == 1 && onOne) then c else NO_TASK),
          seq(MAX_CPUS, _ => false),
          2 + |more|, true, 0, 0)
  }

  function TaskA(status: Status, at: Option<Cpu>, affinity: Option<Cpu>): Task {
    Task(2, "a", status, 0, None, true, affinity, at, at, 0, 0)
  }

  lemma BootStep()
    ensures Enabled(Initial(0), Create("idle", None)) && Enabled(Next(Initial(0), Create("idle", None)), Start)
    ensures Next(Next(Initial(0), Create("idle", None)), Start) == IdleAnd([])
  {
    var s := Next(Initial(0), Create("idle", None));
    var t := Next(s, Start);
    assert t.tasks == IdleAnd([]).tasks;
    assert t.perCpu == IdleAnd([]).perCpu;
  }

  lemma SecondTaskStep()
    ensures Enabled(IdleAnd([]), Create("a", None))
    ensures Next(IdleAnd([]), Create("a", None)) == IdleAnd([TaskA(Ready, None, None)])
  {
    assert Next(IdleAnd([]), Create("a", None)).tasks == IdleAnd([TaskA(Ready, None, None)]).tasks;
  }

  lemma DispatchStep()
    ensures var s := IdleAnd([TaskA(Ready, None, None)]);
            Enabled(s, Preempt(1)) && Next(s, Preempt(1)) == IdleAnd([TaskA(Running, Some(1), Some(1))])
  {
    var s := IdleAnd([TaskA(Ready, None, None)]);
    assert CyclicSlot(0, 1, 2) == 1;
    var t := Next(s, Preempt(1));
    assert t.tasks == IdleAnd([TaskA(Running, Some(1), Some(1))]).tasks;
    assert t.perCpu == IdleAnd([TaskA(Running, Some(1), Some(1))]).perCpu;
  }

  lemma TerminateStep()
    ensures var s := IdleAnd([TaskA(Running, Some(1), Some(1))]);
            Enabled(s, Terminate(2)) && Next(s, Terminate(2)) == TerminatedOnCpu1()
  {
    var t := Next(IdleAnd([TaskA(Running, Some(1), Some(1))]), Terminate(2));
    assert t.tasks == TerminatedOnCpu1().tasks;
    assert t.perCpu == TerminatedOnCpu1().perCpu;
  }

  /** A run from boot reaches that state. */
  lemma SleepAfterTerminateWitness()
    ensures ValidRun(Initial(0), ToTermination()) && After(Initial(0), ToTermination()) == TerminatedOnCpu1()
    ensures var s := TerminatedOnCpu1();
            Inv(s) && s.active && |s.tasks| == 2 && s.perCpu[1] == 1 && s.tasks[1].status == Terminated
  {
    hide Next, Enabled, IdleAnd, TerminatedOnCpu1, Initial;
    BootStep();
    SecondTaskStep();
    DispatchStep();
    TerminateStep();
    var ops := ToTermination();
    assert ops[1..] == [Start, Create("a", None), Preempt(1), Terminate(2)];
    assert ops[1..][1..] == [Create("a", None), Preempt(1), Terminate(2)];
    assert ops[1..][1..][1..] == [Preempt(1), Terminate(2)];
    assert ops[1..][1..][1..][1..] == [Terminate(2)];
    assert ops[1..][1..][1..][1..][1..] == [];
    TerminatedIsGood();
  }

  lemma TerminatedIsGood()
    ensures var s := TerminatedOnCpu1();
            Inv(s) && s.active && |s.tasks| == 2 && s.perCpu[1] == 1 && s.tasks[1].status == Terminated
  {
  }

  // -------------------------------------------------------------- fairness

  /** Probes the cyclic scan makes from `cur` up to and including slot t. */
  function Distance(cur: nat, t: nat, n: nat): (d: nat)
    requires 0 < t < n
    ensures 1 <= d < n
  {
    var start := ScanStart(cur, n);
    if t > start then t - start else t - start + n - 1
  }

  lemma CyclicSlotIs(start: nat, i: nat, n: nat)
    requires n > 1 && start < n && 1 <= i < n
    ensures CyclicSlot(start, i, n) == if start + i <= n - 1 then start + i else start + i - (n - 1)
  {
    var x, m := start + i - 1, n - 1;
    if x < m {
      SmallMod(x, m);
    } else {
      ModStep(x, m);
      SmallMod(x - m, m);
    }
  }

  /** The scan returns the runnable task nearest in cyclic order. */
  lemma {:induction false} ScanFindsNearest(tasks: seq<Task>, cur: nat, i: nat, cpu: Cpu, bsp: Cpu, t: nat)
    requires 1 < |tasks| <= MAX_TASKS && 0 < t < |tasks| && Runnable(tasks, t, cpu, bsp)
    requires 1 <= i <= Distance(cur, t, |tasks|)
    ensures var r := ScanFrom(tasks, ScanStart(cur, |tasks|), i, cpu, bsp);
            && 0 < r < |tasks| && i <= Distance(cur, r, |tasks|) <= Distance(cur, t, |tasks|)
            && (r == t || Distance(r, t, |tasks|) < Distance(cur, t, |tasks|))
    decreases |tasks| - i
  {
    var n, start := |tasks|, ScanStart(cur, |tasks|);
    CyclicSlotIs(start, i, n);
    if !Runnable(tasks, CyclicSlot(start, i, n), cpu, bsp) {
      ScanFindsNearest(tasks, cur, i + 1, cpu, bsp, t);
    }
  }

  /** Only preempting a CPU (or starting it) changes what is current there. */
  lemma OthersLeaveCurrentAlone(s: State, step: Step, c: Cpu)
    requires Inv(s) && s.active && Enabled(s, step) && step != Preempt(c)
    ensures Next(s, step).perCpu[c] == s.perCpu[c] && Next(s, step).active
  {
  }

  /** t is ready and eligible for c when c is about to pick. */
  predicate ReadyAtPick(s: State, c: Cpu, t: nat)
    requires Shape(s)
  {
    var d := Descheduled(TickPrologue(s, c), c, !s.yielding[c]);
    t < |d.tasks| && Runnable(d.tasks, t, c, s.bsp)
  }

  /** One preemption of c with t ready dispatches t or brings c strictly nearer to it. */
  lemma PreemptApproaches(s: State, c: Cpu, t: nat)
    requires Inv(s) && s.active && 0 < t < |s.tasks|
    requires ReadyAtPick(s, c, t)
    ensures var u := DoPreempt(s, c);
            && u.active && |u.tasks| == |s.tasks|
            && (u.perCpu[c] == t || Distance(u.perCpu[c], t, |s.tasks|) < Distance(s.perCpu[c], t, |s.tasks|))
  {
    var d := Descheduled(TickPrologue(s, c), c, !s.yielding[c]);
    ScanFindsNearest(d.tasks, s.perCpu[c], 1, c, s.bsp, t);
  }

  function Preemptions(run: seq<Step>, c: Cpu): nat {
    if run == [] then 0 else (if run[0] == Preempt(c) then 1 else 0) + Preemptions(run[1..], c)
  }

  /** Some preemption of c in the run makes t current there. */
  predicate Dispatched(s: State, run: seq<Step>, c: Cpu, t: nat)
    requires ValidRun(s, run)
    decreases |run|
  {
    && run != []
    && var u := Next(s, run[0]);
       || (run[0] == Preempt(c) && c < |u.perCpu| && u.perCpu[c] == t)
       || Dispatched(u, run[1..], c, t)
  }

  /** The task count stays n and t stays ready and eligible for c until c dispatches it. */
  predicate StaysReady(s: State, run: seq<Step>, c: Cpu, t: nat, n: nat)
    requires ValidRun(s, run)
    decreases |run|
  {
    && |s.tasks| == n
    && (run != [] ==>
          var u := Next(s, run[0]);
          && (run[0] == Preempt(c) ==> Shape(s) && ReadyAtPick(s, c, t))
          && ((run[0] == Preempt(c) && c < |u.perCpu| && u.perCpu[c] == t) || StaysReady(u, run[1..], c, t, n)))
  }

  /** Round-robin fairness, whatever the other CPUs and tasks do in between. */
  lemma {:induction false} ReadyTaskIsDispatched(s: State, run: seq<Step>, c: Cpu, t: nat, n: nat)
    requires Inv(s) && s.active && ValidRun(s, run)
    requires 0 < t < n && StaysReady(s, run, c, t, n)
    requires Preemptions(run, c) >= Distance(s.perCpu[c], t, n)
    ensures Dispatched(s, run, c, t)
    decreases |run|
  {
    var u := Next(s, run[0]);
    StepKeepsInv(s, run[0]);
    if run[0] == Preempt(c) {
      PreemptApproaches(s, c, t);
    } else {
      OthersLeaveCurrentAlone(s, run[0], c);
    }
    if !(run[0] == Preempt(c) && u.perCpu[c] == t) {
      ReadyTaskIsDispatched(u, run[1..], c, t, n);
    }
  }

  /** The bound as stated: n - 1 preemptions are always enough. */
  lemma DispatchedWithinOneRound(s: State, run: seq<Step>, c: Cpu, t: nat, n: nat)
    requires Inv(s) && s.active && ValidRun(s, run)
    requires 0 < t < n && StaysReady(s, run, c, t, n)
    requires Preemptions(run, c) >= n - 1
    ensures Dispatched(s, run, c, t)
  {
    ReadyTaskIsDispatched(s, run, c, t, n);
  }

  // ----------------------------------------------------- tick conservation

  /** Task 0 can always be picked on the boot CPU. */
  ghost predicate IdleAlive(s: State) {
    |s.tasks| > 0 && s.tasks[0].status in {Ready, Running}
  }

  predicate SparesTaskZero(s: State, step: Step)
    requires Enabled(s, step)
  {
    match step
    case Sleep(c, _) => s.perCpu[c] != 0
    case Exit(c) => s.perCpu[c] != 0
    case Detach(c) => s.perCpu[c] != 0
    case _ => true
  }

  predicate RunSparesTaskZero(s: State, run: seq<Step>)
    requires ValidRun(s, run)
    decreases |run|
  {
    run == [] || (SparesTaskZero(s, run[0]) && RunSparesTaskZero(Next(s, run[0]), run[1..]))
  }

  ghost predicate BspBusy(s: State) {
    Shape(s) && s.active && IdleAlive(s) && s.perCpu[s.bsp] < |s.tasks|
  }

  /** Ticks of the slice the boot CPU is running now, not yet charged. */
  ghost function Slice(s: State): int
    requires BspBusy(s)
  {
    s.tick - s.tasks[s.perCpu[s.bsp]].runTickStart
  }

  /** What a step adds to the account of the task it takes off the boot CPU. */
  ghost function BspCharge(s: State, step: Step): int
    requires BspBusy(s) && Enabled(s, step)
  {
    var cur, u := s.perCpu[s.bsp], Next(s, step);
    if step == Preempt(s.bsp) && cur < |u.tasks| then u.tasks[cur].cpuTicks - s.tasks[cur].cpuTicks else 0
  }

  /** The boot CPU picks something: its own task, another one, or task 0. */
  lemma BspPicks(s: State, timerTick: bool)
    requires Inv(s) && BspBusy(s)
    ensures PickNext(Descheduled(s, s.bsp, timerTick).tasks, s.perCpu[s.bsp], s.bsp, s.bsp) < |s.tasks|
  {
    var d := Descheduled(s, s.bsp, timerTick);
    assert TaskOk(s.tasks[0], 0, s);
    assert Runnable(d.tasks, 0, s.bsp, s.bsp);
  }

  lemma BspSwitchConserves(s: State, timerTick: bool)
    requires Inv(s) && BspBusy(s)
    ensures var u := Switch(Descheduled(s, s.bsp, timerTick), s.bsp); var cur := s.perCpu[s.bsp];
            && BspBusy(u) && Slice(u) == 0 && u.tick == s.tick && |u.tasks| == |s.tasks|
            && u.tasks[cur].cpuTicks - s.tasks[cur].cpuTicks == Slice(s)
  {
    hide Inv, PickNext, Outgoing, Wake;
    BspPicks(s, timerTick);
    BspCharged(s, timerTick);
    var d, cur := Descheduled(s, s.bsp, timerTick), s.perCpu[s.bsp];
    DispatchConserves(d, PickNext(d.tasks, cur, s.bsp, s.bsp));
  }

  /** The outgoing task of the boot CPU is charged its slice, and task 0 stays alive. */
  lemma BspCharged(s: State, timerTick: bool)
    requires Inv(s) && BspBusy(s)
    ensures var d := Descheduled(s, s.bsp, timerTick); var cur := s.perCpu[s.bsp];
            && BspBusy(d) && |d.tasks| == |s.tasks| && d.tasks[cur].cpuTicks - s.tasks[cur].cpuTicks == Slice(s)
  {
    var cur := s.perCpu[s.bsp];
    assert TaskOk(s.tasks[cur], cur, s) && TaskOk(s.tasks[0], 0, s);
  }

  lemma DispatchConserves(d: State, next: nat)
    requires BspBusy(d) && next < |d.tasks|
    requires Runnable(d.tasks, next, d.bsp, d.bsp)
    ensures var u := Dispatch(d, next, d.bsp);
            && BspBusy(u) && Slice(u) == 0 && u.tick == d.tick && |u.tasks| == |d.tasks|
            && forall i :: 0 <= i < |d.tasks| ==> u.tasks[i].cpuTicks == d.tasks[i].cpuTicks
  {
  }

  lemma BspPreemptConserves(s: State)
    requires Inv(s) && BspBusy(s)
    ensures var u := DoPreempt(s, s.bsp);
            && BspBusy(u) && BspCharge(s, Preempt(s.bsp)) + Slice(u) - Slice(s) == u.tick - s.tick
  {
    var ticked := TickPrologue(s, s.bsp);
    if |s.tasks| >= 2 {
      assert Inv(ticked) by {
        forall i | 0 <= i < |ticked.tasks| ensures TaskOk(ticked.tasks[i], i, ticked) {
          assert TaskOk(s.tasks[i], i, s);
        }
      }
      BspSwitchConserves(ticked, !s.yielding[s.bsp]);
    }
  }

  lemma ApSwitchConserves(s: State, c: Cpu, timerTick: bool)
    requires Inv(s) && BspBusy(s) && c != s.bsp
    ensures var u := Switch(Descheduled(s, c, timerTick), c); BspBusy(u) && Slice(u) == Slice(s) && u.tick == s.tick
  {
    hide Inv, PickNext, Descheduled, Runnable;
    var d := Descheduled(s, c, timerTick);
    ApLeavesBspTask(s, c, timerTick);
    var next := PickNext(d.tasks, d.perCpu[c], c, d.bsp);
    assert next < |d.tasks| ==> next != 0 && next != d.perCpu[d.bsp];
  }

  /** Saving the task of another CPU leaves the boot CPU's task and task 0 to it. */
  lemma ApLeavesBspTask(s: State, c: Cpu, timerTick: bool)
    requires Inv(s) && BspBusy(s) && c != s.bsp
    ensures var d := Descheduled(s, c, timerTick); var cur := s.perCpu[s.bsp];
            && BspBusy(d) && Slice(d) == Slice(s) && d.tick == s.tick && d.bsp == s.bsp && d.perCpu == s.perCpu
            && !Runnable(d.tasks, cur, c, d.bsp) && !Runnable(d.tasks, 0, c, d.bsp)
  {
    var cur, d := s.perCpu[s.bsp], Descheduled(s, c, timerTick);
    assert TaskOk(s.tasks[cur], cur, s) && TaskOk(s.tasks[0], 0, s);
    assert s.perCpu[c] != 0 && s.perCpu[c] != cur;
    assert d.tasks[cur] == WakeOne(s.tasks[cur], s.tick) && d.tasks[0] == WakeOne(s.tasks[0], s.tick);
  }

  /** Preempting another CPU touches neither the boot CPU's task nor the tick. */
  lemma ApPreemptConserves(s: State, c: Cpu)
    requires Inv(s) && BspBusy(s) && c != s.bsp
    ensures var u := DoPreempt(s, c); BspBusy(u) && Slice(u) == Slice(s) && u.tick == s.tick
  {
    var ticked := TickPrologue(s, c);
    if |s.tasks| >= 2 {
      ApSwitchConserves(ticked, c, !s.yielding[c]);
    }
  }

  lemma StepConservesTicks(s: State, step: Step)
    requires Inv(s) && BspBusy(s) && Enabled(s, step) && SparesTaskZero(s, step)
    ensures BspBusy(Next(s, step))
    ensures BspCharge(s, step) + Slice(Next(s, step)) - Slice(s) == Next(s, step).tick - s.tick
  {
    if step.Preempt? {
      if step.cpu == s.bsp { BspPreemptConserves(s); } else { ApPreemptConserves(s, step.cpu); }
    } else {
      OthersLeaveCurrentAlone(s, step, s.bsp);
      assert s.tasks[s.perCpu[s.bsp]].currentCpu == Some(s.bsp);
    }
  }

  ghost function BspCharges(s: State, run: seq<Step>): int
    requires Inv(s) && BspBusy(s) && ValidRun(s, run) && RunSparesTaskZero(s, run)
    decreases |run|
  {
    if run == [] then 0
    else
      StepKeepsInv(s, run[0]); StepConservesTicks(s, run[0]);
      BspCharge(s, run[0]) + BspCharges(Next(s, run[0]), run[1..])
  }

  /** Over every run, charged ticks plus the running slice are the ticks that went by. */
  lemma {:induction false} TicksAreConserved(s: State, run: seq<Step>)
    requires Inv(s) && BspBusy(s) && ValidRun(s, run) && RunSparesTaskZero(s, run)
    ensures BspBusy(After(s, run))
    ensures BspCharges(s, run) + Slice(After(s, run)) == After(s, run).tick - s.tick + Slice(s)
    decreases |run|
  {
    if run != [] {
      StepKeepsInv(s, run[0]);
      StepConservesTicks(s, run[0]);
      TicksAreConserved(Next(s, run[0]), run[1..]);
    }
  }

  /** From start() itself, where the slice is empty. */
  lemma TicksSinceStart(s: State, run: seq<Step>)
    requires Inv(s) && Enabled(s, Start) && IdleAlive(s)
    requires ValidRun(Next(s, Start), run) && RunSparesTaskZero(Next(s, Start), run)
    ensures var b := Next(s, Start);
            && Inv(b) && BspBusy(b) && BspBusy(After(b, run))
            && BspCharges(b, run) + Slice(After(b, run)) == After(b, run).tick - s.tick
  {
    StepKeepsInv(s, Start);
    TicksAreConserved(Next(s, Start), run);
  }
}
