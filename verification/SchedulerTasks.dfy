/** Where tasks may run, what a new task is, and what each quantum is charged. */
module SchedulerTasks {
  import opened Wrappers
  import opened SchedulerModel
  import opened SchedulerProofs
  import opened SchedulerSleep

  // ------------------------------------------------------------------- creation

  /** create_task puts one new task into a slot that was free, and changes no other. */
  lemma CreateAdds(s: State, name: string, data: Option<nat>)
    requires Inv(s) && |name| < 32
    ensures var u, slot := Next(s, Create(name, data)), FreeSlot(s.tasks, 0);
            if slot == 64 then u == s
            else
              && slot < |u.tasks| && |u.tasks| == (if slot < |s.tasks| then |s.tasks| else |s.tasks| + 1)
              && (slot < |s.tasks| ==> s.tasks[slot].status == Terminated && s.tasks[slot].currentCpu == None)
              && u.tasks[slot].id == s.nextId && u.nextId == s.nextId + 1 && u.tasks[slot].name == name
              && u.tasks[slot].status == Ready && u.tasks[slot].userData == data
              && u.tasks[slot].allowSecondary == s.active && u.tasks[slot].affinity == None
              && u.tasks[slot].currentCpu == None && u.tasks[slot].cpuTicks == 0 && u.tasks[slot].lastCpu == None
              && (forall j :: 0 <= j < |s.tasks| && j != slot ==> u.tasks[j] == s.tasks[j])
              && u.perCpu == s.perCpu && u.tick == s.tick && u.active == s.active && u.yielding == s.yielding
  {
  }

  // ----------------------------------------------------------- one preemption

  /** What waking and taking off does to affinity and account. */
  lemma DescheduledAccount(s: State, cpu: Cpu, timerTick: bool, i: nat)
    requires Shape(s) && i < |s.tasks|
    ensures var d := Descheduled(s, cpu, timerTick);
            var t := s.tasks[i];
            && |d.tasks| == |s.tasks| && d.tasks[i].affinity == t.affinity
            && (t.status == Terminated <==> d.tasks[i].status == Terminated)
            && (i != s.perCpu[cpu] ==> d.tasks[i].cpuTicks == t.cpuTicks && d.tasks[i].runTickStart == t.runTickStart)
            && (i == s.perCpu[cpu] && t.currentCpu.Some? ==>
                  d.tasks[i].cpuTicks - t.cpuTicks
                    == if s.tick > t.runTickStart then s.tick - t.runTickStart
                       else if timerTick && cpu != s.bsp then 1 else 0)
            && (i == s.perCpu[cpu] ==>
                  && d.tasks[i].runTickStart == 0 && (t.status == Running ==> d.tasks[i].status == Ready)
                  && d.tasks[i].userData == if t.status == Terminated then None else t.userData)
            && (i != s.perCpu[cpu] ==> d.tasks[i].userData == t.userData)
            && d.tasks[i].name == t.name && d.tasks[i].lastCpu == t.lastCpu
            && d.tasks[i].allowSecondary == t.allowSecondary
  {
  }

  /** What the switch does to them: the task put on is bound to the CPU and starts a new slice. */
  lemma SwitchAccount(d: State, cpu: Cpu, i: nat)
    requires Shape(d) && i < |d.tasks|
    ensures var u := Switch(d, cpu);
            && |u.tasks| == |d.tasks| && u.tasks[i].cpuTicks == d.tasks[i].cpuTicks
            && (u.tasks[i] == d.tasks[i]
                || (u.perCpu[cpu] == i && (d.tasks[i].affinity == None || d.tasks[i].affinity == Some(cpu))
                    && u.tasks[i].affinity == Some(cpu) && u.tasks[i].currentCpu == Some(cpu)
                    && u.tasks[i].status == Running && u.tasks[i].runTickStart == d.tick))
  {
    hide ScanFrom;
  }

  // ------------------------------------------------------------------ placement

  /** In every run task 0 is current on the boot CPU only, and any other task elsewhere only if it may be. */
  lemma PlacementHolds(bsp: Cpu, run: seq<Step>, i: nat, c: Cpu)
    requires ValidRun(Initial(bsp), run)
    ensures var s := After(Initial(bsp), run);
            i < |s.tasks| && s.tasks[i].currentCpu == Some(c) && c != s.bsp ==> i != 0 && s.tasks[i].allowSecondary
  {
    RunKeepsInv(Initial(bsp), run);
    var s := After(Initial(bsp), run);
    if i < |s.tasks| { assert TaskOk(s.tasks[i], i, s); }
  }

  /** The boot CPU is known from init on, and the scheduler, once started, stays active. */
  lemma {:induction false} BootCpuStays(s: State, run: seq<Step>)
    requires ValidRun(s, run)
    ensures After(s, run).bsp == s.bsp && (s.active ==> After(s, run).active)
    decreases |run|
  {
    hide PickNext, Wake;
    if run != [] { BootCpuStays(Next(s, run[0]), run[1..]); }
  }

  /** The task with that id, if it still lives, has run on that CPU and nowhere else since. */
  ghost predicate BoundTo(s: State, i: nat, id: nat, c: Cpu) {
    || Gone(s, id)
    || (i < |s.tasks| && s.tasks[i].id == id && id < s.nextId && s.active && s.tasks[i].affinity == Some(c)
        && s.tasks[i].status != Terminated && (s.tasks[i].currentCpu.Some? ==> s.tasks[i].currentCpu == Some(c)))
  }

  lemma PreemptBound(s: State, d: Cpu, i: nat, id: nat, c: Cpu)
    requires Inv(s) && BoundTo(s, i, id, c) && !Gone(s, id)
    ensures BoundTo(DoPreempt(s, d), i, id, c)
  {
    hide TaskOk, Agreement, UniqueIds, Switch, Descheduled, Gone;
    var ticked := TickPrologue(s, d);
    if |s.tasks| >= 2 {
      var t := Descheduled(ticked, d, !s.yielding[d]);
      DescheduledTask(ticked, d, !s.yielding[d], i);
      DescheduledAccount(ticked, d, !s.yielding[d], i);
      SwitchTask(t, d, i);
      SwitchAccount(t, d, i);
    }
  }

  lemma EndBound(s: State, d: Cpu, i: nat, id: nat, c: Cpu)
    requires Inv(s) && BoundTo(s, i, id, c) && !Gone(s, id) && s.perCpu[d] < |s.tasks|
    ensures BoundTo(Next(s, Exit(d)), i, id, c)
  {
    hide TaskOk, Agreement, UniqueIds;
    ExitEnds(s, d);
  }

  lemma TerminateBound(s: State, other: nat, i: nat, id: nat, c: Cpu)
    requires Inv(s) && BoundTo(s, i, id, c) && !Gone(s, id)
    ensures BoundTo(DoTerminate(s, other), i, id, c)
  {
    hide TaskOk, Agreement;
    var k := IndexOfId(s.tasks, other, 0);
    if k < |s.tasks| { TerminateEnds(s, other, k); }
  }

  lemma QuietBound(s: State, step: Step, i: nat, id: nat, c: Cpu)
    requires Inv(s) && Enabled(s, step) && BoundTo(s, i, id, c) && !Gone(s, id)
    requires step.Create? || step.Start? || step.StartAp? || step.Yield? || step.Sleep?
    ensures BoundTo(Next(s, step), i, id, c)
  {
    hide TaskOk, Agreement, UniqueIds;
  }

  lemma StepBound(s: State, step: Step, i: nat, id: nat, c: Cpu)
    requires Inv(s) && Enabled(s, step) && BoundTo(s, i, id, c)
    ensures BoundTo(Next(s, step), i, id, c)
  {
    hide Inv, Gone, DoPreempt, DoTerminate, DoCreate, EndCurrent;
    if Gone(s, id) {
      StepKeepsGone(s, step, id);
    } else {
      match step
      case Preempt(d) => PreemptBound(s, d, i, id, c);
      case Terminate(other) => TerminateBound(s, other, i, id, c);
      case Exit(d) => EndBound(s, d, i, id, c);
      case Detach(d) => if s.perCpu[d] < |s.tasks| { EndBound(s, d, i, id, c); }
      case _ => QuietBound(s, step, i, id, c);
    }
  }

  /** A task that has run on a CPU never runs on another, in any run, until it ends. */
  lemma {:induction false} NeverMigrates(s: State, run: seq<Step>, i: nat, id: nat, c: Cpu)
    requires Inv(s) && ValidRun(s, run) && BoundTo(s, i, id, c)
    ensures BoundTo(After(s, run), i, id, c)
    decreases |run|
  {
    hide Inv, BoundTo, Enabled, Next;
    if run != [] {
      StepKeepsInv(s, run[0]);
      StepBound(s, run[0], i, id, c);
      NeverMigrates(Next(s, run[0]), run[1..], i, id, c);
    }
  }

  /** A live task that is current on a CPU is bound to it. */
  lemma CurrentIsBound(s: State, i: nat, c: Cpu)
    requires Inv(s) && i < |s.tasks| && s.tasks[i].currentCpu == Some(c) && s.tasks[i].status != Terminated
    ensures BoundTo(s, i, s.tasks[i].id, c)
  {
    assert TaskOk(s.tasks[i], i, s);
  }

  // ----------------------------------------------------------------- accounting

  /**
   A preemption charges the task it takes off its CPU the ticks since it was put on, or one for a
   timer tick of another CPU than the boot CPU that saw none go by; nobody else is charged.
   */
  lemma ChargedExactly(s: State, c: Cpu, i: nat)
    requires Inv(s) && s.active && |s.tasks| >= 2 && i < |s.tasks|
    ensures var u := DoPreempt(s, c);
            var spent := u.tick - s.tasks[i].runTickStart;
            && |u.tasks| == |s.tasks|
            && u.tasks[i].cpuTicks - s.tasks[i].cpuTicks
               == (if i != s.perCpu[c] then 0
                   else if spent > 0 then spent
                   else if !s.yielding[c] && c != s.bsp then 1
                   else 0)
            && (s.tasks[i].status != Running && u.tasks[i].status == Running ==>
                  u.tasks[i].runTickStart == u.tick && u.perCpu[c] == i && u.tasks[i].currentCpu == Some(c))
  {
    hide TaskOk, Agreement, UniqueIds, Switch, Descheduled;
    var ticked := TickPrologue(s, c);
    var d := Descheduled(ticked, c, !s.yielding[c]);
    CurrentOn(s, c, i);
    DescheduledTask(ticked, c, !s.yielding[c], i);
    DescheduledAccount(ticked, c, !s.yielding[c], i);
    SwitchTask(d, c, i);
    SwitchAccount(d, c, i);
    NotMadeRunning(ticked, c, !s.yielding[c], i);
  }

  lemma NotMadeRunning(s: State, c: Cpu, timerTick: bool, i: nat)
    requires Shape(s) && i < |s.tasks|
    ensures s.tasks[i].status != Running ==> Descheduled(s, c, timerTick).tasks[i].status != Running
  {
  }

  lemma CurrentOn(s: State, c: Cpu, i: nat)
    requires Inv(s) && i < |s.tasks|
    ensures s.perCpu[c] == i <==> s.tasks[i].currentCpu == Some(c)
  {
  }

  // ---------------------------------------------------------------------- start

  /** start() puts the first ready task behind task 0 on the boot CPU, or task 0 if there is none. */
  lemma StartPicksFirst(s: State)
    requires Inv(s) && Enabled(s, Start)
    ensures var u := Next(s, Start);
            var i := u.perCpu[s.bsp];
            && u.active && u.tick == s.tick && i < |u.tasks| == |s.tasks|
            && u.tasks[i].status == Running && u.tasks[i].currentCpu == Some(s.bsp)
            && (forall t :: 0 < t < |s.tasks| && (i == 0 || t < i) ==> s.tasks[t].status != Ready)
            && (i > 0 ==> s.tasks[i].status == Ready)
            && (forall t :: 0 <= t < |s.tasks| && t != i ==> u.tasks[t] == s.tasks[t])
  {
    hide ScanFrom;
    var ts := s.tasks;
    forall t | 0 < t < |ts| && ts[t].status == Ready
      ensures var r := PickNext(ts, NO_TASK, s.bsp, s.bsp); 0 < r <= t
    {
      assert TaskOk(ts[t], t, s);
      ScanFindsNearest(ts, NO_TASK, 1, s.bsp, s.bsp, t);
    }
  }

  /** A CPU is given a task exactly when some task is ready and allowed there; task 0 only if no other is. */
  lemma PicksWheneverPossible(tasks: seq<Task>, cur: nat, cpu: Cpu, bsp: Cpu)
    requires |tasks| <= MAX_TASKS
    ensures var r := PickNext(tasks, cur, cpu, bsp);
            && (r < |tasks| <==> exists i :: 0 <= i < |tasks| && Runnable(tasks, i, cpu, bsp))
            && (r < |tasks| ==> Runnable(tasks, r, cpu, bsp)) && (r >= |tasks| ==> r == 64)
            && (r == 0 ==> forall i :: 0 < i < |tasks| ==> !Runnable(tasks, i, cpu, bsp))
  {
    hide ScanFrom, Runnable;
    forall t | 0 < t < |tasks| && Runnable(tasks, t, cpu, bsp)
      ensures var r := PickNext(tasks, cur, cpu, bsp); 0 < r < |tasks|
    {
      ScanFindsNearest(tasks, cur, 1, cpu, bsp, t);
    }
  }
}
