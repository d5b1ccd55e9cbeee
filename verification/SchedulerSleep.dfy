/** How long a task sleeps, and that a task that has ended stays ended, over every run. */
module SchedulerSleep {
  import opened Wrappers
  import opened SchedulerModel
  import opened SchedulerProofs

  // ------------------------------------------------------------- ended for good

  /** The id was given out, and no task has it but terminated ones. */
  ghost predicate Gone(s: State, id: nat) {
    && id < s.nextId && (s.active || s.tasks == [] || s.tasks[0].id != id)
    && (forall i :: 0 <= i < |s.tasks| && s.tasks[i].id == id ==> s.tasks[i].status == Terminated)
  }

  /** What waking and taking off does to one task. */
  lemma DescheduledTask(s: State, cpu: Cpu, timerTick: bool, i: nat)
    requires Shape(s) && i < |s.tasks|
    ensures var d := Descheduled(s, cpu, timerTick);
            && |d.tasks| == |s.tasks| && d.perCpu == s.perCpu && d.tick == s.tick && d.nextId == s.nextId
            && d.active == s.active && d.bsp == s.bsp && d.yielding == s.yielding
            && d.tasks[i].id == s.tasks[i].id && d.tasks[i].wakeTick == s.tasks[i].wakeTick
            && (s.tasks[i].status == Terminated ==> d.tasks[i].status == Terminated)
            && (s.tasks[i].status == Blocked ==>
                  d.tasks[i].status == if s.tasks[i].wakeTick <= s.tick then Ready else Blocked)
            && (d.tasks[i].currentCpu == if i == s.perCpu[cpu] then None else s.tasks[i].currentCpu)
  {
  }

  /** The switch makes one ready task running, on that CPU, and changes no other task. */
  lemma SwitchTask(d: State, cpu: Cpu, i: nat)
    requires Shape(d) && i < |d.tasks|
    ensures var u := Switch(d, cpu);
            && |u.tasks| == |d.tasks| && u.tick == d.tick && u.nextId == d.nextId && u.active == d.active
            && (u.tasks[i] == d.tasks[i]
                || (d.tasks[i].status == Ready && u.perCpu[cpu] == i && u.tasks[i].status == Running
                    && u.tasks[i].id == d.tasks[i].id && u.tasks[i].wakeTick == d.tasks[i].wakeTick))
            && (u.perCpu[cpu] < |u.tasks| ==>
                  u.tasks[u.perCpu[cpu]].status == Running || u.tasks[u.perCpu[cpu]].status == Ready)
            && forall c: Cpu :: c != cpu ==> u.perCpu[c] == d.perCpu[c]
  {
    hide ScanFrom;
  }

  lemma PreemptGone(s: State, c: Cpu, id: nat)
    requires Inv(s) && Gone(s, id)
    ensures Gone(DoPreempt(s, c), id)
  {
    hide Switch, Descheduled, TaskOk, UniqueIds, Agreement;
    var ticked := TickPrologue(s, c);
    if s.active && |s.tasks| >= 2 {
      var d := Descheduled(ticked, c, !s.yielding[c]);
      DescheduledTask(ticked, c, !s.yielding[c], 0);
      SwitchTask(d, c, 0);
      var u := Switch(d, c);
      forall i: nat | i < |s.tasks|
        ensures u.tasks[i].id == s.tasks[i].id && (s.tasks[i].status == Terminated ==> u.tasks[i].status == Terminated)
      {
        DescheduledTask(ticked, c, !s.yielding[c], i);
        SwitchTask(d, c, i);
      }
    }
  }

  lemma StepKeepsGone(s: State, step: Step, id: nat)
    requires Inv(s) && Enabled(s, step) && Gone(s, id)
    ensures Gone(Next(s, step), id)
  {
    hide DoPreempt, TaskOk, Agreement, UniqueIds;
    match step
    case Preempt(c) => PreemptGone(s, c, id);
    case Start => StartGone(s, id);
    case _ =>
  }

  lemma StartGone(s: State, id: nat)
    requires Inv(s) && Enabled(s, Start) && Gone(s, id)
    ensures Gone(DoStart(s), id)
  {
    hide TaskOk, Agreement, UniqueIds, ScanFrom;
  }

  /** A task that has ended never becomes ready or running again under its id, whatever happens. */
  lemma {:induction false} EndedForGood(s: State, run: seq<Step>, id: nat)
    requires Inv(s) && ValidRun(s, run) && Gone(s, id)
    ensures Gone(After(s, run), id)
    decreases |run|
  {
    hide Inv, Gone, Enabled, Next;
    if run != [] {
      StepKeepsInv(s, run[0]);
      StepKeepsGone(s, run[0], id);
      EndedForGood(Next(s, run[0]), run[1..], id);
    }
  }

  /** terminate_task ends exactly the task with that id, unless it is task 0. */
  lemma TerminateEnds(s: State, id: nat, i: nat)
    requires Inv(s) && i < |s.tasks| && s.tasks[i].id == id
    ensures var u := Next(s, Terminate(id));
            && |u.tasks| == |s.tasks| && (forall j :: 0 <= j < |s.tasks| && j != i ==> u.tasks[j] == s.tasks[j])
            && (i > 0 ==>
                  && Gone(u, id) && u.tasks[i].currentCpu == s.tasks[i].currentCpu && u.tasks[i].wakeTick == 0
                  && (u.tasks[i].currentCpu == None ==>
                        u.tasks[i].userData == None && u.tasks[i].lastCpu == None && u.tasks[i].runTickStart == 0)
                  && (u.tasks[i].currentCpu.Some? ==> u.tasks[i].userData == s.tasks[i].userData))
            && (i == 0 ==> u == s)
  {
    assert TaskOk(s.tasks[i], i, s);
  }

  /** exit_task and detach end the current task of the CPU and no other. */
  lemma ExitEnds(s: State, c: Cpu)
    requires Inv(s) && s.perCpu[c] < |s.tasks|
    ensures var i, u, v := s.perCpu[c], Next(s, Exit(c)), Next(s, Detach(c));
            && u == v && |u.tasks| == |s.tasks| && Gone(u, s.tasks[i].id) && u.tasks[i].userData == None
            && forall j :: 0 <= j < |s.tasks| && j != i ==> u.tasks[j] == s.tasks[j]
  {
    var i := s.perCpu[c];
    assert TaskOk(s.tasks[i], i, s);
  }

  /** The next preemption of its CPU takes an ended task off. */
  lemma EndedLeavesCpu(s: State, c: Cpu, id: nat)
    requires Inv(s) && Gone(s, id) && s.active && |s.tasks| >= 2
    ensures var u := DoPreempt(s, c); u.perCpu[c] < |u.tasks| ==> u.tasks[u.perCpu[c]].id != id
  {
    PreemptGone(s, c, id);
    PreemptKeepsInv(s, c);
    hide DoPreempt, Descheduled, Switch, Inv;
    PreemptPicksLive(s, c);
  }

  lemma PreemptPicksLive(s: State, c: Cpu)
    requires Inv(s) && s.active && |s.tasks| >= 2
    ensures var u := DoPreempt(s, c);
            |u.perCpu| == MAX_CPUS && (u.perCpu[c] < |u.tasks| ==> u.tasks[u.perCpu[c]].status != Terminated)
  {
    hide Switch, Descheduled, TaskOk, UniqueIds, Agreement;
    var ticked := TickPrologue(s, c);
    DescheduledTask(ticked, c, !s.yielding[c], 0);
    SwitchTask(Descheduled(ticked, c, !s.yielding[c]), c, 0);
    PreemptKeepsInv(s, c);
  }

  // --------------------------------------------------------------------- asleep

  /** Task i, known by its id, is blocked until that tick. */
  ghost predicate Asleep(s: State, i: nat, id: nat, wake: nat) {
    && s.active && i < |s.tasks| && s.tasks[i].id == id && id < s.nextId
    && s.tasks[i].status == Blocked && s.tasks[i].wakeTick == wake
  }

  /** Awake again: ready, or already dispatched. */
  ghost predicate Awake(s: State, i: nat, id: nat) {
    i < |s.tasks| && s.tasks[i].id == id && (s.tasks[i].status == Ready || s.tasks[i].status == Running)
  }

  /** A preemption of any CPU wakes the sleeper exactly when its tick has come; the CPU it slept on lets it go. */
  lemma WakesExactly(s: State, c: Cpu, i: nat, id: nat, wake: nat)
    requires Inv(s) && Asleep(s, i, id, wake) && |s.tasks| >= 2
    ensures var u := DoPreempt(s, c);
            && (u.tick >= wake ==> Awake(u, i, id))
            && (u.tick < wake ==>
                  && Asleep(u, i, id, wake)
                  && u.tasks[i].currentCpu == if s.perCpu[c] == i then None else s.tasks[i].currentCpu)
  {
    hide Switch, Descheduled, TaskOk, UniqueIds, Agreement;
    var ticked := TickPrologue(s, c);
    DescheduledTask(ticked, c, !s.yielding[c], i);
    SwitchTask(Descheduled(ticked, c, !s.yielding[c]), c, i);
  }

  /** Asleep until that tick, at most on the CPU it slept on, or ended. */
  ghost predicate Still(s: State, i: nat, id: nat, wake: nat, c: Cpu) {
    Gone(s, id) || (Asleep(s, i, id, wake) && (s.tasks[i].currentCpu == None || s.tasks[i].currentCpu == Some(c)))
  }

  /** Asleep and on no CPU, or ended. */
  ghost predicate StillOff(s: State, i: nat, id: nat, wake: nat) {
    Gone(s, id) || (Asleep(s, i, id, wake) && s.tasks[i].currentCpu == None)
  }

  /** The step is the sleeper calling sleep again, which it cannot do while it waits. */
  predicate Resleeps(s: State, step: Step, i: nat)
    requires |s.perCpu| == MAX_CPUS
  {
    step.Sleep? && s.perCpu[step.cpu] == i
  }

  lemma PreemptStill(s: State, d: Cpu, i: nat, id: nat, wake: nat, c: Cpu)
    requires Inv(s) && Asleep(s, i, id, wake) && DoPreempt(s, d).tick < wake
    requires s.tasks[i].currentCpu == None || s.tasks[i].currentCpu == Some(c)
    ensures var u := DoPreempt(s, d);
            && Still(u, i, id, wake, c) && |u.tasks| >= |s.tasks|
            && (s.tasks[i].currentCpu == None || (d == c && |s.tasks| >= 2) ==> StillOff(u, i, id, wake))
  {
    hide DoPreempt, TaskOk, UniqueIds, Gone;
    if |s.tasks| >= 2 { WakesExactly(s, d, i, id, wake); } else { PreemptAlone(s, d); }
    PreemptLength(s, d);
  }

  /** With a single task preemption only counts ticks. */
  lemma PreemptAlone(s: State, d: Cpu)
    requires Shape(s) && |s.tasks| < 2
    ensures var u := DoPreempt(s, d); u.tasks == s.tasks && u.active == s.active && u.nextId == s.nextId
  {
  }

  lemma PreemptLength(s: State, d: Cpu)
    requires Shape(s)
    ensures |DoPreempt(s, d).tasks| == |s.tasks| && s.tick <= DoPreempt(s, d).tick <= s.tick + 1
  {
    hide PickNext;
  }

  lemma TerminateOther(s: State, other: nat, i: nat, id: nat, wake: nat)
    requires Inv(s) && Asleep(s, i, id, wake)
    ensures var u := DoTerminate(s, other);
            |u.tasks| == |s.tasks| && (Gone(u, id) || (Asleep(u, i, id, wake) && u.tasks[i] == s.tasks[i]))
  {
    hide TaskOk, Agreement;
    var k := IndexOfId(s.tasks, other, 0);
    if k < |s.tasks| { TerminateEnds(s, other, k); }
  }

  lemma EndOther(s: State, d: Cpu, i: nat, id: nat, wake: nat)
    requires Inv(s) && Asleep(s, i, id, wake) && s.perCpu[d] < |s.tasks|
    ensures var u := Next(s, Exit(d));
            |u.tasks| == |s.tasks| && (Gone(u, id) || (Asleep(u, i, id, wake) && u.tasks[i] == s.tasks[i]))
  {
    hide TaskOk, Agreement, UniqueIds;
    ExitEnds(s, d);
  }

  lemma QuietStep(s: State, step: Step, i: nat, id: nat, wake: nat)
    requires Inv(s) && Enabled(s, step) && Asleep(s, i, id, wake) && !Resleeps(s, step, i)
    requires step.Create? || step.Start? || step.StartAp? || step.Yield? || step.Sleep?
    ensures var u := Next(s, step);
            |u.tasks| >= |s.tasks| && u.tick == s.tick && Asleep(u, i, id, wake) && u.tasks[i] == s.tasks[i]
  {
    hide TaskOk, Agreement, UniqueIds;
  }

  /** Until its tick comes, any step leaves the sleeper asleep, or ends it. */
  lemma StepStill(s: State, step: Step, i: nat, id: nat, wake: nat, c: Cpu)
    requires Inv(s) && Enabled(s, step) && Still(s, i, id, wake, c)
    requires !Resleeps(s, step, i) && Next(s, step).tick < wake
    ensures var u := Next(s, step);
            && |u.tasks| >= |s.tasks| && Still(u, i, id, wake, c)
            && (StillOff(s, i, id, wake) || (step == Preempt(c) && |s.tasks| >= 2) ==> StillOff(u, i, id, wake))
  {
    hide Inv, Gone, DoPreempt, DoTerminate, DoCreate, EndCurrent;
    TickAndLength(s, step);
    if Gone(s, id) {
      StepKeepsGone(s, step, id);
    } else {
      match step
      case Preempt(d) => PreemptStill(s, d, i, id, wake, c);
      case Terminate(other) => TerminateOther(s, other, i, id, wake);
      case Exit(d) => EndOther(s, d, i, id, wake);
      case Detach(d) => if s.perCpu[d] < |s.tasks| { EndOther(s, d, i, id, wake); }
      case _ => QuietStep(s, step, i, id, wake);
    }
  }

  /** The tick count never falls, and the table never shrinks. */
  lemma TickAndLength(s: State, step: Step)
    requires Enabled(s, step)
    ensures Next(s, step).tick >= s.tick && |Next(s, step).tasks| >= |s.tasks|
  {
    hide DoPreempt, PickNext;
    if step.Preempt? { PreemptLength(s, step.cpu); }
  }

  lemma {:induction false} TicksNeverFall(s: State, run: seq<Step>)
    requires ValidRun(s, run)
    ensures After(s, run).tick >= s.tick
    decreases |run|
  {
    hide Next, Enabled;
    if run != [] {
      TickAndLength(s, run[0]);
      TicksNeverFall(Next(s, run[0]), run[1..]);
    }
  }

  /** No step of the run is the sleeper calling sleep again. */
  predicate NoResleep(s: State, run: seq<Step>, i: nat)
    requires |s.perCpu| == MAX_CPUS && ValidRun(s, run)
    decreases |run|
  {
    run == [] || (!Resleeps(s, run[0], i) && |Next(s, run[0]).perCpu| == MAX_CPUS
                  && NoResleep(Next(s, run[0]), run[1..], i))
  }

  /** The CPU is preempted at some point of the run. */
  predicate Preempted(run: seq<Step>, c: Cpu) { exists k :: 0 <= k < |run| && run[k] == Preempt(c) }

  lemma PreemptedFirst(run: seq<Step>, c: Cpu)
    requires run != []
    ensures Preempted(run, c) <==> run[0] == Preempt(c) || Preempted(run[1..], c)
  {
    if Preempted(run[1..], c) {
      var k :| 0 <= k < |run[1..]| && run[1..][k] == Preempt(c);
      assert run[k + 1] == Preempt(c);
    }
    if Preempted(run, c) && run[0] != Preempt(c) {
      var k :| 0 <= k < |run| && run[k] == Preempt(c);
      assert run[1..][k - 1] == Preempt(c);
    }
  }

  lemma {:induction false} RunStill(s: State, run: seq<Step>, i: nat, id: nat, wake: nat, c: Cpu)
    requires Inv(s) && ValidRun(s, run) && NoResleep(s, run, i) && Still(s, i, id, wake, c)
    requires After(s, run).tick < wake
    ensures var u := After(s, run);
            && |u.tasks| >= |s.tasks| && Still(u, i, id, wake, c)
            && (StillOff(s, i, id, wake) || (Preempted(run, c) && |s.tasks| >= 2) ==> StillOff(u, i, id, wake))
    decreases |run|
  {
    hide Inv, Enabled, Next, Still, StillOff, Resleeps, Preempted;
    if run != [] {
      StepKeepsInv(s, run[0]);
      TicksNeverFall(Next(s, run[0]), run[1..]);
      StepStill(s, run[0], i, id, wake, c);
      RunStill(Next(s, run[0]), run[1..], i, id, wake, c);
      PreemptedFirst(run, c);
    } else {
      assert !Preempted(run, c) by { NeverPreempted(run, c); }
    }
  }

  lemma NeverPreempted(run: seq<Step>, c: Cpu)
    requires run == []
    ensures !Preempted(run, c)
  {
  }

  // ------------------------------------------------------------------- theorems

  lemma SleepStarts(s: State, c: Cpu, n: nat)
    requires Inv(s) && Enabled(s, Sleep(c, n))
    ensures s.perCpu[c] < |s.tasks|
    ensures var i := s.perCpu[c]; Still(Next(s, Sleep(c, n)), i, s.tasks[i].id, s.tick + n, c)
    ensures |Next(s, Sleep(c, n)).tasks| == |s.tasks|
  {
    var i := s.perCpu[c];
    assert TaskOk(s.tasks[i], i, s);
  }

  /**
   A task that sleeps n ticks from tick t on is neither ready nor running before tick t + n,
   whatever the other steps are, unless it is ended; and once its CPU was preempted it is on none.
   */
  lemma SleepLasts(s: State, c: Cpu, n: nat, run: seq<Step>)
    requires Inv(s) && Enabled(s, Sleep(c, n))
    requires ValidRun(Next(s, Sleep(c, n)), run) && NoResleep(Next(s, Sleep(c, n)), run, s.perCpu[c])
    ensures var u, i, id := After(Next(s, Sleep(c, n)), run), s.perCpu[c], s.tasks[s.perCpu[c]].id;
            u.tick < s.tick + n ==>
              || Gone(u, id)
              || (&& i < |u.tasks| && u.tasks[i].id == id && u.tasks[i].status == Blocked
                  && (Preempted(run, c) && |s.tasks| >= 2 ==> u.tasks[i].currentCpu == None))
  {
    hide Next, Enabled, Gone, NoResleep, Preempted;
    var i := s.perCpu[c];
    StepKeepsInv(s, Sleep(c, n));
    SleepStarts(s, c, n);
    if After(Next(s, Sleep(c, n)), run).tick < s.tick + n {
      RunStill(Next(s, Sleep(c, n)), run, i, s.tasks[i].id, s.tick + n, c);
    }
  }

  /** And the preemption, of any CPU, that finds tick t + n reached makes it ready, or dispatches it. */
  lemma SleepEndsOnTime(s: State, c: Cpu, n: nat, run: seq<Step>, d: Cpu)
    requires Inv(s) && Enabled(s, Sleep(c, n)) && |s.tasks| >= 2
    requires ValidRun(Next(s, Sleep(c, n)), run) && NoResleep(Next(s, Sleep(c, n)), run, s.perCpu[c])
    requires After(Next(s, Sleep(c, n)), run).tick < s.tick + n
    ensures Shape(After(Next(s, Sleep(c, n)), run))
    ensures var u, i, id := After(Next(s, Sleep(c, n)), run), s.perCpu[c], s.tasks[s.perCpu[c]].id;
            DoPreempt(u, d).tick >= s.tick + n ==> Gone(u, id) || Awake(DoPreempt(u, d), i, id)
  {
    hide Next, Enabled, Gone, NoResleep, DoPreempt, TaskOk, Agreement, UniqueIds;
    var i := s.perCpu[c];
    StepKeepsInv(s, Sleep(c, n));
    SleepStarts(s, c, n);
    RunStill(Next(s, Sleep(c, n)), run, i, s.tasks[i].id, s.tick + n, c);
    var u := After(Next(s, Sleep(c, n)), run);
    RunKeepsInv(Next(s, Sleep(c, n)), run);
    if !Gone(u, s.tasks[i].id) { WakesExactly(u, d, i, s.tasks[i].id, s.tick + n); }
  }
}
