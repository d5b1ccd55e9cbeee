/**
 The round-robin SMP scheduler as a step system: one step per critical section held
 under the scheduler lock. A state is the task table, the per-CPU current task, the
 tick counter and the per-CPU yield flags.
 */
module SchedulerModel {
  import opened Wrappers

  const MAX_TASKS: nat := 64
  const NO_TASK: nat := 64
  const MAX_CPUS: nat := 256
  const NAME_CAPACITY: nat := 32

  type Cpu = c: nat | c < 256

  datatype Status = Ready | Running | Blocked | Terminated

  datatype Task = Task(
    id: nat,
    name: string,
    status: Status,
    wakeTick: nat,
    userData: Option<nat>,
    allowSecondary: bool,
    affinity: Option<Cpu>,
    currentCpu: Option<Cpu>,
    lastCpu: Option<Cpu>,
    runTickStart: nat,
    cpuTicks: nat)

  datatype State = State(
    tasks: seq<Task>,
    perCpu: seq<nat>,
    yielding: seq<bool>,
    nextId: nat,
    active: bool,
    tick: nat,
    bsp: Cpu)

  datatype Step =
    | Create(taskName: string, data: Option<nat>)
    | Start
    | StartAp(cpu: Cpu)
    | Yield(cpu: Cpu)
    | Preempt(cpu: Cpu)
    | Sleep(cpu: Cpu, ticks: nat)
    | Terminate(taskId: nat)
    | Exit(cpu: Cpu)
    | Detach(cpu: Cpu)

  // ------------------------------------------------------------------ searches

  /** First reusable slot at or after i: terminated and on no CPU; then a fresh slot. */
  function FreeSlot(tasks: seq<Task>, i: nat): (slot: nat)
    requires i <= |tasks| <= MAX_TASKS
    ensures i <= slot <= MAX_TASKS
    ensures slot < |tasks| ==> tasks[slot].status == Terminated && tasks[slot].currentCpu == None
    ensures slot <= |tasks| || (slot == NO_TASK && |tasks| == MAX_TASKS)
    ensures forall j :: i <= j < |tasks| && j < slot ==> tasks[j].status != Terminated || tasks[j].currentCpu.Some?
    decreases |tasks| - i
  {
    if i == |tasks| then |tasks|
    else if tasks[i].status == Terminated && tasks[i].currentCpu == None then i
    else FreeSlot(tasks, i + 1)
  }

  /** Index of the first task at or after i with this id, or |tasks|. */
  function IndexOfId(tasks: seq<Task>, id: nat, i: nat): (r: nat)
    requires i <= |tasks|
    ensures i <= r <= |tasks|
    ensures r < |tasks| ==> tasks[r].id == id
    ensures forall j :: i <= j < r ==> tasks[j].id != id
    decreases |tasks| - i
  {
    if i == |tasks| || tasks[i].id == id then i else IndexOfId(tasks, id, i + 1)
  }

  function WakeOne(t: Task, now: nat): Task {
    if t.status == Blocked && t.wakeTick <= now then t.(status := Ready) else t
  }

  function Wake(tasks: seq<Task>, now: nat): seq<Task> {
    seq(|tasks|, i requires 0 <= i < |tasks| => WakeOne(tasks[i], now))
  }

  /** The affinity, shared-idle and secondary-CPU rules of task_can_run_on_this_cpu. */
  predicate Eligible(t: Task, i: nat, cpu: Cpu, bsp: Cpu) {
    && (t.affinity == None || t.affinity == Some(cpu))
    && PlacementAllowed(t, i, cpu, bsp)
  }

  /** Task 0 runs on the boot CPU only; tasks created before start stay there too. */
  predicate PlacementAllowed(t: Task, i: nat, cpu: Cpu, bsp: Cpu) {
    if i == 0 then cpu == bsp else cpu == bsp || t.allowSecondary
  }

  predicate Runnable(tasks: seq<Task>, i: nat, cpu: Cpu, bsp: Cpu)
    requires i < |tasks|
  {
    tasks[i].status == Ready && Eligible(tasks[i], i, cpu, bsp)
  }

  /** The i-th slot visited after `start` when cycling over slots 1 .. n-1. */
  function CyclicSlot(start: nat, i: nat, n: nat): (slot: nat)
    requires n > 1 && 1 <= i
    ensures 1 <= slot < n
  {
    ((start + i - 1) % (n - 1)) + 1
  }

  function ScanStart(cur: nat, n: nat): nat {
    if 0 < cur < n then cur else 0
  }

  /** The cyclic scan of pick_next_task from its i-th probe on; NO_TASK when it finds none. */
  function ScanFrom(tasks: seq<Task>, start: nat, i: nat, cpu: Cpu, bsp: Cpu): (r: nat)
    requires 1 < |tasks| <= MAX_TASKS && 1 <= i <= |tasks|
    ensures r != NO_TASK ==> 0 < r < |tasks| && Runnable(tasks, r, cpu, bsp)
    decreases |tasks| - i
  {
    if i == |tasks| then NO_TASK
    else
      var next := CyclicSlot(start, i, |tasks|);
      if Runnable(tasks, next, cpu, bsp) then next
      else ScanFrom(tasks, start, i + 1, cpu, bsp)
  }

  function PickNext(tasks: seq<Task>, cur: nat, cpu: Cpu, bsp: Cpu): (r: nat)
    requires |tasks| <= MAX_TASKS
    ensures r == NO_TASK || (r < |tasks| && Runnable(tasks, r, cpu, bsp))
  {
    if |tasks| == 0 then NO_TASK
    else
      var scanned := if |tasks| > 1 then ScanFrom(tasks, ScanStart(cur, |tasks|), 1, cpu, bsp) else NO_TASK;
      if scanned != NO_TASK then scanned
      else if 0 < cur < |tasks| && Runnable(tasks, cur, cpu, bsp) then cur
      else if Runnable(tasks, 0, cpu, bsp) then 0
      else NO_TASK
  }

  // --------------------------------------------------------------------- steps

  function FreshTask(id: nat, name: string, data: Option<nat>, active: bool): Task {
    Task(id, name, Ready, 0, data, active, None, None, None, 0, 0)
  }

  function DoCreate(s: State, name: string, data: Option<nat>): State
    requires |s.tasks| <= MAX_TASKS
  {
    var slot := FreeSlot(s.tasks, 0);
    if slot >= MAX_TASKS then s
    else if |name| >= NAME_CAPACITY then
      if slot < |s.tasks| then s.(tasks := s.tasks[slot := s.tasks[slot].(name := "")]) else s
    else
      var t := FreshTask(s.nextId, name, data, s.active);
      s.(nextId := s.nextId + 1,
         tasks := if slot < |s.tasks| then s.tasks[slot := t] else s.tasks + [t])
  }

  /** Put task i on a CPU: the common tail of start and preempt. */
  function Dispatch(s: State, i: nat, cpu: Cpu): State
    requires i < |s.tasks| && cpu < |s.perCpu|
  {
    var t := s.tasks[i];
    var aff := if t.affinity == None then Some(cpu) else t.affinity;
    s.(tasks := s.tasks[i := t.(status := Running, affinity := aff, currentCpu := Some(cpu),
                                lastCpu := Some(cpu), runTickStart := s.tick)],
       perCpu := s.perCpu[cpu := i])
  }

  function DoStart(s: State): State
    requires 0 < |s.tasks| <= MAX_TASKS && |s.perCpu| == MAX_CPUS
  {
    var first := PickNext(s.tasks, NO_TASK, s.bsp, s.bsp);
    Dispatch(s, if first >= |s.tasks| then 0 else first, s.bsp).(active := true)
  }

  /** Ticks charged to a task leaving `cpu`; an AP quantum that saw no tick counts as one. */
  function Elapsed(t: Task, cpu: Cpu, timerTick: bool, now: nat, bsp: Cpu): nat {
    if t.currentCpu == None then 0
    else
      var e := if now > t.runTickStart then now - t.runTickStart else 0;
      if e == 0 && timerTick && cpu != bsp then 1 else e
  }

  /** The outgoing task, accounted, demoted and taken off its CPU. */
  function Outgoing(t: Task, cpu: Cpu, timerTick: bool, now: nat, bsp: Cpu): Task {
    var charged := t.(cpuTicks := t.cpuTicks + Elapsed(t, cpu, timerTick, now, bsp),
                      currentCpu := None, runTickStart := 0);
    if t.status == Terminated && t.userData.Some? then charged.(userData := None)
    else if t.status == Running then charged.(status := Ready)
    else charged
  }

  /** The tick prologue of preempt: a pending yield is consumed instead of a BSP tick. */
  function TickPrologue(s: State, cpu: Cpu): State
    requires |s.yielding| == MAX_CPUS
  {
    if s.yielding[cpu] then s.(yielding := s.yielding[cpu := false])
    else if cpu == s.bsp then s.(tick := s.tick + 1)
    else s
  }

  /** The locked part up to the pick: wake sleepers, take the current task off the CPU. */
  function Descheduled(s: State, cpu: Cpu, timerTick: bool): State
    requires |s.perCpu| == MAX_CPUS
  {
    var woken := Wake(s.tasks, s.tick);
    var cur := s.perCpu[cpu];
    s.(tasks := if cur < |woken| then woken[cur := Outgoing(woken[cur], cpu, timerTick, s.tick, s.bsp)] else woken)
  }

  function Switch(s: State, cpu: Cpu): State
    requires |s.perCpu| == MAX_CPUS && |s.tasks| <= MAX_TASKS
  {
    var cur := s.perCpu[cpu];
    var next := PickNext(s.tasks, cur, cpu, s.bsp);
    if next < |s.tasks| then Dispatch(s, next, cpu)
    else if cur < |s.tasks| && !(s.tasks[cur].status in {Ready, Running})
    then s.(perCpu := s.perCpu[cpu := NO_TASK])
    else s
  }

  function DoPreempt(s: State, cpu: Cpu): State
    requires |s.perCpu| == MAX_CPUS == |s.yielding| && |s.tasks| <= MAX_TASKS
  {
    var ticked := TickPrologue(s, cpu);
    if !ticked.active || |ticked.tasks| < 2 then ticked
    else Switch(Descheduled(ticked, cpu, !s.yielding[cpu]), cpu)
  }

  function DoTerminate(s: State, id: nat): State {
    var i := IndexOfId(s.tasks, id, 0);
    if i == |s.tasks| || i == 0 then s
    else
      var t := s.tasks[i].(status := Terminated, wakeTick := 0, affinity := None);
      var ended := if t.currentCpu == None then t.(lastCpu := None, runTickStart := 0, userData := None) else t;
      s.(tasks := s.tasks[i := ended])
  }

  function EndCurrent(t: Task): Task {
    t.(status := Terminated, affinity := None, userData := None)
  }

  /** What each entry point needs of its caller. */
  predicate Enabled(s: State, step: Step) {
    && |s.perCpu| == MAX_CPUS == |s.yielding| && |s.tasks| <= MAX_TASKS
    && match step
       case Create(_, _) => true
       case Start => !s.active && |s.tasks| > 0
       case StartAp(c) => s.perCpu[c] == NO_TASK
       case Yield(_) => true
       case Preempt(_) => true
       case Sleep(c, ticks) => s.perCpu[c] < |s.tasks| && s.tasks[s.perCpu[c]].status != Terminated && ticks > 0
       case Terminate(_) => true
       case Exit(c) => s.perCpu[c] < |s.tasks|
       case Detach(_) => true
  }

  function DoSleep(s: State, cpu: Cpu, ticks: nat): State
    requires |s.perCpu| == MAX_CPUS && s.perCpu[cpu] < |s.tasks|
  {
    var cur := s.perCpu[cpu];
    s.(tasks := s.tasks[cur := s.tasks[cur].(wakeTick := s.tick + ticks, status := Blocked)])
  }

  function Next(s: State, step: Step): State
    requires Enabled(s, step)
  {
    match step
    case Create(name, data) => DoCreate(s, name, data)
    case Start => DoStart(s)
    case StartAp(c) => s.(perCpu := s.perCpu[c := NO_TASK])
    case Yield(c) => if !s.active || |s.tasks| < 2 then s else s.(yielding := s.yielding[c := true])
    case Preempt(c) => DoPreempt(s, c)
    case Sleep(c, ticks) => DoSleep(s, c, ticks)
    case Terminate(id) => DoTerminate(s, id)
    case Exit(c) => s.(tasks := s.tasks[s.perCpu[c] := EndCurrent(s.tasks[s.perCpu[c]])])
    case Detach(c) =>
      if s.perCpu[c] < |s.tasks| then s.(tasks := s.tasks[s.perCpu[c] := EndCurrent(s.tasks[s.perCpu[c]])]) else s
  }

  // ---------------------------------------------------------------- invariants

  predicate Shape(s: State) {
    |s.perCpu| == MAX_CPUS == |s.yielding| && |s.tasks| <= MAX_TASKS
  }

  /** Per-CPU current and task.current_cpu agree both ways. */
  ghost predicate Agreement(s: State)
    requires Shape(s)
  {
    && (forall c: Cpu ::
          || s.perCpu[c] == NO_TASK
          || (s.perCpu[c] < |s.tasks| && s.tasks[s.perCpu[c]].currentCpu == Some(c)))
    && (forall i :: 0 <= i < |s.tasks| && s.tasks[i].currentCpu.Some? ==> s.perCpu[s.tasks[i].currentCpu.value] == i)
  }

  /** What holds of each task by itself. */
  ghost predicate TaskOk(t: Task, i: nat, s: State) {
    && (t.currentCpu.Some? && t.status != Terminated ==> t.affinity == t.currentCpu)
    && (t.currentCpu.Some? ==> PlacementAllowed(t, i, t.currentCpu.value, s.bsp) && t.runTickStart <= s.tick)
    && (t.affinity.Some? ==> PlacementAllowed(t, i, t.affinity.value, s.bsp))
    && (t.status == Running ==> t.currentCpu.Some?)
    && (t.status == Terminated ==> t.affinity == None)
    && (!s.active ==> t.currentCpu == None && t.affinity == None)
    && t.id < s.nextId
  }

  ghost predicate UniqueIds(tasks: seq<Task>) {
    forall i, j :: 0 <= i < j < |tasks| ==> tasks[i].id != tasks[j].id
  }

  ghost predicate Inv(s: State) {
    && Shape(s)
    && Agreement(s)
    && (forall i :: 0 <= i < |s.tasks| ==> TaskOk(s.tasks[i], i, s))
    && UniqueIds(s.tasks)
  }

  /** sched::init */
  function Initial(bsp: Cpu): (s: State)
    ensures Inv(s)
  {
    State([], seq(MAX_CPUS, _ => NO_TASK), seq(MAX_CPUS, _ => false), 1, false, 0, bsp)
  }

  // ---------------------------------------------------------------------- runs

  predicate ValidRun(s: State, run: seq<Step>)
    decreases |run|
  {
    run == [] || (Enabled(s, run[0]) && ValidRun(Next(s, run[0]), run[1..]))
  }

  function After(s: State, run: seq<Step>): State
    requires ValidRun(s, run)
    decreases |run|
  {
    if run == [] then s else After(Next(s, run[0]), run[1..])
  }
}
