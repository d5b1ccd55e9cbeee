/**
 The scheduler's global tables and its entry points. Each entry point is proved to be
 the step of SchedulerModel that carries its name, so the theorems of SchedulerProofs
 hold of every sequence of calls.
 */
module Scheduler {
  import opened Wrappers
  import opened SchedulerModel
  import opened SchedulerProofs

  /** No later task has the id of task 0. */
  lemma IdsDiffer(s: State)
    requires Inv(s)
    ensures forall j :: 0 < j < |s.tasks| ==> s.tasks[j].id != s.tasks[0].id
  {
  }

  class TaskTable {
    const tasks: array<Task>
    const perCpu: array<nat>
    const yielding: array<bool>
    var count: nat
    var nextId: nat
    var active: bool
    var tick: nat
    var bsp: Cpu

    ghost predicate Valid()
      reads this, tasks, perCpu, yielding
    {
      && tasks.Length == MAX_TASKS && perCpu.Length == MAX_CPUS && yielding.Length == MAX_CPUS
      && count <= MAX_TASKS
      && Inv(View())
    }

    ghost function View(): State
      reads this, tasks, perCpu, yielding
      requires count <= tasks.Length
    {
      State(tasks[..count], perCpu[..], yielding[..], nextId, active, tick, bsp)
    }

    /** sched::init on the CPU with this APIC id. */
    constructor (apicId: Cpu)
      ensures Valid() && View() == Initial(apicId)
      ensures fresh(tasks) && fresh(perCpu) && fresh(yielding)
    {
      var blank := Task(0, "", Ready, 0, None, false, None, None, None, 0, 0);
      tasks := new Task[MAX_TASKS](_ => blank);
      perCpu := new nat[MAX_CPUS](_ => NO_TASK);
      yielding := new bool[MAX_CPUS](_ => false);
      count, nextId, active, tick, bsp := 0, 1, false, 0, apicId;
      new;
      assert perCpu[..] == seq(MAX_CPUS, _ => NO_TASK);
      assert yielding[..] == seq(MAX_CPUS, _ => false);
      assert View() == Initial(apicId);
    }

    method FindAvailableTaskSlot() returns (slot: nat)
      requires count <= tasks.Length == MAX_TASKS
      ensures slot == FreeSlot(tasks[..count], 0)
    {
      var i := 0;
      while i < count
        invariant 0 <= i <= count
        invariant FreeSlot(tasks[..count], 0) == FreeSlot(tasks[..count], i)
      {
        if tasks[i].status == Terminated && tasks[i].currentCpu == None { return i; }
        i := i + 1;
      }
      return if count < MAX_TASKS then count else NO_TASK;
    }

    method WakeSleepingTasks()
      requires count <= tasks.Length
      modifies tasks
      ensures tasks[..count] == Wake(old(tasks[..count]), tick)
      ensures tasks[count..] == old(tasks[count..])
    {
      for i := 0 to count
        invariant forall j :: 0 <= j < i ==> tasks[j] == WakeOne(old(tasks[j]), tick)
        invariant forall j :: i <= j < tasks.Length ==> tasks[j] == old(tasks[j])
      {
        if tasks[i].status == Blocked && tasks[i].wakeTick <= tick {
          tasks[i] := tasks[i].(status := Ready);
        }
      }
    }

    method PickNextTask(cur: nat, cpu: Cpu) returns (next: nat)
      requires count <= tasks.Length == MAX_TASKS
      ensures next == PickNext(tasks[..count], cur, cpu, bsp)
    {
      ghost var ts := tasks[..count];
      if count == 0 { return NO_TASK; }
      if count > 1 {
        var start := if 0 < cur < count then cur else 0;
        var i := 1;
        while i < count
          invariant 1 <= i <= count
          invariant ScanFrom(ts, start, 1, cpu, bsp) == ScanFrom(ts, start, i, cpu, bsp)
        {
          next := ((start + i - 1) % (count - 1)) + 1;
          assert next == CyclicSlot(start, i, count);
          if tasks[next].status == Ready && Eligible(tasks[next], next, cpu, bsp) { return; }
          i := i + 1;
        }
      }
      if 0 < cur < count && tasks[cur].status == Ready && Eligible(tasks[cur], cur, cpu, bsp) { return cur; }
      if tasks[0].status == Ready && Eligible(tasks[0], 0, cpu, bsp) { return 0; }
      return NO_TASK;
    }

    method CreateTask(name: string, userData: Option<nat>) returns (id: int)
      requires Valid()
      modifies this, tasks
      ensures Valid() && View() == Next(old(View()), Create(name, userData))
      ensures id == -1 <==> FreeSlot(old(tasks[..count]), 0) == NO_TASK || |name| >= NAME_CAPACITY
      ensures id != -1 ==> id == old(nextId)
    {
      hide Inv;
      ghost var s := View();
      StepKeepsInv(s, Create(name, userData));
      var slot := FindAvailableTaskSlot();
      if slot >= MAX_TASKS { return -1; }
      if |name| >= NAME_CAPACITY {
        tasks[slot] := tasks[slot].(name := "");
        assert View().tasks == DoCreate(s, name, userData).tasks;
        return -1;
      }
      id := nextId;
      tasks[slot] := Task(nextId, name, Ready, 0, userData, active, None, None, None, 0, 0);
      nextId := nextId + 1;
      if slot == count { count := count + 1; }
      assert View().tasks == DoCreate(s, name, userData).tasks;
    }

    /** The dispatch writes shared by start and preempt. */
    method RunOn(i: nat, cpu: Cpu)
      requires i < count <= tasks.Length && perCpu.Length == MAX_CPUS
      modifies tasks, perCpu
      ensures View() == Dispatch(old(View()), i, cpu)
    {
      ghost var s := View();
      perCpu[cpu] := i;
      var t := tasks[i].(status := Running);
      if t.affinity == None { t := t.(affinity := Some(cpu)); }
      tasks[i] := t.(currentCpu := Some(cpu), lastCpu := Some(cpu), runTickStart := tick);
      assert View().tasks == Dispatch(s, i, cpu).tasks;
      assert View().perCpu == s.perCpu[cpu := i];
    }

    method Start()
      requires Valid() && Enabled(View(), SchedulerModel.Start)
      modifies this, tasks, perCpu
      ensures Valid() && View() == Next(old(View()), SchedulerModel.Start)
    {
      StepKeepsInv(View(), SchedulerModel.Start);
      var first := PickNextTask(NO_TASK, bsp);
      if first >= count { first := 0; }
      RunOn(first, bsp);
      active := true;
    }

    /** Account for and take off the task that is current on this CPU, if any. */
    method SaveCurrent(cpu: Cpu, timerTick: bool)
      requires count <= tasks.Length && perCpu.Length == MAX_CPUS
      modifies tasks
      ensures View() == Descheduled(old(View()), cpu, timerTick)
    {
      hide Wake;
      ghost var s := View();
      WakeSleepingTasks();
      var cur := perCpu[cpu];
      if cur < count {
        var t := tasks[cur];
        if t.currentCpu.Some? {
          var elapsed := if tick > t.runTickStart then tick - t.runTickStart else 0;
          if elapsed == 0 && timerTick && cpu != bsp { elapsed := 1; }
          t := t.(cpuTicks := t.cpuTicks + elapsed);
        }
        if t.status == Terminated && t.userData.Some? { t := t.(userData := None); }
        else if t.status == Running { t := t.(status := Ready); }
        t := t.(currentCpu := None, runTickStart := 0);
        assert t == Outgoing(Wake(s.tasks, tick)[cur], cpu, timerTick, tick, bsp);
        tasks[cur] := t;
      }
      assert View().tasks == Descheduled(s, cpu, timerTick).tasks;
    }

    /** The pick and the switch, once the outgoing task is saved. */
    method SwitchTo(cpu: Cpu)
      requires count <= tasks.Length == MAX_TASKS && perCpu.Length == MAX_CPUS
      modifies tasks, perCpu
      ensures View() == Switch(old(View()), cpu)
    {
      ghost var d := View();
      var cur := perCpu[cpu];
      var next := PickNextTask(cur, cpu);
      if next >= count {
        if cur < count && tasks[cur].status != Ready && tasks[cur].status != Running {
          perCpu[cpu] := NO_TASK;
          assert View().perCpu == d.perCpu[cpu := NO_TASK];
        }
        return;
      }
      RunOn(next, cpu);
    }

    method TimerEntry(cpu: Cpu)
      requires count <= tasks.Length == MAX_TASKS && perCpu.Length == MAX_CPUS == yielding.Length
      modifies this, tasks, perCpu, yielding
      ensures count == old(count) && View() == DoPreempt(old(View()), cpu)
    {
      ghost var s := View();
      var timerTick := !yielding[cpu];
      if yielding[cpu] { yielding[cpu] := false; }
      else if cpu == bsp { tick := tick + 1; }
      assert View() == TickPrologue(s, cpu);
      if !active || count < 2 { return; }
      SaveCurrent(cpu, timerTick);
      SwitchTo(cpu);
    }

    method Preempt(cpu: Cpu)
      requires Valid()
      modifies this, tasks, perCpu, yielding
      ensures Valid() && View() == Next(old(View()), SchedulerModel.Preempt(cpu))
    {
      PreemptKeepsInv(View(), cpu);
      TimerEntry(cpu);
    }

    /** sched::sleep up to the release of the lock, whatever the state of the current task. */
    method Sleep(cpu: Cpu, ticks: nat)
      requires Valid() && perCpu[cpu] < count && ticks > 0
      modifies tasks
      ensures count == old(count) <= tasks.Length && View() == DoSleep(old(View()), cpu, ticks)
      ensures Valid() <==> old(tasks[perCpu[cpu]].status) != Terminated
    {
      ghost var s := View();
      SleepKeepsInvExactlyWhenAlive(s, cpu, ticks);
      var cur := perCpu[cpu];
      tasks[cur] := tasks[cur].(wakeTick := tick + ticks, status := Blocked);
      assert View().tasks == DoSleep(s, cpu, ticks).tasks;
    }

    method TerminateTask(id: nat) returns (found: bool)
      requires Valid()
      modifies tasks
      ensures Valid() && View() == Next(old(View()), Terminate(id))
      ensures found <==> exists i :: 0 < i < count && old(tasks[i].id) == id
    {
      hide Inv;
      ghost var s := View();
      StepKeepsInv(s, Terminate(id));
      IdsDiffer(s);
      var i := 0;
      while i < count
        invariant 0 <= i <= count
        invariant IndexOfId(s.tasks, id, 0) == IndexOfId(s.tasks, id, i)
        invariant forall j :: 0 <= j < i ==> s.tasks[j].id != id
        invariant View() == s
      {
        if tasks[i].id == id {
          if i == 0 { return false; }
          var t := tasks[i].(status := Terminated, wakeTick := 0, affinity := None);
          if t.currentCpu == None { t := t.(lastCpu := None, runTickStart := 0); }
          if t.currentCpu == None && t.userData.Some? { t := t.(userData := None); }
          tasks[i] := t;
          assert View().tasks == DoTerminate(s, id).tasks;
          return true;
        }
        i := i + 1;
      }
      return false;
    }

    /** sched::exit_task up to the release of the lock. */
    method ExitTask(cpu: Cpu)
      requires Valid() && Enabled(View(), Exit(cpu))
      modifies tasks
      ensures Valid() && View() == Next(old(View()), Exit(cpu))
    {
      ghost var s := View();
      StepKeepsInv(s, Exit(cpu));
      var cur := perCpu[cpu];
      tasks[cur] := tasks[cur].(status := Terminated, affinity := None, userData := None);
      assert View().tasks == Next(s, Exit(cpu)).tasks;
    }

    method DetachCurrentTask(cpu: Cpu) returns (prev: Option<nat>)
      requires Valid()
      modifies tasks
      ensures Valid() && View() == Next(old(View()), Detach(cpu))
      ensures prev == if old(perCpu[cpu]) < count then old(tasks[perCpu[cpu]].userData) else None
    {
      ghost var s := View();
      StepKeepsInv(s, Detach(cpu));
      var cur := perCpu[cpu];
      prev := None;
      if cur < count {
        prev := tasks[cur].userData;
        tasks[cur] := tasks[cur].(userData := None, status := Terminated, affinity := None);
      }
      assert View().tasks == Next(s, Detach(cpu)).tasks;
    }
  }
}
