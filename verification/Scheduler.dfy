/** The scheduler over its table of task structures. */
module Scheduler {
  import opened SchedulerModel

  class TaskStruct {
    var state: State
    var counter: int
    var priority: int
    var preemptCount: int

    constructor (s: State, c: int, p: int, preempt: int)
      ensures Info() == SchedulerModel.Info(s, c, p, preempt)
    {
      state, counter, priority, preemptCount := s, c, p, preempt;
    }

    ghost function Info(): Info
      reads this
    {
      SchedulerModel.Info(state, counter, priority, preemptCount)
    }
  }

  ghost function Infos(structs: seq<TaskStruct>): (r: seq<Info>)
    reads structs
    ensures |r| == |structs| && forall i :: 0 <= i < |r| ==> r[i] == structs[i].Info()
  {
    if structs == [] then [] else Infos(structs[..|structs| - 1]) + [structs[|structs| - 1].Info()]
  }

  function Topped(t: Info): Info {
    t.(counter := t.counter / 2 + t.priority)
  }

  /** After a recharge some counter is positive. */
  lemma SecondScan(tasks: seq<Info>)
    requires forall i :: 0 <= i < |tasks| ==> tasks[i].priority >= 1
    requires Scan(tasks, |tasks|).0 == 0
    ensures Scan(Recharge(tasks), |tasks|).0 >= 1 && Scan(Recharge(tasks), |tasks|).1 < |tasks|
  {
    ScanBounds(tasks, |tasks|);
    ScanBounds(Recharge(tasks), |tasks|);
    var i := Scan(tasks, |tasks|).1;
    assert Recharge(tasks)[i].state.Running?;
  }

  lemma ShapeKept(s: Sched)
    requires Shape(s)
    ensures Shape(SchedulerModel.UpdateWait(s))
  {}

  lemma NoneBeyond(s: Sched)
    requires Shape(s)
    ensures forall i :: |s.tasks| <= i < NR_TASKS ==> s.wait[i] == -1
  {}

  ghost predicate SecondPassed(was: seq<Info>, wait: seq<int>, tasks: seq<Info>, wait': seq<int>) {
    && |was| == |tasks| <= |wait| == |wait'|
    && (forall j :: 0 <= j < |tasks| ==> tasks[j] == if wait[j] == 1 then was[j].(state := Running) else was[j])
    && (forall j :: 0 <= j < |wait| ==> wait'[j] == Waited(wait[j]))
  }

  lemma WokenUp(was: seq<Info>, wait: seq<int>, tasks: seq<Info>, wait': seq<int>)
    requires SecondPassed(was, wait, tasks, wait')
    ensures tasks == WakeUp(was, wait) && wait' == seq(|wait|, i requires 0 <= i < |wait| => Waited(wait[i]))
  {
    hide WakeUp;
  }

  lemma WaitedValue(w: int)
    ensures Waited(w) == if w == 1 || w == -1 then -1 else w - 1
  {}

  /** A change of state made with preemption disabled. */
  lemma StateUnderLock(s: Sched, state: State)
    requires Shape(s)
    ensures var s1 := SetState(s.(tasks := Preempt(s.tasks, s.current, 1)), state);
            && s1.current < |s1.tasks|
            && s1.(tasks := Preempt(s1.tasks, s1.current, -1)) == SetState(s, state)
            && Shape(SetState(s, state)) && SetState(s, state).wait == s.wait && SetState(s, state).current == s.current
  {
    var s1 := SetState(s.(tasks := Preempt(s.tasks, s.current, 1)), state);
    assert Preempt(s1.tasks, s1.current, -1) == SetState(s, state).tasks;
  }

  lemma KeepsState(s: Sched)
    requires Shape(s)
    ensures Preempt(s.tasks, s.current, 1)[s.current].state == s.tasks[s.current].state
    ensures Preempt(s.tasks, s.current, 1)[s.current].priority == s.tasks[s.current].priority
  {}

  /** A task added with preemption disabled. */
  lemma ForkUnderLock(s: Sched)
    requires Shape(s)
    ensures var p := s.tasks[s.current].priority;
            var tasks := Preempt(s.tasks, s.current, 1) + [SchedulerModel.Info(Running, p, p, 1)];
            s.current < |tasks| && s.(tasks := Preempt(tasks, s.current, -1)) == Fork(s, true)
  {
    var p := s.tasks[s.current].priority;
    var tasks := Preempt(s.tasks, s.current, 1) + [SchedulerModel.Info(Running, p, p, 1)];
    assert Preempt(tasks, s.current, -1) == Fork(s, true).tasks;
  }

  class Kernel {
    const task: array<TaskStruct?>
    var nrTasks: nat
    var current: TaskStruct
    const waitArray: array<int>
    var frq: nat
    ghost var at: nat
    ghost var structs: seq<TaskStruct>

    /** The first slots hold the tasks, each its own structure, and one of them is current. */
    ghost predicate Valid()
      reads this, task
    {
      && task.Length == NR_TASKS == waitArray.Length
      && at < |structs| == nrTasks <= NR_TASKS && current == structs[at]
      && (forall i :: 0 <= i < nrTasks ==> task[i] == structs[i])
      && (forall i :: nrTasks <= i < NR_TASKS ==> task[i] == null)
      && (forall i, j :: 0 <= i < j < nrTasks ==> structs[i] != structs[j])
    }

    ghost function View(): Sched
      reads this, structs, waitArray
    {
      Sched(Infos(structs), at, waitArray[..], frq)
    }

    ghost predicate Shaped()
      reads this, task, structs, waitArray
    {
      Valid() && Shape(View())
    }

    /** Boot, with the initial task alone and nobody waiting. */
    constructor ()
      ensures Valid() && nrTasks == 1 && frq == 0 && current.Info() == SchedulerModel.Info(Running, 0, 1, 0)
      ensures forall i :: 0 <= i < NR_TASKS ==> waitArray[i] == -1
    {
      var init := new TaskStruct(Running, 0, 1, 0);
      task := new TaskStruct?[NR_TASKS](i => null);
      nrTasks, current, frq := 1, init, 0;
      waitArray := new int[NR_TASKS](_ => -1);
      at, structs := 0, [init];
      new;
      task[0] := init;
    }

    lemma Booted()
      requires Valid() && nrTasks == 1 && frq == 0 && current.Info() == SchedulerModel.Info(Running, 0, 1, 0)
      requires forall i :: 0 <= i < NR_TASKS ==> waitArray[i] == -1
      ensures View() == Boot()
    {
      assert structs == [current];
      assert waitArray[..] == NobodyWaits();
    }

    method PreemptDisable()
      requires Valid()
      modifies current
      ensures View() == old(View()).(tasks := Preempt(old(View()).tasks, at, 1))
    {
      current.preemptCount := current.preemptCount + 1;
    }

    method PreemptEnable()
      requires Valid()
      modifies current
      ensures View() == old(View()).(tasks := Preempt(old(View()).tasks, at, -1))
    {
      current.preemptCount := current.preemptCount - 1;
    }

    /** One pass over the table for the running task with the best counter. */
    method Best() returns (c: int, next: nat)
      requires Valid()
      ensures (c, next) == Scan(View().tasks, nrTasks)
    {
      c := -1;
      next := 0;
      for i := 0 to NR_TASKS
        invariant (c, next) == Scan(View().tasks, if i <= nrTasks then i else nrTasks)
      {
        var p := task[i];
        if p != null && p.state == Running && p.counter > c {
          c := p.counter;
          next := i;
        }
      }
    }

    method RechargeAll()
      requires Valid()
      modifies structs
      ensures View() == old(View()).(tasks := Recharge(old(View()).tasks))
    {
      hide Infos, Recharge;
      ghost var was := View().tasks;
      for i := 0 to NR_TASKS
        invariant forall j :: 0 <= j < nrTasks ==> structs[j].Info() == if j < i then Topped(was[j]) else was[j]
      {
        var p := task[i];
        if p != null {
          p.counter := p.counter / 2 + p.priority;
        }
      }
      assert View().tasks == Recharge(was);
    }

    /** Scans, and recharges and scans again only if no counter was left. */
    method Choose() returns (next: nat, ghost scans: nat)
      requires Shaped()
      modifies structs
      ensures Valid() && View() == old(View()).(tasks := Ready(old(View()).tasks))
      ensures next == Pick(old(View()).tasks) && next < nrTasks && scans <= 2
    {
      hide Infos, Scan, Recharge;
      ghost var s := View();
      ghost var tasks := s.tasks;
      ScanBounds(tasks, |tasks|);
      scans := 0;
      next := 0;
      while true
        invariant scans <= 1 && View() == s.(tasks := if scans == 0 then tasks else Recharge(tasks))
        invariant scans == 1 ==> Scan(tasks, |tasks|).0 == 0
        decreases 2 - scans
      {
        if scans == 1 {
          SecondScan(tasks);
        }
        var c;
        c, next := Best();
        scans := scans + 1;
        if c != 0 {
          break;
        }
        RechargeAll();
      }
    }

    method DoSchedule() returns (ghost scans: nat)
      requires Shaped()
      modifies this`current, this`at, structs
      ensures Valid() && View() == Reschedule(old(View())) && scans <= 2
    {
      hide Infos, Ready, Pick;
      PreemptDisable();
      var next;
      next, scans := Choose();
      SwitchTo(next);
      PreemptEnable();
    }

    method SwitchTo(next: nat)
      requires Valid() && next < nrTasks
      modifies this`current, this`at
      ensures Valid() && View() == old(View()).(current := next)
    {
      if current == task[next] {
        return;
      }
      current := task[next];
      at := next;
    }

    /** The current task gives up the processor. */
    method Schedule()
      requires Shaped()
      modifies this`current, this`at, structs
      ensures Valid() && View() == Yield(old(View()))
    {
      hide Reschedule, Infos;
      current.counter := 0;
      assert View().tasks == old(View()).tasks[at := old(View()).tasks[at].(counter := 0)];
      var _ := DoSchedule();
    }

    method TimerTick()
      requires Shaped()
      modifies this`current, this`at, structs
      ensures Valid() && View() == SchedulerModel.TimerTick(old(View()))
    {
      hide Reschedule, Infos;
      current.counter := current.counter - 1;
      assert View().tasks == old(View()).tasks[at := old(View()).tasks[at].(counter := old(current.counter) - 1)];
      if current.counter > 0 || current.preemptCount > 0 {
        return;
      }
      current.counter := 0;
      assert View().tasks == old(View()).tasks[at := old(View()).tasks[at].(counter := 0)];
      var _ := DoSchedule();
    }

    /** Counts the tick, and after each full second wakes the tasks whose time has come. */
    method UpdateWait()
      requires Shaped()
      modifies this`frq, waitArray, structs
      ensures Shaped() && View() == SchedulerModel.UpdateWait(old(View()))
    {
      hide Infos, WakeUp, Shape;
      ghost var s := View();
      ShapeKept(s);
      NoneBeyond(s);
      frq := frq + 1;
      if frq != TICKS_PER_SECOND {
        assert View() == SchedulerModel.UpdateWait(s);
        return;
      }
      frq := 0;
      SecondPasses();
      WokenUp(s.tasks, s.wait, View().tasks, View().wait);
      assert View() == SchedulerModel.UpdateWait(s);
    }

    method SecondPasses()
      requires Valid() && forall i :: nrTasks <= i < NR_TASKS ==> waitArray[i] == -1
      modifies waitArray, structs
      ensures SecondPassed(old(View()).tasks, old(View()).wait, View().tasks, View().wait)
    {
      hide Infos, WakeUp, Waited;
      ghost var was, wait := View().tasks, waitArray[..];
      for i := 0 to NR_TASKS
        invariant forall j :: 0 <= j < nrTasks ==> structs[j].Info() == if j < i && wait[j] == 1 then was[j].(state := Running) else was[j]
        invariant forall j :: 0 <= j < NR_TASKS ==> waitArray[j] == if j < i then Waited(wait[j]) else wait[j]
      {
        WaitedValue(wait[i]);
        if waitArray[i] == 1 {
          waitArray[i] := -1;
          task[i].state := Running;
        } else if waitArray[i] != -1 {
          waitArray[i] := waitArray[i] - 1;
        }
      }
    }

    /** The timer interrupt. */
    method HandleTimerIrq()
      requires Shaped()
      modifies this`frq, this`current, this`at, waitArray, structs
      ensures Valid() && View() == Tick(old(View()))
    {
      hide SchedulerModel.UpdateWait, SchedulerModel.TimerTick;
      UpdateWait();
      TimerTick();
    }

    /** The number of the current task. */
    method CurrentNumber() returns (number: int)
      requires Valid()
      ensures number == at
    {
      assert task[at] == current;
      for i := 0 to NR_TASKS
        invariant forall j :: 0 <= j < i ==> task[j] != current
      {
        if task[i] == current {
          return i;
        }
      }
      number := -1;
    }

    method ChangeState(i: nat, s: State)
      requires Valid() && i == at
      modifies current
      ensures View() == SetState(old(View()), s)
    {
      task[i].state := s;
      assert View().tasks == SetState(old(View()), s).tasks;
    }

    method ExitProcess()
      requires Shaped()
      modifies this`current, this`at, structs
      ensures Valid() && View() == Exit(old(View()))
    {
      hide Infos, Yield, SetState, Preempt;
      PreemptDisable();
      var i := CurrentNumber();
      ChangeState(i, Zombie);
      PreemptEnable();
      StateUnderLock(old(View()), Zombie);
      Schedule();
    }

    method SetWait(i: nat, second: int)
      requires Shaped() && i == at
      modifies waitArray
      ensures Shaped() && View() == old(View()).(wait := old(View()).wait[at := second])
    {
      hide Infos;
      waitArray[i] := second;
      assert waitArray[..] == old(waitArray[..])[i := second];
    }

    method SleepState(second: int)
      requires Shaped()
      modifies this`current, this`at, structs, waitArray
      ensures Valid() && View() == Sleep(old(View()), second)
    {
      hide Infos, Yield, SetState, Preempt;
      ghost var s := View();
      PreemptDisable();
      var taskId := CurrentNumber();
      KeepsState(s);
      if current.state == Wait {
        return;
      }
      ChangeState(taskId, Wait);
      PreemptEnable();
      StateUnderLock(s, Wait);
      SetWait(taskId, second);
      Schedule();
    }

    /** page says whether a page for the new task could be had. */
    method CopyProcess(page: bool) returns (pid: int)
      requires Shaped() && (page ==> nrTasks < NR_TASKS)
      modifies this`nrTasks, this`structs, task, current
      ensures Valid() && View() == Fork(old(View()), page)
      ensures pid == if page then old(nrTasks) else -1
    {
      hide Infos, Preempt;
      ghost var s := View();
      PreemptDisable();
      KeepsState(s);
      if !page {
        return -1;
      }
      pid := AddTask(current.priority);
      PreemptEnable();
      ForkUnderLock(s);
    }

    /** A new task structure in the next slot. */
    method AddTask(priority: int) returns (pid: int)
      requires Valid() && nrTasks < NR_TASKS
      modifies this`nrTasks, this`structs, task
      ensures Valid() && pid == old(nrTasks) && current == old(current)
      ensures View() == old(View()).(tasks := old(View()).tasks + [SchedulerModel.Info(Running, priority, priority, 1)])
    {
      hide Infos;
      var p := new TaskStruct(Running, priority, priority, 1);
      pid := nrTasks;
      nrTasks := nrTasks + 1;
      task[pid] := p;
      structs := structs + [p];
      assert View().tasks == old(View()).tasks + [p.Info()];
    }
  }
}
