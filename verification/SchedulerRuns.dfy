/** What holds in every run of the scheduler. */
module SchedulerRuns {
  import opened SchedulerModel

  // The invariant

  /** The scheduler picks a running task whose counter is the largest and, after at most one
      recharge, positive; and every running task had its counter used up if it recharged. */
  lemma PickSound(tasks: seq<Info>)
    requires forall i :: 0 <= i < |tasks| ==> tasks[i].priority >= 1 && tasks[i].counter >= 0
    requires exists i :: 0 <= i < |tasks| && tasks[i].state.Running?
    ensures var ready, next := Ready(tasks), Pick(tasks);
            && next < |tasks| && tasks[next].state.Running? && ready[next].counter >= 1
            && (forall i :: 0 <= i < |tasks| && tasks[i].state.Running? ==> ready[i].counter <= ready[next].counter)
            && (forall i :: 0 <= i < next && tasks[i].state.Running? ==> ready[i].counter < ready[next].counter)
            && (ready == tasks
                || (ready == Recharge(tasks) && forall i :: 0 <= i < |tasks| && tasks[i].state.Running? ==> tasks[i].counter == 0))
  {
    hide Scan, Recharge;
    ScanBounds(tasks, |tasks|);
    ScanBounds(Ready(tasks), |tasks|);
    var i :| 0 <= i < |tasks| && tasks[i].state.Running?;
    assert Ready(tasks)[i].state.Running?;
  }

  /** Without a running task the initial task is picked, whatever its state; this is the only
      way for a task that does not run to become current. */
  lemma PickOnlyRunning(tasks: seq<Info>)
    requires |tasks| > 0 && forall i :: 0 <= i < |tasks| ==> tasks[i].priority >= 1 && tasks[i].counter >= 0
    ensures Pick(tasks) < |tasks|
    ensures tasks[Pick(tasks)].state.Running? <==> exists i :: 0 <= i < |tasks| && tasks[i].state.Running?
    ensures !tasks[Pick(tasks)].state.Running? ==> Pick(tasks) == 0 && Ready(tasks) == tasks
  {
    hide Scan, Recharge;
    ScanBounds(tasks, |tasks|);
    ScanBounds(Ready(tasks), |tasks|);
    if exists i :: 0 <= i < |tasks| && tasks[i].state.Running? {
      PickSound(tasks);
    }
  }

  /** All of Inv but that the current task runs, whatever is left of its counter. */
  ghost predicate Nearly(s: Sched) {
    && Shape(s)
    && (forall i :: 0 <= i < |s.tasks| ==> s.tasks[i].preemptCount >= Normal(s, i))
    && (forall i :: 0 <= i < |s.tasks| ==> s.tasks[i].counter < 2 * s.tasks[i].priority)
    && (forall i :: 0 <= i < |s.tasks| && i != s.current ==> s.tasks[i].counter >= 0)
    && (forall i :: 0 <= i < |s.tasks| && !s.tasks[i].state.Wait? ==> s.wait[i] == -1)
    && (exists i :: 0 <= i < |s.tasks| && s.tasks[i].state.Running?)
  }

  lemma YieldKeeps(s: Sched)
    requires Nearly(s)
    ensures Inv(Yield(s)) && SameStates(s, Yield(s)) && Yield(s).wait == s.wait && Yield(s).frq == s.frq
    ensures var s' := Yield(s); s'.tasks[s'.current].counter >= 1
    ensures SameExcess(s, Yield(s))
  {
    hide Yield;
    YieldTasks(s);
  }

  /** What is left of the tasks when one has been picked. */
  ghost predicate Yielded(s: Sched, s': Sched) {
    && |s.tasks| == |s'.tasks| && SameStates(s, s')
    && (forall i :: 0 <= i < |s.tasks| ==> 0 <= s'.tasks[i].counter < 2 * s'.tasks[i].priority)
    && (forall i :: 0 <= i < |s.tasks| ==>
          s'.tasks[i].preemptCount == s.tasks[i].preemptCount + Normal(s', i) - Normal(s, i))
  }

  lemma YieldTasks(s: Sched)
    requires Nearly(s)
    ensures var s' := Yield(s);
            && s'.current < |s'.tasks| == |s.tasks| && s'.wait == s.wait && s'.frq == s.frq
            && s'.tasks[s'.current].state.Running? && s'.tasks[s'.current].counter >= 1
            && Yielded(s, s')
  {
    hide Pick, Ready, Scan, Recharge;
    var used := s.tasks[s.current := s.tasks[s.current].(counter := 0)];
    var tasks := Preempt(used, s.current, 1);
    var i :| 0 <= i < |s.tasks| && s.tasks[i].state.Running?;
    assert tasks[i].state.Running?;
    PickSound(tasks);
    ReadyKeeps(tasks);
    var s' := Yield(s);
    assert s' == s.(tasks := Preempt(Ready(tasks), Pick(tasks), -1), current := Pick(tasks));
    forall j | 0 <= j < |s.tasks|
      ensures s'.tasks[j] == s.tasks[j].(counter := Ready(tasks)[j].counter,
                                         preemptCount := s.tasks[j].preemptCount + Normal(s', j) - Normal(s, j))
    {
      assert Ready(tasks)[j] == tasks[j].(counter := Ready(tasks)[j].counter);
    }
  }

  /** By how much task i's preempt_count exceeds its normal value. */
  function Excess(s: Sched, i: nat): int
    requires i < |s.tasks|
  {
    s.tasks[i].preemptCount - Normal(s, i)
  }

  ghost predicate SameExcess(s: Sched, s': Sched) {
    |s'.tasks| == |s.tasks| && forall i: nat :: i < |s.tasks| ==> Excess(s', i) == Excess(s, i)
  }

  /** Picking changes counters only, and keeps them below twice the priority. */
  lemma ReadyKeeps(tasks: seq<Info>)
    requires forall i :: 0 <= i < |tasks| ==> 0 <= tasks[i].counter < 2 * tasks[i].priority
    ensures forall i :: 0 <= i < |tasks| ==> Ready(tasks)[i] == tasks[i].(counter := Ready(tasks)[i].counter)
                                             && 0 <= Ready(tasks)[i].counter < 2 * tasks[i].priority
  {
    hide Scan, Recharge;
  }

  ghost predicate SameStates(s: Sched, s': Sched) {
    && |s'.tasks| == |s.tasks|
    && forall i :: 0 <= i < |s.tasks| ==>
         s'.tasks[i].state == s.tasks[i].state && s'.tasks[i].priority == s.tasks[i].priority
  }

  lemma WaitKeeps(s: Sched)
    requires Inv(s)
    ensures Inv(UpdateWait(s)) && UpdateWait(s).current == s.current
    ensures Wakeful(s) ==> Wakeful(UpdateWait(s))
    ensures SameExcess(s, UpdateWait(s))
  {
    hide WakeUp, UpdateWait;
    WaitEach(s);
  }

  /** What a tick does to the sleeping tasks, one by one. */
  lemma WaitEach(s: Sched)
    requires |s.tasks| <= |s.wait|
    ensures var u := UpdateWait(s);
            && u.current == s.current && |u.tasks| == |s.tasks| && |u.wait| == |s.wait|
            && (s.frq < TICKS_PER_SECOND ==> u.frq < TICKS_PER_SECOND)
            && (forall i :: 0 <= i < |s.tasks| ==> u.tasks[i] == s.tasks[i] || u.tasks[i] == s.tasks[i].(state := Running))
            && (forall i :: 0 <= i < |s.tasks| && u.wait[i] == s.wait[i] ==> u.tasks[i] == s.tasks[i])
            && (forall i :: 0 <= i < |s.wait| && u.wait[i] != s.wait[i] ==>
                  u.wait[i] == Waited(s.wait[i]) && (i < |s.tasks| && s.wait[i] == 1 ==> u.tasks[i].state.Running?))
            && (forall i :: 0 <= i < |s.tasks| && s.wait[i] != 1 ==> u.tasks[i] == s.tasks[i])
  {
    hide WakeUp;
  }

  lemma TickKeeps(s: Sched)
    requires Inv(s)
    ensures Inv(Tick(s)) && (Wakeful(s) ==> Wakeful(Tick(s))) && SameExcess(s, Tick(s))
  {
    hide Yield, UpdateWait;
    WaitKeeps(s);
    var u := UpdateWait(s);
    assert u.tasks[u.current].state.Running?;
    YieldKeeps(u);
  }

  lemma ExitKeeps(s: Sched)
    requires Inv(s) && OtherRuns(s)
    ensures Inv(Exit(s)) && (Wakeful(s) ==> Wakeful(Exit(s))) && SameExcess(s, Exit(s))
  {
    hide Yield;
    var i :| 0 <= i < |s.tasks| && i != s.current && s.tasks[i].state.Running?;
    var z := SetState(s, Zombie);
    assert z.tasks[i].state.Running?;
    YieldKeeps(z);
  }

  lemma SleepKeeps(s: Sched, n: int)
    requires Inv(s) && OtherRuns(s)
    ensures Inv(Sleep(s, n)) && (Wakeful(s) && n >= 1 ==> Wakeful(Sleep(s, n)))
    ensures SameButState(s, Sleep(s, n), s.current, Wait) && Sleep(s, n).wait == s.wait[s.current := n]
    ensures Sleep(s, n).frq == s.frq && SameExcess(s, Sleep(s, n))
  {
    hide Yield;
    var i :| 0 <= i < |s.tasks| && i != s.current && s.tasks[i].state.Running?;
    var z := SetState(s, Wait).(wait := s.wait[s.current := n]);
    assert z.tasks[i].state.Running?;
    YieldKeeps(z);
  }

  ghost predicate SameButState(s: Sched, s': Sched, t: nat, state: State) {
    && |s'.tasks| == |s.tasks|
    && forall i :: 0 <= i < |s.tasks| ==> s'.tasks[i].state == if i == t then state else s.tasks[i].state
  }

  /** A failed fork is the one event that leaves preempt_count further from normal: by one, that of
      the task that forks. */
  ghost predicate ExcessAfter(s: Sched, e: Event)
    requires s.current < |s.tasks| <= |s.wait|
  {
    var s' := Step(s, e);
    && |s.tasks| <= |s'.tasks|
    && (forall i: nat :: i < |s.tasks| ==> Excess(s', i) == Excess(s, i) + Failed(s, e, i))
    && (forall i: nat :: |s.tasks| <= i < |s'.tasks| ==> Excess(s', i) == 0)
  }

  /** Event e is a fork of task i's that finds no page. */
  function Failed(s: Sched, e: Event, i: nat): int {
    if e == ForkEvent(false) && i == s.current then 1 else 0
  }

  /** Every step allowed in a good state leads to a good state; waiting tasks stay bound to wake
      unless one asks to sleep for no time; and only a failed fork leaves preemption disabled. */
  lemma StepKeeps(s: Sched, e: Event)
    requires Inv(s) && Allowed(s, e)
    ensures Inv(Step(s, e))
    ensures Wakeful(s) && (e.SleepEvent? ==> e.seconds >= 1) ==> Wakeful(Step(s, e))
    ensures ExcessAfter(s, e)
  {
    hide Yield, Tick, Exit, Sleep, Inv, Wakeful, SameExcess, ExcessAfter;
    CurrentRuns(s);
    match e
    case TickEvent =>
      TickKeeps(s);
      NothingFailed(s, e);
    case YieldEvent =>
      YieldKeeps(s);
      WakefulKept(s, Yield(s));
      NothingFailed(s, e);
    case ForkEvent(page) =>
      ForkKeeps(s, page);
    case ExitEvent =>
      ExitKeeps(s);
      NothingFailed(s, e);
    case SleepEvent(n) =>
      SleepKeeps(s, n);
      NothingFailed(s, e);
  }

  lemma CurrentRuns(s: Sched)
    requires Inv(s)
    ensures s.current < |s.tasks| <= |s.wait| && Nearly(s)
  {
    assert s.tasks[s.current].state.Running?;
  }

  lemma WakefulKept(s: Sched, s': Sched)
    requires |s.tasks| <= |s.wait| && SameStates(s, s') && s'.wait == s.wait
    ensures Wakeful(s) ==> Wakeful(s')
  {}

  lemma NothingFailed(s: Sched, e: Event)
    requires s.current < |s.tasks| <= |s.wait| && SameExcess(s, Step(s, e)) && !e.ForkEvent?
    ensures ExcessAfter(s, e)
  {
    hide Step;
  }

  lemma ForkKeeps(s: Sched, page: bool)
    requires Inv(s) && (page ==> |s.tasks| < NR_TASKS)
    ensures s.current < |s.tasks| <= |s.wait| && Inv(Fork(s, page)) && ExcessAfter(s, ForkEvent(page))
    ensures Wakeful(s) ==> Wakeful(Fork(s, page))
  {
    hide Fork, ExcessAfter, Wakeful;
    if page {
      ForkedKeeps(s);
    } else {
      FailedForkKeeps(s);
    }
  }

  lemma ForkedKeeps(s: Sched)
    requires Inv(s) && |s.tasks| < NR_TASKS
    ensures Inv(Fork(s, true)) && ExcessAfter(s, ForkEvent(true)) && (Wakeful(s) ==> Wakeful(Fork(s, true)))
  {
    var s' := Fork(s, true);
    assert forall i :: 0 <= i < |s.tasks| ==> s'.tasks[i] == s.tasks[i];
  }

  lemma FailedForkKeeps(s: Sched)
    requires Inv(s)
    ensures Inv(Fork(s, false)) && ExcessAfter(s, ForkEvent(false)) && (Wakeful(s) ==> Wakeful(Fork(s, false)))
  {}

  ghost predicate SleepsProperly(events: seq<Event>) {
    forall j :: 0 <= j < |events| && events[j].SleepEvent? ==> events[j].seconds >= 1
  }

  /** Every state of every run satisfies the invariant. */
  lemma {:induction false} RunKeeps(states: seq<Sched>, events: seq<Event>, k: nat)
    requires Trace(states, events) && k < |states|
    ensures Inv(states[k])
    ensures Wakeful(states[0]) && SleepsProperly(events[..k]) ==> Wakeful(states[k])
  {
    hide Inv, Wakeful, Follows;
    if k > 0 {
      var j := k - 1;
      RunKeeps(states, events, j);
      assert Follows(states[j], events[j], states[j + 1]);
      FollowKeeps(states[j], events[j], states[k]);
      if SleepsProperly(events[..k]) {
        assert events[..k][j] == events[j];
        assert events[..j] == events[..k][..j];
      }
    }
  }

  lemma FollowKeeps(s: Sched, e: Event, s': Sched)
    requires Inv(s) && Follows(s, e, s')
    ensures s.current < |s.tasks| <= |s.wait| && Allowed(s, e) && s' == Step(s, e) && Inv(s') && ExcessAfter(s, e)
    ensures Wakeful(s) && (e.SleepEvent? ==> e.seconds >= 1) ==> Wakeful(s')
  {
    hide Step, Wakeful, ExcessAfter;
    StepKeeps(s, e);
  }

  lemma BootInv()
    ensures Inv(Boot()) && Wakeful(Boot()) && Calm(Boot())
  {}

  // What a failed fork leaves behind

  /** How many of the first k events are forks of task t's that find no page. */
  function FailedForks(states: seq<Sched>, events: seq<Event>, t: nat, k: nat): (n: nat)
    requires k <= |events| < |states|
  {
    if k == 0 then 0 else FailedForks(states, events, t, k - 1) + Failed(states[k - 1], events[k - 1], t)
  }

  /** In every run each task's preempt_count is above its normal value by what it was at the start,
      and by the task's failed forks since. */
  lemma {:induction false} FailedForksAddUp(states: seq<Sched>, events: seq<Event>, t: nat, k: nat)
    requires Trace(states, events) && k < |states|
    ensures |states[0].tasks| <= |states[k].tasks|
    ensures t < |states[k].tasks| ==>
              Excess(states[k], t) == (if t < |states[0].tasks| then Excess(states[0], t) else 0) + FailedForks(states, events, t, k)
    ensures t >= |states[k].tasks| ==> FailedForks(states, events, t, k) == 0
  {
    hide Inv, Step, Excess, Wakeful;
    if k > 0 {
      var j := k - 1;
      FailedForksAddUp(states, events, t, j);
      RunKeeps(states, events, j);
      assert Follows(states[j], events[j], states[j + 1]);
      FollowKeeps(states[j], events[j], states[k]);
    }
  }

  /** A tick does not take the processor from a task that has ever had a fork fail. */
  lemma FailedForkNeverPreempted(states: seq<Sched>, events: seq<Event>, t: nat, k: nat)
    requires Trace(states, events) && k < |events| && events[k].TickEvent?
    requires states[k].current == t && FailedForks(states, events, t, k) > 0
    ensures states[k + 1].current == t && FailedForks(states, events, t, k + 1) > 0
  {
    hide Wakeful, Yield, WakeUp;
    RunKeeps(states, events, k);
    FailedForksAddUp(states, events, t, k);
    assert Follows(states[k], events[k], states[k + 1]);
    WaitKeeps(states[k]);
    var u := UpdateWait(states[k]);
    assert Excess(u, t) == Excess(states[k], t) > 0;
  }

  /** So it keeps the processor for as long as it does not give it up, whatever the other tasks'
      counters are. */
  lemma {:induction false} KeepsProcessor(states: seq<Sched>, events: seq<Event>, t: nat, j: nat, k: nat)
    requires Trace(states, events) && j <= k < |states|
    requires states[j].current == t && FailedForks(states, events, t, j) > 0
    requires forall i :: j <= i < k ==> events[i].TickEvent? || events[i].ForkEvent?
    ensures states[k].current == t && FailedForks(states, events, t, k) > 0
  {
    hide Wakeful, Inv, Tick;
    if j < k {
      KeepsProcessor(states, events, t, j, k - 1);
      if events[k - 1].TickEvent? {
        FailedForkNeverPreempted(states, events, t, k - 1);
      } else {
        RunKeeps(states, events, k - 1);
        assert Follows(states[k - 1], events[k - 1], states[k]);
        FollowKeeps(states[k - 1], events[k - 1], states[k]);
      }
    }
  }
}
