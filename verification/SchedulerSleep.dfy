/** How long a sleeping task sleeps. */
module SchedulerSleep {
  import opened SchedulerModel
  import opened SchedulerRuns

  function TicksIn(events: seq<Event>): nat {
    if events == [] then 0
    else TicksIn(events[..|events| - 1]) + if events[|events| - 1].TickEvent? then 1 else 0
  }

  /** Task t waits and has w seconds on its counter. */
  ghost predicate Waiting(s: Sched, t: nat, w: int) {
    t < |s.tasks| <= |s.wait| && s.tasks[t].state.Wait? && s.wait[t] == w
  }

  /** Nothing another task does concerns a waiting one. */
  lemma OthersLetSleep(s: Sched, e: Event, t: nat, w: int)
    requires Inv(s) && Allowed(s, e) && Waiting(s, t, w) && !e.TickEvent?
    ensures Waiting(Step(s, e), t, w) && Step(s, e).frq == s.frq
  {
    hide Yield;
    match e
    case YieldEvent =>
      assert s.tasks[s.current].state.Running?;
      YieldKeeps(s);
    case ForkEvent(_) =>
    case ExitEvent =>
      var i :| 0 <= i < |s.tasks| && i != s.current && s.tasks[i].state.Running?;
      var z := SetState(s, Zombie);
      assert z.tasks[i].state.Running?;
      YieldKeeps(z);
    case SleepEvent(n) =>
      SleepKeeps(s, n);
  }

  /** A tick counts, and every tenth one takes a second off; the last second wakes the task. */
  lemma TickLetsSleep(s: Sched, t: nat, w: int)
    requires Inv(s) && Waiting(s, t, w)
    ensures Tick(s).frq == (s.frq + 1) % TICKS_PER_SECOND
    ensures s.frq + 1 < TICKS_PER_SECOND ==> Waiting(Tick(s), t, w)
    ensures s.frq + 1 == TICKS_PER_SECOND && w != 1 ==> Waiting(Tick(s), t, Waited(w))
    ensures s.frq + 1 == TICKS_PER_SECOND && w == 1 ==> t < |Tick(s).tasks| && Tick(s).tasks[t].state.Running?
  {
    hide Yield, Wakeful, SameExcess;
    var u := UpdateWait(s);
    WaitKeeps(s);
    assert u.tasks[u.current].state.Running?;
    YieldKeeps(u);
  }

  /** After so many ticks, counted from the start of a second, a task with w seconds to wait has
      the rest of them on its counter; with w < 1 it has none and waits on. */
  ghost predicate Asleep(s: Sched, t: nat, w: int, passed: nat) {
    && s.frq == passed % 10
    && if w >= 1 then Waiting(s, t, w - passed / 10)
       else t < |s.tasks| <= |s.wait| && Waiting(s, t, s.wait[t]) && s.wait[t] <= 0
  }

  lemma TickAsleep(s: Sched, t: nat, w: int, passed: nat)
    requires Inv(s) && Asleep(s, t, w, passed) && (w <= 0 || passed + 1 < 10 * w)
    ensures Asleep(Tick(s), t, w, passed + 1)
  {
    hide Inv, Tick;
    TickLetsSleep(s, t, s.wait[t]);
  }

  lemma OthersAsleep(s: Sched, e: Event, t: nat, w: int, passed: nat)
    requires Inv(s) && Allowed(s, e) && Asleep(s, t, w, passed) && !e.TickEvent?
    ensures Asleep(Step(s, e), t, w, passed)
  {
    hide Inv, Step, Allowed;
    OthersLetSleep(s, e, t, s.wait[t]);
  }

  /** As long as the ticks do not fill w seconds, counted from the start of the current one, a
      task with w seconds to wait is asleep; with w < 1 it is asleep for good. */
  lemma {:induction false} StaysAsleep(states: seq<Sched>, events: seq<Event>, t: nat, w: int, k: nat)
    requires Trace(states, events) && k < |states| && Waiting(states[0], t, w)
    requires w <= 0 || TicksIn(events[..k]) < 10 * w - states[0].frq
    ensures Asleep(states[k], t, w, states[0].frq + TicksIn(events[..k]))
  {
    hide Step, Inv, Tick, Wakeful, ExcessAfter, Allowed, Follows;
    RunKeeps(states, events, 0);
    FrqBound(states[0]);
    if k > 0 {
      hide Asleep, Waiting;
      var j := k - 1;
      assert events[..k][..j] == events[..j];
      StaysAsleep(states, events, t, w, j);
      RunKeeps(states, events, j);
      assert Follows(states[j], events[j], states[j + 1]);
      FollowKeeps(states[j], events[j], states[k]);
      var passed := states[0].frq + TicksIn(events[..j]);
      if events[j].TickEvent? {
        TickAsleep(states[j], t, w, passed);
        TickStep(states[j]);
      } else {
        OthersAsleep(states[j], events[j], t, w, passed);
      }
    } else {
      assert events[..k] == [];
    }
  }

  lemma FrqBound(s: Sched)
    requires Inv(s)
    ensures s.frq < 10
  {}

  lemma TickStep(s: Sched)
    requires s.current < |s.tasks| <= |s.wait|
    ensures Step(s, TickEvent) == Tick(s)
  {}

  /** A task that asks to sleep for n seconds stays asleep until 10 n ticks have passed since the
      last full second, and wakes with that very tick; with n < 1 it never wakes. */
  lemma SleepsExactly(s: Sched, n: int, states: seq<Sched>, events: seq<Event>, k: nat)
    requires Inv(s) && OtherRuns(s) && Trace(states, events) && states[0] == Sleep(s, n) && k < |states|
    ensures 10 * n - 9 <= 10 * n - s.frq <= 10 * n && s.current < |states[k].tasks|
    ensures n <= 0 || TicksIn(events[..k]) < 10 * n - s.frq ==> states[k].tasks[s.current].state.Wait?
    ensures n >= 1 && k > 0 && events[k - 1].TickEvent? && TicksIn(events[..k]) == 10 * n - s.frq ==>
              states[k].tasks[s.current].state.Running?
  {
    hide Inv, Tick, Wakeful, ExcessAfter, SameExcess, Sleep, SameButState;
    SleepKeeps(s, n);
    var t := s.current;
    assert Waiting(states[0], t, n) by { SleepWaits(s, n); }
    FrqBound(s);
    TasksStay(states, events, k);
    if n <= 0 || TicksIn(events[..k]) < 10 * n - s.frq {
      StaysAsleep(states, events, t, n, k);
    } else if k > 0 && events[k - 1].TickEvent? && TicksIn(events[..k]) == 10 * n - s.frq {
      var j := k - 1;
      assert events[..k][..j] == events[..j];
      StaysAsleep(states, events, t, n, j);
      RunKeeps(states, events, j);
      assert Follows(states[j], events[j], states[j + 1]);
      FollowKeeps(states[j], events[j], states[k]);
      TickLetsSleep(states[j], t, states[j].wait[t]);
      TickStep(states[j]);
    }
  }

  lemma SleepWaits(s: Sched, n: int)
    requires Inv(s) && OtherRuns(s)
    ensures Waiting(Sleep(s, n), s.current, n)
  {
    hide Sleep;
    SleepKeeps(s, n);
  }

  /** No task number is ever taken back. */
  lemma {:induction false} TasksStay(states: seq<Sched>, events: seq<Event>, k: nat)
    requires Trace(states, events) && k < |states|
    ensures |states[0].tasks| <= |states[k].tasks|
  {
    if k > 0 {
      TasksStay(states, events, k - 1);
      RunKeeps(states, events, k - 1);
      assert Follows(states[k - 1], events[k - 1], states[k]);
    }
  }
}
